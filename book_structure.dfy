/**
 * The records `AcademicBookMapper` collects, and the scan that collects
 * them, as functions on values: one line at a time, one page at a time,
 * then the book map with its counts. The class in BookMapper is proved
 * against these functions; the lemmas here state what the scan promises.
 */
module BookStructure {
  import opened Wrappers
  import opened Text
  import opened Matching
  import opened Headings
  import opened Annotations

  datatype SectionRecord = SectionRecord(number: string, title: string, page: nat, level: int)
  datatype ChapterRecord = ChapterRecord(number: string, title: string, page: nat, sections: seq<SectionRecord>)
  datatype CaptionRecord = CaptionRecord(number: string, caption: string, page: nat)
  datatype EquationRecord = EquationRecord(number: string, page: nat)
  datatype ReferenceRecord = ReferenceRecord(title: string, page: nat)
  datatype AppendixRecord = AppendixRecord(letter: char, title: string, page: nat)

  /** The lists of `self.structure` that the scan fills (the unused `toc` list is not modelled). */
  datatype Structure = Structure(
    chapters: seq<ChapterRecord>,
    sections: seq<SectionRecord>,
    figures: seq<CaptionRecord>,
    tables: seq<CaptionRecord>,
    equations: seq<EquationRecord>,
    references: seq<ReferenceRecord>,
    appendices: seq<AppendixRecord>)

  const EmptyStructure := Structure([], [], [], [], [], [], [])

  datatype Summary = Summary(totalChapters: nat, totalFigures: nat, totalTables: nat, totalEquations: nat)

  /** The lists the book map shows: every list of the structure but the global section list. */
  datatype MapStructure = MapStructure(
    chapters: seq<ChapterRecord>,
    figures: seq<CaptionRecord>,
    tables: seq<CaptionRecord>,
    equations: seq<EquationRecord>,
    references: seq<ReferenceRecord>,
    appendices: seq<AppendixRecord>)

  datatype BookMap = BookMap(summary: Summary, structure: MapStructure)

  /* ------------------------------------------------------------ line pass */

  /** The last chapter with one more section; no chapter at all stays no chapter. */
  function AddSection(chapters: seq<ChapterRecord>, s: SectionRecord): seq<ChapterRecord> {
    if chapters == [] then []
    else
      var last := chapters[|chapters| - 1];
      chapters[..|chapters| - 1] + [last.(sections := last.sections + [s])]
  }

  /** What one classified line adds to the structure. */
  function ApplyHeading(st: Structure, h: Heading, page: nat): Structure {
    match h
    case ChapterHeading(number, title) =>
      st.(chapters := st.chapters + [ChapterRecord(number, title, page, [])])
    case SectionHeading(number, title) =>
      var s := SectionRecord(number, title, page, SectionLevel(number));
      st.(chapters := AddSection(st.chapters, s), sections := st.sections + [s])
    case ReferenceHeading(title) =>
      st.(references := st.references + [ReferenceRecord(title, page)])
    case AppendixHeading(letter, title) =>
      st.(appendices := st.appendices + [AppendixRecord(letter, title, page)])
    case Plain => st
  }

  /** One iteration of the line loop of `_analyze_page_structure`. */
  function ApplyLine(st: Structure, line: string, page: nat): Structure {
    ApplyHeading(st, ClassifyLine(line), page)
  }

  /** The lines, in order, applied to the structure. */
  function ScanLines(st: Structure, lines: seq<string>, page: nat): Structure
    decreases |lines|
  {
    if lines == [] then st
    else ApplyLine(ScanLines(st, lines[..|lines| - 1], page), lines[|lines| - 1], page)
  }

  /** `_analyze_page_structure`: the page text split at every '\n', each line applied in turn. */
  function AnalyzePageStructure(st: Structure, text: string, page: nat): Structure {
    ScanLines(st, Split(text, '\n'), page)
  }

  /* ------------------------------------------------------------ page pass */

  function CaptionRecords(ms: seq<Found<CaptionMatch>>, page: nat): (r: seq<CaptionRecord>)
    ensures |r| == |ms|
  {
    seq(|ms|, k requires 0 <= k < |ms| => CaptionRecord(ms[k].value.number, ms[k].value.caption, page))
  }

  function EquationRecords(ms: seq<Found<string>>, page: nat): (r: seq<EquationRecord>)
    ensures |r| == |ms|
  {
    seq(|ms|, k requires 0 <= k < |ms| => EquationRecord(ms[k].value, page))
  }

  /** `_detect_figures_tables`: every figure, table and equation match of the page, in text order. */
  function DetectFiguresTables(st: Structure, text: string, page: nat): Structure {
    st.(figures := st.figures + CaptionRecords(Figures(text), page),
        tables := st.tables + CaptionRecords(Tables(text), page),
        equations := st.equations + EquationRecords(Equations(text), page))
  }

  /** One iteration of the page loop of `analyze`: a page without text (None or empty) is skipped. */
  function ScanPage(st: Structure, text: Option<string>, page: nat): Structure {
    if text.Some? && text.value != [] then
      DetectFiguresTables(AnalyzePageStructure(st, text.value, page), text.value, page)
    else st
  }

  /** The pages in order, numbered from 1. */
  function AnalyzePages(st: Structure, pages: seq<Option<string>>): Structure
    decreases |pages|
  {
    if pages == [] then st
    else ScanPage(AnalyzePages(st, pages[..|pages| - 1]), pages[|pages| - 1], |pages|)
  }

  /** One more line is one more application of the line rules. */
  lemma ScanLinesStep(st: Structure, lines: seq<string>, i: nat, page: nat)
    requires i < |lines|
    ensures ScanLines(st, lines[..i + 1], page) == ApplyLine(ScanLines(st, lines[..i], page), lines[i], page)
  {
    assert lines[..i + 1][..i] == lines[..i];
  }

  /** One more page is one more page step, numbered by its position from 1. */
  lemma AnalyzePagesStep(st: Structure, pages: seq<Option<string>>, i: nat)
    requires i < |pages|
    ensures AnalyzePages(st, pages[..i + 1]) == ScanPage(AnalyzePages(st, pages[..i]), pages[i], i + 1)
  {
    assert pages[..i + 1][..i] == pages[..i];
  }

  /**
   * `_generate_book_map`: the four counts and the lists. The projection
   * main.py writes out copies every field of every chapter and section;
   * the global section list is not part of the map, so sections appear
   * only inside their chapters.
   */
  function BookMapOf(st: Structure): (m: BookMap)
    ensures m.summary.totalChapters == |st.chapters| && m.summary.totalFigures == |st.figures|
    ensures m.summary.totalTables == |st.tables| && m.summary.totalEquations == |st.equations|
    ensures m.structure.chapters == st.chapters && m.structure.figures == st.figures
    ensures m.structure.tables == st.tables && m.structure.equations == st.equations
    ensures m.structure.references == st.references && m.structure.appendices == st.appendices
  {
    BookMap(Summary(|st.chapters|, |st.figures|, |st.tables|, |st.equations|),
            MapStructure(st.chapters, st.figures, st.tables, st.equations, st.references, st.appendices))
  }

  /* ------------------------------------------------------- one line's effect */

  /**
   * A line of chapter shape appends one chapter with that number, the
   * stripped title, the page and no sections, and nothing else changes:
   * the other rules are not tried.
   */
  lemma ChapterLineAppends(st: Structure, line: string, page: nat, a: nat, b: nat)
    requires NoNewline(line) && ChapterShape(line, a, b)
    ensures ApplyLine(st, line, page)
            == st.(chapters := st.chapters + [ChapterRecord(line[a..b], Strip(line[b + 1..]), page, [])])
  {
    ChapterShapeMatches(line, a, b);
  }

  /**
   * A line of section shape appends its section, of level 1, to the global
   * list and, when a chapter has been seen, to the last chapter, whose
   * number, title and page stay; the other chapters do not change, and with
   * no chapter yet no chapter appears.
   */
  lemma SectionLineAppends(st: Structure, line: string, page: nat, d: nat, e: nat)
    requires NoNewline(line) && SectionShape(line, d, e)
    ensures var s := SectionRecord(line[..e], Strip(line[e + 1..]), page, 1);
            var r := ApplyLine(st, line, page);
            && r.sections == st.sections + [s]
            && |r.chapters| == |st.chapters|
            && (st.chapters != [] ==>
                  && r.chapters[..|r.chapters| - 1] == st.chapters[..|st.chapters| - 1]
                  && r.chapters[|r.chapters| - 1]
                     == st.chapters[|st.chapters| - 1].(sections := st.chapters[|st.chapters| - 1].sections + [s]))
            && r.(chapters := st.chapters, sections := st.sections) == st
  {
    SectionShapeMatches(line, d, e);
    SectionLevelIsOne(line);
    HeadingRulesExclusive(line);
  }

  /**
   * A line adds a reference exactly when the whole line, lower-cased, is
   * `references` or `bibliography`; the record's title is the line.
   */
  lemma ReferenceLineAppends(st: Structure, line: string, page: nat)
    requires NoNewline(line)
    ensures (LowerAll(line) == "references" || LowerAll(line) == "bibliography") ==>
              ApplyLine(st, line, page) == st.(references := st.references + [ReferenceRecord(line, page)])
    ensures |ApplyLine(st, line, page).references| > |st.references| ==>
              LowerAll(line) == "references" || LowerAll(line) == "bibliography"
  {
    ReferenceLineExact(line);
    HeadingRulesExclusive(line);
  }

  /** A line of appendix shape appends one appendix with that capital letter and the stripped title. */
  lemma AppendixLineAppends(st: Structure, line: string, page: nat, a: nat)
    requires NoNewline(line) && AppendixShape(line, a)
    ensures IsUpper(line[a])
    ensures ApplyLine(st, line, page)
            == st.(appendices := st.appendices + [AppendixRecord(line[a], Strip(line[a + 2..]), page)])
  {
    AppendixShapeMatches(line, a);
    HeadingRulesExclusive(line);
  }

  /** How many records the line pass has produced (a section counts once). */
  function LineRecords(st: Structure): nat {
    |st.chapters| + |st.sections| + |st.references| + |st.appendices|
  }

  /** Each line yields at most one record, and a line no rule matches changes nothing. */
  lemma LineAtMostOneRecord(st: Structure, line: string, page: nat)
    ensures LineRecords(st) <= LineRecords(ApplyLine(st, line, page)) <= LineRecords(st) + 1
    ensures ApplyLine(st, line, page) == st <==> ClassifyLine(line).Plain?
  {
  }

  /* ------------------------------------------------------------ invariants */

  /** The sections of the chapters, chapter after chapter. */
  function ChapterSections(chapters: seq<ChapterRecord>): seq<SectionRecord>
    decreases |chapters|
  {
    if chapters == [] then []
    else ChapterSections(chapters[..|chapters| - 1]) + chapters[|chapters| - 1].sections
  }

  /**
   * The global section list ends with the sections of the chapters, in
   * chapter order; what comes before them are the sections seen before
   * the first chapter.
   */
  predicate SectionsFiled(st: Structure) {
    && |ChapterSections(st.chapters)| <= |st.sections|
    && st.sections[|st.sections| - |ChapterSections(st.chapters)|..] == ChapterSections(st.chapters)
  }

  predicate LevelsOne(st: Structure) {
    forall s :: s in st.sections ==> s.level == 1
  }

  /** Appendix letters are capitals; reference titles are the two words, in any case. */
  predicate HeadingsWellFormed(st: Structure) {
    && (forall a :: a in st.appendices ==> IsUpper(a.letter))
    && (forall r :: r in st.references ==> LowerAll(r.title) == "references" || LowerAll(r.title) == "bibliography")
  }

  /** Figure and table numbers are decimal numbers with one-line captions; equation numbers are decimal. */
  predicate AnnotationsWellFormed(st: Structure) {
    && (forall f :: f in st.figures ==> IsDecimalNumber(f.number) && IsLineCaption(f.caption))
    && (forall t :: t in st.tables ==> IsDecimalNumber(t.number) && IsLineCaption(t.caption))
    && (forall e :: e in st.equations ==> IsDecimalNumber(e.number))
  }

  /** Records ordered by page, every page between 1 and `hi`. */
  predicate Ordered<T>(xs: seq<T>, page: T -> nat, hi: nat) {
    && (forall i, j :: 0 <= i < j < |xs| ==> page(xs[i]) <= page(xs[j]))
    && (forall i :: 0 <= i < |xs| ==> 1 <= page(xs[i]) <= hi)
  }

  function ChapterPage(c: ChapterRecord): nat { c.page }
  function SectionPage(s: SectionRecord): nat { s.page }
  function CaptionPage(c: CaptionRecord): nat { c.page }
  function EquationPage(e: EquationRecord): nat { e.page }
  function ReferencePage(r: ReferenceRecord): nat { r.page }
  function AppendixPage(a: AppendixRecord): nat { a.page }

  /** Every list of the structure is ordered by page, with pages from 1 to `hi`. */
  predicate PagesOrdered(st: Structure, hi: nat) {
    && Ordered(st.chapters, ChapterPage, hi)
    && Ordered(st.sections, SectionPage, hi)
    && Ordered(st.figures, CaptionPage, hi)
    && Ordered(st.tables, CaptionPage, hi)
    && Ordered(st.equations, EquationPage, hi)
    && Ordered(st.references, ReferencePage, hi)
    && Ordered(st.appendices, AppendixPage, hi)
  }

  /** What the scan keeps true after the pages up to `hi`. */
  predicate WellFormed(st: Structure, hi: nat) {
    SectionsFiled(st) && LevelsOne(st) && HeadingsWellFormed(st) && AnnotationsWellFormed(st) && PagesOrdered(st, hi)
  }

  /**
   * What a book map of a scanned book shows: the counts are the lengths of
   * its lists, every list is ordered by page with pages from 1 to `hi`,
   * every section filed under a chapter has level 1, and the appendix,
   * reference and number fields are well formed.
   */
  predicate MapWellFormed(m: BookMap, hi: nat) {
    var ms := m.structure;
    && m.summary == Summary(|ms.chapters|, |ms.figures|, |ms.tables|, |ms.equations|)
    && Ordered(ms.chapters, ChapterPage, hi)
    && Ordered(ms.figures, CaptionPage, hi)
    && Ordered(ms.tables, CaptionPage, hi)
    && Ordered(ms.equations, EquationPage, hi)
    && Ordered(ms.references, ReferencePage, hi)
    && Ordered(ms.appendices, AppendixPage, hi)
    && (forall c, s :: c in ms.chapters && s in c.sections ==> s.level == 1)
    && (forall a :: a in ms.appendices ==> IsUpper(a.letter))
    && (forall r :: r in ms.references ==> LowerAll(r.title) == "references" || LowerAll(r.title) == "bibliography")
    && (forall f :: f in ms.figures ==> IsDecimalNumber(f.number) && IsLineCaption(f.caption))
    && (forall t :: t in ms.tables ==> IsDecimalNumber(t.number) && IsLineCaption(t.caption))
    && (forall e :: e in ms.equations ==> IsDecimalNumber(e.number))
  }

  /* ---------------------------------------------------- invariant lemmas */

  lemma OrderedAppend<T>(xs: seq<T>, ys: seq<T>, page: T -> nat, hi: nat)
    requires Ordered(xs, page, hi) && 1 <= hi
    requires forall k :: 0 <= k < |ys| ==> page(ys[k]) == hi
    ensures Ordered(xs + ys, page, hi)
  {
    var zs := xs + ys;
    forall i, j | 0 <= i < j < |zs| ensures page(zs[i]) <= page(zs[j]) {
      if j >= |xs| {
        assert zs[j] == ys[j - |xs|];
        if i >= |xs| {
          assert zs[i] == ys[i - |xs|];
        }
      }
    }
    forall i | 0 <= i < |zs| ensures 1 <= page(zs[i]) <= hi {
      if i >= |xs| {
        assert zs[i] == ys[i - |xs|];
      }
    }
  }

  lemma OrderedWiden<T>(xs: seq<T>, page: T -> nat, hi: nat, hi': nat)
    requires Ordered(xs, page, hi) && hi <= hi'
    ensures Ordered(xs, page, hi')
  {
  }

  lemma {:induction false} ChapterSectionsAddSection(chapters: seq<ChapterRecord>, s: SectionRecord)
    requires chapters != []
    ensures ChapterSections(AddSection(chapters, s)) == ChapterSections(chapters) + [s]
  {
    var r := AddSection(chapters, s);
    assert r[..|r| - 1] == chapters[..|chapters| - 1];
  }

  lemma ChapterSectionsNewChapter(chapters: seq<ChapterRecord>, c: ChapterRecord)
    requires c.sections == []
    ensures ChapterSections(chapters + [c]) == ChapterSections(chapters)
  {
    assert (chapters + [c])[..|chapters|] == chapters;
  }

  lemma AddSectionPages(chapters: seq<ChapterRecord>, s: SectionRecord, hi: nat)
    requires Ordered(chapters, ChapterPage, hi)
    ensures Ordered(AddSection(chapters, s), ChapterPage, hi)
  {
    var r := AddSection(chapters, s);
    assert forall k :: 0 <= k < |r| ==> r[k].page == chapters[k].page by {
      if chapters != [] {
        forall k | 0 <= k < |r| ensures r[k].page == chapters[k].page {
          if k < |r| - 1 {
            assert r[k] == r[..|r| - 1][k];
          }
        }
      }
    }
  }

  lemma ApplySectionFiled(st: Structure, s: SectionRecord)
    requires SectionsFiled(st)
    ensures SectionsFiled(st.(chapters := AddSection(st.chapters, s), sections := st.sections + [s]))
  {
    if st.chapters != [] {
      ChapterSectionsAddSection(st.chapters, s);
    }
    var n := |ChapterSections(st.chapters)|;
    var ss := st.sections + [s];
    assert ss[|ss| - n - 1..] == st.sections[|st.sections| - n..] + [s];
    assert ss[|ss| - 0..] == [];
  }

  /** What the line rules guarantee of the heading they return. */
  predicate HeadingOk(h: Heading) {
    && (h.SectionHeading? ==> SectionLevel(h.number) == 1)
    && (h.ReferenceHeading? ==> LowerAll(h.title) == "references" || LowerAll(h.title) == "bibliography")
    && (h.AppendixHeading? ==> IsUpper(h.letter))
  }

  /** Every heading found on a line is well formed. */
  lemma ClassifyLineOk(line: string)
    requires NoNewline(line)
    ensures HeadingOk(ClassifyLine(line))
  {
    var h := ClassifyLine(line);
    if h.SectionHeading? {
      assert MatchSection(line) == h;
      SectionLevelIsOne(line);
    } else if h.ReferenceHeading? {
      ReferenceLineExact(line);
    } else if h.AppendixHeading? {
      assert MatchAppendix(line) == h;
    }
  }

  lemma ApplySectionPreserves(st: Structure, number: string, title: string, page: nat)
    requires 1 <= page && WellFormed(st, page) && SectionLevel(number) == 1
    ensures WellFormed(ApplyHeading(st, SectionHeading(number, title), page), page)
  {
    var s := SectionRecord(number, title, page, SectionLevel(number));
    ApplySectionFiled(st, s);
    AddSectionPages(st.chapters, s, page);
    OrderedAppend(st.sections, [s], SectionPage, page);
  }

  /** One well-formed heading keeps the invariant for its page. */
  lemma ApplyHeadingPreserves(st: Structure, h: Heading, page: nat)
    requires 1 <= page && WellFormed(st, page) && HeadingOk(h)
    ensures WellFormed(ApplyHeading(st, h, page), page)
  {
    match h
    case ChapterHeading(number, title) =>
      var c := ChapterRecord(number, title, page, []);
      ChapterSectionsNewChapter(st.chapters, c);
      OrderedAppend(st.chapters, [c], ChapterPage, page);
    case SectionHeading(number, title) =>
      ApplySectionPreserves(st, number, title, page);
    case ReferenceHeading(title) =>
      OrderedAppend(st.references, [ReferenceRecord(title, page)], ReferencePage, page);
    case AppendixHeading(letter, title) =>
      OrderedAppend(st.appendices, [AppendixRecord(letter, title, page)], AppendixPage, page);
    case Plain =>
  }

  /** One line keeps the invariant for its page. */
  lemma ApplyLinePreserves(st: Structure, line: string, page: nat)
    requires NoNewline(line) && 1 <= page && WellFormed(st, page)
    ensures WellFormed(ApplyLine(st, line, page), page)
  {
    ClassifyLineOk(line);
    ApplyHeadingPreserves(st, ClassifyLine(line), page);
  }

  /** The lines of one page keep the invariant for that page. */
  lemma {:induction false} ScanLinesPreserves(st: Structure, lines: seq<string>, page: nat)
    requires 1 <= page && WellFormed(st, page)
    requires forall k :: 0 <= k < |lines| ==> '\n' !in lines[k]
    ensures WellFormed(ScanLines(st, lines, page), page)
    decreases |lines|
  {
    if lines != [] {
      var init := lines[..|lines| - 1];
      ScanLinesPreserves(st, init, page);
      var line := lines[|lines| - 1];
      assert NoNewline(line);
      ApplyLinePreserves(ScanLines(st, init, page), line, page);
    }
  }

  /** Caption records of one page, from well-formed matches. */
  lemma CaptionRecordsWellFormed(ms: seq<Found<CaptionMatch>>, page: nat)
    requires forall m :: m in ms ==> IsDecimalNumber(m.value.number) && IsLineCaption(m.value.caption)
    ensures forall f :: f in CaptionRecords(ms, page) ==> IsDecimalNumber(f.number) && IsLineCaption(f.caption)
    ensures forall k :: 0 <= k < |ms| ==> CaptionPage(CaptionRecords(ms, page)[k]) == page
  {
    var rs := CaptionRecords(ms, page);
    forall f | f in rs ensures IsDecimalNumber(f.number) && IsLineCaption(f.caption) {
      var k :| 0 <= k < |rs| && rs[k] == f;
      assert ms[k] in ms;
    }
  }

  /** Equation records of one page, from the equation matches of its text. */
  lemma EquationRecordsWellFormed(text: string, page: nat)
    ensures forall e :: e in EquationRecords(Equations(text), page) ==> IsDecimalNumber(e.number)
    ensures forall k :: 0 <= k < |Equations(text)| ==> EquationPage(EquationRecords(Equations(text), page)[k]) == page
  {
    var ms := Equations(text);
    var rs := EquationRecords(ms, page);
    forall e | e in rs ensures IsDecimalNumber(e.number) {
      var k :| 0 <= k < |rs| && rs[k] == e;
      assert ms[k] in ms;
      EquationWellFormed(text, ms[k].start);
    }
  }

  lemma AppendPreserves(st: Structure, figures: seq<CaptionRecord>, tables: seq<CaptionRecord>,
                        equations: seq<EquationRecord>, page: nat)
    requires 1 <= page && WellFormed(st, page)
    requires forall f :: f in figures ==> IsDecimalNumber(f.number) && IsLineCaption(f.caption)
    requires forall t :: t in tables ==> IsDecimalNumber(t.number) && IsLineCaption(t.caption)
    requires forall e :: e in equations ==> IsDecimalNumber(e.number)
    requires forall k :: 0 <= k < |figures| ==> CaptionPage(figures[k]) == page
    requires forall k :: 0 <= k < |tables| ==> CaptionPage(tables[k]) == page
    requires forall k :: 0 <= k < |equations| ==> EquationPage(equations[k]) == page
    ensures WellFormed(st.(figures := st.figures + figures, tables := st.tables + tables,
                           equations := st.equations + equations), page)
  {
    OrderedAppend(st.figures, figures, CaptionPage, page);
    OrderedAppend(st.tables, tables, CaptionPage, page);
    OrderedAppend(st.equations, equations, EquationPage, page);
  }

  /** The figures, tables and equations of one page keep the invariant for that page. */
  lemma DetectPreserves(st: Structure, text: string, page: nat)
    requires 1 <= page && WellFormed(st, page)
    ensures WellFormed(DetectFiguresTables(st, text, page), page)
  {
    FiguresTablesWellFormed(text);
    CaptionRecordsWellFormed(Figures(text), page);
    CaptionRecordsWellFormed(Tables(text), page);
    EquationRecordsWellFormed(text, page);
    AppendPreserves(st, CaptionRecords(Figures(text), page), CaptionRecords(Tables(text), page),
                    EquationRecords(Equations(text), page), page);
  }

  lemma PagesOrderedWiden(st: Structure, hi: nat)
    requires PagesOrdered(st, hi)
    ensures PagesOrdered(st, hi + 1)
  {
    OrderedWiden(st.chapters, ChapterPage, hi, hi + 1);
    OrderedWiden(st.sections, SectionPage, hi, hi + 1);
    OrderedWiden(st.figures, CaptionPage, hi, hi + 1);
    OrderedWiden(st.tables, CaptionPage, hi, hi + 1);
    OrderedWiden(st.equations, EquationPage, hi, hi + 1);
    OrderedWiden(st.references, ReferencePage, hi, hi + 1);
    OrderedWiden(st.appendices, AppendixPage, hi, hi + 1);
  }

  /** The text of one page keeps the invariant for that page. */
  lemma ScanTextPreserves(st: Structure, text: string, page: nat)
    requires 1 <= page && WellFormed(st, page)
    ensures WellFormed(DetectFiguresTables(AnalyzePageStructure(st, text, page), text, page), page)
  {
    ScanLinesPreserves(st, Split(text, '\n'), page);
    DetectPreserves(AnalyzePageStructure(st, text, page), text, page);
  }

  /** Page `page`, after the pages before it, keeps the invariant up to `page`. */
  lemma ScanPagePreserves(st: Structure, text: Option<string>, page: nat)
    requires 1 <= page && WellFormed(st, page - 1)
    ensures WellFormed(ScanPage(st, text, page), page)
  {
    assert WellFormed(st, page) by {
      PagesOrderedWiden(st, page - 1);
    }
    if text.Some? && text.value != [] {
      ScanTextPreserves(st, text.value, page);
    } else {
      assert ScanPage(st, text, page) == st;
    }
  }

  /**
   * After scanning the pages of a book from an empty structure: every list
   * is ordered by page, with pages between 1 and the page count; every
   * section has level 1 and the chapters' sections close the global list;
   * appendix letters are capitals, reference titles the two words, and
   * every number a decimal number.
   */
  lemma {:induction false} AnalyzePagesWellFormed(pages: seq<Option<string>>)
    ensures WellFormed(AnalyzePages(EmptyStructure, pages), |pages|)
    decreases |pages|
  {
    if pages == [] {
      assert ChapterSections([]) == [];
    } else {
      var init := pages[..|pages| - 1];
      AnalyzePagesWellFormed(init);
      ScanPagePreserves(AnalyzePages(EmptyStructure, init), pages[|pages| - 1], |pages|);
    }
  }

  /** A section filed under a chapter is one of the chapters' sections. */
  lemma {:induction false} ChapterSectionsMember(chapters: seq<ChapterRecord>, c: ChapterRecord, s: SectionRecord)
    requires c in chapters && s in c.sections
    ensures s in ChapterSections(chapters)
    decreases |chapters|
  {
    var init := chapters[..|chapters| - 1];
    if c != chapters[|chapters| - 1] {
      assert chapters == init + [chapters[|chapters| - 1]];
      ChapterSectionsMember(init, c, s);
    }
  }

  /** The map of a well-formed structure is a well-formed map. */
  lemma BookMapWellFormed(st: Structure, hi: nat)
    requires WellFormed(st, hi)
    ensures MapWellFormed(BookMapOf(st), hi)
  {
    var cs := ChapterSections(st.chapters);
    forall c, s | c in st.chapters && s in c.sections ensures s.level == 1 {
      ChapterSectionsMember(st.chapters, c, s);
      assert s in st.sections by {
        var k :| 0 <= k < |cs| && cs[k] == s;
        assert st.sections[|st.sections| - |cs| + k] == s;
      }
    }
  }

  /** A page without text (None or empty) contributes nothing: a blank last page leaves the analysis as it was. */
  lemma {:induction false} BlankPagesIgnored(st: Structure, pages: seq<Option<string>>, blank: Option<string>)
    requires blank.None? || blank == Some([])
    ensures AnalyzePages(st, pages + [blank]) == AnalyzePages(st, pages)
  {
    assert (pages + [blank])[..|pages|] == pages;
  }

  /**
   * The caption and equation pass keeps every earlier record and appends
   * one record per match, in text order, carrying that match's number (and
   * caption) and the page; nothing else changes.
   */
  lemma DetectCounts(st: Structure, text: string, page: nat)
    ensures var r := DetectFiguresTables(st, text, page);
            && |r.figures| == |st.figures| + |Figures(text)|
            && |r.tables| == |st.tables| + |Tables(text)|
            && |r.equations| == |st.equations| + |Equations(text)|
            && r.figures[..|st.figures|] == st.figures
            && r.tables[..|st.tables|] == st.tables
            && r.equations[..|st.equations|] == st.equations
            && r.(figures := st.figures, tables := st.tables, equations := st.equations) == st
    ensures var r := DetectFiguresTables(st, text, page); var ms := Figures(text);
            forall k :: 0 <= k < |ms| ==>
              r.figures[|st.figures| + k] == CaptionRecord(ms[k].value.number, ms[k].value.caption, page)
    ensures var r := DetectFiguresTables(st, text, page); var ms := Tables(text);
            forall k :: 0 <= k < |ms| ==>
              r.tables[|st.tables| + k] == CaptionRecord(ms[k].value.number, ms[k].value.caption, page)
    ensures var r := DetectFiguresTables(st, text, page); var ms := Equations(text);
            forall k :: 0 <= k < |ms| ==> r.equations[|st.equations| + k] == EquationRecord(ms[k].value, page)
  {
  }
}
