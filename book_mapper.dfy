/**
 * `AcademicBookMapper` as main.py writes it: an object whose lists grow
 * line by line and page by page, and whose `current_chapter` is the very
 * chapter object last stored in the chapter list, so that a section
 * appended to it shows up in that stored chapter. Every method is proved
 * against the functions of BookStructure.
 */
module BookMapper {
  import opened Wrappers
  import opened Text
  import opened Matching
  import opened Headings
  import opened Annotations
  import opened BookStructure

  /** A chapter dictionary: only its section list changes after it is made. */
  class ChapterEntry {
    const number: string
    const title: string
    const page: nat
    var sections: seq<SectionRecord>

    constructor(number: string, title: string, page: nat)
      ensures this.number == number && this.title == title && this.page == page && sections == []
    {
      this.number := number;
      this.title := title;
      this.page := page;
      sections := [];
    }

    function Value(): ChapterRecord
      reads this
    {
      ChapterRecord(number, title, page, sections)
    }

    /** `chapter['sections'].append(section)`. */
    method AppendSection(s: SectionRecord)
      modifies this
      ensures sections == old(sections) + [s]
    {
      sections := sections + [s];
    }
  }

  /** The values the chapter objects hold, in list order. */
  function ChapterValues(cs: seq<ChapterEntry>): (r: seq<ChapterRecord>)
    reads cs
    ensures |r| == |cs| && forall k :: 0 <= k < |cs| ==> r[k] == cs[k].Value()
    decreases |cs|
  {
    if cs == [] then [] else ChapterValues(cs[..|cs| - 1]) + [cs[|cs| - 1].Value()]
  }

  lemma ChapterValuesSnoc(cs: seq<ChapterEntry>, c: ChapterEntry)
    ensures ChapterValues(cs + [c]) == ChapterValues(cs) + [c.Value()]
  {
    assert (cs + [c])[..|cs|] == cs;
  }

  /** No chapter object appears twice. */
  predicate Distinct(cs: seq<ChapterEntry>) {
    forall i, j :: 0 <= i < j < |cs| ==> cs[i] != cs[j]
  }

  lemma DistinctSnoc(cs: seq<ChapterEntry>, c: ChapterEntry)
    requires Distinct(cs) && c !in cs
    ensures Distinct(cs + [c])
  {
    forall i, j | 0 <= i < j < |cs| + 1 ensures (cs + [c])[i] != (cs + [c])[j] {
      if j == |cs| {
        assert (cs + [c])[i] == cs[i];
      }
    }
  }

  class AcademicBookMapper {
    const filePath: string
    var chapters: seq<ChapterEntry>
    var sections: seq<SectionRecord>
    var figures: seq<CaptionRecord>
    var tables: seq<CaptionRecord>
    var equations: seq<EquationRecord>
    var references: seq<ReferenceRecord>
    var appendices: seq<AppendixRecord>
    var currentChapter: ChapterEntry?
    /** The mapper and its chapter objects. */
    ghost var Repr: set<object>

    /**
     * `current_chapter` is None exactly when no chapter has been stored, and
     * otherwise it is the last stored chapter object; no chapter object is
     * stored twice.
     */
    ghost predicate Valid()
      reads this
    {
      && this in Repr
      && (forall c :: c in chapters ==> c in Repr)
      && (currentChapter == null <==> chapters == [])
      && (chapters != [] ==> currentChapter == chapters[|chapters| - 1])
      && Distinct(chapters)
    }

    /** The structure the object holds, as a value. */
    function Model(): Structure
      reads this, chapters
    {
      Structure(ChapterValues(chapters), sections, figures, tables, equations, references, appendices)
    }

    /** `__init__`: every list empty and no current chapter. */
    constructor(filePath: string)
      ensures Valid() && fresh(Repr) && Model() == EmptyStructure && this.filePath == filePath
    {
      this.filePath := filePath;
      chapters := [];
      sections := [];
      figures := [];
      tables := [];
      equations := [];
      references := [];
      appendices := [];
      currentChapter := null;
      Repr := {this};
    }

    /** A new chapter object becomes the current chapter and is stored last. */
    method AddChapter(number: string, title: string, page: nat)
      requires Valid()
      modifies this
      ensures Valid() && fresh(Repr - old(Repr))
      ensures Model() == ApplyHeading(old(Model()), ChapterHeading(number, title), page)
    {
      ghost var cs := chapters;
      ghost var before := Model();
      var entry := new ChapterEntry(number, title, page);
      assert entry !in cs;
      currentChapter := entry;
      chapters := chapters + [entry];
      Repr := Repr + {entry};
      DistinctSnoc(cs, entry);
      assert ChapterValues(cs) == before.chapters;
      ChapterValuesSnoc(cs, entry);
      assert Model() == before.(chapters := before.chapters + [ChapterRecord(number, title, page, [])]);
    }

    /** A section goes to the current chapter, when there is one, and to the global list. */
    method AddSectionRecord(number: string, title: string, page: nat)
      requires Valid()
      modifies this, currentChapter
      ensures Valid() && Repr == old(Repr)
      ensures Model() == ApplyHeading(old(Model()), SectionHeading(number, title), page)
    {
      var s := SectionRecord(number, title, page, SectionLevel(number));
      if currentChapter != null {
        ghost var before := ChapterValues(chapters);
        var n := |chapters|;
        currentChapter.AppendSection(s);
        forall k | 0 <= k < n - 1 ensures chapters[k].Value() == before[k] {
          assert chapters[k] != chapters[n - 1];
        }
        assert ChapterValues(chapters) == AddSection(before, s);
      }
      sections := sections + [s];
    }

    method AddReference(title: string, page: nat)
      requires Valid()
      modifies this
      ensures Valid() && Repr == old(Repr)
      ensures Model() == ApplyHeading(old(Model()), ReferenceHeading(title), page)
    {
      references := references + [ReferenceRecord(title, page)];
    }

    method AddAppendix(letter: char, title: string, page: nat)
      requires Valid()
      modifies this
      ensures Valid() && Repr == old(Repr)
      ensures Model() == ApplyHeading(old(Model()), AppendixHeading(letter, title), page)
    {
      appendices := appendices + [AppendixRecord(letter, title, page)];
    }

    /** One iteration of the line loop: the four rules in order, the first match deciding. */
    method AnalyzeLine(line: string, page: nat)
      requires Valid()
      modifies Repr
      ensures Valid() && fresh(Repr - old(Repr))
      ensures Model() == ApplyLine(old(Model()), line, page)
    {
      ghost var h := ClassifyLine(line);
      var chapter := MatchChapter(line);
      if chapter.ChapterHeading? {
        AddChapter(chapter.number, chapter.title, page);
        return;
      }
      var section := MatchSection(line);
      if section.SectionHeading? {
        assert h == section;
        AddSectionRecord(section.number, section.title, page);
        return;
      }
      if IsReferenceLine(line) {
        assert h == ReferenceHeading(Strip(line));
        AddReference(Strip(line), page);
        return;
      }
      var appendix := MatchAppendix(line);
      assert h == appendix;
      if appendix.AppendixHeading? {
        AddAppendix(appendix.letter, appendix.title, page);
      }
    }

    /** `_analyze_page_structure`: every line of the page text, in order. */
    method AnalyzePageStructure(text: string, page: nat)
      requires Valid()
      modifies Repr
      ensures Valid() && fresh(Repr - old(Repr))
      ensures Model() == BookStructure.AnalyzePageStructure(old(Model()), text, page)
    {
      var lines := Split(text, '\n');
      var i := 0;
      while i < |lines|
        invariant 0 <= i <= |lines|
        invariant Valid() && fresh(Repr - old(Repr))
        invariant Model() == ScanLines(old(Model()), lines[..i], page)
      {
        ScanLinesStep(old(Model()), lines, i, page);
        AnalyzeLine(lines[i], page);
        i := i + 1;
      }
      assert lines[..i] == lines;
    }

    /** The figure loop: one record per match, in order. */
    method AppendFigures(ms: seq<Found<CaptionMatch>>, page: nat)
      modifies this
      ensures Model() == old(Model()).(figures := old(figures) + CaptionRecords(ms, page))
      ensures chapters == old(chapters) && currentChapter == old(currentChapter) && Repr == old(Repr)
    {
      for k := 0 to |ms|
        invariant figures == old(figures) + CaptionRecords(ms[..k], page)
        invariant Model() == old(Model()).(figures := figures)
        invariant chapters == old(chapters) && currentChapter == old(currentChapter) && Repr == old(Repr)
      {
        figures := figures + [CaptionRecord(ms[k].value.number, ms[k].value.caption, page)];
        assert CaptionRecords(ms[..k + 1], page) == CaptionRecords(ms[..k], page) + [CaptionRecords(ms, page)[k]];
      }
      assert ms[..|ms|] == ms;
    }

    /** The table loop: one record per match, in order. */
    method AppendTables(ms: seq<Found<CaptionMatch>>, page: nat)
      modifies this
      ensures Model() == old(Model()).(tables := old(tables) + CaptionRecords(ms, page))
      ensures chapters == old(chapters) && currentChapter == old(currentChapter) && Repr == old(Repr)
    {
      for k := 0 to |ms|
        invariant tables == old(tables) + CaptionRecords(ms[..k], page)
        invariant Model() == old(Model()).(tables := tables)
        invariant chapters == old(chapters) && currentChapter == old(currentChapter) && Repr == old(Repr)
      {
        tables := tables + [CaptionRecord(ms[k].value.number, ms[k].value.caption, page)];
        assert CaptionRecords(ms[..k + 1], page) == CaptionRecords(ms[..k], page) + [CaptionRecords(ms, page)[k]];
      }
      assert ms[..|ms|] == ms;
    }

    /** The equation loop: one record per match, in order. */
    method AppendEquations(ms: seq<Found<string>>, page: nat)
      modifies this
      ensures Model() == old(Model()).(equations := old(equations) + EquationRecords(ms, page))
      ensures chapters == old(chapters) && currentChapter == old(currentChapter) && Repr == old(Repr)
    {
      for k := 0 to |ms|
        invariant equations == old(equations) + EquationRecords(ms[..k], page)
        invariant Model() == old(Model()).(equations := equations)
        invariant chapters == old(chapters) && currentChapter == old(currentChapter) && Repr == old(Repr)
      {
        equations := equations + [EquationRecord(ms[k].value, page)];
        assert EquationRecords(ms[..k + 1], page) == EquationRecords(ms[..k], page) + [EquationRecords(ms, page)[k]];
      }
      assert ms[..|ms|] == ms;
    }

    /** `_detect_figures_tables`, with the page text passed in: every match appended, in text order. */
    method DetectFiguresTables(text: string, page: nat)
      requires Valid()
      modifies this
      ensures Valid() && Repr == old(Repr)
      ensures Model() == BookStructure.DetectFiguresTables(old(Model()), text, page)
    {
      AppendFigures(Figures(text), page);
      AppendTables(Tables(text), page);
      AppendEquations(Equations(text), page);
    }

    /** `_generate_book_map`: the counts and the lists of the object. */
    function GenerateBookMap(): (m: BookMap)
      reads this, chapters
      ensures m == BookMapOf(Model())
    {
      BookMap(Summary(|chapters|, |figures|, |tables|, |equations|),
              MapStructure(ChapterValues(chapters), figures, tables, equations, references, appendices))
    }

    /** The body of the page loop: a page without text is skipped. */
    method AnalyzePage(text: Option<string>, page: nat)
      requires Valid()
      modifies Repr
      ensures Valid() && fresh(Repr - old(Repr))
      ensures Model() == ScanPage(old(Model()), text, page)
    {
      if text.Some? && text.value != [] {
        AnalyzePageStructure(text.value, page);
        DetectFiguresTables(text.value, page);
      }
    }

    /**
     * `analyze`, with the text of every page passed in (None where the PDF
     * library finds none): pages are numbered from 1, pages without text
     * are skipped, and the book map of the final structure is returned.
     */
    method Analyze(pages: seq<Option<string>>) returns (m: BookMap)
      requires Valid()
      modifies Repr
      ensures Valid() && fresh(Repr - old(Repr))
      ensures Model() == AnalyzePages(old(Model()), pages)
      ensures m == BookMapOf(Model())
    {
      var i := 0;
      while i < |pages|
        invariant 0 <= i <= |pages|
        invariant Valid() && fresh(Repr - old(Repr))
        invariant Model() == AnalyzePages(old(Model()), pages[..i])
      {
        AnalyzePagesStep(old(Model()), pages, i);
        AnalyzePage(pages[i], i + 1);
        i := i + 1;
      }
      assert pages[..i] == pages;
      m := GenerateBookMap();
    }
  }

  /**
   * `map_academic_book`: a fresh mapper over the pages of the book. Its map
   * is the map of the scan from an empty structure, so its counts are the
   * lengths of the lists and every list is ordered by page.
   */
  method MapAcademicBook(filePath: string, pages: seq<Option<string>>) returns (m: BookMap)
    ensures m == BookMapOf(AnalyzePages(EmptyStructure, pages))
    ensures MapWellFormed(m, |pages|)
  {
    var mapper := new AcademicBookMapper(filePath);
    m := mapper.Analyze(pages);
    AnalyzePagesWellFormed(pages);
    BookMapWellFormed(AnalyzePages(EmptyStructure, pages), |pages|);
  }
}
