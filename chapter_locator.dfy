/**
 * `find_chapters_with_details` of phraseFind2.py: every literal
 * `Chapter <digits>: ` of every page, kept when its number is between 1
 * and 25, with a context window around it and the font size of the first
 * word of the page that contains `Chapter`; the rows are then sorted by
 * chapter number. Page texts and word lists, which the PDF library
 * extracts, are inputs.
 */
module ChapterLocator {
  import opened Wrappers
  import opened Text
  import opened Matching
  import opened ChapterOrder

  /** The fixed parts of the pattern `Chapter \d+: `. */
  const Keyword: string := "Chapter "
  const Colon: string := ": "
  /** The word the font-size lookup looks for. */
  const ChapterWord: string := "Chapter"

  /** A word the PDF library reports, with its font size. */
  datatype Word = Word(text: string, size: real)

  /** The page whose text the library could not extract. */
  datatype LocatorError = MissingText(page: nat)

  /** A matched text: the keyword, at least one digit, and ": ". */
  predicate IsChapterText(t: string) {
    && |t| > |Keyword| + |Colon|
    && t[..|Keyword|] == Keyword
    && t[|t| - |Colon|..] == Colon
    && AllDigits(t[|Keyword|..|t| - |Colon|])
  }

  /** The digits of a matched text. */
  function Digits(t: string): string
    requires IsChapterText(t)
  {
    t[|Keyword|..|t| - |Colon|]
  }

  /* ----------------------------------------------------------- the pattern */

  /** `Chapter \d+: ` tried at `i`; `\d+` is greedy and only a digit run followed by ": " matches. */
  function ChapterPatternAt(s: string, i: nat): (r: Option<Found<string>>)
    ensures r.Some? ==> r.value.start == i && i < r.value.end <= |s| && r.value.value == s[i..r.value.end]
    ensures r.Some? ==> IsChapterText(r.value.value)
  {
    if i + |Keyword| <= |s| && s[i..i + |Keyword|] == Keyword then
      var d := SkipWhile(s, i + |Keyword|, IsDigit);
      if i + |Keyword| < d && d + |Colon| <= |s| && s[d..d + |Colon|] == Colon then
        var t := s[i..d + |Colon|];
        assert t[..|Keyword|] == s[i..i + |Keyword|];
        assert t[|t| - |Colon|..] == s[d..d + |Colon|];
        var ds := t[|Keyword|..|t| - |Colon|];
        assert forall k :: 0 <= k < |ds| ==> ds[k] == s[i + |Keyword| + k];
        Some(Found(t, i, d + |Colon|))
      else None
    else None
  }

  /** `pattern.finditer(text)`. */
  function ChapterMatches(text: string): (r: seq<Found<string>>)
    ensures forall m :: m in r ==> ChapterPatternAt(text, m.start) == Some(m)
    ensures forall k :: 0 <= k < |r| - 1 ==> r[k].end <= r[k + 1].start
  {
    FindIter(k => ChapterPatternAt(text, k), |text|, 0)
  }

  /** No occurrence is missed: none starts before, between or after the listed ones. */
  lemma ChapterMatchesLeftmost(text: string)
    ensures Leftmost(k => ChapterPatternAt(text, k), 0, |text|, ChapterMatches(text))
  {
    FindIterLeftmost(k => ChapterPatternAt(text, k), |text|, 0);
  }

  /** Conversely, every chapter text in the page is matched where it starts, whole. */
  lemma TextPattern(s: string, i: nat, e: nat)
    requires i <= e <= |s| && IsChapterText(s[i..e])
    ensures ChapterPatternAt(s, i) == Some(Found(s[i..e], i, e))
  {
    var t := s[i..e];
    var d := e - |Colon|;
    assert s[i..i + |Keyword|] == t[..|Keyword|];
    assert s[d..d + |Colon|] == t[|t| - |Colon|..];
    forall k | i + |Keyword| <= k < d ensures IsDigit(s[k]) {
      assert s[k] == t[|Keyword|..|t| - |Colon|][k - i - |Keyword|];
    }
    assert !IsDigit(s[d]) by { assert s[d] == Colon[0]; }
    SkipWhileUntil(s, i + |Keyword|, d, IsDigit);
  }

  /* ----------------------------------------------------- the chapter number */

  /** The first position from `i` on that holds a digit. */
  function FirstDigit(t: string, i: nat): (r: Option<nat>)
    requires i <= |t|
    ensures r.Some? ==> i <= r.value < |t| && IsDigit(t[r.value])
    decreases |t| - i
  {
    if i == |t| then None else if IsDigit(t[i]) then Some(i) else FirstDigit(t, i + 1)
  }

  /** `re.search(r'\d+', t).group()`: the first run of digits, if any. */
  function SearchDigits(t: string): (r: Option<string>)
    ensures r.Some? ==> r.value != [] && AllDigits(r.value)
  {
    match FirstDigit(t, 0)
    case None => None
    case Some(a) =>
      var b := SkipWhile(t, a, IsDigit);
      assert forall k :: 0 <= k < b - a ==> t[a..b][k] == t[a + k];
      Some(t[a..b])
  }

  /** In a matched text the digit search finds exactly the digits between the keyword and the colon. */
  lemma SearchFindsDigits(t: string)
    requires IsChapterText(t)
    ensures SearchDigits(t) == Some(Digits(t))
  {
    var n := |Keyword|;
    forall k | 0 <= k < n ensures !IsDigit(t[k]) {
      assert t[k] == t[..n][k] == Keyword[k];
    }
    assert FirstDigit(t, 8) == Some(8) by {
      assert t[8] == Digits(t)[0];
    }
    assert FirstDigit(t, 0) == Some(8) by {
      assert FirstDigit(t, 7) == FirstDigit(t, 8);
      assert FirstDigit(t, 6) == FirstDigit(t, 7);
      assert FirstDigit(t, 5) == FirstDigit(t, 6);
      assert FirstDigit(t, 4) == FirstDigit(t, 5);
      assert FirstDigit(t, 3) == FirstDigit(t, 4);
      assert FirstDigit(t, 2) == FirstDigit(t, 3);
      assert FirstDigit(t, 1) == FirstDigit(t, 2);
    }
    var e := |t| - |Colon|;
    forall k | n <= k < e ensures IsDigit(t[k]) {
      assert t[k] == Digits(t)[k - n];
    }
    assert !IsDigit(t[e]) by { assert t[e] == t[e..][0] == Colon[0]; }
    SkipWhileUntil(t, n, e, IsDigit);
  }

  /** `int(...)` of the digit search on a matched text. */
  function ChapterNumberOf(t: string): (n: nat)
    requires IsChapterText(t)
  {
    SearchFindsDigits(t);
    DigitsValue(SearchDigits(t).value)
  }

  /** The chapter number is the value of the digits written between `Chapter ` and `: `. */
  lemma ChapterNumberIsDigits(t: string)
    requires IsChapterText(t)
    ensures ChapterNumberOf(t) == DigitsValue(Digits(t))
  {
    SearchFindsDigits(t);
  }

  /* ------------------------------------------------- context and font size */

  /**
   * The context: from 30 characters before the match (or the start of the
   * text) to 30 characters after it (or the end), with every newline
   * replaced by a space, then stripped.
   */
  function ContextAround(text: string, m: Found<string>): (c: string)
    requires m.start <= m.end <= |text|
  {
    var start := Max(0, m.start - 30);
    var end := Min(|text|, m.end + 30);
    Strip(ReplaceChar(text[start..end], '\n', ' '))
  }

  /** The context is at most 60 characters longer than the match, and holds no newline. */
  lemma ContextBounds(text: string, m: Found<string>)
    requires m.start <= m.end <= |text|
    ensures |ContextAround(text, m)| <= (m.end - m.start) + 60
    ensures '\n' !in ContextAround(text, m)
  {
    var start := Max(0, m.start - 30);
    var end := Min(|text|, m.end + 30);
    var spaced := ReplaceChar(text[start..end], '\n', ' ');
    StripChars(spaced);
  }

  /** The size of the first word whose text contains `Chapter`, or None. */
  function FirstChapterSize(words: seq<Word>): (r: Option<real>)
    decreases |words|
  {
    if words == [] then None
    else if Contains(words[0].text, ChapterWord) then Some(words[0].size)
    else FirstChapterSize(words[1..])
  }

  /**
   * The lookup yields None exactly when no word contains `Chapter`, and
   * otherwise the size of the first word that does.
   */
  lemma {:induction false} FirstChapterSizeIsFirst(words: seq<Word>)
    ensures FirstChapterSize(words).None? <==> forall k :: 0 <= k < |words| ==> !Contains(words[k].text, ChapterWord)
    ensures FirstChapterSize(words).Some? ==>
              exists k :: 0 <= k < |words| && Contains(words[k].text, ChapterWord)
                          && words[k].size == FirstChapterSize(words).value
                          && forall j :: 0 <= j < k ==> !Contains(words[j].text, ChapterWord)
    decreases |words|
  {
    if words != [] && !Contains(words[0].text, ChapterWord) {
      FirstChapterSizeIsFirst(words[1..]);
      assert forall k :: 0 < k < |words| ==> words[k] == words[1..][k - 1];
      if FirstChapterSize(words).Some? {
        var k :| 0 <= k < |words[1..]| && Contains(words[1..][k].text, ChapterWord)
                 && words[1..][k].size == FirstChapterSize(words).value
                 && forall j :: 0 <= j < k ==> !Contains(words[1..][j].text, ChapterWord);
        assert forall j :: 0 < j < k + 1 ==> words[j] == words[1..][j - 1];
        assert Contains(words[k + 1].text, ChapterWord);
      }
    } else if words != [] {
      assert Contains(words[0].text, ChapterWord);
    }
  }

  /** The font-size loop: the first word containing `Chapter` decides, and the loop stops there. */
  method FontSizeOf(words: seq<Word>) returns (size: Option<real>)
    ensures size == FirstChapterSize(words)
  {
    size := None;
    var k := 0;
    while k < |words|
      invariant 0 <= k <= |words|
      invariant FirstChapterSize(words) == FirstChapterSize(words[k..])
    {
      if Contains(words[k].text, ChapterWord) {
        size := Some(words[k].size);
        return;
      }
      assert words[k..][1..] == words[k + 1..];
      k := k + 1;
    }
  }

  /* -------------------------------------------------------------- the rows */

  /** The row a match gives on page `page`. */
  function RowOf(text: string, m: Found<string>, page: nat, words: seq<Word>): ChapterResult
    requires m.start <= m.end <= |text| && IsChapterText(m.value)
  {
    ChapterResult(ChapterNumberOf(m.value), page, FirstChapterSize(words), ContextAround(text, m), m.value)
  }

  predicate InRange(n: nat) { 1 <= n <= 25 }

  /** A match found on the page. */
  predicate PageMatch(text: string, m: Found<string>) {
    ChapterPatternAt(text, m.start) == Some(m)
  }

  /** The rows of the matches `ms`, in order, dropping those whose number is outside 1..25. */
  function RowsOf(text: string, ms: seq<Found<string>>, page: nat, words: seq<Word>): (r: seq<ChapterResult>)
    requires forall m :: m in ms ==> PageMatch(text, m)
    decreases |ms|
  {
    if ms == [] then []
    else
      var m := ms[|ms| - 1];
      assert m in ms;
      assert PageMatch(text, m);
      RowsOf(text, ms[..|ms| - 1], page, words)
        + (if InRange(ChapterNumberOf(m.value)) then [RowOf(text, m, page, words)] else [])
  }

  /** The rows of one page. */
  function PageRows(text: string, page: nat, words: seq<Word>): seq<ChapterResult> {
    RowsOf(text, ChapterMatches(text), page, words)
  }

  /** The rows of the pages in order; a page without text stops the search with an error. */
  function CollectPages(pages: seq<Option<string>>, words: seq<seq<Word>>): Result<seq<ChapterResult>, LocatorError>
    requires |words| == |pages|
    decreases |pages|
  {
    if pages == [] then Success([])
    else
      var n := |pages| - 1;
      match CollectPages(pages[..n], words[..n])
      case Failure(e) => Failure(e)
      case Success(rows) =>
        match pages[n]
        case None => Failure(MissingText(n))
        case Some(text) => Success(rows + PageRows(text, n, words[n]))
  }

  /** `find_chapters_with_details`, with the page texts and the word lists passed in. */
  function FindChapters(pages: seq<Option<string>>, words: seq<seq<Word>>): Result<seq<ChapterResult>, LocatorError>
    requires |words| == |pages|
  {
    match CollectPages(pages, words)
    case Failure(e) => Failure(e)
    case Success(rows) => Success(SortByNumber(rows))
  }

  /** The body of the match loop: the number read with the digit search, and a row when it is in 1..25. */
  method MatchRow(text: string, m: Found<string>, page: nat, words: seq<Word>) returns (row: Option<ChapterResult>)
    requires PageMatch(text, m)
    ensures row == if InRange(ChapterNumberOf(m.value)) then Some(RowOf(text, m, page, words)) else None
  {
    var chapterText := m.value;
    SearchFindsDigits(chapterText);
    var run := SearchDigits(chapterText);
    var chapterNum := DigitsValue(run.value);
    assert chapterNum == ChapterNumberOf(m.value);
    if 1 <= chapterNum <= 25 {
      var start := Max(0, m.start - 30);
      var end := Min(|text|, m.end + 30);
      var context := Strip(ReplaceChar(text[start..end], '\n', ' '));
      assert context == ContextAround(text, m);
      var fontSize := FontSizeOf(words);
      row := Some(ChapterResult(chapterNum, page, fontSize, context, chapterText));
    } else {
      row := None;
    }
  }

  /** The match loop of one page: the rows of its matches, in text order. */
  method ScanPageMatches(text: string, page: nat, words: seq<Word>) returns (rows: seq<ChapterResult>)
    ensures rows == PageRows(text, page, words)
  {
    rows := [];
    var matches := ChapterMatches(text);
    for k := 0 to |matches|
      invariant rows == RowsOf(text, matches[..k], page, words)
    {
      RowsOfStep(text, matches, k, page, words);
      var row := MatchRow(text, matches[k], page, words);
      if row.Some? {
        rows := rows + [row.value];
      }
    }
    assert matches[..|matches|] == matches;
  }

  lemma RowsOfStep(text: string, ms: seq<Found<string>>, k: nat, page: nat, words: seq<Word>)
    requires k < |ms| && forall m :: m in ms ==> PageMatch(text, m)
    ensures PageMatch(text, ms[k])
    ensures RowsOf(text, ms[..k + 1], page, words)
            == RowsOf(text, ms[..k], page, words)
               + (if InRange(ChapterNumberOf(ms[k].value)) then [RowOf(text, ms[k], page, words)] else [])
  {
    assert ms[k] in ms;
    assert ms[..k + 1][..k] == ms[..k];
  }

  /**
   * The method as phraseFind2.py writes it: a loop over pages, a loop over
   * the matches of each page, the rows appended in order, and one sort at
   * the end.
   */
  method FindChaptersWithDetails(pages: seq<Option<string>>, words: seq<seq<Word>>)
    returns (r: Result<seq<ChapterResult>, LocatorError>)
    requires |words| == |pages|
    ensures r == FindChapters(pages, words)
  {
    var results: seq<ChapterResult> := [];
    for p := 0 to |pages|
      invariant CollectPages(pages[..p], words[..p]) == Success(results)
    {
      if pages[p].None? {
        CollectPagesStopped(pages, words, p + 1);
        return Failure(MissingText(p));
      }
      var rows := ScanPageMatches(pages[p].value, p, words[p]);
      CollectPagesStep(pages, words, p);
      results := results + rows;
    }
    assert pages[..|pages|] == pages && words[..|words|] == words;
    results := SortByNumber(results);
    r := Success(results);
  }

  lemma CollectPagesStep(pages: seq<Option<string>>, words: seq<seq<Word>>, p: nat)
    requires |words| == |pages| && p < |pages| && pages[p].Some?
    requires CollectPages(pages[..p], words[..p]).Success?
    ensures CollectPages(pages[..p + 1], words[..p + 1])
            == Success(CollectPages(pages[..p], words[..p]).value + PageRows(pages[p].value, p, words[p]))
  {
    assert pages[..p + 1][..p] == pages[..p] && words[..p + 1][..p] == words[..p];
  }

  /* ------------------------------------------------------------ properties */

  /** Once a page without text is reached, the search fails there, whatever follows. */
  lemma {:induction false} CollectPagesStopped(pages: seq<Option<string>>, words: seq<seq<Word>>, n: nat)
    requires |words| == |pages| && 0 < n <= |pages|
    requires CollectPages(pages[..n - 1], words[..n - 1]).Success? && pages[n - 1].None?
    ensures CollectPages(pages[..n], words[..n]) == Failure(MissingText(n - 1))
    ensures FindChapters(pages, words) == Failure(MissingText(n - 1))
    decreases |pages| - n
  {
    assert pages[..n][..n - 1] == pages[..n - 1] && words[..n][..n - 1] == words[..n - 1];
    if n < |pages| {
      assert pages[..n + 1][..n] == pages[..n] && words[..n + 1][..n] == words[..n];
      CollectPagesFails(pages, words, n);
    } else {
      assert pages[..n] == pages && words[..n] == words;
    }
  }

  lemma {:induction false} CollectPagesFails(pages: seq<Option<string>>, words: seq<seq<Word>>, n: nat)
    requires |words| == |pages| && n <= |pages|
    requires CollectPages(pages[..n], words[..n]).Failure?
    ensures CollectPages(pages, words) == CollectPages(pages[..n], words[..n])
    decreases |pages| - n
  {
    if n < |pages| {
      assert pages[..n + 1][..n] == pages[..n] && words[..n + 1][..n] == words[..n];
      CollectPagesFails(pages, words, n + 1);
    } else {
      assert pages[..n] == pages && words[..n] == words;
    }
  }

  /** Every row of a page: a number in 1..25 read from its matched text, the context bound, the font size. */
  predicate RowOk(x: ChapterResult, text: string, page: nat, words: seq<Word>) {
    && InRange(x.number) && x.page == page
    && IsChapterText(x.matched) && x.number == DigitsValue(Digits(x.matched))
    && Contains(text, x.matched)
    && |x.context| <= |x.matched| + 60 && '\n' !in x.context
    && x.fontSize == FirstChapterSize(words)
  }

  lemma MatchInText(text: string, m: Found<string>)
    requires PageMatch(text, m)
    ensures Contains(text, m.value)
  {
    ContainsAt(text, m.value, m.start);
  }

  lemma {:induction false} ContainsAt(s: string, sub: string, i: nat)
    requires i + |sub| <= |s| && s[i..i + |sub|] == sub
    ensures Contains(s, sub)
    decreases i
  {
    if i > 0 {
      assert s[1..][i - 1..i - 1 + |sub|] == sub;
      ContainsAt(s[1..], sub, i - 1);
    }
  }

  /**
   * A row is on a page's list exactly when a match of the page gives it
   * and that match's number is in 1..25; every such row is well formed.
   */
  lemma {:induction false} RowsOfExactly(text: string, ms: seq<Found<string>>, page: nat, words: seq<Word>)
    requires forall m :: m in ms ==> PageMatch(text, m)
    ensures forall x :: x in RowsOf(text, ms, page, words) <==>
              exists m :: m in ms && InRange(ChapterNumberOf(m.value)) && x == RowOf(text, m, page, words)
    ensures forall x :: x in RowsOf(text, ms, page, words) ==> RowOk(x, text, page, words)
    decreases |ms|
  {
    if ms != [] {
      var init := ms[..|ms| - 1];
      var m := ms[|ms| - 1];
      assert m in ms && ChapterPatternAt(text, m.start) == Some(m);
      RowsOfExactly(text, init, page, words);
      ChapterNumberIsDigits(m.value);
      ContextBounds(text, m);
      MatchInText(text, m);
      assert ms == init + [m];
    }
  }

  /** `x` is a well-formed row of a page of the book. */
  predicate RowOnPage(x: ChapterResult, pages: seq<Option<string>>, words: seq<seq<Word>>)
    requires |words| == |pages|
  {
    x.page < |pages| && pages[x.page].Some? && RowOk(x, pages[x.page].value, x.page, words[x.page])
  }

  /** Every row of the search lies on a page of the book and is well formed for that page. */
  lemma {:induction false} CollectPagesRows(pages: seq<Option<string>>, words: seq<seq<Word>>)
    requires |words| == |pages| && CollectPages(pages, words).Success?
    ensures forall x :: x in CollectPages(pages, words).value ==> RowOnPage(x, pages, words)
    decreases |pages|
  {
    if pages != [] {
      var n := |pages| - 1;
      var rows := CollectPages(pages[..n], words[..n]).value;
      var text := pages[n].value;
      CollectPagesRows(pages[..n], words[..n]);
      RowsOfExactly(text, ChapterMatches(text), n, words[n]);
      assert CollectPages(pages, words).value == rows + PageRows(text, n, words[n]);
      forall x | x in CollectPages(pages, words).value ensures RowOnPage(x, pages, words) {
        if x in rows {
          assert RowOnPage(x, pages[..n], words[..n]);
          assert pages[..n][x.page] == pages[x.page] && words[..n][x.page] == words[x.page];
        }
      }
    }
  }

  /**
   * The result of the search: rows sorted by chapter number, the same rows
   * as collected page by page (a permutation), rows of equal number in
   * page-scan order, and every row a well-formed row of its page.
   */
  lemma FindChaptersResult(pages: seq<Option<string>>, words: seq<seq<Word>>)
    requires |words| == |pages| && CollectPages(pages, words).Success?
    ensures var rows := CollectPages(pages, words).value;
            var r := FindChapters(pages, words);
            && r.Success?
            && SortedByNumber(r.value)
            && multiset(r.value) == multiset(rows)
            && (forall n :: WithNumber(r.value, n) == WithNumber(rows, n))
            && (forall x :: x in r.value ==> RowOnPage(x, pages, words))
  {
    var rows := CollectPages(pages, words).value;
    SortByNumberSorted(rows);
    forall n ensures WithNumber(SortByNumber(rows), n) == WithNumber(rows, n) {
      SortByNumberStable(rows, n);
    }
    CollectPagesRows(pages, words);
    forall x | x in SortByNumber(rows) ensures x in rows {
      assert x in multiset(SortByNumber(rows));
    }
  }

  /** When every page has text, the search succeeds. */
  lemma {:induction false} CollectPagesSucceeds(pages: seq<Option<string>>, words: seq<seq<Word>>)
    requires |words| == |pages| && forall k :: 0 <= k < |pages| ==> pages[k].Some?
    ensures CollectPages(pages, words).Success?
    decreases |pages|
  {
    if pages != [] {
      var n := |pages| - 1;
      assert forall k :: 0 <= k < n ==> pages[..n][k] == pages[k];
      CollectPagesSucceeds(pages[..n], words[..n]);
    }
  }

  /** A page without text makes the search fail. */
  lemma {:induction false} CollectPagesMissingFails(pages: seq<Option<string>>, words: seq<seq<Word>>, k: nat)
    requires |words| == |pages| && k < |pages| && pages[k].None?
    ensures CollectPages(pages, words).Failure?
    decreases |pages|
  {
    var n := |pages| - 1;
    if k < n {
      assert pages[..n][k] == pages[k];
      CollectPagesMissingFails(pages[..n], words[..n], k);
    }
  }

  /** When the search fails, it fails at the first page without text. */
  lemma {:induction false} CollectPagesFailsAtFirstMissing(pages: seq<Option<string>>, words: seq<seq<Word>>)
    requires |words| == |pages| && CollectPages(pages, words).Failure?
    ensures var p := CollectPages(pages, words).error.page;
            p < |pages| && pages[p].None? && forall k :: 0 <= k < p ==> pages[k].Some?
    decreases |pages|
  {
    var n := |pages| - 1;
    var prev := CollectPages(pages[..n], words[..n]);
    if prev.Failure? {
      assert CollectPages(pages, words) == prev;
      CollectPagesFailsAtFirstMissing(pages[..n], words[..n]);
      assert forall k :: 0 <= k < n ==> pages[..n][k] == pages[k];
    } else {
      assert CollectPages(pages, words) == Failure(MissingText(n));
      forall k | 0 <= k < n ensures pages[k].Some? {
        if pages[k].None? {
          assert pages[..n][k] == pages[k];
          CollectPagesMissingFails(pages[..n], words[..n], k);
        }
      }
    }
  }
}
