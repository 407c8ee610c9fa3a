/**
 * The values `display_chapter_analysis` of phraseFind2.py computes before
 * printing them: the shortened context, the font-size column, the 1-based
 * page list and the chapter numbers missing below the largest one found.
 */
module LocatorReport {
  import opened Wrappers
  import opened Text
  import opened ChapterOrder
  import opened ChapterLocator

  /** Contexts longer than this are cut. */
  const ContextLimit: nat := 40
  const Ellipsis: string := "..."

  /** A context over 40 characters keeps its first 37 and gets "..." appended. */
  function TruncateContext(context: string): (r: string)
    ensures |r| == Min(|context|, ContextLimit)
    ensures |context| <= ContextLimit ==> r == context
    ensures |context| > ContextLimit ==>
              r[..ContextLimit - |Ellipsis|] == context[..ContextLimit - |Ellipsis|] && r[ContextLimit - |Ellipsis|..] == Ellipsis
  {
    if |context| > ContextLimit then context[..ContextLimit - |Ellipsis|] + Ellipsis else context
  }

  /** The font-size column shows a size only when there is one and it is not zero (`if font_size`). */
  function ShownFontSize(fontSize: Option<real>): (r: Option<real>)
    ensures r.None? <==> fontSize.None? || fontSize.value == 0.0
    ensures r.Some? ==> r == fontSize
  {
    match fontSize
    case Some(size) => if size != 0.0 then Some(size) else None
    case None => None
  }

  /** Word `j` is the first word of the page whose text contains `Chapter`. */
  predicate FirstChapterWord(words: seq<Word>, j: nat) {
    && j < |words| && Contains(words[j].text, ChapterWord)
    && forall k :: 0 <= k < j ==> !Contains(words[k].text, ChapterWord)
  }

  /**
   * The size looked up on a page's words is shown exactly when the first
   * word containing `Chapter` has a size other than zero, and the size
   * shown is that word's.
   */
  lemma ShownSizeOfWords(words: seq<Word>)
    ensures ShownFontSize(FirstChapterSize(words)).Some? <==> exists j: nat :: FirstChapterWord(words, j) && words[j].size != 0.0
    ensures forall j: nat :: FirstChapterWord(words, j) && words[j].size != 0.0 ==> ShownFontSize(FirstChapterSize(words)) == Some(words[j].size)
  {
    FirstChapterSizeIsFirst(words);
    forall j: nat | FirstChapterWord(words, j) ensures FirstChapterSize(words) == Some(words[j].size) {
      var k :| 0 <= k < |words| && Contains(words[k].text, ChapterWord)
               && words[k].size == FirstChapterSize(words).value
               && forall i :: 0 <= i < k ==> !Contains(words[i].text, ChapterWord);
      assert !(j < k) && !(k < j);
    }
  }

  /**
   * On the result of the search, a row's font-size column shows a size
   * exactly when the first word of its page containing `Chapter` has a
   * non-zero size, and then it shows that size.
   */
  lemma ShownFontSizeOfRow(pages: seq<Option<string>>, words: seq<seq<Word>>, x: ChapterResult)
    requires |words| == |pages| && FindChapters(pages, words).Success? && x in FindChapters(pages, words).value
    ensures x.page < |words|
    ensures ShownFontSize(x.fontSize).Some? <==> exists j: nat :: FirstChapterWord(words[x.page], j) && words[x.page][j].size != 0.0
    ensures forall j: nat :: FirstChapterWord(words[x.page], j) && words[x.page][j].size != 0.0 ==> ShownFontSize(x.fontSize) == Some(words[x.page][j].size)
  {
    FindChaptersResult(pages, words);
    assert RowOnPage(x, pages, words);
    ShownSizeOfWords(words[x.page]);
  }

  /** "Page numbers for splitting": the 1-based page of every row, in row order. */
  function SplitPages(results: seq<ChapterResult>): (r: seq<nat>)
    ensures |r| == |results|
    decreases |results|
  {
    if results == [] then [] else SplitPages(results[..|results| - 1]) + [results[|results| - 1].page + 1]
  }

  lemma {:induction false} SplitPagesAt(results: seq<ChapterResult>)
    ensures forall k :: 0 <= k < |results| ==> SplitPages(results)[k] == results[k].page + 1
    decreases |results|
  {
    if results != [] {
      SplitPagesAt(results[..|results| - 1]);
    }
  }

  /**
   * On the result of the search, every listed page is a page of the book,
   * counted from 1, whose text holds the chapter text of its row.
   */
  lemma SplitPagesInBook(pages: seq<Option<string>>, words: seq<seq<Word>>)
    requires |words| == |pages| && FindChapters(pages, words).Success?
    ensures var rs := FindChapters(pages, words).value;
            forall k :: 0 <= k < |rs| ==>
              var p := SplitPages(rs)[k];
              1 <= p <= |pages| && pages[p - 1].Some? && Contains(pages[p - 1].value, rs[k].matched)
  {
    var rs := FindChapters(pages, words).value;
    FindChaptersResult(pages, words);
    SplitPagesAt(rs);
    forall k | 0 <= k < |rs| ensures RowOnPage(rs[k], pages, words) {
      assert rs[k] in rs;
    }
  }

  /** The chapter numbers of the rows. */
  function NumbersOf(results: seq<ChapterResult>): set<nat> {
    set k | 0 <= k < |results| :: results[k].number
  }

  /** `max(found_chapters)`, with 0 for no rows. */
  function MaxNumber(results: seq<ChapterResult>): (n: nat)
    ensures forall k :: 0 <= k < |results| ==> results[k].number <= n
    ensures results != [] ==> n in NumbersOf(results)
    decreases |results|
  {
    if results == [] then 0
    else
      var init := results[..|results| - 1];
      var n := Max(MaxNumber(init), results[|results| - 1].number);
      assert forall k :: 0 <= k < |init| ==> init[k] == results[k];
      n
  }

  /** The numbers from 1 to `n` that no row has, in increasing order. */
  function MissingUpTo(results: seq<ChapterResult>, n: nat): (r: seq<nat>)
    decreases n
  {
    if n == 0 then []
    else MissingUpTo(results, n - 1) + (if n in NumbersOf(results) then [] else [n])
  }

  /** `sorted(set(range(1, max + 1)) - found_chapters)`; nothing when there are no rows. */
  function MissingChapters(results: seq<ChapterResult>): seq<nat> {
    if results == [] then [] else MissingUpTo(results, MaxNumber(results))
  }

  lemma {:induction false} MissingUpToExactly(results: seq<ChapterResult>, n: nat)
    ensures forall x :: x in MissingUpTo(results, n) <==> 1 <= x <= n && x !in NumbersOf(results)
    ensures forall i, j :: 0 <= i < j < |MissingUpTo(results, n)| ==> MissingUpTo(results, n)[i] < MissingUpTo(results, n)[j]
    decreases n
  {
    if n > 0 {
      var prev := MissingUpTo(results, n - 1);
      MissingUpToExactly(results, n - 1);
      assert forall i :: 0 <= i < |prev| ==> prev[i] in prev;
    }
  }

  /**
   * The missing chapters are exactly the numbers from 1 to the largest
   * number found that no row has, listed in strictly increasing order.
   */
  lemma MissingChaptersExactly(results: seq<ChapterResult>)
    ensures var r := MissingChapters(results);
            && (forall x :: x in r <==> results != [] && 1 <= x <= MaxNumber(results) && x !in NumbersOf(results))
            && (forall i, j :: 0 <= i < j < |r| ==> r[i] < r[j])
  {
    if results != [] {
      MissingUpToExactly(results, MaxNumber(results));
    }
  }

  /** The largest number found is never missing, so every missing number is below it. */
  lemma MissingBelowMax(results: seq<ChapterResult>)
    ensures forall x :: x in MissingChapters(results) ==> x < MaxNumber(results)
  {
    MissingChaptersExactly(results);
  }
}
