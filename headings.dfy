/**
 * The line-level rules of `AcademicBookMapper._analyze_page_structure`:
 * four anchored patterns tried on each line in a fixed order (chapter,
 * section, reference/bibliography, appendix), the first match winning.
 * Each pattern is a hand-written matcher that follows Python's
 * backtracking for that one pattern; each comes with a "shape" predicate
 * saying, in positions of the line, exactly which lines it accepts.
 */
module Headings {
  import opened Wrappers
  import opened Text
  import opened Matching

  /** What one line of a page is, according to the rules. */
  datatype Heading =
    | ChapterHeading(number: string, title: string)
    | SectionHeading(number: string, title: string)
    | ReferenceHeading(title: string)
    | AppendixHeading(letter: char, title: string)
    | Plain

  /** A line of the page holds no newline, so the slices of it do not either. */
  lemma NoNewlineSuffix(s: string, i: nat)
    requires NoNewline(s) && i <= |s|
    ensures NoNewline(s[i..])
  {
    forall k | 0 <= k < |s| - i ensures s[i..][k] != '\n' { assert s[i..][k] == s[i + k]; }
  }

  /* ---------------------------------------------------------------- chapter */

  /** `^(?:Chapter|CHAPTER)\s+(\d+|[IVXLC]+)[.:]\s*(.+)`; the title is the stripped group. */
  function MatchChapter(line: string): (h: Heading)
    ensures h.Plain? || h.ChapterHeading?
  {
    if StartsWith(line, "Chapter") || StartsWith(line, "CHAPTER") then ChapterAfterKeyword(line) else Plain
  }

  /** `\s+` after the keyword, then the number. */
  function ChapterAfterKeyword(line: string): (h: Heading)
    requires 7 <= |line|
    ensures h.Plain? || h.ChapterHeading?
  {
    var a := SkipWhile(line, 7, IsSpace);
    if a == 7 || a == |line| then Plain else ChapterNumberAt(line, a)
  }

  /** `(\d+|[IVXLC]+)`: a digit run when the first character is a digit, a Roman-letter run otherwise. */
  function ChapterNumberEnd(line: string, a: nat): (b: nat)
    requires a < |line|
    ensures a <= b <= |line|
  {
    if IsDigit(line[a]) then SkipWhile(line, a, IsDigit) else SkipWhile(line, a, IsRoman)
  }

  /** The number at `a`, then `[.:]`, then the tail. */
  function ChapterNumberAt(line: string, a: nat): (h: Heading)
    requires a < |line|
    ensures h.Plain? || h.ChapterHeading?
  {
    var b := ChapterNumberEnd(line, a);
    if b == a || b == |line| || !IsSeparator(line[b]) then Plain else ChapterTitleAt(line, a, b)
  }

  /** `\s*(.+)` after the separator at `b`. */
  function ChapterTitleAt(line: string, a: nat, b: nat): (h: Heading)
    requires a <= b < |line|
    ensures h.Plain? || h.ChapterHeading?
  {
    match MatchTail(line, b + 1, 0)
    case None => Plain
    case Some(g) => ChapterHeading(line[a..b], Strip(line[g.0..g.1]))
  }

  /**
   * The chapter pattern in positions: the keyword, whitespace up to `a`, a
   * run of digits or of Roman letters up to `b`, a separator at `b`, and
   * at least one more character.
   */
  predicate ChapterShape(line: string, a: nat, b: nat) {
    && (StartsWith(line, "Chapter") || StartsWith(line, "CHAPTER"))
    && 7 < a < b && b + 1 < |line|
    && (forall k :: 7 <= k < a ==> IsSpace(line[k]))
    && ((forall k :: a <= k < b ==> IsDigit(line[k])) || (forall k :: a <= k < b ==> IsRoman(line[k])))
    && IsSeparator(line[b])
  }

  /** On a line the title step succeeds exactly when something follows the separator. */
  lemma ChapterTitleOnLine(line: string, a: nat, b: nat)
    requires a <= b < |line| && NoNewline(line[b + 1..])
    ensures ChapterTitleAt(line, a, b).ChapterHeading? <==> b + 1 < |line|
    ensures b + 1 < |line| ==> ChapterTitleAt(line, a, b) == ChapterHeading(line[a..b], Strip(line[b + 1..]))
  {
    TailOfLine(line, b + 1, 0);
    if b + 1 < |line| {
      var g := MatchTail(line, b + 1, 0).value;
      assert line[g.0..g.1] == line[g.0..];
      assert Strip(line[g.0..g.1]) == Strip(line[b + 1..]);
    }
  }

  /** Every line of chapter shape is a chapter heading: its number is the run, its title the stripped rest. */
  lemma ChapterShapeMatches(line: string, a: nat, b: nat)
    requires NoNewline(line) && ChapterShape(line, a, b)
    ensures MatchChapter(line) == ChapterHeading(line[a..b], Strip(line[b + 1..]))
  {
    assert !IsSpace(line[a]);
    SkipWhileUntil(line, 7, a, IsSpace);
    assert ChapterNumberEnd(line, a) == b by {
      if IsDigit(line[a]) {
        SkipWhileUntil(line, a, b, IsDigit);
      } else {
        SkipWhileUntil(line, a, b, IsRoman);
      }
    }
    NoNewlineSuffix(line, b + 1);
    assert MatchChapter(line) == ChapterTitleAt(line, a, b);
    ChapterTitleOnLine(line, a, b);
  }

  /** Every chapter heading found on a line comes from a chapter shape: the converse of ChapterShapeMatches. */
  lemma ChapterMatchShape(line: string) returns (a: nat, b: nat)
    requires NoNewline(line) && MatchChapter(line).ChapterHeading?
    ensures ChapterShape(line, a, b)
    ensures MatchChapter(line) == ChapterHeading(line[a..b], Strip(line[b + 1..]))
  {
    a := SkipWhile(line, 7, IsSpace);
    b := ChapterNumberEnd(line, a);
    NoNewlineSuffix(line, b + 1);
    ChapterTitleOnLine(line, a, b);
  }

  /* ---------------------------------------------------------------- section */

  /**
   * `^(\d+\.(?:\d+)*)\s+(.+)`: a digit run, ONE literal '.', an optional
   * digit run, then whitespace. `(?:\d+)*` only repeats digit runs, so a
   * second '.' (as in `2.3.1`) or a number without a '.' never matches.
   */
  function MatchSection(line: string): (h: Heading)
    ensures h.Plain? || h.SectionHeading?
  {
    var d := SkipWhile(line, 0, IsDigit);
    if d == 0 || d == |line| || line[d] != '.' then Plain
    else SectionTitleAt(line, SkipWhile(line, d + 1, IsDigit))
  }

  /** `\s+(.+)` after the section number `line[..e]`. */
  function SectionTitleAt(line: string, e: nat): (h: Heading)
    requires e <= |line|
    ensures h.Plain? || h.SectionHeading?
  {
    match MatchTail(line, e, 1)
    case None => Plain
    case Some(g) => SectionHeading(line[..e], Strip(line[g.0..g.1]))
  }

  /**
   * The section pattern in positions: digits up to `d`, a '.' at `d`,
   * digits (possibly none) up to `e`, whitespace at `e`, and at least one
   * more character.
   */
  predicate SectionShape(line: string, d: nat, e: nat) {
    && 0 < d < e && e + 1 < |line|
    && (forall k :: 0 <= k < d ==> IsDigit(line[k]))
    && line[d] == '.'
    && (forall k :: d < k < e ==> IsDigit(line[k]))
    && IsSpace(line[e])
  }

  /** On a line the title step succeeds exactly when whitespace and then something else follow the number. */
  lemma SectionTitleOnLine(line: string, e: nat)
    requires e <= |line| && NoNewline(line[e..])
    ensures SectionTitleAt(line, e).SectionHeading? <==> e + 1 < |line| && IsSpace(line[e])
    ensures SectionTitleAt(line, e).SectionHeading? ==> SectionTitleAt(line, e) == SectionHeading(line[..e], Strip(line[e + 1..]))
  {
    TailOfLine(line, e, 1);
    if e + 1 < |line| {
      assert line[e..e + 1] == [line[e]];
      if IsSpace(line[e]) {
        var g := MatchTail(line, e, 1).value;
        assert line[g.0..g.1] == line[g.0..];
        assert line[e..] == [line[e]] + line[e + 1..];
        StripDropsLeadingSpaces([line[e]], line[e + 1..]);
      }
    }
  }

  /** Every line of section shape is a section heading: its number is `line[..e]`, its title the stripped rest. */
  lemma SectionShapeMatches(line: string, d: nat, e: nat)
    requires NoNewline(line) && SectionShape(line, d, e)
    ensures MatchSection(line) == SectionHeading(line[..e], Strip(line[e + 1..]))
  {
    SkipWhileUntil(line, 0, d, IsDigit);
    SkipWhileUntil(line, d + 1, e, IsDigit);
    NoNewlineSuffix(line, e);
    assert MatchSection(line) == SectionTitleAt(line, e);
    SectionTitleOnLine(line, e);
  }

  /** Every section heading found on a line comes from a section shape: the converse of SectionShapeMatches. */
  lemma SectionMatchShape(line: string) returns (d: nat, e: nat)
    requires NoNewline(line) && MatchSection(line).SectionHeading?
    ensures SectionShape(line, d, e)
    ensures MatchSection(line) == SectionHeading(line[..e], Strip(line[e + 1..]))
  {
    d := SkipWhile(line, 0, IsDigit);
    e := SkipWhile(line, d + 1, IsDigit);
    NoNewlineSuffix(line, e);
    SectionTitleOnLine(line, e);
  }

  /** `len(number.split('.')) - 1`, the level main.py records for a section. */
  function SectionLevel(number: string): int {
    |Split(number, '.')| - 1
  }

  /** A section number always has exactly two dot-separated parts, so its level is always 1. */
  lemma SectionLevelIsOne(line: string)
    requires MatchSection(line).SectionHeading?
    ensures SectionLevel(MatchSection(line).number) == 1
  {
    var d := SkipWhile(line, 0, IsDigit);
    var e := SkipWhile(line, d + 1, IsDigit);
    var number := line[..e];
    assert MatchSection(line).number == number;
    assert number[d] == '.';
    assert forall k :: 0 <= k < d ==> number[k] != '.' by {
      forall k | 0 <= k < d ensures number[k] != '.' { assert number[k] == line[k]; }
    }
    var tail := number[d + 1..];
    assert '.' !in tail by {
      forall k | 0 <= k < |tail| ensures tail[k] != '.' { assert tail[k] == line[d + 1 + k]; }
    }
    SplitAt(number, '.', d);
    SplitWithoutSeparator(tail, '.');
  }

  /* ------------------------------------------------------------- references */

  /** `^word$` under IGNORECASE: the whole line, or the line before one final newline. */
  predicate IsWholeWord(line: string, word: string) {
    && MatchesIgnoreCase(line, 0, word)
    && (|line| == |word| || (|line| == |word| + 1 && line[|word|] == '\n'))
  }

  /** `re.match(r'^References$|^Bibliography$', line, re.IGNORECASE)`. */
  predicate IsReferenceLine(line: string) {
    IsWholeWord(line, "references") || IsWholeWord(line, "bibliography")
  }

  /** The line with every ASCII capital lowered. */
  function LowerAll(s: string): (r: string)
    ensures |r| == |s| && forall k :: 0 <= k < |s| ==> r[k] == ToLower(s[k])
  {
    seq(|s|, k requires 0 <= k < |s| => ToLower(s[k]))
  }

  /**
   * On a line (no newline) the rule holds exactly when the whole line,
   * lower-cased, is `references` or `bibliography`; the record's title,
   * `line.strip()`, is then the line itself.
   */
  lemma ReferenceLineExact(line: string)
    requires NoNewline(line)
    ensures IsReferenceLine(line) <==> LowerAll(line) == "references" || LowerAll(line) == "bibliography"
    ensures IsReferenceLine(line) ==> Strip(line) == line
  {
    if IsWholeWord(line, "references") {
      assert |line| == 10;
      assert LowerAll(line) == "references";
      assert ToLower(line[0]) == 'r' && ToLower(line[9]) == 's';
      StripNoOp(line);
    }
    if IsWholeWord(line, "bibliography") {
      assert |line| == 12;
      assert LowerAll(line) == "bibliography";
      assert ToLower(line[0]) == 'b' && ToLower(line[11]) == 'y';
      StripNoOp(line);
    }
    if LowerAll(line) == "references" {
      assert forall k :: 0 <= k < 10 ==> ToLower(line[0 + k]) == "references"[k];
    }
    if LowerAll(line) == "bibliography" {
      assert forall k :: 0 <= k < 12 ==> ToLower(line[0 + k]) == "bibliography"[k];
    }
  }

  /* --------------------------------------------------------------- appendix */

  /** `^Appendix\s+([A-Z]):\s*(.+)`; the title is the stripped group. */
  function MatchAppendix(line: string): (h: Heading)
    ensures h.Plain? || h.AppendixHeading?
  {
    if !StartsWith(line, "Appendix") then Plain
    else
      var a := SkipWhile(line, 8, IsSpace);
      if a == 8 || a + 1 >= |line| || !IsUpper(line[a]) || line[a + 1] != ':' then Plain
      else AppendixTitleAt(line, a)
  }

  /** `\s*(.+)` after the letter at `a` and its colon. */
  function AppendixTitleAt(line: string, a: nat): (h: Heading)
    requires a + 1 < |line|
    ensures h.Plain? || h.AppendixHeading?
  {
    match MatchTail(line, a + 2, 0)
    case None => Plain
    case Some(g) => AppendixHeading(line[a], Strip(line[g.0..g.1]))
  }

  /**
   * The appendix pattern in positions: the keyword, whitespace up to `a`,
   * a capital letter at `a`, a colon after it, and at least one more
   * character.
   */
  predicate AppendixShape(line: string, a: nat) {
    && StartsWith(line, "Appendix")
    && 8 < a && a + 2 < |line|
    && (forall k :: 8 <= k < a ==> IsSpace(line[k]))
    && IsUpper(line[a]) && line[a + 1] == ':'
  }

  /** On a line the title step succeeds exactly when something follows the colon. */
  lemma AppendixTitleOnLine(line: string, a: nat)
    requires a + 1 < |line| && NoNewline(line[a + 2..])
    ensures AppendixTitleAt(line, a).AppendixHeading? <==> a + 2 < |line|
    ensures a + 2 < |line| ==> AppendixTitleAt(line, a) == AppendixHeading(line[a], Strip(line[a + 2..]))
  {
    TailOfLine(line, a + 2, 0);
    if a + 2 < |line| {
      var g := MatchTail(line, a + 2, 0).value;
      assert line[g.0..g.1] == line[g.0..];
      assert Strip(line[g.0..g.1]) == Strip(line[a + 2..]);
    }
  }

  /** Every line of appendix shape is an appendix heading with that letter and the stripped rest. */
  lemma AppendixShapeMatches(line: string, a: nat)
    requires NoNewline(line) && AppendixShape(line, a)
    ensures MatchAppendix(line) == AppendixHeading(line[a], Strip(line[a + 2..]))
  {
    assert !IsSpace(line[a]);
    SkipWhileUntil(line, 8, a, IsSpace);
    NoNewlineSuffix(line, a + 2);
    assert MatchAppendix(line) == AppendixTitleAt(line, a);
    AppendixTitleOnLine(line, a);
  }

  /** Every appendix heading found on a line comes from an appendix shape: the converse of AppendixShapeMatches. */
  lemma AppendixMatchShape(line: string) returns (a: nat)
    requires NoNewline(line) && MatchAppendix(line).AppendixHeading?
    ensures AppendixShape(line, a)
    ensures MatchAppendix(line) == AppendixHeading(line[a], Strip(line[a + 2..]))
  {
    a := SkipWhile(line, 8, IsSpace);
    NoNewlineSuffix(line, a + 2);
    AppendixTitleOnLine(line, a);
  }

  /* --------------------------------------------------------- classification */

  /** The four rules in the order main.py tries them; the first that matches decides. */
  function ClassifyLine(line: string): (h: Heading)
    ensures h.ChapterHeading? <==> MatchChapter(line).ChapterHeading?
    ensures h.ChapterHeading? ==> h == MatchChapter(line)
  {
    var chapter := MatchChapter(line);
    if chapter.ChapterHeading? then chapter
    else
      var section := MatchSection(line);
      if section.SectionHeading? then section
      else if IsReferenceLine(line) then ReferenceHeading(Strip(line))
      else MatchAppendix(line)
  }

  /** A chapter heading starts with `C`. */
  lemma ChapterFirstCharacter(line: string)
    requires MatchChapter(line).ChapterHeading?
    ensures |line| > 0 && line[0] == 'C'
  {
    assert line[..7][0] == line[0];
  }

  /** An appendix heading starts with `A`. */
  lemma AppendixFirstCharacter(line: string)
    requires MatchAppendix(line).AppendixHeading?
    ensures |line| > 0 && line[0] == 'A'
  {
    assert line[..8][0] == line[0];
  }

  /** A reference line starts with `r` or `b`, in either case. */
  lemma ReferenceFirstCharacter(line: string)
    requires IsReferenceLine(line)
    ensures |line| > 0 && (ToLower(line[0]) == 'r' || ToLower(line[0]) == 'b')
  {
    assert "references"[0] == 'r' && "bibliography"[0] == 'b';
  }

  /** The first character each rule demands: `C`, a digit, `r` or `b` in either case, `A`. */
  lemma HeadingFirstCharacters(line: string)
    ensures MatchChapter(line).ChapterHeading? ==> line[0] == 'C'
    ensures MatchSection(line).SectionHeading? ==> IsDigit(line[0])
    ensures IsReferenceLine(line) ==> ToLower(line[0]) == 'r' || ToLower(line[0]) == 'b'
    ensures MatchAppendix(line).AppendixHeading? ==> line[0] == 'A'
  {
    if MatchChapter(line).ChapterHeading? { ChapterFirstCharacter(line); }
    if MatchAppendix(line).AppendixHeading? { AppendixFirstCharacter(line); }
    if IsReferenceLine(line) { ReferenceFirstCharacter(line); }
  }

  /**
   * The four rules never match the same line, so the priority order never
   * hides a match: the classification is the one rule that matched, or
   * Plain when none did.
   */
  lemma HeadingRulesExclusive(line: string)
    ensures (if MatchChapter(line).ChapterHeading? then 1 else 0)
          + (if MatchSection(line).SectionHeading? then 1 else 0)
          + (if IsReferenceLine(line) then 1 else 0)
          + (if MatchAppendix(line).AppendixHeading? then 1 else 0) <= 1
    ensures ClassifyLine(line).Plain? <==>
              !MatchChapter(line).ChapterHeading? && !MatchSection(line).SectionHeading?
              && !IsReferenceLine(line) && !MatchAppendix(line).AppendixHeading?
  {
    HeadingFirstCharacters(line);
  }
}
