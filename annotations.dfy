/**
 * The whole-page pass of `AcademicBookMapper._detect_figures_tables`:
 * figure captions, table captions and parenthesised equation numbers,
 * each found with `re.finditer` over the text of the whole page (so,
 * unlike the heading rules, a match may run across a newline).
 */
module Annotations {
  import opened Wrappers
  import opened Text
  import opened Matching

  /** The two groups of a caption match: the number and the stripped caption. */
  datatype CaptionMatch = CaptionMatch(number: string, caption: string)

  /** `\d+\.?\d*`: a digit run, then optionally one '.' and a digit run that may be empty. */
  predicate IsDecimalNumber(n: string) {
    var d := SkipWhile(n, 0, IsDigit);
    0 < d && (d == |n| || (n[d] == '.' && forall k :: d < k < |n| ==> IsDigit(n[k])))
  }

  /** A digit run from `a` to `b`, then either nothing or a '.' and a digit run up to `c`, is a decimal number. */
  lemma DecimalSlice(s: string, a: nat, b: nat, c: nat)
    requires a < b <= c <= |s|
    requires forall k :: a <= k < b ==> IsDigit(s[k])
    requires b == c || (s[b] == '.' && forall k :: b < k < c ==> IsDigit(s[k]))
    ensures IsDecimalNumber(s[a..c])
  {
    var n := s[a..c];
    assert forall k :: 0 <= k < b - a ==> n[k] == s[a + k];
    if b < c {
      assert n[b - a] == s[b];
      assert forall k :: b - a < k < |n| ==> n[k] == s[a + k];
    }
    SkipWhileUntil(n, 0, b - a, IsDigit);
  }

  /* ---------------------------------------------------------------- captions */

  /** `kw\s+(\d+\.?\d*)[.:]\s*(.+)` tried at position `i` of the page text `s`. */
  function CaptionAt(s: string, kw: string, i: nat): (r: Option<Found<CaptionMatch>>)
    ensures r.Some? ==> r.value.start == i && i + |kw| < r.value.end <= |s|
  {
    if i + |kw| > |s| || s[i..i + |kw|] != kw then None
    else
      var a := SkipWhile(s, i + |kw|, IsSpace);
      if a == i + |kw| || a == |s| || !IsDigit(s[a]) then None
      else CaptionNumberAt(s, i, a)
  }

  /**
   * The number at `a` and its separator. Python first tries the longest
   * number (through a '.' and the digits after it) followed by a
   * separator; when that fails, or its caption does, it backtracks to the
   * digit run alone followed by a separator (which may be that '.').
   */
  function CaptionNumberAt(s: string, i: nat, a: nat): (r: Option<Found<CaptionMatch>>)
    requires i < a < |s| && IsDigit(s[a])
    ensures r.Some? ==> r.value.start == i && a < r.value.end <= |s|
  {
    var long := match LongSeparator(s, a) case None => None case Some(c) => CaptionTailAt(s, i, a, c);
    if long.Some? then long
    else match ShortSeparator(s, a) case None => None case Some(c) => CaptionTailAt(s, i, a, c)
  }

  /** Where a separator follows the number `\d+\.\d*` at `a`, if one does. */
  function LongSeparator(s: string, a: nat): (r: Option<nat>)
    requires a < |s|
    ensures r.Some? ==> a < r.value < |s| && IsSeparator(s[r.value])
  {
    var b := SkipWhile(s, a, IsDigit);
    if b < |s| && s[b] == '.' then
      var c := SkipWhile(s, b + 1, IsDigit);
      if c < |s| && IsSeparator(s[c]) then Some(c) else None
    else None
  }

  /** Where a separator follows the digit run `\d+` at `a`, if one does. */
  function ShortSeparator(s: string, a: nat): (r: Option<nat>)
    requires a < |s| && IsDigit(s[a])
    ensures r.Some? ==> a < r.value < |s| && IsSeparator(s[r.value])
  {
    var b := SkipWhile(s, a, IsDigit);
    if b < |s| && IsSeparator(s[b]) then Some(b) else None
  }

  /** `\s*(.+)` after the separator at `c`; the match ends where the caption group ends. */
  function CaptionTailAt(s: string, i: nat, a: nat, c: nat): (r: Option<Found<CaptionMatch>>)
    requires i < a < c < |s|
    ensures r.Some? ==> r.value.start == i && c < r.value.end <= |s| && r.value.value.number == s[a..c]
  {
    match MatchTail(s, c + 1, 0)
    case None => None
    case Some(g) => Some(Found(CaptionMatch(s[a..c], Strip(s[g.0..g.1])), i, g.1))
  }

  /** Every caption match in the page text, left to right (`re.finditer`). */
  function Captions(text: string, kw: string): (r: seq<Found<CaptionMatch>>)
    ensures forall m :: m in r ==> CaptionAt(text, kw, m.start) == Some(m)
    ensures forall k :: 0 <= k < |r| - 1 ==> r[k].end <= r[k + 1].start
  {
    FindIter(k => CaptionAt(text, kw, k), |text|, 0)
  }

  /** No caption match is missed: none starts before, between or after the listed ones. */
  lemma CaptionsLeftmost(text: string, kw: string)
    ensures Leftmost(k => CaptionAt(text, kw, k), 0, |text|, Captions(text, kw))
  {
    FindIterLeftmost(k => CaptionAt(text, kw, k), |text|, 0);
  }

  /** Figure captions: `Figure\s+(\d+\.?\d*)[.:]\s*(.+)`. */
  function Figures(text: string): (r: seq<Found<CaptionMatch>>)
    ensures forall m :: m in r ==> CaptionAt(text, "Figure", m.start) == Some(m)
  {
    Captions(text, "Figure")
  }

  /** Table captions: `Table\s+(\d+\.?\d*)[.:]\s*(.+)`. */
  function Tables(text: string): (r: seq<Found<CaptionMatch>>)
    ensures forall m :: m in r ==> CaptionAt(text, "Table", m.start) == Some(m)
  {
    Captions(text, "Table")
  }

  /** A caption as `strip()` leaves it, taken from within one line. */
  predicate IsLineCaption(t: string) {
    NoNewline(t) && (t == [] || (!IsSpace(t[0]) && !IsSpace(t[|t| - 1])))
  }

  /** The number group found after the keyword is a decimal number. */
  lemma SeparatorNumber(s: string, a: nat)
    requires a < |s| && IsDigit(s[a])
    ensures LongSeparator(s, a).Some? ==> IsDecimalNumber(s[a..LongSeparator(s, a).value])
    ensures ShortSeparator(s, a).Some? ==> IsDecimalNumber(s[a..ShortSeparator(s, a).value])
  {
    var b := SkipWhile(s, a, IsDigit);
    if LongSeparator(s, a).Some? {
      DecimalSlice(s, a, b, LongSeparator(s, a).value);
    }
    if ShortSeparator(s, a).Some? {
      DecimalSlice(s, a, b, b);
    }
  }

  /** The caption group lies within one line, and `strip()` leaves no whitespace at its ends. */
  lemma TailCaption(s: string, i: nat, a: nat, c: nat)
    requires i < a < c < |s| && CaptionTailAt(s, i, a, c).Some?
    ensures IsLineCaption(CaptionTailAt(s, i, a, c).value.value.caption)
  {
    var g := MatchTail(s, c + 1, 0).value;
    var t := s[g.0..g.1];
    var caption := Strip(t);
    MatchTailSpans(s, c + 1, 0);
    StripChars(t);
    forall k | 0 <= k < |caption| ensures caption[k] != '\n' {
      assert caption[k] in t;
    }
  }

  /** What the number step finds is a decimal number and a one-line caption. */
  lemma NumberCaption(s: string, i: nat, a: nat)
    requires i < a < |s| && IsDigit(s[a]) && CaptionNumberAt(s, i, a).Some?
    ensures var m := CaptionNumberAt(s, i, a).value.value;
            IsDecimalNumber(m.number) && IsLineCaption(m.caption)
  {
    SeparatorNumber(s, a);
    var long := match LongSeparator(s, a) case None => None case Some(c) => CaptionTailAt(s, i, a, c);
    if long.Some? {
      TailCaption(s, i, a, LongSeparator(s, a).value);
    } else {
      TailCaption(s, i, a, ShortSeparator(s, a).value);
    }
  }

  /** Every caption match holds a decimal number and a stripped caption from one line. */
  lemma CaptionWellFormed(s: string, kw: string, i: nat)
    requires CaptionAt(s, kw, i).Some?
    ensures var m := CaptionAt(s, kw, i).value.value;
            IsDecimalNumber(m.number) && IsLineCaption(m.caption)
  {
    NumberCaption(s, i, SkipWhile(s, i + |kw|, IsSpace));
  }

  /** The figure and table lists hold decimal numbers and one-line captions only. */
  lemma FiguresTablesWellFormed(text: string)
    ensures forall m :: m in Figures(text) ==> IsDecimalNumber(m.value.number) && IsLineCaption(m.value.caption)
    ensures forall m :: m in Tables(text) ==> IsDecimalNumber(m.value.number) && IsLineCaption(m.value.caption)
  {
    forall m | m in Figures(text)
      ensures IsDecimalNumber(m.value.number) && IsLineCaption(m.value.caption)
    {
      CaptionWellFormed(text, "Figure", m.start);
    }
    forall m | m in Tables(text)
      ensures IsDecimalNumber(m.value.number) && IsLineCaption(m.value.caption)
    {
      CaptionWellFormed(text, "Table", m.start);
    }
  }

  /**
   * The start of a caption: the keyword at `i`, whitespace, the number
   * `s[a..c]` and a separator at `c`, with something after it. When the
   * number has no '.' and the separator is '.', the next character is not
   * a digit or a separator: otherwise Python reads that '.' as part of the
   * number (`3.5:`, `3.:`).
   */
  predicate CaptionHead(s: string, kw: string, i: nat, a: nat, c: nat) {
    && i + |kw| < a < c && c + 1 < |s| && s[i..i + |kw|] == kw
    && (forall k :: i + |kw| <= k < a ==> IsSpace(s[k]))
    && IsDecimalNumber(s[a..c]) && IsSeparator(s[c])
    && ('.' in s[a..c] || s[c] == ':' || (!IsDigit(s[c + 1]) && !IsSeparator(s[c + 1])))
  }

  /**
   * A caption written on one line: a caption start, then a rest of the
   * line (up to its end `e`) that is not blank.
   */
  predicate CaptionShape(s: string, kw: string, i: nat, a: nat, c: nat, e: nat) {
    && CaptionHead(s, kw, i, a, c) && c + 1 < e <= |s|
    && (e == |s| || s[e] == '\n') && (forall k :: c < k < e ==> s[k] != '\n')
    && (exists k :: c < k < e && !IsSpace(s[k]))
  }

  /** Where the digit run of a decimal number ends, and what follows it. */
  lemma DecimalRun(s: string, a: nat, c: nat) returns (b: nat)
    requires a < c <= |s| && IsDecimalNumber(s[a..c]) && (c == |s| || !IsDigit(s[c]))
    ensures a < b <= c && SkipWhile(s, a, IsDigit) == b
    ensures b == c || (s[b] == '.' && SkipWhile(s, b + 1, IsDigit) == c)
    ensures '.' in s[a..c] <==> b < c
  {
    var n := s[a..c];
    var d := SkipWhile(n, 0, IsDigit);
    b := a + d;
    assert forall k :: 0 <= k < |n| ==> n[k] == s[a + k];
    SkipWhileUntil(s, a, b, IsDigit);
    if b < c {
      SkipWhileUntil(s, b + 1, c, IsDigit);
      assert n[d] == '.';
    } else {
      assert forall k :: 0 <= k < |n| ==> IsDigit(n[k]);
    }
  }

  /** When the tail after the separator ends at `e`, the caption step ends there with the stripped rest of the line. */
  lemma TailStep(s: string, i: nat, a: nat, c: nat, p: nat, q: nat, e: nat)
    requires i < a < c && p == c + 1 && p <= q < e <= |s| && MatchTail(s, p, 0) == Some((q, e))
    requires Strip(s[q..e]) == Strip(s[p..e])
    ensures CaptionTailAt(s, i, a, c) == Some(Found(CaptionMatch(s[a..c], Strip(s[p..e])), i, e))
  {
    var g := MatchTail(s, p, 0).value;
    assert s[g.0..g.1] == s[q..e];
  }

  /** A rest of the line that is not blank is captured whole by the caption step. */
  lemma TailOnLine(s: string, i: nat, a: nat, c: nat, p: nat, t: nat, e: nat)
    requires i < a < c && p == c + 1 && p <= t < e <= |s| && (e == |s| || s[e] == '\n') && !IsSpace(s[t])
    requires forall k :: p <= k < e ==> s[k] != '\n'
    ensures CaptionTailAt(s, i, a, c) == Some(Found(CaptionMatch(s[a..c], Strip(s[p..e])), i, e))
  {
    TailWithinLine(s, p, t, e);
    TailStep(s, i, a, c, p, SkipWhile(s, p, IsSpace), e);
  }

  /** The caption step after the separator captures the stripped rest of the line. */
  lemma CaptionShapeTail(s: string, kw: string, i: nat, a: nat, c: nat, e: nat)
    requires CaptionShape(s, kw, i, a, c, e)
    ensures CaptionTailAt(s, i, a, c) == Some(Found(CaptionMatch(s[a..c], Strip(s[c + 1..e])), i, e))
  {
    var p := c + 1;
    assert CaptionTailAt(s, i, a, c) == Some(Found(CaptionMatch(s[a..c], Strip(s[p..e])), i, e)) by {
      var t :| c < t < e && !IsSpace(s[t]);
      TailOnLine(s, i, a, c, p, t, e);
    }
  }

  /** With a decimal number from `a` to the separator at `c`, and a caption after it, the number step stops at `c`. */
  lemma NumberStep(s: string, i: nat, a: nat, b: nat, c: nat)
    requires i < a < b <= c && c + 1 < |s| && IsDigit(s[a]) && SkipWhile(s, a, IsDigit) == b
    requires b == c || (s[b] == '.' && SkipWhile(s, b + 1, IsDigit) == c)
    requires IsSeparator(s[c]) && (b < c || s[c] == ':' || (!IsDigit(s[c + 1]) && !IsSeparator(s[c + 1])))
    requires CaptionTailAt(s, i, a, c).Some?
    ensures CaptionNumberAt(s, i, a) == CaptionTailAt(s, i, a, c)
  {
    if b < c {
      assert LongSeparator(s, a) == Some(c);
    } else if s[c] == '.' {
      assert SkipWhile(s, b + 1, IsDigit) == b + 1;
      assert LongSeparator(s, a).None?;
    } else {
      assert LongSeparator(s, a).None?;
    }
  }

  /** After a caption start, the number step picks the separator at `c`. */
  lemma CaptionHeadNumber(s: string, kw: string, i: nat, a: nat, c: nat)
    requires CaptionHead(s, kw, i, a, c) && CaptionTailAt(s, i, a, c).Some?
    ensures IsDigit(s[a]) && CaptionNumberAt(s, i, a) == CaptionTailAt(s, i, a, c)
  {
    assert IsDigit(s[a]) by { assert s[a..c][0] == s[a]; }
    assert !IsDigit(s[c]);
    var b := DecimalRun(s, a, c);
    NumberStep(s, i, a, b, c);
  }

  /** The keyword followed by whitespace up to a digit at `a` leads to the number step at `a`. */
  lemma KeywordStep(s: string, kw: string, i: nat, a: nat)
    requires i + |kw| < a < |s| && s[i..i + |kw|] == kw && IsDigit(s[a])
    requires SkipWhile(s, i + |kw|, IsSpace) == a
    ensures CaptionAt(s, kw, i) == CaptionNumberAt(s, i, a)
  {
  }

  /** The keyword and the whitespace after it lead to the number step at `a`. */
  lemma CaptionHeadKeyword(s: string, kw: string, i: nat, a: nat, c: nat)
    requires CaptionHead(s, kw, i, a, c)
    ensures CaptionAt(s, kw, i) == CaptionNumberAt(s, i, a)
  {
    assert IsDigit(s[a]) by { assert s[a..c][0] == s[a]; }
    assert !IsSpace(s[a]);
    SkipWhileUntil(s, i + |kw|, a, IsSpace);
    KeywordStep(s, kw, i, a);
  }

  /** A caption written on one line is matched at `i`, with that number and the stripped rest of the line. */
  lemma CaptionShapeMatches(s: string, kw: string, i: nat, a: nat, c: nat, e: nat)
    requires CaptionShape(s, kw, i, a, c, e)
    ensures CaptionAt(s, kw, i) == Some(Found(CaptionMatch(s[a..c], Strip(s[c + 1..e])), i, e))
  {
    CaptionShapeTail(s, kw, i, a, c, e);
    CaptionHeadNumber(s, kw, i, a, c);
    CaptionHeadKeyword(s, kw, i, a, c);
  }

  /**
   * After a caption start, whitespace that may run across newlines up to a
   * character `t` that is not whitespace: the caption is the stripped line
   * from `t` to its end `e`. So a label whose own line is blank after the
   * separator takes the next line with text as its caption.
   */
  lemma CaptionAcrossLinesMatches(s: string, kw: string, i: nat, a: nat, c: nat, t: nat, e: nat)
    requires CaptionHead(s, kw, i, a, c) && c < t < e <= |s| && !IsSpace(s[t])
    requires forall k :: c < k < t ==> IsSpace(s[k])
    requires (e == |s| || s[e] == '\n') && forall k :: t <= k < e ==> s[k] != '\n'
    ensures CaptionAt(s, kw, i) == Some(Found(CaptionMatch(s[a..c], Strip(s[t..e])), i, e))
  {
    TailFromFirstText(s, c + 1, t, e);
    assert CaptionTailAt(s, i, a, c) == Some(Found(CaptionMatch(s[a..c], Strip(s[t..e])), i, e));
    CaptionHeadNumber(s, kw, i, a, c);
    CaptionHeadKeyword(s, kw, i, a, c);
  }

  /**
   * After a caption start, a rest of the text that is whitespace only but
   * not newlines only: the greedy `\s*` gives back the last character `k`
   * that is not a newline, so the caption is empty and the match ends at
   * the end of `k`'s line (`Figure 3: ` at the end of a page).
   */
  lemma CaptionBlankRestMatches(s: string, kw: string, i: nat, a: nat, c: nat, k: nat)
    requires CaptionHead(s, kw, i, a, c) && c < k < |s| && s[k] != '\n'
    requires forall j :: c < j < |s| ==> IsSpace(s[j])
    requires forall j :: k < j < |s| ==> s[j] == '\n'
    ensures CaptionAt(s, kw, i) == Some(Found(CaptionMatch(s[a..c], ""), i, k + 1))
  {
    TailBlankRest(s, c + 1, k);
    assert CaptionTailAt(s, i, a, c) == Some(Found(CaptionMatch(s[a..c], ""), i, k + 1));
    CaptionHeadNumber(s, kw, i, a, c);
    CaptionHeadKeyword(s, kw, i, a, c);
  }

  /** No caption can follow position `c`: no separator is there, or only newlines follow it. */
  predicate NoCaptionAfter(s: string, c: nat)
    requires c <= |s|
  {
    c == |s| || !IsSeparator(s[c]) || forall k :: c < k < |s| ==> s[k] == '\n'
  }

  /**
   * The number `s[a..b]`, a '.', and a digit run up to `c` after which the
   * longer number `s[a..c]` has no caption: no separator follows it, or
   * only newlines follow its separator. Python then backtracks to the
   * digit run alone, with the '.' at `b` as its separator.
   */
  lemma BacktrackNumberStep(s: string, i: nat, a: nat, b: nat, c: nat)
    requires i < a < b < c <= |s| && s[b] == '.'
    requires forall k :: a <= k < b ==> IsDigit(s[k])
    requires (forall k :: b < k < c ==> IsDigit(s[k])) && (c == |s| || !IsDigit(s[c]))
    requires NoCaptionAfter(s, c)
    ensures IsDigit(s[a]) && CaptionNumberAt(s, i, a) == CaptionTailAt(s, i, a, b)
  {
    SkipWhileUntil(s, a, b, IsDigit);
    SkipWhileUntil(s, b + 1, c, IsDigit);
    if c < |s| && IsSeparator(s[c]) {
      TailFails(s, c + 1);
      assert LongSeparator(s, a) == Some(c);
    } else {
      assert LongSeparator(s, a).None?;
    }
    assert ShortSeparator(s, a) == Some(b);
  }

  /** After the backtrack, the caption is the stripped line from just after the '.' at `b`. */
  lemma BacktrackCaption(s: string, i: nat, a: nat, b: nat, c: nat, t: nat, e: nat)
    requires i < a < b < c <= |s| && s[b] == '.'
    requires forall k :: a <= k < b ==> IsDigit(s[k])
    requires (forall k :: b < k < c ==> IsDigit(s[k])) && (c == |s| || !IsDigit(s[c]))
    requires NoCaptionAfter(s, c)
    requires b < t < e <= |s| && !IsSpace(s[t]) && (e == |s| || s[e] == '\n')
    requires forall k :: b < k < e ==> s[k] != '\n'
    ensures IsDigit(s[a])
    ensures CaptionNumberAt(s, i, a) == Some(Found(CaptionMatch(s[a..b], Strip(s[b + 1..e])), i, e))
  {
    assert CaptionTailAt(s, i, a, b) == Some(Found(CaptionMatch(s[a..b], Strip(s[b + 1..e])), i, e)) by {
      TailOnLine(s, i, a, b, b + 1, t, e);
    }
    BacktrackNumberStep(s, i, a, b, c);
  }

  /**
   * Backtracking in running text: when the longer number `s[a..c]` (digits,
   * '.', digits) has no caption, the number is the digit run `s[a..b]` and
   * the caption is the stripped line from just after the '.' (so
   * `Figure 3.5 shows` is figure `3` with caption `5 shows`).
   */
  lemma CaptionBacktrackMatches(s: string, kw: string, i: nat, a: nat, b: nat, c: nat, t: nat, e: nat)
    requires i + |kw| < a < b < c <= |s| && s[i..i + |kw|] == kw
    requires forall k :: i + |kw| <= k < a ==> IsSpace(s[k])
    requires forall k :: a <= k < b ==> IsDigit(s[k])
    requires s[b] == '.' && (forall k :: b < k < c ==> IsDigit(s[k])) && (c == |s| || !IsDigit(s[c]))
    requires NoCaptionAfter(s, c)
    requires b < t < e <= |s| && !IsSpace(s[t]) && (e == |s| || s[e] == '\n')
    requires forall k :: b < k < e ==> s[k] != '\n'
    ensures CaptionAt(s, kw, i) == Some(Found(CaptionMatch(s[a..b], Strip(s[b + 1..e])), i, e))
  {
    BacktrackCaption(s, i, a, b, c, t, e);
    KeywordBeforeDigit(s, kw, i, a);
  }

  /** The keyword and whitespace up to the digit at `a` lead to the number step at `a`. */
  lemma KeywordBeforeDigit(s: string, kw: string, i: nat, a: nat)
    requires i + |kw| < a < |s| && s[i..i + |kw|] == kw && IsDigit(s[a])
    requires forall k :: i + |kw| <= k < a ==> IsSpace(s[k])
    ensures CaptionAt(s, kw, i) == CaptionNumberAt(s, i, a)
  {
    assert !IsSpace(s[a]);
    SkipWhileUntil(s, i + |kw|, a, IsSpace);
    KeywordStep(s, kw, i, a);
  }

  /**
   * Every caption match is the keyword, whitespace up to a decimal number
   * `s[a..c]`, a separator at `c`, whitespace (newlines included) up to
   * `q`, and the caption group `s[q..e]`, which lies within one line and
   * ends at a line end; the caption is that group stripped. The converse
   * of CaptionShapeMatches and CaptionAcrossLinesMatches.
   */
  lemma CaptionMatchShape(s: string, kw: string, i: nat) returns (a: nat, c: nat, q: nat, e: nat)
    requires CaptionAt(s, kw, i).Some?
    ensures i + |kw| < a < c < q < e <= |s| && s[i..i + |kw|] == kw
    ensures forall k :: i + |kw| <= k < a ==> IsSpace(s[k])
    ensures IsDecimalNumber(s[a..c]) && IsSeparator(s[c])
    ensures AllSpaces(s[c + 1..q]) && NoNewline(s[q..e]) && (e == |s| || s[e] == '\n')
    ensures CaptionAt(s, kw, i) == Some(Found(CaptionMatch(s[a..c], Strip(s[q..e])), i, e))
  {
    a := KeywordOfMatch(s, kw, i);
    c := SeparatorOfMatch(s, i, a);
    q, e := TailOfMatch(s, i, a, c);
  }

  /** A caption step that succeeds skips whitespace up to `q` and captures `s[q..e]`, one line up to a line end. */
  lemma TailOfMatch(s: string, i: nat, a: nat, c: nat) returns (q: nat, e: nat)
    requires i < a < c < |s| && CaptionTailAt(s, i, a, c).Some?
    ensures c < q < e <= |s| && AllSpaces(s[c + 1..q]) && NoNewline(s[q..e]) && (e == |s| || s[e] == '\n')
    ensures CaptionTailAt(s, i, a, c) == Some(Found(CaptionMatch(s[a..c], Strip(s[q..e])), i, e))
  {
    var g := MatchTail(s, c + 1, 0).value;
    q, e := g.0, g.1;
    MatchTailSpans(s, c + 1, 0);
  }

  /** A caption match starts with the keyword and whitespace up to a digit at `a`. */
  lemma KeywordOfMatch(s: string, kw: string, i: nat) returns (a: nat)
    requires CaptionAt(s, kw, i).Some?
    ensures i + |kw| < a < |s| && s[i..i + |kw|] == kw && IsDigit(s[a])
    ensures forall k :: i + |kw| <= k < a ==> IsSpace(s[k])
    ensures CaptionAt(s, kw, i) == CaptionNumberAt(s, i, a)
  {
    a := SkipWhile(s, i + |kw|, IsSpace);
  }

  /** A number step that succeeds reads a decimal number up to a separator at `c`. */
  lemma SeparatorOfMatch(s: string, i: nat, a: nat) returns (c: nat)
    requires i < a < |s| && IsDigit(s[a]) && CaptionNumberAt(s, i, a).Some?
    ensures a < c < |s| && IsDecimalNumber(s[a..c]) && IsSeparator(s[c])
    ensures CaptionNumberAt(s, i, a) == CaptionTailAt(s, i, a, c)
  {
    SeparatorNumber(s, a);
    if LongSeparator(s, a).Some? && CaptionTailAt(s, i, a, LongSeparator(s, a).value).Some? {
      c := LongSeparator(s, a).value;
    } else {
      c := ShortSeparator(s, a).value;
    }
  }

  /** `Figure 3. Caption`: a bare number followed by '.' and a space is the number, and the rest the caption. */
  lemma NumberThenDotCaption(s: string)
    requires s == "Figure 3. Caption"
    ensures CaptionAt(s, "Figure", 0) == Some(Found(CaptionMatch("3", "Caption"), 0, 17))
  {
    NumberThenDotLayout(s);
    CaptionAcrossLinesMatches(s, "Figure", 0, 7, 8, 10, 17);
    StripNoOp(s[10..17]);
  }

  /** Where the parts of `Figure 3. Caption` lie. */
  lemma NumberThenDotLayout(s: string)
    requires s == "Figure 3. Caption"
    ensures CaptionHead(s, "Figure", 0, 7, 8) && IsSpace(s[9]) && !IsSpace(s[10])
    ensures forall k :: 10 <= k < 17 ==> s[k] != '\n'
    ensures s[7..8] == "3" && s[10..17] == "Caption"
  {
    assert s[0..6] == "Figure" && IsSpace(s[6]) && s[7..8] == "3" && s[8] == '.';
    DecimalSlice(s, 7, 8, 8);
    assert !IsDigit(s[9]) && !IsSeparator(s[9]);
    var caption := s[10..17];
    assert caption == "Caption";
    forall k | 10 <= k < 17 ensures s[k] != '\n' {
      assert s[k] == caption[k - 10];
    }
  }

  /** `Figure 3:` at the end of its line takes the next line, `Next`, as its caption. */
  lemma CaptionFromNextLine(s: string)
    requires s == "Figure 3:\nNext"
    ensures CaptionAt(s, "Figure", 0) == Some(Found(CaptionMatch("3", "Next"), 0, 14))
  {
    NextLineLayout(s);
    CaptionAcrossLinesMatches(s, "Figure", 0, 7, 8, 10, 14);
    StripNoOp(s[10..14]);
  }

  /** Where the parts of `Figure 3:\nNext` lie. */
  lemma NextLineLayout(s: string)
    requires s == "Figure 3:\nNext"
    ensures CaptionHead(s, "Figure", 0, 7, 8) && IsSpace(s[9]) && !IsSpace(s[10])
    ensures forall k :: 10 <= k < 14 ==> s[k] != '\n'
    ensures s[7..8] == "3" && s[10..14] == "Next"
  {
    assert s[0..6] == "Figure" && IsSpace(s[6]) && s[7..8] == "3" && s[8] == ':';
    DecimalSlice(s, 7, 8, 8);
    var caption := s[10..14];
    assert caption == "Next";
    forall k | 10 <= k < 14 ensures s[k] != '\n' {
      assert s[k] == caption[k - 10];
    }
  }

  /** `Figure 3.5 shows`: the number backtracks to `3`, and `5 shows` is the caption. */
  lemma RunningTextCaption(s: string)
    requires s == "Figure 3.5 shows"
    ensures CaptionAt(s, "Figure", 0) == Some(Found(CaptionMatch("3", "5 shows"), 0, 16))
  {
    RunningTextLayout(s);
    CaptionBacktrackMatches(s, "Figure", 0, 7, 8, 10, 9, 16);
    StripNoOp(s[9..16]);
  }

  /** Where the parts of `Figure 3.5 shows` lie. */
  lemma RunningTextLayout(s: string)
    requires s == "Figure 3.5 shows"
    ensures s[0..6] == "Figure" && IsSpace(s[6]) && IsDigit(s[7]) && s[8] == '.' && IsDigit(s[9])
    ensures !IsDigit(s[10]) && !IsSeparator(s[10]) && !IsSpace(s[9])
    ensures forall k :: 8 < k < 16 ==> s[k] != '\n'
    ensures s[7..8] == "3" && s[9..16] == "5 shows"
  {
    var rest := s[9..16];
    assert rest == "5 shows";
    forall k | 8 < k < 16 ensures s[k] != '\n' {
      assert s[k] == rest[k - 9];
    }
  }

  /** `Figure 3: ` with a line end after it and nothing more: the caption is empty. */
  lemma BlankCaptionAtPageEnd(s: string)
    requires s == "Figure 3: \n"
    ensures CaptionAt(s, "Figure", 0) == Some(Found(CaptionMatch("3", ""), 0, 10))
  {
    BlankCaptionLayout(s);
    CaptionBlankRestMatches(s, "Figure", 0, 7, 8, 9);
  }

  /** Where the parts of `Figure 3: \n` lie. */
  lemma BlankCaptionLayout(s: string)
    requires s == "Figure 3: \n"
    ensures CaptionHead(s, "Figure", 0, 7, 8) && s[7..8] == "3"
    ensures IsSpace(s[9]) && IsSpace(s[10]) && s[9] != '\n' && s[10] == '\n'
  {
    assert s[0..6] == "Figure" && IsSpace(s[6]) && s[7..8] == "3" && s[8] == ':';
    DecimalSlice(s, 7, 8, 8);
  }

  /* --------------------------------------------------------------- equations */

  /** The two spellings of the optional prefix word, in lower case: `eq` is tried first. */
  const ShortPrefix: string := "eq"
  const LongPrefix: string := "equation"

  /**
   * `\(\s*(?:eq|equation)?\s*(\d+\.?\d*)\s*\)` with IGNORECASE, tried at
   * position `i`. The alternation tries `eq` before `equation`, so
   * `(equation 3)` is found only after the `eq` branch fails on `uation`.
   */
  function EquationAt(s: string, i: nat): (r: Option<Found<string>>)
    ensures r.Some? ==> r.value.start == i && i < r.value.end <= |s|
  {
    if i >= |s| || s[i] != '(' then None
    else EquationAfterParen(s, i, SkipWhile(s, i + 1, IsSpace))
  }

  /** `(?:eq|equation)?` at `j`, after the parenthesis and its whitespace. */
  function EquationAfterParen(s: string, i: nat, j: nat): (r: Option<Found<string>>)
    requires i < j <= |s|
    ensures r.Some? ==> r.value.start == i && j < r.value.end <= |s|
  {
    if MatchesIgnoreCase(s, j, ShortPrefix) then
      var viaEq := EquationNumberAt(s, i, SkipWhile(s, j + 2, IsSpace));
      if viaEq.Some? then viaEq
      else if MatchesIgnoreCase(s, j, LongPrefix) then EquationNumberAt(s, i, SkipWhile(s, j + 8, IsSpace))
      else None
    else EquationNumberAt(s, i, j)
  }

  /** `(\d+\.?\d*)\s*\)` at `j`: the number, optional whitespace, the closing parenthesis. */
  function EquationNumberAt(s: string, i: nat, j: nat): (r: Option<Found<string>>)
    requires i < j <= |s|
    ensures r.Some? ==> r.value.start == i && j < r.value.end <= |s|
  {
    if j == |s| || !IsDigit(s[j]) then None
    else
      var c := DecimalEnd(s, j);
      var w := SkipWhile(s, c, IsSpace);
      if w < |s| && s[w] == ')' then Some(Found(s[j..c], i, w + 1)) else None
  }

  /** Where the number `\d+\.?\d*` at `j` ends: the digit run, and a '.' with the digits after it if there is one. */
  function DecimalEnd(s: string, j: nat): (c: nat)
    requires j < |s|
    ensures j <= c <= |s|
  {
    var b := SkipWhile(s, j, IsDigit);
    if b < |s| && s[b] == '.' then SkipWhile(s, b + 1, IsDigit) else b
  }

  /** Every equation number in the page text, left to right (`re.finditer`). */
  function Equations(text: string): (r: seq<Found<string>>)
    ensures forall m :: m in r ==> EquationAt(text, m.start) == Some(m)
    ensures forall k :: 0 <= k < |r| - 1 ==> r[k].end <= r[k + 1].start
  {
    FindIter(k => EquationAt(text, k), |text|, 0)
  }

  /** No equation number is missed: none starts before, between or after the listed ones. */
  lemma EquationsLeftmost(text: string)
    ensures Leftmost(k => EquationAt(text, k), 0, |text|, Equations(text))
  {
    FindIterLeftmost(k => EquationAt(text, k), |text|, 0);
  }

  /** The number step yields a decimal number closed by ')'. */
  lemma EquationNumberFacts(s: string, i: nat, j: nat)
    requires i < j <= |s|
    ensures EquationNumberAt(s, i, j).Some? ==>
              var m := EquationNumberAt(s, i, j).value;
              IsDecimalNumber(m.value) && s[m.end - 1] == ')'
  {
    if EquationNumberAt(s, i, j).Some? {
      var b := SkipWhile(s, j, IsDigit);
      DecimalSlice(s, j, b, DecimalEnd(s, j));
    }
  }

  /** Whichever prefix branch succeeds, it yields a decimal number closed by ')'. */
  lemma AfterParenFacts(s: string, i: nat, j: nat)
    requires i < j <= |s|
    ensures EquationAfterParen(s, i, j).Some? ==>
              var m := EquationAfterParen(s, i, j).value;
              IsDecimalNumber(m.value) && s[m.end - 1] == ')'
  {
    var k: nat :=
      if !MatchesIgnoreCase(s, j, ShortPrefix) then j
      else if EquationNumberAt(s, i, SkipWhile(s, j + 2, IsSpace)).Some? || !MatchesIgnoreCase(s, j, LongPrefix)
      then SkipWhile(s, j + 2, IsSpace)
      else SkipWhile(s, j + 8, IsSpace);
    assert EquationAfterParen(s, i, j) == EquationNumberAt(s, i, k);
    EquationNumberFacts(s, i, k);
  }

  /** Every equation match runs from '(' to ')' around a decimal number. */
  lemma EquationWellFormed(s: string, i: nat)
    requires EquationAt(s, i).Some?
    ensures var m := EquationAt(s, i).value;
            s[i] == '(' && s[m.end - 1] == ')' && IsDecimalNumber(m.value)
  {
    var j := SkipWhile(s, i + 1, IsSpace);
    assert s[i] == '(' && EquationAt(s, i) == EquationAfterParen(s, i, j);
    AfterParenFacts(s, i, j);
  }

  /**
   * A parenthesised number: '(' at `i`, whitespace, an optional prefix
   * word `s[x..y]` (nothing, `eq` or `equation` in any case), whitespace,
   * the number `s[j..c]`, whitespace, and ')' at `w`.
   */
  predicate EquationShape(s: string, i: nat, x: nat, y: nat, j: nat, c: nat, w: nat) {
    && i < x <= y <= j < c <= w < |s| && s[i] == '(' && s[w] == ')'
    && (forall k :: i < k < x ==> IsSpace(s[k]))
    && (y == x || (y == x + 2 && MatchesIgnoreCase(s, x, ShortPrefix)) || (y == x + 8 && MatchesIgnoreCase(s, x, LongPrefix)))
    && (forall k :: y <= k < j ==> IsSpace(s[k]))
    && IsDecimalNumber(s[j..c])
    && (forall k :: c <= k < w ==> IsSpace(s[k]))
  }

  /** The number and the closing parenthesis at `j` are found by the number step. */
  lemma EquationShapeNumber(s: string, i: nat, x: nat, y: nat, j: nat, c: nat, w: nat)
    requires EquationShape(s, i, x, y, j, c, w)
    ensures IsDigit(s[j]) && EquationNumberAt(s, i, j) == Some(Found(s[j..c], i, w + 1))
  {
    assert IsDigit(s[j]) by { assert s[j..c][0] == s[j]; }
    var b := DecimalRun(s, j, c);
    assert DecimalEnd(s, j) == c;
    SkipWhileUntil(s, c, w, IsSpace);
  }

  /** The whitespace after the parenthesis ends at the prefix word, or at the number when there is none. */
  lemma EquationShapeParen(s: string, i: nat, x: nat, y: nat, j: nat, c: nat, w: nat)
    requires EquationShape(s, i, x, y, j, c, w)
    ensures EquationAt(s, i) == EquationAfterParen(s, i, if y == x then j else x)
  {
    var k := if y == x then j else x;
    assert SkipWhile(s, i + 1, IsSpace) == k by {
      if y == x {
        assert IsDigit(s[j]) by { assert s[j..c][0] == s[j]; }
      } else if y == x + 2 && MatchesIgnoreCase(s, x, ShortPrefix) {
        MatchesIgnoreCaseLetter(s, x, ShortPrefix, 0);
      } else {
        MatchesIgnoreCaseLetter(s, x, LongPrefix, 0);
      }
      assert forall m :: i + 1 <= m < k ==> IsSpace(s[m]);
      assert !IsSpace(s[k]);
      SkipWhileUntil(s, i + 1, k, IsSpace);
    }
  }

  /** After `equation`, the `eq` branch fails on the `u`, and the `equation` branch goes on from `x + 8`. */
  lemma EquationLongPrefix(s: string, i: nat, x: nat, j: nat)
    requires i < x && MatchesIgnoreCase(s, x, LongPrefix) && x + 8 <= j <= |s|
    requires SkipWhile(s, x + 8, IsSpace) == j
    ensures EquationAfterParen(s, i, x) == EquationNumberAt(s, i, j)
  {
    assert MatchesIgnoreCase(s, x, ShortPrefix) by {
      assert ToLower(s[x + 0]) == LongPrefix[0];
      assert ToLower(s[x + 1]) == LongPrefix[1];
    }
    MatchesIgnoreCaseLetter(s, x, LongPrefix, 2);
    SkipWhileUntil(s, x + 2, x + 2, IsSpace);
    assert EquationNumberAt(s, i, x + 2).None?;
  }

  /** Without a prefix word, the number step runs at the number itself. */
  lemma NoPrefixStep(s: string, i: nat, j: nat)
    requires i < j < |s| && IsDigit(s[j])
    ensures EquationAfterParen(s, i, j) == EquationNumberAt(s, i, j)
  {
    assert !MatchesIgnoreCase(s, j, ShortPrefix) by {
      assert ToLower(s[j + 0]) == s[j] != ShortPrefix[0];
    }
  }

  /** After `eq` and whitespace up to a number at `j`, the `eq` branch succeeds with that number. */
  lemma ShortPrefixStep(s: string, i: nat, x: nat, j: nat)
    requires i < x && x + 2 <= j <= |s| && MatchesIgnoreCase(s, x, ShortPrefix)
    requires SkipWhile(s, x + 2, IsSpace) == j && EquationNumberAt(s, i, j).Some?
    ensures EquationAfterParen(s, i, x) == EquationNumberAt(s, i, j)
  {
  }

  /** The optional prefix word is skipped, with the whitespace after it, up to the number. */
  lemma EquationShapePrefix(s: string, i: nat, x: nat, y: nat, j: nat, c: nat, w: nat)
    requires EquationShape(s, i, x, y, j, c, w)
    ensures EquationAfterParen(s, i, if y == x then j else x) == EquationNumberAt(s, i, j)
  {
    EquationShapeNumber(s, i, x, y, j, c, w);
    assert !IsSpace(s[j]);
    if y == x {
      NoPrefixStep(s, i, j);
    } else if y == x + 2 && MatchesIgnoreCase(s, x, ShortPrefix) {
      SkipWhileUntil(s, y, j, IsSpace);
      ShortPrefixStep(s, i, x, j);
    } else {
      assert y == x + 8 && MatchesIgnoreCase(s, x, LongPrefix);
      SkipWhileUntil(s, y, j, IsSpace);
      EquationLongPrefix(s, i, x, j);
    }
  }

  /** Every parenthesised number of equation shape is matched at `i` with that number. */
  lemma EquationShapeMatches(s: string, i: nat, x: nat, y: nat, j: nat, c: nat, w: nat)
    requires EquationShape(s, i, x, y, j, c, w)
    ensures EquationAt(s, i) == Some(Found(s[j..c], i, w + 1))
  {
    EquationShapeParen(s, i, x, y, j, c, w);
    EquationShapePrefix(s, i, x, y, j, c, w);
    EquationShapeNumber(s, i, x, y, j, c, w);
  }

  /**
   * Every equation match has equation shape, with the number and the end
   * it reports: the converse of EquationShapeMatches.
   */
  lemma EquationMatchShape(s: string, i: nat) returns (x: nat, y: nat, j: nat, c: nat, w: nat)
    requires EquationAt(s, i).Some?
    ensures EquationShape(s, i, x, y, j, c, w)
    ensures EquationAt(s, i) == Some(Found(s[j..c], i, w + 1))
  {
    x := SkipWhile(s, i + 1, IsSpace);
    assert EquationAt(s, i) == EquationAfterParen(s, i, x);
    x, y, j := PrefixOfMatch(s, i, x);
    c, w := NumberOfMatch(s, i, j);
  }

  /** The prefix branch that succeeds: none, `eq` or `equation`, then whitespace up to the number at `j`. */
  lemma PrefixOfMatch(s: string, i: nat, x0: nat) returns (x: nat, y: nat, j: nat)
    requires i < x0 <= |s| && EquationAfterParen(s, i, x0).Some?
    ensures x == x0 && x <= y <= j <= |s| && (forall k :: y <= k < j ==> IsSpace(s[k]))
    ensures y == x || (y == x + 2 && MatchesIgnoreCase(s, x, ShortPrefix)) || (y == x + 8 && MatchesIgnoreCase(s, x, LongPrefix))
    ensures EquationAfterParen(s, i, x) == EquationNumberAt(s, i, j)
  {
    x := x0;
    if !MatchesIgnoreCase(s, x, ShortPrefix) {
      y, j := x, x;
      assert EquationAfterParen(s, i, x) == EquationNumberAt(s, i, j);
    } else {
      var afterEq := SkipWhile(s, x + 2, IsSpace);
      if EquationNumberAt(s, i, afterEq).Some? {
        y, j := x + 2, afterEq;
        assert EquationAfterParen(s, i, x) == EquationNumberAt(s, i, j);
      } else {
        assert MatchesIgnoreCase(s, x, LongPrefix);
        y := x + 8;
        j := SkipWhile(s, y, IsSpace);
        assert EquationAfterParen(s, i, x) == EquationNumberAt(s, i, j);
      }
    }
  }

  /** A number step that succeeds reads a decimal number `s[j..c]`, whitespace, and ')' at `w`. */
  lemma NumberOfMatch(s: string, i: nat, j: nat) returns (c: nat, w: nat)
    requires i < j <= |s| && EquationNumberAt(s, i, j).Some?
    ensures j < c <= w < |s| && s[w] == ')' && IsDecimalNumber(s[j..c])
    ensures forall k :: c <= k < w ==> IsSpace(s[k])
    ensures EquationNumberAt(s, i, j) == Some(Found(s[j..c], i, w + 1))
  {
    c := DecimalEnd(s, j);
    w := SkipWhile(s, c, IsSpace);
    var b := SkipWhile(s, j, IsDigit);
    DecimalSlice(s, j, b, c);
  }

  /** A year in parentheses, such as `(2023)`, counts as an equation number. */
  lemma YearIsEquation()
    ensures EquationAt("(2023)", 0) == Some(Found("2023", 0, 6))
  {
    var s := "(2023)";
    assert s[1..5] == "2023";
    DecimalSlice(s, 1, 5, 5);
    EquationShapeMatches(s, 0, 1, 1, 1, 5, 5);
  }
}
