/**
 * The character classes and the `str` operations of Python that both
 * classifiers rely on: whitespace, digits, `strip`, `split`, `replace`,
 * the `in` substring test and `int` on a digit string.
 */
module Text {

  /** Python's whitespace: `str.isspace`, which is also what `\s` and `strip()` use. */
  predicate IsSpace(c: char) {
    var n := c as int;
    9 <= n <= 13 || 28 <= n <= 32 || n == 0x85 || n == 0xA0 || n == 0x1680
    || 0x2000 <= n <= 0x200A || n == 0x2028 || n == 0x2029 || n == 0x202F
    || n == 0x205F || n == 0x3000
  }

  predicate IsDigit(c: char) { '0' <= c <= '9' }

  predicate IsUpper(c: char) { 'A' <= c <= 'Z' }

  /** The letters of the class `[IVXLC]`. */
  predicate IsRoman(c: char) { c == 'I' || c == 'V' || c == 'X' || c == 'L' || c == 'C' }

  /** The class `[.:]` that ends a chapter, figure or table number. */
  predicate IsSeparator(c: char) { c == '.' || c == ':' }

  function ToLower(c: char): char {
    if 'A' <= c <= 'Z' then (c as int + 32) as char else c
  }

  predicate AllSpaces(s: string) { forall k :: 0 <= k < |s| ==> IsSpace(s[k]) }

  predicate AllDigits(s: string) { forall k :: 0 <= k < |s| ==> IsDigit(s[k]) }

  predicate AllRoman(s: string) { forall k :: 0 <= k < |s| ==> IsRoman(s[k]) }

  predicate NoNewline(s: string) { forall k :: 0 <= k < |s| ==> s[k] != '\n' }

  predicate StartsWith(s: string, prefix: string) {
    |prefix| <= |s| && s[..|prefix|] == prefix
  }

  /** Python's `sub in s`. */
  predicate Contains(s: string, sub: string)
    decreases |s|
  {
    StartsWith(s, sub) || (|s| > 0 && Contains(s[1..], sub))
  }

  /** `s[i..]` starts with the lower-case `word`, compared case-insensitively. */
  predicate MatchesIgnoreCase(s: string, i: nat, word: string) {
    i + |word| <= |s| && forall k :: 0 <= k < |word| ==> ToLower(s[i + k]) == word[k]
  }

  /** A character that folds to a lower-case ASCII letter is neither whitespace nor a digit. */
  lemma MatchesIgnoreCaseLetter(s: string, i: nat, word: string, k: nat)
    requires MatchesIgnoreCase(s, i, word) && k < |word| && 'a' <= word[k] <= 'z'
    ensures !IsSpace(s[i + k]) && !IsDigit(s[i + k])
  {
    assert ToLower(s[i + k]) == word[k];
  }

  /** The end of the longest run of characters satisfying `p` that starts at `i`. */
  function SkipWhile(s: string, i: nat, p: char -> bool): (j: nat)
    requires i <= |s|
    ensures i <= j <= |s|
    ensures forall k :: i <= k < j ==> p(s[k])
    ensures j == |s| || !p(s[j])
    decreases |s| - i
  {
    if i == |s| || !p(s[i]) then i else SkipWhile(s, i + 1, p)
  }

  /** A run of `p`-characters from `i` to `j` not followed by another one is what `SkipWhile` skips. */
  lemma {:induction false} SkipWhileUntil(s: string, i: nat, j: nat, p: char -> bool)
    requires i <= j <= |s|
    requires forall k :: i <= k < j ==> p(s[k])
    requires j == |s| || !p(s[j])
    ensures SkipWhile(s, i, p) == j
    decreases j - i
  {
    if i < j {
      SkipWhileUntil(s, i + 1, j, p);
    }
  }

  /** Python's `s.strip()`: leading and trailing whitespace removed. */
  function Strip(s: string): (r: string)
    ensures |r| <= |s|
    ensures r == [] || (!IsSpace(r[0]) && !IsSpace(r[|r| - 1]))
    decreases |s|
  {
    if s == [] then []
    else if IsSpace(s[0]) then Strip(s[1..])
    else if IsSpace(s[|s| - 1]) then Strip(s[..|s| - 1])
    else s
  }

  /** Every character `strip` keeps comes from `s`. */
  lemma {:induction false} StripChars(s: string)
    ensures forall c :: c in Strip(s) ==> c in s
    decreases |s|
  {
    if s != [] {
      if IsSpace(s[0]) {
        StripChars(s[1..]);
        assert s == [s[0]] + s[1..];
      } else if IsSpace(s[|s| - 1]) {
        StripChars(s[..|s| - 1]);
        assert s == s[..|s| - 1] + [s[|s| - 1]];
      }
    }
  }

  /** A stretch of whitespace, seen as a slice. */
  lemma AllSpacesSlice(s: string, i: nat, j: nat)
    requires i <= j <= |s| && forall k :: i <= k < j ==> IsSpace(s[k])
    ensures AllSpaces(s[i..j])
  {
    forall k | 0 <= k < j - i ensures IsSpace(s[i..j][k]) { assert s[i..j][k] == s[i + k]; }
  }

  lemma AllSpacesSuffix(s: string, i: nat)
    requires AllSpaces(s) && i <= |s|
    ensures AllSpaces(s[i..])
  {
    forall k | 0 <= k < |s| - i ensures IsSpace(s[i..][k]) { assert s[i..][k] == s[i + k]; }
  }

  /** Leading whitespace does not change the result of `strip`. */
  lemma {:induction false} StripDropsLeadingSpaces(ws: string, t: string)
    requires AllSpaces(ws)
    ensures Strip(ws + t) == Strip(t)
    decreases |ws|
  {
    if ws != [] {
      assert IsSpace(ws[0]);
      assert (ws + t)[0] == ws[0];
      assert (ws + t)[1..] == ws[1..] + t;
      AllSpacesSuffix(ws, 1);
      StripDropsLeadingSpaces(ws[1..], t);
    } else {
      assert ws + t == t;
    }
  }

  /** A string made only of whitespace strips to the empty string. */
  lemma {:induction false} StripAllSpaces(s: string)
    requires AllSpaces(s)
    ensures Strip(s) == []
    decreases |s|
  {
    if s != [] {
      AllSpacesSuffix(s, 1);
      StripAllSpaces(s[1..]);
    }
  }

  /** A string without surrounding whitespace is its own `strip`. */
  lemma StripNoOp(s: string)
    requires s == [] || (!IsSpace(s[0]) && !IsSpace(s[|s| - 1]))
    ensures Strip(s) == s
  {
  }

  /** The inverse of `Split`: the parts with the separator between each two of them. */
  function Join(parts: seq<string>, sep: char): string
    decreases |parts|
  {
    if |parts| == 0 then []
    else if |parts| == 1 then parts[0]
    else parts[0] + [sep] + Join(parts[1..], sep)
  }

  /** Python's `s.split(sep)` for a one-character separator: empty parts are kept. */
  function Split(s: string, sep: char): (parts: seq<string>)
    ensures |parts| >= 1
    ensures forall k :: 0 <= k < |parts| ==> sep !in parts[k]
    ensures Join(parts, sep) == s
    decreases |s|
  {
    var i := SkipWhile(s, 0, c => c != sep);
    if i == |s| then [s]
    else
      var rest := Split(s[i + 1..], sep);
      var parts := [s[..i]] + rest;
      assert parts[1..] == rest;
      assert s == s[..i] + [sep] + s[i + 1..];
      parts
  }

  /** A string splits at the first occurrence of the separator. */
  lemma SplitAt(s: string, sep: char, i: nat)
    requires i < |s| && s[i] == sep && forall k :: 0 <= k < i ==> s[k] != sep
    ensures Split(s, sep) == [s[..i]] + Split(s[i + 1..], sep)
  {
    SkipWhileUntil(s, 0, i, c => c != sep);
  }

  /** A string without the separator splits into itself alone. */
  lemma SplitWithoutSeparator(s: string, sep: char)
    requires sep !in s
    ensures Split(s, sep) == [s]
  {
  }

  /** Python's `s.replace(target, replacement)` for single characters. */
  function ReplaceChar(s: string, target: char, replacement: char): (r: string)
  {
    seq(|s|, k requires 0 <= k < |s| => if s[k] == target then replacement else s[k])
  }

  /** Python's `int(ds)` on a string of ASCII digits. */
  function DigitsValue(ds: string): nat
    requires AllDigits(ds)
    decreases |ds|
  {
    if ds == [] then 0
    else 10 * DigitsValue(ds[..|ds| - 1]) + (ds[|ds| - 1] as int - '0' as int)
  }

  function Max(a: int, b: int): int { if a < b then b else a }

  function Min(a: int, b: int): int { if a < b then a else b }
}
