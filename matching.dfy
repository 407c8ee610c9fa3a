/**
 * The pieces of Python's `re` behaviour shared by the hand-written matchers:
 * `re.finditer` over an anchored matcher, and the trailing `\s*(.+)` /
 * `\s+(.+)` of the heading and caption patterns, with the backtracking
 * that Python performs when the rest of the text is blank.
 */
module Matching {
  import opened Wrappers
  import opened Text

  /** One match of a pattern: the value it captures and the span `[start, end)` it covers. */
  datatype Found<T> = Found(value: T, start: nat, end: nat)

  /** `at(i)` is the match that starts at position `i` of a text of length `limit`, if any. */
  ghost predicate Anchored<T>(at: nat -> Option<Found<T>>, limit: nat) {
    forall i: nat :: at(i).Some? ==> at(i).value.start == i && i < at(i).value.end <= limit
  }

  /** No match starts anywhere in `[lo, hi)`. */
  ghost predicate MatchFree<T>(at: nat -> Option<Found<T>>, lo: nat, hi: nat) {
    forall k: nat :: lo <= k < hi ==> at(k).None?
  }

  /**
   * `re.finditer`: try every start position from `pos` on, left to right;
   * after a match, resume the search where that match ended.
   */
  function FindIter<T>(at: nat -> Option<Found<T>>, limit: nat, pos: nat): (r: seq<Found<T>>)
    requires Anchored(at, limit)
    ensures forall m :: m in r ==> pos <= m.start && at(m.start) == Some(m)
    ensures forall k :: 0 <= k < |r| - 1 ==> r[k].end <= r[k + 1].start
    decreases limit - pos
  {
    if pos >= limit then []
    else
      match at(pos)
      case None => FindIter(at, limit, pos + 1)
      case Some(m) =>
        var rest := FindIter(at, limit, m.end);
        assert forall k :: 0 < k < |[m] + rest| ==> ([m] + rest)[k] == rest[k - 1];
        [m] + rest
  }

  /**
   * `r` lists the leftmost matches from `pos` on: no match starts before
   * the first one, between two consecutive ones, or after the last one;
   * with nothing listed, none starts anywhere from `pos` on.
   */
  ghost predicate Leftmost<T>(at: nat -> Option<Found<T>>, pos: nat, limit: nat, r: seq<Found<T>>) {
    && (r == [] ==> MatchFree(at, pos, limit))
    && (r != [] ==> MatchFree(at, pos, r[0].start) && MatchFree(at, r[|r| - 1].end, limit))
    && (forall k :: 0 <= k < |r| - 1 ==> MatchFree(at, r[k].end, r[k + 1].start))
  }

  /** A position without a match in front of a leftmost list keeps it leftmost. */
  lemma LeftmostSkip<T>(at: nat -> Option<Found<T>>, pos: nat, limit: nat, r: seq<Found<T>>)
    requires at(pos).None? && Leftmost(at, pos + 1, limit, r)
    ensures Leftmost(at, pos, limit, r)
  {
    if r == [] {
      assert MatchFree(at, pos, limit);
    } else {
      assert MatchFree(at, pos, r[0].start);
    }
  }

  /** A match put in front of the leftmost list from its end gives a leftmost list. */
  lemma LeftmostTake<T>(at: nat -> Option<Found<T>>, m: Found<T>, limit: nat, rest: seq<Found<T>>)
    requires Leftmost(at, m.end, limit, rest)
    ensures Leftmost(at, m.start, limit, [m] + rest)
  {
    var r := [m] + rest;
    assert r[|r| - 1] == if rest == [] then m else rest[|rest| - 1];
    forall k | 0 <= k < |r| - 1 ensures MatchFree(at, r[k].end, r[k + 1].start) {
      if k > 0 {
        assert r[k] == rest[k - 1] && r[k + 1] == rest[k];
      }
    }
  }

  /** The matches `FindIter` lists are the leftmost ones. */
  lemma {:induction false} FindIterLeftmost<T>(at: nat -> Option<Found<T>>, limit: nat, pos: nat)
    requires Anchored(at, limit)
    ensures Leftmost(at, pos, limit, FindIter(at, limit, pos))
    decreases limit - pos
  {
    if pos < limit {
      if at(pos).None? {
        FindIterLeftmost(at, limit, pos + 1);
        LeftmostSkip(at, pos, limit, FindIter(at, limit, pos + 1));
      } else {
        var m := at(pos).value;
        FindIterLeftmost(at, limit, m.end);
        LeftmostTake(at, m, limit, FindIter(at, limit, m.end));
      }
    }
  }

  /** Where `.+` starting at `i` stops: the first newline at or after `i`, or the end. */
  function LineEnd(s: string, i: nat): (e: nat)
    requires i <= |s|
    ensures i <= e <= |s| && NoNewline(s[i..e]) && (e == |s| || s[e] == '\n')
  {
    SkipWhile(s, i, c => c != '\n')
  }

  /** The last position in `[lo, hi)` that does not hold a newline. */
  function LastNonNewline(s: string, lo: nat, hi: nat): (r: Option<nat>)
    requires hi <= |s|
    ensures r.Some? ==> lo <= r.value < hi && s[r.value] != '\n'
    ensures r.Some? ==> forall k :: r.value < k < hi ==> s[k] == '\n'
    ensures r.None? ==> forall k :: lo <= k < hi ==> s[k] == '\n'
    decreases hi
  {
    if hi <= lo then None
    else if s[hi - 1] != '\n' then Some(hi - 1)
    else LastNonNewline(s, lo, hi - 1)
  }

  /**
   * The pattern tail `\s*(.+)` (minSpaces = 0) or `\s+(.+)` (minSpaces = 1)
   * matched at `p`: the span of the captured group. The whitespace run is
   * greedy; when nothing but whitespace follows, Python gives back the last
   * character of the run that is not a newline, and the group is that one
   * character.
   */
  function MatchTail(s: string, p: nat, minSpaces: nat): (r: Option<(nat, nat)>)
    requires p <= |s|
    ensures r.Some? ==> p + minSpaces <= r.value.0 < r.value.1 <= |s|
    ensures r.Some? ==> r.value.1 == |s| || s[r.value.1] == '\n'
  {
    var q := SkipWhile(s, p, IsSpace);
    if q < |s| then
      if q - p < minSpaces then None
      else
        assert IsSpace('\n');
        Some((q, LineEnd(s, q)))
    else
      match LastNonNewline(s, p + minSpaces, q)
      case None => None
      case Some(k) => Some((k, k + 1))
  }

  /** What the tail skips is whitespace, and the group it captures lies within one line. */
  lemma MatchTailSpans(s: string, p: nat, minSpaces: nat)
    requires p <= |s| && MatchTail(s, p, minSpaces).Some?
    ensures AllSpaces(s[p..MatchTail(s, p, minSpaces).value.0])
    ensures NoNewline(s[MatchTail(s, p, minSpaces).value.0..MatchTail(s, p, minSpaces).value.1])
  {
    var q := SkipWhile(s, p, IsSpace);
    var g := MatchTail(s, p, minSpaces).value;
    if q < |s| {
      assert IsSpace('\n');
      AllSpacesSlice(s, p, q);
    } else {
      AllSpacesSlice(s, p, g.0);
    }
  }

  /**
   * On a text without newlines the tail matches exactly when at least
   * `minSpaces` whitespace characters and then one more character follow,
   * and the stripped group is the stripped rest of the text.
   */
  lemma TailOfLine(s: string, p: nat, minSpaces: nat)
    requires p <= |s| && NoNewline(s[p..])
    ensures MatchTail(s, p, minSpaces).Some?
            <==> p + minSpaces < |s| && AllSpaces(s[p..p + minSpaces])
    ensures MatchTail(s, p, minSpaces).Some? ==>
              var g := MatchTail(s, p, minSpaces).value;
              g.1 == |s| && Strip(s[g.0..g.1]) == Strip(s[p..])
  {
    assert forall k :: p <= k < |s| ==> s[k] != '\n' by {
      forall k | p <= k < |s| ensures s[k] != '\n' { assert s[k] == s[p..][k - p]; }
    }
    var q := SkipWhile(s, p, IsSpace);
    if q < |s| {
      TailBeforeEnd(s, p, q, minSpaces);
    } else if p + minSpaces < |s| {
      TailAllBlank(s, p, minSpaces);
    }
  }

  lemma TailBeforeEnd(s: string, p: nat, q: nat, minSpaces: nat)
    requires p <= q < |s| && q == SkipWhile(s, p, IsSpace)
    requires forall k :: p <= k < |s| ==> s[k] != '\n'
    ensures MatchTail(s, p, minSpaces).Some?
            <==> p + minSpaces < |s| && AllSpaces(s[p..p + minSpaces])
    ensures MatchTail(s, p, minSpaces).Some? ==>
              var g := MatchTail(s, p, minSpaces).value;
              g.1 == |s| && Strip(s[g.0..g.1]) == Strip(s[p..])
  {
    if q - p >= minSpaces {
      TailAfterSpaces(s, p, q, minSpaces);
    } else {
      assert MatchTail(s, p, minSpaces).None?;
      assert !IsSpace(s[q]);
      if p + minSpaces < |s| {
        assert s[p..p + minSpaces][q - p] == s[q];
      }
    }
  }

  lemma TailAfterSpaces(s: string, p: nat, q: nat, minSpaces: nat)
    requires p <= q < |s| && q == SkipWhile(s, p, IsSpace) && q - p >= minSpaces
    requires forall k :: p <= k < |s| ==> s[k] != '\n'
    ensures MatchTail(s, p, minSpaces) == Some((q, |s|))
    ensures p + minSpaces < |s| && AllSpaces(s[p..p + minSpaces])
    ensures Strip(s[q..|s|]) == Strip(s[p..])
  {
    assert MatchTail(s, p, minSpaces) == Some((q, |s|)) by {
      SkipWhileUntil(s, q, |s|, c => c != '\n');
      assert LineEnd(s, q) == |s|;
    }
    assert AllSpaces(s[p..p + minSpaces]) by {
      AllSpacesSlice(s, p, p + minSpaces);
    }
    assert Strip(s[q..|s|]) == Strip(s[p..]) by {
      AllSpacesSlice(s, p, q);
      assert s[p..] == s[p..q] + s[q..|s|];
      StripDropsLeadingSpaces(s[p..q], s[q..|s|]);
    }
  }

  /**
   * When the text ends in whitespace without a newline after `p`, the
   * greedy run gives back one character: the group is the last character
   * of the text, and both it and the rest strip to nothing.
   */
  lemma TailAllBlank(s: string, p: nat, minSpaces: nat)
    requires p + minSpaces < |s| && SkipWhile(s, p, IsSpace) == |s|
    requires forall k :: p <= k < |s| ==> s[k] != '\n'
    ensures MatchTail(s, p, minSpaces).Some? && AllSpaces(s[p..p + minSpaces])
    ensures var g := MatchTail(s, p, minSpaces).value;
            g.0 == |s| - 1 && g.1 == |s| && Strip(s[g.0..g.1]) == Strip(s[p..])
  {
    assert MatchTail(s, p, minSpaces) == Some((|s| - 1, |s|)) by {
      assert LastNonNewline(s, p + minSpaces, |s|) == Some(|s| - 1);
    }
    assert AllSpaces(s[p..p + minSpaces]) by {
      AllSpacesSlice(s, p, p + minSpaces);
    }
    assert Strip(s[p..]) == [] by {
      AllSpacesSlice(s, p, |s|);
      assert s[p..|s|] == s[p..];
      StripAllSpaces(s[p..]);
    }
    assert Strip(s[|s| - 1..|s|]) == [] by {
      AllSpacesSlice(s, |s| - 1, |s|);
      StripAllSpaces(s[|s| - 1..|s|]);
    }
  }

  /** `\s*(.+)` fails exactly when nothing but newlines follows `p`: `.` matches anything else. */
  lemma TailFails(s: string, p: nat)
    requires p <= |s|
    ensures MatchTail(s, p, 0).None? <==> forall k :: p <= k < |s| ==> s[k] == '\n'
  {
    var q := SkipWhile(s, p, IsSpace);
    if forall k :: p <= k < |s| ==> s[k] == '\n' {
      assert IsSpace('\n');
      SkipWhileUntil(s, p, |s|, IsSpace);
      assert LastNonNewline(s, p, q).None?;
    }
  }

  /**
   * When only whitespace follows `p` and `k` is its last character that
   * is not a newline, the greedy run gives back `s[k]`: the group is that
   * one character, it ends at a line end, and it strips to nothing.
   */
  lemma TailBlankRest(s: string, p: nat, k: nat)
    requires p <= k < |s| && s[k] != '\n' && forall j :: p <= j < |s| ==> IsSpace(s[j])
    requires forall j :: k < j < |s| ==> s[j] == '\n'
    ensures MatchTail(s, p, 0) == Some((k, k + 1)) && (k + 1 == |s| || s[k + 1] == '\n')
    ensures Strip(s[k..k + 1]) == []
  {
    SkipWhileUntil(s, p, |s|, IsSpace);
    assert LastNonNewline(s, p, |s|) == Some(k);
    AllSpacesSlice(s, k, k + 1);
    StripAllSpaces(s[k..k + 1]);
  }

  /**
   * When whitespace, newlines included, runs from `p` up to a character
   * `t` that is not whitespace, `\s*(.+)` at `p` captures from `t` to the
   * end `e` of the line `t` is on: a blank rest of a line leads the group
   * onto the next line with text.
   */
  lemma TailFromFirstText(s: string, p: nat, t: nat, e: nat)
    requires p <= t < e <= |s| && !IsSpace(s[t]) && forall k :: p <= k < t ==> IsSpace(s[k])
    requires (e == |s| || s[e] == '\n') && forall k :: t <= k < e ==> s[k] != '\n'
    ensures MatchTail(s, p, 0) == Some((t, e))
  {
    SkipWhileUntil(s, p, t, IsSpace);
    SkipWhileUntil(s, t, e, c => c != '\n');
  }

  /**
   * When the rest of the line from `p` to its end `e` holds something other
   * than whitespace (at `t`), `\s*(.+)` at `p` captures up to `e`, and the
   * stripped group is the stripped rest of the line.
   */
  lemma TailWithinLine(s: string, p: nat, t: nat, e: nat)
    requires p <= t < e <= |s| && (e == |s| || s[e] == '\n') && !IsSpace(s[t])
    requires forall k :: p <= k < e ==> s[k] != '\n'
    ensures SkipWhile(s, p, IsSpace) <= t
    ensures MatchTail(s, p, 0) == Some((SkipWhile(s, p, IsSpace), e))
    ensures Strip(s[SkipWhile(s, p, IsSpace)..e]) == Strip(s[p..e])
  {
    var q := SkipWhile(s, p, IsSpace);
    assert q <= t;
    assert LineEnd(s, q) == e by {
      SkipWhileUntil(s, q, e, c => c != '\n');
    }
    AllSpacesSlice(s, p, q);
    assert s[p..e] == s[p..q] + s[q..e];
    StripDropsLeadingSpaces(s[p..q], s[q..e]);
  }
}
