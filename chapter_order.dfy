/**
 * `results.sort(key=lambda x: x[0])` in phraseFind2.py: Python's sort is
 * stable, so the results come out ordered by chapter number with equal
 * numbers in the order they were found. The sort is a library call; it is
 * modelled by an insertion sort that has exactly that contract.
 */
module ChapterOrder {
  import opened Wrappers

  /** One row of `find_chapters_with_details`: number, 0-based page index, font size, context, matched text. */
  datatype ChapterResult = ChapterResult(number: nat, page: nat, fontSize: Option<real>, context: string, matched: string)

  predicate SortedByNumber(rs: seq<ChapterResult>) {
    forall i, j :: 0 <= i < j < |rs| ==> rs[i].number <= rs[j].number
  }

  /** The results with chapter number `n`, in their order. */
  function WithNumber(rs: seq<ChapterResult>, n: nat): seq<ChapterResult>
    decreases |rs|
  {
    if rs == [] then []
    else WithNumber(rs[..|rs| - 1], n) + (if rs[|rs| - 1].number == n then [rs[|rs| - 1]] else [])
  }

  /** `x` placed after every element whose number is not greater than its own. */
  function Insert(sorted: seq<ChapterResult>, x: ChapterResult): (r: seq<ChapterResult>)
    ensures |r| == |sorted| + 1
    decreases |sorted|
  {
    if sorted == [] || sorted[|sorted| - 1].number <= x.number then sorted + [x]
    else Insert(sorted[..|sorted| - 1], x) + [sorted[|sorted| - 1]]
  }

  /** The stable sort by chapter number. */
  function SortByNumber(rs: seq<ChapterResult>): (r: seq<ChapterResult>)
    ensures |r| == |rs|
    decreases |rs|
  {
    if rs == [] then [] else Insert(SortByNumber(rs[..|rs| - 1]), rs[|rs| - 1])
  }

  lemma {:induction false} WithNumberConcat(a: seq<ChapterResult>, b: seq<ChapterResult>, n: nat)
    ensures WithNumber(a + b, n) == WithNumber(a, n) + WithNumber(b, n)
    decreases |b|
  {
    if b == [] {
      assert a + b == a;
    } else {
      var b' := b[..|b| - 1];
      assert (a + b)[..|a + b| - 1] == a + b';
      WithNumberConcat(a, b', n);
    }
  }

  lemma {:induction false} InsertMultiset(sorted: seq<ChapterResult>, x: ChapterResult)
    ensures multiset(Insert(sorted, x)) == multiset(sorted) + multiset{x}
    decreases |sorted|
  {
    if !(sorted == [] || sorted[|sorted| - 1].number <= x.number) {
      var init := sorted[..|sorted| - 1];
      InsertMultiset(init, x);
      assert sorted == init + [sorted[|sorted| - 1]];
    }
  }

  /** The largest number among the results and `x`. */
  function TopNumber(sorted: seq<ChapterResult>, x: ChapterResult): nat {
    if sorted == [] || sorted[|sorted| - 1].number <= x.number then x.number else sorted[|sorted| - 1].number
  }

  lemma {:induction false} InsertSorted(sorted: seq<ChapterResult>, x: ChapterResult)
    requires SortedByNumber(sorted)
    ensures SortedByNumber(Insert(sorted, x))
    ensures forall k :: 0 <= k < |Insert(sorted, x)| ==> Insert(sorted, x)[k].number <= TopNumber(sorted, x)
    decreases |sorted|
  {
    var r := Insert(sorted, x);
    if sorted == [] || sorted[|sorted| - 1].number <= x.number {
      assert r == sorted + [x];
      assert forall k :: 0 <= k < |sorted| ==> r[k] == sorted[k];
    } else {
      var init := sorted[..|sorted| - 1];
      var last := sorted[|sorted| - 1];
      assert SortedByNumber(init) by {
        assert forall k :: 0 <= k < |init| ==> init[k] == sorted[k];
      }
      InsertSorted(init, x);
      var r' := Insert(init, x);
      assert r == r' + [last];
      assert TopNumber(init, x) <= last.number by {
        if init != [] {
          assert init[|init| - 1] == sorted[|sorted| - 2];
        }
      }
      assert forall k :: 0 <= k < |r| ==> r[k] == if k < |r'| then r'[k] else last;
    }
  }

  lemma WithNumberSingle(x: ChapterResult, n: nat)
    ensures WithNumber([x], n) == if x.number == n then [x] else []
  {
    assert [x][..0] == [];
  }

  lemma {:induction false} InsertStable(sorted: seq<ChapterResult>, x: ChapterResult, n: nat)
    ensures WithNumber(Insert(sorted, x), n) == WithNumber(sorted, n) + WithNumber([x], n)
    decreases |sorted|
  {
    if sorted == [] || sorted[|sorted| - 1].number <= x.number {
      assert Insert(sorted, x) == sorted + [x];
      WithNumberConcat(sorted, [x], n);
    } else {
      InsertStable(sorted[..|sorted| - 1], x, n);
      InsertStableStep(sorted, x, n);
    }
  }

  /** `x` moves before a last element with a larger number, which cannot share its number. */
  lemma InsertStableStep(sorted: seq<ChapterResult>, x: ChapterResult, n: nat)
    requires sorted != [] && sorted[|sorted| - 1].number > x.number
    requires var init := sorted[..|sorted| - 1];
             WithNumber(Insert(init, x), n) == WithNumber(init, n) + WithNumber([x], n)
    ensures WithNumber(Insert(sorted, x), n) == WithNumber(sorted, n) + WithNumber([x], n)
  {
    var init := sorted[..|sorted| - 1];
    var last := sorted[|sorted| - 1];
    var wx := WithNumber([x], n);
    var wl := WithNumber([last], n);
    var wi := WithNumber(init, n);
    assert WithNumber(Insert(sorted, x), n) == WithNumber(Insert(init, x), n) + wl by {
      assert Insert(sorted, x) == Insert(init, x) + [last];
      WithNumberConcat(Insert(init, x), [last], n);
    }
    assert WithNumber(sorted, n) == wi + wl by {
      assert sorted == init + [last];
      WithNumberConcat(init, [last], n);
    }
    assert wx + wl == wl + wx by {
      WithNumberSingle(x, n);
      WithNumberSingle(last, n);
    }
    assert (wi + wx) + wl == wi + (wx + wl) && wi + (wl + wx) == (wi + wl) + wx;
  }

  /** The sorted results are ordered by chapter number and are the same results, each as often. */
  lemma {:induction false} SortByNumberSorted(rs: seq<ChapterResult>)
    ensures SortedByNumber(SortByNumber(rs))
    ensures multiset(SortByNumber(rs)) == multiset(rs)
    decreases |rs|
  {
    if rs != [] {
      var init := rs[..|rs| - 1];
      SortByNumberSorted(init);
      InsertSorted(SortByNumber(init), rs[|rs| - 1]);
      InsertMultiset(SortByNumber(init), rs[|rs| - 1]);
      assert rs == init + [rs[|rs| - 1]];
    }
  }

  /** Stability: the results with any one chapter number keep the order in which they were found. */
  lemma {:induction false} SortByNumberStable(rs: seq<ChapterResult>, n: nat)
    ensures WithNumber(SortByNumber(rs), n) == WithNumber(rs, n)
    decreases |rs|
  {
    if rs != [] {
      var init := rs[..|rs| - 1];
      var x := rs[|rs| - 1];
      SortByNumberStable(init, n);
      InsertStable(SortByNumber(init), x, n);
      WithNumberConcat(init, [x], n);
      assert rs == init + [x];
    }
  }
}
