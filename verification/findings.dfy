/** Members that follow the source as written where it takes a value
    through a reference into the range it is rearranging, with concrete
    inputs on which that goes wrong. The corrected members, which copy the
    value first, are `SortAlgo.NthElement` and
    `SortAlgo.UncheckedInsertionSort`. */
module Findings {
  import opened Ranges
  import SortAlgo
  import AlgoBase

  /** Insertion of `v` into a sorted sequence after every element that is
      not larger than it: one step of `insertion_sort` on `int`s. */
  function InsertAfter(x: seq<int>, v: int): (r: seq<int>)
    ensures multiset(r) == multiset(x) + multiset{v}
    ensures Sorted(x) ==> Sorted(r)
  {
    if |x| == 0 || x[|x| - 1] <= v then x + [v]
    else
      var init, last := x[..|x| - 1], x[|x| - 1];
      assert x == init + [last];
      var t := InsertAfter(init, v);
      InsertBelowLast(init, last, v, t);
      t + [last]
  }

  /** Appending the last element of a sorted `init + [last]` after the
      insertion of a smaller `v` into `init` keeps the order. */
  lemma InsertBelowLast(init: seq<int>, last: int, v: int, t: seq<int>)
    requires v < last && multiset(t) == multiset(init) + multiset{v}
    requires Sorted(init) ==> Sorted(t)
    ensures Sorted(init + [last]) ==> Sorted(t + [last])
  {
    if Sorted(init + [last]) {
      assert init == (init + [last])[..|init|];
      assert AtMost(init + [v], last) by {
        forall i | 0 <= i < |init + [v]|
          ensures (init + [v])[i] <= last
        {
          if i < |init| {
            assert (init + [last])[i] <= (init + [last])[|init|];
          }
        }
      }
      AtMostPerm(init + [v], t, last);
    }
  }

  /** The reference insertion sort: each element in turn inserted after
      the sorted elements before it that are not larger. */
  function InsertionSorted(s: seq<int>): (r: seq<int>)
    ensures Sorted(r)
    ensures multiset(r) == multiset(s)
  {
    if |s| == 0 then []
    else
      assert s == s[..|s| - 1] + [s[|s| - 1]];
      InsertAfter(InsertionSorted(s[..|s| - 1]), s[|s| - 1])
  }

  /** The reference insertion sort is the sorted arrangement, so a sorted
      input is left alone. */
  lemma InsertionSortedIsReference(s: seq<int>)
    ensures InsertionSorted(s) == SortAlgo.SortedOf(s)
    ensures Sorted(s) ==> InsertionSorted(s) == s
  {
    SortAlgo.SortIsReference(s, InsertionSorted(s));
    if Sorted(s) {
      SortAlgo.SortIsReference(s, s);
    }
  }

  /** `median` as written returns a reference: the position of the chosen
      one of three positions. */
  function MedianPos(a: seq<int>, i: nat, j: nat, k: nat): (p: nat)
    requires i < |a| && j < |a| && k < |a|
    ensures p == i || p == j || p == k
    ensures a[p] == SortAlgo.Median(a[i], a[j], a[k])
  {
    if a[i] < a[j] then
      if a[j] < a[k] then j
      else if a[i] < a[k] then k
      else i
    else if a[i] < a[k] then i
    else if a[j] < a[k] then k
    else j
  }

  /** The upward scan of `unchecked_partition`: the first position from
      `f` on whose element is not below `pivot`. It stops at the end of the
      range, where the source would read past it. */
  function ScanUp(a: seq<int>, f: nat, pivot: int): (g: nat)
    requires f <= |a|
    ensures f <= g <= |a|
    decreases |a| - f
  {
    if f < |a| && a[f] < pivot then ScanUp(a, f + 1, pivot) else f
  }

  /** The downward scan, stopping at the front of the range. */
  function ScanDown(a: seq<int>, l: nat, pivot: int): (m: nat)
    requires l < |a|
    ensures m <= l
  {
    if l > 0 && pivot < a[l] then ScanDown(a, l - 1, pivot) else l
  }

  /** The downward scan stops at the first position from `l` down whose
      element is not above the pivot. */
  lemma {:induction false} ScanDownStops(a: seq<int>, l: nat, pivot: int, k: nat)
    requires k <= l < |a| && a[k] <= pivot
    requires forall j :: k < j <= l ==> pivot < a[j]
    ensures ScanDown(a, l, pivot) == k
    decreases l
  {
    if l > k {
      ScanDownStops(a, l - 1, pivot, k);
    }
  }

  /** `unchecked_partition` with the pivot bound to position `p` of the
      range, as `nth_element` calls it: the exchanges may move another value
      into that position, so the pivot changes mid-partition. */
  function PartitionByRef(a: seq<int>, f: nat, l: nat, p: nat): (res: (seq<int>, nat))
    requires p < |a| && f <= l <= |a|
    ensures |res.0| == |a| && res.1 <= |a|
    ensures multiset(res.0) == multiset(a)
    decreases l - f
  {
    var f' := ScanUp(a, f, a[p]);
    if l == 0 then (a, f')
    else
      var l' := ScanDown(a, l - 1, a[p]);
      if !(f' < l') then (a, f')
      else
        AlgoBase.IterSwapInvolution(a, f', l');
        PartitionByRef(AlgoBase.IterSwap(a, f', l'), f' + 1, l', p)
  }

  /** `unchecked_partition` as `intro_sort` calls it, with a copy of the
      pivot value: the loop of `SortAlgo.UncheckedPartition` as a function,
      so that a concrete round can be evaluated. */
  function PartitionByValue(a: seq<int>, f: nat, l: nat, pivot: int): (res: (seq<int>, nat))
    requires f <= l <= |a|
    ensures |res.0| == |a| && res.1 <= |a|
    ensures multiset(res.0) == multiset(a)
    decreases l - f
  {
    var f' := ScanUp(a, f, pivot);
    if l == 0 then (a, f')
    else
      var l' := ScanDown(a, l - 1, pivot);
      if !(f' < l') then (a, f')
      else
        AlgoBase.IterSwapInvolution(a, f', l');
        PartitionByValue(AlgoBase.IterSwap(a, f', l'), f' + 1, l', pivot)
  }

  /** The loop of `nth_element` as written: the pivot is the element the
      median refers to, not a copy of its value. A cut at either end of the
      range, on which the source would not make progress, ends the model. */
  function NthElementByRef(a: seq<int>, first: nat, last: nat, nth: nat): (r: seq<int>)
    requires first <= nth < last <= |a|
    ensures |r| == |a|
    decreases last - first
  {
    if last - first <= 3 then
      var t := InsertionSorted(a[first..last]);
      assert |multiset(t)| == |multiset(a[first..last])|;
      SortAlgo.Splice(a, t, first, last)
    else
      var x := a[first..last];
      var res := PartitionByRef(x, 0, |x|, MedianPos(x, 0, |x| / 2, |x| - 1));
      var a' := SortAlgo.Splice(a, res.0, first, last);
      if res.1 == 0 || res.1 == |x| then a'
      else if first + res.1 <= nth then NthElementByRef(a', first + res.1, last, nth)
      else NthElementByRef(a', first, first + res.1, nth)
  }

  /** The partition of `[0, 2, 1, 0, 1, 0]` around the element at position
      3 exchanges positions 0 and 5 (equal values), then 1 and 3, which
      moves 2 into the pivot position, and cuts at 3. */
  lemma PartitionCounterexample()
    ensures PartitionByRef([0, 2, 1, 0, 1, 0], 0, 6, 3) == ([0, 0, 1, 2, 1, 0], 3)
  {
    var a := [0, 2, 1, 0, 1, 0];
    assert a[3] == 0;
    assert ScanUp(a, 0, 0) == 0;
    assert ScanDown(a, 5, 0) == 5;
    assert AlgoBase.IterSwap(a, 0, 5) == a;
    assert PartitionByRef(a, 0, 6, 3) == PartitionByRef(a, 1, 5, 3);
    PartitionSecondSwap();
  }

  lemma PartitionSecondSwap()
    ensures PartitionByRef([0, 2, 1, 0, 1, 0], 1, 5, 3) == ([0, 0, 1, 2, 1, 0], 3)
  {
    var a := [0, 2, 1, 0, 1, 0];
    assert a[3] == 0;
    assert ScanUp(a, 1, 0) == 1;
    assert ScanDown(a, 4, 0) == 3;
    assert AlgoBase.IterSwap(a, 1, 3) == [0, 0, 1, 2, 1, 0];
    assert PartitionByRef(a, 1, 5, 3) == PartitionByRef([0, 0, 1, 2, 1, 0], 2, 3, 3);
    PartitionLastScan();
  }

  lemma PartitionLastScan()
    ensures PartitionByRef([0, 0, 1, 2, 1, 0], 2, 3, 3) == ([0, 0, 1, 2, 1, 0], 3)
  {
    var a := [0, 0, 1, 2, 1, 0];
    assert a[3] == 2;
    assert ScanUp(a, 2, 2) == 3;
    assert ScanDown(a, 2, 2) == 2;
  }

  /** Insertion sorting `[0, 0, 1]` leaves it alone. */
  lemma SmallSortCounterexample()
    ensures InsertionSorted([0, 0, 1]) == [0, 0, 1]
  {
    assert [0, 0, 1][..2] == [0, 0] && [0, 0][..1] == [0] && [0][..0] == [];
    assert InsertionSorted([0]) == [0];
    assert InsertionSorted([0, 0]) == [0, 0];
  }

  /** On `[0, 2, 1, 0, 1, 0]` with `nth == 2` the median refers to position
      3; the second exchange moves 2 there, the partition cuts at 3, and the
      result keeps a 0 after position 2 although the value there is 1. */
  lemma NthElementByRefCounterexample()
    ensures var r := NthElementByRef([0, 2, 1, 0, 1, 0], 0, 6, 2);
      r[5] < r[2]
  {
    NthFirstRound();
    NthLastRound();
  }

  /** The first round cuts at 3, past `nth`, so the range shrinks to its
      first three elements. */
  lemma NthFirstRound()
    ensures NthElementByRef([0, 2, 1, 0, 1, 0], 0, 6, 2) == NthElementByRef([0, 0, 1, 2, 1, 0], 0, 3, 2)
  {
    var a := [0, 2, 1, 0, 1, 0];
    assert a[0..6] == a;
    assert MedianPos(a, 0, 3, 5) == 3;
    PartitionCounterexample();
    SpliceWhole(a, [0, 0, 1, 2, 1, 0]);
  }

  lemma SpliceWhole(a: seq<int>, t: seq<int>)
    ensures SortAlgo.Splice(a, t, 0, |a|) == t
  {
    assert a[..0] == [] && a[|a|..] == [];
  }

  /** The last round insertion-sorts `[0, 0, 1]`, which leaves it alone. */
  lemma NthLastRound()
    ensures var r := NthElementByRef([0, 0, 1, 2, 1, 0], 0, 3, 2);
      r[2] == 1 && r[5] == 0
  {
    var a2 := [0, 0, 1, 2, 1, 0];
    assert a2[0..3] == [0, 0, 1];
    SmallSortCounterexample();
    var r := SortAlgo.Splice(a2, [0, 0, 1], 0, 3);
    assert r[2] == 1 && r[5] == 0;
  }

  /** `unchecked_linear_insert` as `unchecked_insertion_sort` calls it: the
      value is a reference to position `v`, the position the first shift
      overwrites. */
  function LinearInsertByRef(a: seq<int>, last: nat, next: int, v: nat): (r: seq<int>)
    requires v < |a| && last < |a| && next < last
    ensures |r| == |a|
    decreases last
  {
    if next >= 0 && a[v] < a[next] then
      LinearInsertByRef(a[last := a[next]], next, next - 1, v)
    else a[last := a[v]]
  }

  /** `unchecked_insertion_sort` as written, inserting each element from
      position `start` on through a reference to its own position. */
  function UncheckedInsertionSortByRef(a: seq<int>, start: nat): (r: seq<int>)
    requires 0 < start <= |a|
    ensures |r| == |a|
    decreases |a| - start
  {
    if start == |a| then a
    else UncheckedInsertionSortByRef(LinearInsertByRef(a, start, start - 1, start), start + 1)
  }

  /** On `[0, 2, 1]` from position 2 the first shift overwrites the 1 being
      inserted: the result `[0, 2, 2]` is not a permutation of the input. */
  lemma UncheckedInsertionSortByRefCounterexample()
    ensures UncheckedInsertionSortByRef([0, 2, 1], 2) == [0, 2, 2]
    ensures multiset(UncheckedInsertionSortByRef([0, 2, 1], 2)) != multiset([0, 2, 1])
  {
    var a := [0, 2, 1];
    assert a[2 := a[1]] == [0, 2, 2];
    assert LinearInsertByRef([0, 2, 2], 1, 0, 2) == [0, 2, 2];
    assert LinearInsertByRef(a, 2, 1, 2) == [0, 2, 2];
    assert UncheckedInsertionSortByRef([0, 2, 2], 3) == [0, 2, 2];
    assert 1 in multiset(a);
    assert 1 !in multiset([0, 2, 2]);
  }

  // -----------------------------------------------------------------------
  // sort on more than 128 elements

  /** `final_insertion_sort` as written on a range longer than
      `SmallSectionSize`: `insertion_sort`, which copies each value, on the
      first 128 elements, then the by-reference `unchecked_insertion_sort`
      on the rest. */
  function FinalInsertionSortByRef(a: seq<int>): (r: seq<int>)
    requires |a| > SortAlgo.SmallSectionSize
    ensures |r| == |a|
  {
    var n := SortAlgo.SmallSectionSize;
    var head := InsertionSorted(a[..n]);
    assert |multiset(head)| == |multiset(a[..n])|;
    UncheckedInsertionSortByRef(head + a[n..], n)
  }

  /** `[1, 2, ..., 128, 0]`: 129 elements, one more than `SmallSectionSize`. */
  const LongInput: seq<int> := seq(129, i => if i < 128 then i + 1 else 0)

  /** `[0, 2, 3, ..., 128, 1]`: the ends of `LongInput` exchanged. */
  const AfterIntroSort: seq<int> := seq(129, i => if i == 0 then 0 else if i < 128 then i + 1 else 1)

  /** `[0, 2, 3, ..., 128, 128]`: the 1 replaced by a second 128. */
  const AfterSort: seq<int> := seq(129, i => if i == 0 then 0 else if i < 128 then i + 1 else 128)

  /** `intro_sort` on `LongInput` (with `slg2(129) * 2 == 14` rounds
      allowed): the pivot is `median(1, 65, 0) == 1`, the partition
      exchanges the two ends and cuts at 1, and the section from the cut on
      holds only `SmallSectionSize` elements, so no further round runs. */
  lemma IntroSortLongRound()
    ensures SortAlgo.Median(LongInput[0], LongInput[|LongInput| / 2], LongInput[|LongInput| - 1]) == 1
    ensures PartitionByValue(LongInput, 0, |LongInput|, 1) == (AfterIntroSort, 1)
    ensures |AfterIntroSort| - 1 == SortAlgo.SmallSectionSize
  {
    var s, t := LongInput, AfterIntroSort;
    assert s[0] == 1 && s[64] == 65 && s[128] == 0;
    assert ScanUp(s, 0, 1) == 0;
    assert ScanDown(s, 128, 1) == 128;
    var w := AlgoBase.IterSwap(s, 0, 128);
    assert forall i | 0 <= i < 129 :: w[i] == t[i];
    assert w == t;
    assert ScanUp(t, 1, 1) == 1;
    ScanDownStops(t, 127, 1, 0);
    assert PartitionByValue(t, 1, 128, 1) == (t, 1);
  }

  /** The first 128 elements of `AfterIntroSort` are in order. */
  lemma AfterIntroSortHead()
    ensures Sorted(AfterIntroSort[..SortAlgo.SmallSectionSize])
  {
    var head := AfterIntroSort[..SortAlgo.SmallSectionSize];
    forall i, j | 0 <= i < j < |head|
      ensures head[i] <= head[j]
    {
    }
  }

  /** `LongInput` holds a 1 and `AfterSort` holds none. */
  lemma OneLost()
    ensures 1 in multiset(LongInput) && 1 !in multiset(AfterSort)
  {
    assert LongInput[0] == 1;
    forall i | 0 <= i < |AfterSort|
      ensures AfterSort[i] != 1
    {
    }
  }

  /** Writing 128 over the last element of `AfterIntroSort` gives
      `AfterSort`. */
  lemma OverwriteLast()
    ensures AfterIntroSort[128 := 128] == AfterSort
  {
    var u := AfterIntroSort[128 := 128];
    forall i | 0 <= i < 129
      ensures u[i] == AfterSort[i]
    {
      if i < 128 {
        assert u[i] == AfterIntroSort[i];
      }
    }
  }

  /** The insertion sort of the first 128 elements of `AfterIntroSort`
      leaves them alone, so the final pass is the by-reference pass from
      position 128. */
  lemma FinalPassHead()
    ensures FinalInsertionSortByRef(AfterIntroSort) == UncheckedInsertionSortByRef(AfterIntroSort, 128)
  {
    var t, n := AfterIntroSort, SortAlgo.SmallSectionSize;
    AfterIntroSortHead();
    InsertionSortedIsReference(t[..n]);
    assert t[..n] + t[n..] == t;
  }

  /** Inserting the last element of `AfterIntroSort` through a reference
      to its own position: the first shift writes 128 over the 1 being
      inserted, and the 128 then stays where it is. */
  lemma FinalPassTail()
    ensures UncheckedInsertionSortByRef(AfterIntroSort, 128) == AfterSort
  {
    var t := AfterIntroSort;
    var u := t[128 := 128];
    OverwriteLast();
    assert LinearInsertByRef(u, 127, 126, 128) == u by {
      assert u[127] == 128 && u[126] == 127;
    }
    assert LinearInsertByRef(t, 128, 127, 128) == u;
  }

  /** The final pass as written on `AfterIntroSort` loses the 1. */
  lemma FinalPassLosesValue()
    ensures FinalInsertionSortByRef(AfterIntroSort) == AfterSort
    ensures 1 in multiset(LongInput) && 1 !in multiset(AfterSort)
  {
    FinalPassHead();
    FinalPassTail();
    OneLost();
  }

  /** `sort` as written on `[1, 2, ..., 128, 0]` returns
      `[0, 2, 3, ..., 128, 128]`, which is not a permutation of its input:
      the defect of `unchecked_insertion_sort` reaches `sort` whenever the
      range is longer than `SmallSectionSize`. */
  lemma SortByRefCounterexample()
    ensures var mid := SortAlgo.Median(LongInput[0], LongInput[|LongInput| / 2], LongInput[|LongInput| - 1]);
            var t := PartitionByValue(LongInput, 0, |LongInput|, mid).0;
            multiset(FinalInsertionSortByRef(t)) != multiset(LongInput)
  {
    IntroSortLongRound();
    FinalPassLosesValue();
  }
}
