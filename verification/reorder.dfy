/** The reordering algorithms of algo.hpp that compare or test elements:
    `next_permutation`, `prev_permutation`, `partition`, `remove_copy`,
    `remove`, `unique_copy` and `unique`. A range is the sequence `s`
    (positions are offsets; `|s|` stands for `last`); the copying
    algorithms that may write over their own input work inside one buffer
    `m`, as `copy` does. */
module Reorder {
  import opened Ranges
  import opened Iterators
  import AlgoBase
  import Rearrange
  import Searching

  // -----------------------------------------------------------------------
  // next_permutation / prev_permutation

  /** No element is greater than an earlier one: the last permutation in
      lexicographic order. */
  ghost predicate NonIncreasing(s: seq<int>) {
    forall x, y :: 0 <= x < y < |s| ==> s[y] <= s[x]
  }

  /** A non-increasing sequence read backwards is sorted, and the other
      way round. */
  lemma ReversedOrder(s: seq<int>)
    ensures NonIncreasing(s) ==> Sorted(Rearrange.Reversed(s))
    ensures Sorted(s) ==> NonIncreasing(Rearrange.Reversed(s))
  {
    var r := Rearrange.Reversed(s);
    if NonIncreasing(s) {
      forall x, y | 0 <= x < y < |r|
        ensures r[x] <= r[y]
      {
        assert s[|s| - 1 - x] <= s[|s| - 1 - y];
      }
    }
    if Sorted(s) {
      forall x, y | 0 <= x < y < |r|
        ensures r[y] <= r[x]
      {
        assert s[|s| - 1 - y] <= s[|s| - 1 - x];
      }
    }
  }

  /** Two sequences that agree before `i` and differ first at `i`, with
      the smaller element in `a`, are lexicographically ordered. */
  lemma {:induction false} LexLessAt(a: seq<int>, b: seq<int>, i: nat)
    requires i < |a| && i < |b| && a[..i] == b[..i] && a[i] < b[i]
    ensures AlgoBase.LexLess(a, b)
    decreases i
  {
    if i > 0 {
      assert a[0] == a[..i][0] == b[..i][0] == b[0];
      assert a[1..][..i - 1] == a[1..i] == a[..i][1..];
      assert b[1..][..i - 1] == b[1..i] == b[..i][1..];
      LexLessAt(a[1..], b[1..], i - 1);
    }
  }

  /** A non-increasing suffix grows by an element no smaller than its
      first. */
  lemma NonIncreasingGrow(s: seq<int>, i: nat)
    requires i + 1 < |s| && NonIncreasing(s[i + 1..]) && s[i + 1] <= s[i]
    ensures NonIncreasing(s[i..])
  {
    var t := s[i..];
    forall x, y | 0 <= x < y < |t|
      ensures t[y] <= t[x]
    {
      if x == 0 && y > 1 {
        assert s[i + 1..][y - 1] <= s[i + 1..][0];
      } else if x > 0 {
        assert s[i + 1..][y - 1] <= s[i + 1..][x - 1];
      }
    }
  }

  /** A non-increasing sequence is non-increasing through every suffix. */
  lemma NonIncreasingWhole(s: seq<int>)
    requires |s| > 0 && NonIncreasing(s[0..])
    ensures NonIncreasing(s)
  {
    assert s[0..] == s;
  }

  /** The step of both permutation algorithms once the pivot `i` and the
      partner `j` are found: exchange them and reverse everything after
      `i`. The result is a permutation that agrees with `s` before `i` and
      holds `s[j]` at `i`. */
  lemma SwapReverse(s: seq<int>, i: nat, j: nat, t: seq<int>, r: seq<int>)
    requires i < j < |s|
    requires t == AlgoBase.IterSwap(s, i, j)
    requires r == t[..i + 1] + Rearrange.Reversed(t[i + 1..|s|]) + t[|s|..]
    ensures |r| == |s| && multiset(r) == multiset(s)
    ensures r[..i] == s[..i] && r[i] == s[j]
  {
    AlgoBase.IterSwapInvolution(s, i, j);
    Rearrange.ReversedMultiset(t[i + 1..|s|]);
    assert t == t[..i + 1] + t[i + 1..|s|] + t[|s|..];
    assert r[..i] == t[..i];
    assert forall k :: 0 <= k < i ==> t[k] == s[k];
  }

  /** `next_permutation`: from the back, find the first `i` with
      `s[i] < s[i + 1]`; then from the back the first `j` with
      `s[i] < s[j]`, exchange them and reverse the part after `i`. When the
      whole range is non-increasing it is the last permutation: reverse it
      all (giving the first, sorted permutation) and report false. Ranges
      of fewer than two elements are left alone. */
  method NextPermutation(s: seq<int>) returns (b: bool, r: seq<int>)
    ensures |r| == |s| && multiset(r) == multiset(s)
    ensures !b <==> NonIncreasing(s)
    ensures !b ==> r == Rearrange.Reversed(s) && Sorted(r)
    ensures b ==> AlgoBase.LexLess(s, r)
  {
    if |s| <= 1 {
      assert Rearrange.Reversed(s) == s;
      return false, s;
    }
    var ii := |s| - 1;
    while true
      invariant 0 < ii < |s| && NonIncreasing(s[ii..])
      decreases ii
    {
      var i := ii - 1;
      if s[i] < s[ii] {
        var j := |s| - 1;
        while !(s[i] < s[j])
          invariant ii <= j < |s|
          decreases j
        {
          j := j - 1;
        }
        var t := AlgoBase.IterSwap(s, i, j);
        r := Rearrange.Reverse(t, ii, |s|, Bidirectional);
        SwapReverse(s, i, j, t, r);
        LexLessAt(s, r, i);
        assert !NonIncreasing(s) by {
          assert i < ii && s[i] < s[ii];
        }
        return true, r;
      }
      NonIncreasingGrow(s, i);
      if i == 0 {
        NonIncreasingWhole(s);
        r := Rearrange.Reverse(s, 0, |s|, Bidirectional);
        WholeReversed(s, r);
        ReversedOrder(s);
        Rearrange.ReversedMultiset(s);
        return false, r;
      }
      ii := i;
    }
  }

  /** Reversing `[0, |s|)` reverses the whole sequence. */
  lemma WholeReversed(s: seq<int>, r: seq<int>)
    requires r == s[..0] + Rearrange.Reversed(s[0..|s|]) + s[|s|..]
    ensures r == Rearrange.Reversed(s)
  {
    assert s[0..|s|] == s;
  }

  /** `prev_permutation`: the mirror image, with the comparisons turned
      round. When the whole range is sorted it is the first permutation:
      reverse it all (giving the last) and report false. */
  method PrevPermutation(s: seq<int>) returns (b: bool, r: seq<int>)
    ensures |r| == |s| && multiset(r) == multiset(s)
    ensures !b <==> Sorted(s)
    ensures !b ==> r == Rearrange.Reversed(s) && NonIncreasing(r)
    ensures b ==> AlgoBase.LexLess(r, s)
  {
    if |s| <= 1 {
      assert Rearrange.Reversed(s) == s;
      return false, s;
    }
    var ii := |s| - 1;
    while true
      invariant 0 < ii < |s| && Sorted(s[ii..])
      decreases ii
    {
      var i := ii - 1;
      if s[ii] < s[i] {
        var j := |s| - 1;
        while !(s[j] < s[i])
          invariant ii <= j < |s|
          decreases j
        {
          j := j - 1;
        }
        var t := AlgoBase.IterSwap(s, i, j);
        r := Rearrange.Reverse(t, ii, |s|, Bidirectional);
        SwapReverse(s, i, j, t, r);
        LexLessAt(r, s, i);
        assert !Sorted(s) by {
          assert i < ii && s[ii] < s[i];
        }
        return true, r;
      }
      SortedGrow(s, i);
      if i == 0 {
        assert s[0..] == s;
        r := Rearrange.Reverse(s, 0, |s|, Bidirectional);
        WholeReversed(s, r);
        ReversedOrder(s);
        Rearrange.ReversedMultiset(s);
        return false, r;
      }
      ii := i;
    }
  }

  /** A sorted suffix grows by an element no greater than its first. */
  lemma SortedGrow(s: seq<int>, i: nat)
    requires i + 1 < |s| && Sorted(s[i + 1..]) && s[i] <= s[i + 1]
    ensures Sorted(s[i..])
  {
    var t := s[i..];
    forall x, y | 0 <= x < y < |t|
      ensures t[x] <= t[y]
    {
      if x == 0 && y > 1 {
        assert s[i + 1..][0] <= s[i + 1..][y - 1];
      } else if x > 0 {
        assert s[i + 1..][x - 1] <= s[i + 1..][y - 1];
      }
    }
  }

  // -----------------------------------------------------------------------
  // partition

  /** Everything before `lo` passes the test and everything from `hi` on
      fails it. */
  ghost predicate Parted(r: seq<int>, pred: int -> bool, lo: int, hi: int)
    requires 0 <= lo <= hi <= |r|
  {
    (forall k :: 0 <= k < lo ==> pred(r[k])) && (forall k :: hi <= k < |r| ==> !pred(r[k]))
  }

  /** `partition` (bidirectional): advance the front past elements that
      pass, retreat the back past elements that fail, exchange the two
      misplaced elements, and repeat until the ends meet. Returns the
      partition point. */
  method Partition(s: seq<int>, pred: int -> bool) returns (r: seq<int>, cut: nat)
    ensures |r| == |s| && multiset(r) == multiset(s) && cut <= |s|
    ensures forall k :: 0 <= k < cut ==> pred(r[k])
    ensures forall k :: cut <= k < |s| ==> !pred(r[k])
  {
    r := s;
    var first, last := 0, |s|;
    while true
      invariant first <= last <= |r| == |s| && multiset(r) == multiset(s)
      invariant Parted(r, pred, first, last)
      decreases last - first
    {
      while first != last && pred(r[first])
        invariant first <= last && Parted(r, pred, first, last)
      {
        first := first + 1;
      }
      if first == last {
        break;
      }
      last := last - 1;
      while first != last && !pred(r[last])
        invariant first <= last && Parted(r, pred, first, last + 1)
        invariant !pred(r[first])
      {
        last := last - 1;
      }
      if first == last {
        assert Parted(r, pred, first, last);
        break;
      }
      r := PartitionSwap(r, pred, first, last);
      first := first + 1;
    }
    cut := first;
  }

  /** One exchange of `partition`: the front element fails, the back one
      passes; after the exchange both are on their right side. */
  function PartitionSwap(r: seq<int>, pred: int -> bool, first: nat, last: nat): (t: seq<int>)
    requires first < last < |r| && !pred(r[first]) && pred(r[last])
    requires Parted(r, pred, first, last + 1)
    ensures |t| == |r| && multiset(t) == multiset(r)
    ensures Parted(t, pred, first + 1, last)
  {
    AlgoBase.IterSwapInvolution(r, first, last);
    AlgoBase.IterSwap(r, first, last)
  }

  // -----------------------------------------------------------------------
  // remove_copy / remove

  /** Reference: the elements of `s` other than `v`, in order. */
  function Filtered(s: seq<int>, v: int): seq<int>
    decreases |s|
  {
    if |s| == 0 then []
    else Filtered(s[..|s| - 1], v) + (if s[|s| - 1] != v then [s[|s| - 1]] else [])
  }

  /** Filtering removes every `v` and keeps every other element with its
      multiplicity. */
  lemma {:induction false} FilteredMultiset(s: seq<int>, v: int)
    ensures multiset(Filtered(s, v)) == multiset(s)[v := 0]
    decreases |s|
  {
    if |s| > 0 {
      var init, x := s[..|s| - 1], s[|s| - 1];
      FilteredMultiset(init, v);
      assert s == init + [x];
      assert multiset(s) == multiset(init) + multiset{x};
    }
  }

  /** Filtering a sequence without `v` changes nothing, so filtering twice
      is filtering once. */
  lemma {:induction false} FilteredNothing(s: seq<int>, v: int)
    requires v !in s
    ensures Filtered(s, v) == s
    decreases |s|
  {
    if |s| > 0 {
      FilteredNothing(s[..|s| - 1], v);
      assert s == s[..|s| - 1] + [s[|s| - 1]];
    }
  }

  lemma FilteredIdempotent(s: seq<int>, v: int)
    ensures Filtered(Filtered(s, v), v) == Filtered(s, v)
  {
    FilteredMultiset(s, v);
    assert v !in multiset(Filtered(s, v));
    FilteredNothing(Filtered(s, v), v);
  }

  /** Filtering distributes over concatenation. */
  lemma {:induction false} FilteredConcat(a: seq<int>, b: seq<int>, v: int)
    ensures Filtered(a + b, v) == Filtered(a, v) + Filtered(b, v)
    decreases |b|
  {
    if |b| > 0 {
      var init, x := b[..|b| - 1], b[|b| - 1];
      FilteredConcat(a, init, v);
      assert (a + b)[..|a + b| - 1] == a + init;
      assert b[..|b| - 1] == init;
    } else {
      assert a + b == a;
    }
  }

  /** Filtering never lengthens, and a longer prefix never filters to
      less. */
  lemma {:induction false} FilteredLength(s: seq<int>, v: int, k: nat)
    requires k <= |s|
    ensures |Filtered(s[..k], v)| <= |Filtered(s, v)| <= |s|
    ensures |Filtered(s[..k], v)| <= k
    decreases |s|
  {
    if |s| > 0 {
      var init := s[..|s| - 1];
      if k < |s| {
        assert s[..k] == init[..k];
        FilteredLength(init, v, k);
      } else {
        assert s[..k] == s;
        FilteredLength(init, v, 0);
      }
    }
  }

  /** Reading one more element of the input: it is appended to the output
      unless it is `v`. */
  lemma FilteredStep(m: seq<int>, first: nat, k: nat, v: int)
    requires first <= k < |m|
    ensures Filtered(m[first..k + 1], v) == Filtered(m[first..k], v) + (if m[k] != v then [m[k]] else [])
  {
    assert m[first..k + 1][..k - first] == m[first..k];
  }

  /** The state of the `remove_copy` loop after reading `[first, k)`: the
      output so far sits at `[result, w)`, nothing else has been written,
      and the unread input is intact. */
  ghost predicate RemoveState(r: seq<int>, m: seq<int>, first: nat, k: nat, last: nat, result: nat, w: nat, v: int)
    requires first <= k <= last <= |m|
  {
    |r| == |m| && w == result + |Filtered(m[first..k], v)| && w <= |m|
    && r[result..w] == Filtered(m[first..k], v)
    && r[..result] == m[..result] && r[w..] == m[w..]
    && (result <= first || last <= result)
  }

  /** One iteration of `remove_copy`. */
  lemma RemoveStep(r: seq<int>, m: seq<int>, first: nat, k: nat, last: nat, result: nat, w: nat, v: int)
    requires first <= k < last <= |m|
    requires result + |Filtered(m[first..last], v)| <= |m|
    requires RemoveState(r, m, first, k, last, result, w, v)
    ensures r[k] == m[k]
    ensures m[k] != v ==> w < |m| && RemoveState(r[w := m[k]], m, first, k + 1, last, result, w + 1, v)
    ensures m[k] == v ==> RemoveState(r, m, first, k + 1, last, result, w, v)
  {
    FilteredStep(m, first, k, v);
    FilteredLength(m[first..last], v, k + 1 - first);
    assert m[first..last][..k + 1 - first] == m[first..k + 1];
    FilteredLength(m[first..last], v, k - first);
    assert m[first..last][..k - first] == m[first..k];
    if result <= first {
      assert w <= k;
      assert r[w..][k - w] == m[w..][k - w];
    } else {
      assert r[..result][k] == m[..result][k];
    }
    if m[k] != v {
      var r' := r[w := m[k]];
      assert r'[result..w + 1] == r[result..w] + [m[k]];
      assert r'[..result] == r[..result];
      assert r'[w + 1..] == r[w + 1..];
      assert r[w + 1..] == r[w..][1..];
    }
  }

  /** `remove_copy`: copies the elements of `m[first..last]` other than
      `value`, in order, to the positions from `result` of the same buffer
      and returns the end of what it wrote. The output may start at or
      before the input (as `remove` uses it) or after its end. */
  method RemoveCopy(m: seq<int>, first: nat, last: nat, result: nat, value: int) returns (r: seq<int>, end: nat)
    requires first <= last <= |m| && result + |Filtered(m[first..last], value)| <= |m|
    requires result <= first || last <= result
    ensures end == result + |Filtered(m[first..last], value)|
    ensures |r| == |m| && r[result..end] == Filtered(m[first..last], value)
    ensures r[..result] == m[..result] && r[end..] == m[end..]
  {
    r := m;
    var k: nat, w: nat := first, result;
    assert m[first..first] == [];
    while k != last
      invariant first <= k <= last && RemoveState(r, m, first, k, last, result, w, value)
      decreases last - k
    {
      RemoveStep(r, m, first, k, last, result, w, value);
      if r[k] != value {
        r := r[w := r[k]];
        w := w + 1;
      }
      k := k + 1;
    }
    end := w;
  }

  /** Filtering a sequence whose first `v` is at `f`. */
  lemma FilteredFromFirst(s: seq<int>, f: nat, v: int)
    requires f < |s| && s[f] == v && v !in s[..f]
    ensures Filtered(s, v) == s[..f] + Filtered(s[f + 1..], v)
  {
    var a, b := s[..f], s[f + 1..];
    assert s == a + ([v] + b);
    FilteredConcat(a, [v] + b, v);
    FilteredSkip(v, b);
    FilteredNothing(a, v);
  }

  /** A leading `v` contributes nothing. */
  lemma FilteredSkip(v: int, b: seq<int>)
    ensures Filtered([v] + b, v) == Filtered(b, v)
  {
    FilteredConcat([v], b, v);
    assert [v][..0] == [];
  }

  /** `remove`: `find` the first `value`; if there is one, `remove_copy`
      the rest of the range over it. The kept elements, in order, end up
      at the front; the returned end is their count; the positions after
      it keep their old contents. */
  method Remove(s: seq<int>, value: int) returns (r: seq<int>, end: nat)
    ensures end == |Filtered(s, value)| && end <= |s|
    ensures |r| == |s| && r[..end] == Filtered(s, value) && r[end..] == s[end..]
  {
    var f := Searching.Find(s, 0, value);
    if f == |s| {
      assert value !in s;
      FilteredNothing(s, value);
      return s, |s|;
    }
    assert value !in s[..f];
    FilteredFromFirst(s, f, value);
    FilteredLength(s[f + 1..], value, 0);
    assert s[f + 1..|s|] == s[f + 1..];
    r, end := RemoveCopy(s, f + 1, |s|, f, value);
    assert r[..end] == r[..f] + r[f..end];
    assert r[..f] == s[..f];
  }

  // -----------------------------------------------------------------------
  // unique_copy / unique

  /** Reference: `s` with every run of equal adjacent elements cut down to
      one element. */
  function Deduped(s: seq<int>): seq<int>
    decreases |s|
  {
    if |s| <= 1 then s
    else if s[|s| - 2] == s[|s| - 1] then Deduped(s[..|s| - 1])
    else Deduped(s[..|s| - 1]) + [s[|s| - 1]]
  }

  /** No two adjacent elements are equal. */
  ghost predicate NoAdjacentEqual(s: seq<int>) {
    forall k :: 0 <= k < |s| - 1 ==> s[k] != s[k + 1]
  }

  /** The deduplicated sequence is empty only for an empty input, ends
      with the input's last element, and is no longer than the input. */
  lemma {:induction false} DedupedLast(s: seq<int>)
    ensures |Deduped(s)| <= |s| && (|s| == 0 <==> |Deduped(s)| == 0)
    ensures |s| > 0 ==> Deduped(s)[|Deduped(s)| - 1] == s[|s| - 1]
    decreases |s|
  {
    if |s| > 1 {
      DedupedLast(s[..|s| - 1]);
    }
  }

  /** The deduplicated sequence has no two adjacent equal elements. */
  lemma {:induction false} DedupedNoAdjacent(s: seq<int>)
    ensures NoAdjacentEqual(Deduped(s))
    decreases |s|
  {
    if |s| > 1 {
      var init := s[..|s| - 1];
      DedupedNoAdjacent(init);
      DedupedLast(init);
    }
  }

  /** A sequence without adjacent equal elements is its own deduplication,
      so deduplicating twice is deduplicating once. */
  lemma {:induction false} DedupedFixed(s: seq<int>)
    requires NoAdjacentEqual(s)
    ensures Deduped(s) == s
    decreases |s|
  {
    if |s| > 1 {
      var init := s[..|s| - 1];
      assert NoAdjacentEqual(init) by {
        forall k | 0 <= k < |init| - 1
          ensures init[k] != init[k + 1]
        {
          assert s[k] != s[k + 1];
        }
      }
      DedupedFixed(init);
      assert s[|s| - 2] != s[|s| - 1];
      assert s == init + [s[|s| - 1]];
    }
  }

  lemma DedupedIdempotent(s: seq<int>)
    ensures Deduped(Deduped(s)) == Deduped(s)
  {
    DedupedNoAdjacent(s);
    DedupedFixed(Deduped(s));
  }

  /** Deduplication splits where two adjacent elements differ. */
  lemma {:induction false} DedupedConcat(a: seq<int>, b: seq<int>)
    requires |a| > 0 && |b| > 0 && a[|a| - 1] != b[0]
    ensures Deduped(a + b) == Deduped(a) + Deduped(b)
    decreases |b|
  {
    var ab := a + b;
    DedupedBack(ab);
    if |b| == 1 {
      assert ab[..|ab| - 1] == a;
      assert ab[|ab| - 2] == a[|a| - 1] && ab[|ab| - 1] == b[0];
    } else {
      var init := b[..|b| - 1];
      DedupedConcat(a, init);
      DedupedBack(b);
      assert ab[..|ab| - 1] == a + init;
      assert ab[|ab| - 2] == b[|b| - 2] && ab[|ab| - 1] == b[|b| - 1];
    }
  }

  /** Deduplication read from the back: the last element is kept unless
      it repeats the one before it. */
  lemma DedupedBack(s: seq<int>)
    requires |s| >= 2
    ensures Deduped(s) == Deduped(s[..|s| - 1]) + (if s[|s| - 2] != s[|s| - 1] then [s[|s| - 1]] else [])
  {
  }

  /** Reading one more element: it is appended unless it repeats the one
      before it. */
  lemma DedupedStep(m: seq<int>, first: nat, k: nat)
    requires first < k < |m|
    ensures Deduped(m[first..k + 1]) == Deduped(m[first..k]) + (if m[k - 1] != m[k] then [m[k]] else [])
  {
    var t := m[first..k + 1];
    assert t[..|t| - 1] == m[first..k];
    assert t[|t| - 2] == m[k - 1] && t[|t| - 1] == m[k];
  }

  /** The state of the forward `unique_copy` loop after reading
      `[first, k)`: the output so far is `[result, w]` (its last element at
      `w`), nothing else has been written, and the unread input is
      intact. It carries the method's preconditions along. */
  ghost predicate UniqueState(r: seq<int>, m: seq<int>, first: nat, k: nat, last: nat, result: nat, w: nat) {
    first < k <= last <= |m| && result + |Deduped(m[first..last])| <= |m|
    && (result <= first || last <= result)
    && |r| == |m| && w + 1 == result + |Deduped(m[first..k])| && w < |m|
    && r[result..w + 1] == Deduped(m[first..k])
    && r[..result] == m[..result] && r[w + 1..] == m[w + 1..]
  }

  /** The element at `w` is the last one read, so comparing with it
      compares with the predecessor; the element at `k` is unread. */
  lemma UniqueReads(r: seq<int>, m: seq<int>, first: nat, k: nat, last: nat, result: nat, w: nat)
    requires UniqueState(r, m, first, k, last, result, w) && k < last
    ensures r[k] == m[k] && r[w] == m[k - 1]
  {
    DedupedLast(m[first..k]);
    assert r[w] == r[result..w + 1][w - result];
    if result <= first {
      assert w < k;
      assert r[w + 1..][k - w - 1] == m[w + 1..][k - w - 1];
    } else {
      assert r[..result][k] == m[..result][k];
    }
  }

  /** An element that differs from its predecessor is written after the
      last one written. */
  lemma UniqueKeep(r: seq<int>, m: seq<int>, first: nat, k: nat, last: nat, result: nat, w: nat)
    requires UniqueState(r, m, first, k, last, result, w) && k < last
    requires m[k - 1] != m[k]
    ensures w + 1 < |m| && UniqueState(r[w + 1 := r[k]], m, first, k + 1, last, result, w + 1)
  {
    UniqueReads(r, m, first, k, last, result, w);
    DedupedStep(m, first, k);
    DedupedPrefix(m[first..last], k + 1 - first);
    assert m[first..last][..k + 1 - first] == m[first..k + 1];
    var r' := r[w + 1 := m[k]];
    assert r'[result..w + 2] == r[result..w + 1] + [m[k]];
    assert r'[..result] == r[..result];
    assert r'[w + 2..] == r[w + 1..][1..];
  }

  /** An element equal to its predecessor is skipped. */
  lemma UniqueSkip(r: seq<int>, m: seq<int>, first: nat, k: nat, last: nat, result: nat, w: nat)
    requires UniqueState(r, m, first, k, last, result, w) && k < last
    requires m[k - 1] == m[k]
    ensures UniqueState(r, m, first, k + 1, last, result, w)
  {
    DedupedStep(m, first, k);
  }

  /** A longer prefix never deduplicates to less. */
  lemma {:induction false} DedupedPrefix(s: seq<int>, k: nat)
    requires k <= |s|
    ensures |Deduped(s[..k])| <= |Deduped(s)|
    decreases |s|
  {
    if k < |s| {
      var init := s[..|s| - 1];
      assert s[..k] == init[..k];
      DedupedPrefix(init, k);
      assert init[..|init|] == init;
    } else {
      assert s[..k] == s;
    }
  }

  /** The forward tier of `unique_copy` on a non-empty range: write the
      first element, then every element that differs from the last one
      written. Inside one buffer the output may start at or before the
      input (as `unique` uses it) or after its end. */
  method UniqueCopyForward(m: seq<int>, first: nat, last: nat, result: nat) returns (r: seq<int>, end: nat)
    requires first < last <= |m| && result + |Deduped(m[first..last])| <= |m|
    requires result <= first || last <= result
    ensures end == result + |Deduped(m[first..last])|
    ensures |r| == |m| && r[result..end] == Deduped(m[first..last])
    ensures r[..result] == m[..result] && r[end..] == m[end..]
  {
    UniqueStart(m, first, last, result);
    r := m[result := m[first]];
    var k: nat, w: nat := first + 1, result;
    while k != last
      invariant UniqueState(r, m, first, k, last, result, w)
      decreases last - k
    {
      r, w := UniqueCopyStep(r, m, first, k, last, result, w);
      k := k + 1;
    }
    UniqueFinish(r, m, first, last, result, w);
    end := w + 1;
  }

  /** One pass of the forward `unique_copy` loop: the input element is
      compared with the last element written (read back from the output
      at `w`) and written after it when they differ. */
  method UniqueCopyStep(r: seq<int>, m: seq<int>, first: nat, k: nat, last: nat, result: nat, w: nat)
    returns (r': seq<int>, w': nat)
    requires UniqueState(r, m, first, k, last, result, w) && k < last
    ensures UniqueState(r', m, first, k + 1, last, result, w')
  {
    UniqueReads(r, m, first, k, last, result, w);
    if r[w] != r[k] {
      UniqueKeep(r, m, first, k, last, result, w);
      r', w' := r[w + 1 := r[k]], w + 1;
    } else {
      UniqueSkip(r, m, first, k, last, result, w);
      r', w' := r, w;
    }
  }

  /** The loop's state once the whole input is read is the postcondition
      of the forward `unique_copy`. */
  lemma UniqueFinish(r: seq<int>, m: seq<int>, first: nat, last: nat, result: nat, w: nat)
    requires UniqueState(r, m, first, last, last, result, w)
    ensures w + 1 == result + |Deduped(m[first..last])|
    ensures |r| == |m| && r[result..w + 1] == Deduped(m[first..last])
    ensures r[..result] == m[..result] && r[w + 1..] == m[w + 1..]
  {
  }

  lemma UniqueStart(m: seq<int>, first: nat, last: nat, result: nat)
    requires first < last <= |m| && result + |Deduped(m[first..last])| <= |m|
    requires result <= first || last <= result
    ensures result < |m| && UniqueState(m[result := m[first]], m, first, first + 1, last, result, result)
  {
    DedupedLast(m[first..last]);
    var r := m[result := m[first]];
    assert m[first..first + 1] == [m[first]];
    assert r[result..result + 1] == [m[first]];
    assert r[..result] == m[..result];
    assert r[result + 1..] == m[result + 1..];
  }

  /** The output-iterator tier of `unique_copy` on a non-empty range:
      keeps a copy of the last element written instead of reading the
      output back. */
  method UniqueCopyOutput(s: seq<int>, out: seq<int>, result: nat) returns (o: seq<int>, end: nat)
    requires |s| > 0 && result + |Deduped(s)| <= |out|
    ensures end == result + |Deduped(s)|
    ensures |o| == |out| && o[result..end] == Deduped(s)
    ensures o[..result] == out[..result] && o[end..] == out[end..]
  {
    OutputStart(s, out, result);
    var value := s[0];
    o := out[result := value];
    var k, w := 1, result;
    while k != |s|
      invariant 0 < k <= |s| && OutputState(o, out, s, k, result, w) && value == s[k - 1]
      decreases |s| - k
    {
      OutputAdvance(o, out, s, k, result, w);
      if value != s[k] {
        value := s[k];
        o := o[w + 1 := value];
        w := w + 1;
      }
      k := k + 1;
    }
    end := w + 1;
    assert s[..|s|] == s;
  }

  /** The state of the output-iterator loop after reading `s[..k]`: the
      output so far is `[result, w]`, nothing else has been written. */
  ghost predicate OutputState(o: seq<int>, out: seq<int>, s: seq<int>, k: nat, result: nat, w: nat)
    requires 0 < k <= |s|
  {
    |o| == |out| && w + 1 == result + |Deduped(s[..k])| && w < |out|
    && o[result..w + 1] == Deduped(s[..k])
    && o[..result] == out[..result] && o[w + 1..] == out[w + 1..]
  }

  lemma OutputStart(s: seq<int>, out: seq<int>, result: nat)
    requires |s| > 0 && result + |Deduped(s)| <= |out|
    ensures result < |out| && OutputState(out[result := s[0]], out, s, 1, result, result)
  {
    DedupedLast(s);
    var o := out[result := s[0]];
    assert s[..1] == [s[0]];
    assert o[result..result + 1] == [s[0]];
    assert o[..result] == out[..result];
    assert o[result + 1..] == out[result + 1..];
  }

  /** One iteration of the output-iterator loop. */
  lemma OutputAdvance(o: seq<int>, out: seq<int>, s: seq<int>, k: nat, result: nat, w: nat)
    requires 0 < k < |s| && result + |Deduped(s)| <= |out|
    requires OutputState(o, out, s, k, result, w)
    ensures s[k - 1] != s[k] ==> w + 1 < |out| && OutputState(o[w + 1 := s[k]], out, s, k + 1, result, w + 1)
    ensures s[k - 1] == s[k] ==> OutputState(o, out, s, k + 1, result, w)
  {
    OutputStep(s, k);
    if s[k - 1] != s[k] {
      var o' := o[w + 1 := s[k]];
      assert o'[result..w + 2] == o[result..w + 1] + [s[k]];
      assert o'[..result] == o[..result];
      assert o'[w + 2..] == o[w + 1..][1..];
    }
  }

  /** Reading one more element of `s`, from the front. */
  lemma OutputStep(s: seq<int>, k: nat)
    requires 0 < k < |s|
    ensures Deduped(s[..k + 1]) == Deduped(s[..k]) + (if s[k - 1] != s[k] then [s[k]] else [])
    ensures |Deduped(s[..k + 1])| <= |Deduped(s)|
  {
    DedupedStep(s, 0, k);
    assert s[0..k + 1] == s[..k + 1] && s[0..k] == s[..k];
    DedupedPrefix(s, k + 1);
  }

  /** `unique_copy`: nothing for an empty range; otherwise the tier of the
      output iterator decides. Both tiers write the deduplicated range. */
  method UniqueCopy(s: seq<int>, out: seq<int>, result: nat, cat: Category) returns (o: seq<int>, end: nat)
    requires result + |Deduped(s)| <= |out|
    ensures end == result + |Deduped(s)|
    ensures |o| == |out| && o[result..end] == Deduped(s)
    ensures o[..result] == out[..result] && o[end..] == out[end..]
  {
    if |s| == 0 {
      return out, result;
    }
    if cat == Output {
      o, end := UniqueCopyOutput(s, out, result);
    } else {
      var m := s + out;
      assert m[0..|s|] == s;
      var r, e := UniqueCopyForward(m, 0, |s|, |s| + result);
      o, end := r[|s|..], e - |s|;
      BufferTail(m, r, s, out, result, e);
    }
  }

  /** Reading the output half of the shared buffer. */
  lemma BufferTail(m: seq<int>, r: seq<int>, s: seq<int>, out: seq<int>, result: nat, e: nat)
    requires m == s + out && |r| == |m| && |s| + result <= e <= |m|
    requires r[..|s| + result] == m[..|s| + result] && r[e..] == m[e..]
    ensures r[|s|..][..result] == out[..result]
    ensures r[|s|..][e - |s|..] == out[e - |s|..]
    ensures r[|s|..][result..e - |s|] == r[|s| + result..e]
  {
    assert r[|s|..][..result] == r[..|s| + result][|s|..];
    assert m[..|s| + result][|s|..] == out[..result];
    assert r[|s|..][e - |s|..] == r[e..];
    assert m[e..] == out[e - |s|..];
  }

  /** Deduplicating a sequence whose first adjacent repeat starts at `f`. */
  lemma DedupedFromFirst(s: seq<int>, f: nat)
    requires f < |s| && forall k :: 0 <= k < f && k + 1 < |s| ==> s[k] != s[k + 1]
    ensures Deduped(s) == s[..f] + Deduped(s[f..])
  {
    NoRepeatBefore(s, f);
    DedupedJoin(s, s[..f], s[f..]);
  }

  /** The part before the first adjacent repeat has no repeat and differs
      from what follows it. */
  lemma NoRepeatBefore(s: seq<int>, f: nat)
    requires f < |s| && forall k :: 0 <= k < f && k + 1 < |s| ==> s[k] != s[k + 1]
    ensures s == s[..f] + s[f..] && NoAdjacentEqual(s[..f])
    ensures f > 0 ==> s[..f][f - 1] != s[f..][0]
  {
    var a := s[..f];
    forall k | 0 <= k < |a| - 1
      ensures a[k] != a[k + 1]
    {
      assert s[k] != s[k + 1];
    }
    if f > 0 {
      assert s[f - 1] != s[f];
    }
  }

  /** A prefix without adjacent repeats that differs from what follows
      it passes through deduplication unchanged. */
  lemma DedupedJoin(s: seq<int>, a: seq<int>, b: seq<int>)
    requires s == a + b && NoAdjacentEqual(a) && |b| > 0 && (|a| > 0 ==> a[|a| - 1] != b[0])
    ensures Deduped(s) == a + Deduped(b)
  {
    DedupedFixed(a);
    if |a| > 0 {
      DedupedConcat(a, b);
    } else {
      assert s == b;
    }
  }

  /** `unique`: `adjacent_find` the first repeat, then the forward
      `unique_copy` of the rest onto itself. The deduplicated range ends
      up at the front; the returned end is its length; the positions after
      it keep their old contents. */
  method Unique(s: seq<int>) returns (r: seq<int>, end: nat)
    ensures end == |Deduped(s)| && end <= |s|
    ensures |r| == |s| && r[..end] == Deduped(s) && r[end..] == s[end..]
  {
    var f := Searching.AdjacentFind(s);
    if f == |s| {
      assert NoAdjacentEqual(s);
      DedupedFixed(s);
      return s, |s|;
    }
    DedupedFromFirst(s, f);
    DedupedLast(s[f..]);
    assert s[f..|s|] == s[f..];
    r, end := UniqueCopyForward(s, f, |s|, f);
    assert r[..end] == r[..f] + r[f..end];
  }
}
