/** The sorting engine: `sort` (introspective sort followed by a final
    insertion sort), its building blocks, `partial_sort` and `nth_element`.

    Every operation takes the range as a sequence and returns the rearranged
    range; a call on a sub-range splices its result back. */
module SortAlgo {
  import opened Ranges
  import HeapAlgo
  import AlgoBase
  import Merge

  /** Ranges at most this long are left to the final insertion sort. */
  const SmallSectionSize: nat := 128

  function Pow2(k: nat): (p: nat)
    ensures p >= 1
  {
    if k == 0 then 1 else 2 * Pow2(k - 1)
  }

  /** `median`: the middle one of three values, chosen with `<` only. */
  function Median(left: int, mid: int, right: int): (m: int)
    ensures m == left || m == mid || m == right
    ensures (if left <= m then 1 else 0) + (if mid <= m then 1 else 0) + (if right <= m then 1 else 0) >= 2
    ensures (if m <= left then 1 else 0) + (if m <= mid then 1 else 0) + (if m <= right then 1 else 0) >= 2
  {
    if left < mid then
      if mid < right then mid
      else if left < right then right
      else left
    else if left < right then left
    else if mid < right then right
    else mid
  }

  /** The median of the first, middle and last element of a range of at
      least two is an element of the range, and some element after the
      first is at most it; the second fact keeps a partition around it from
      cutting at the very front. */
  lemma MedianSentinels(x: seq<int>)
    requires |x| >= 2
    ensures exists i :: 0 <= i < |x| && x[i] == Median(x[0], x[|x| / 2], x[|x| - 1])
    ensures exists k :: 0 < k < |x| && x[k] <= Median(x[0], x[|x| / 2], x[|x| - 1])
  {
    var m := Median(x[0], x[|x| / 2], x[|x| - 1]);
    if x[|x| / 2] <= m {
      assert 0 < |x| / 2 < |x|;
    } else {
      assert x[|x| - 1] <= m;
    }
  }

  /** `slg2`: the number of halvings that bring `n` down to one, that is the
      floor of the binary logarithm; zero for `n <= 1`. */
  method Slg2(n: int) returns (k: nat)
    ensures n <= 1 ==> k == 0
    ensures n >= 1 ==> Pow2(k) <= n < 2 * Pow2(k)
  {
    k := 0;
    var m := n;
    while m > 1
      invariant n >= 1 ==> m >= 1 && Pow2(k) * m <= n < Pow2(k) * m + Pow2(k)
      invariant n <= 1 ==> m == n && k == 0
      decreases m
    {
      HalveStep(Pow2(k), m);
      m := m / 2;
      k := k + 1;
    }
  }

  lemma HalveStep(p: nat, m: nat)
    requires m > 1
    ensures 2 * p * (m / 2) <= p * m
    ensures p * m + p <= 2 * p * (m / 2) + 2 * p
  {
    var h := m / 2;
    var r := m % 2;
    assert m == 2 * h + r && 0 <= r <= 1;
    assert p * m == 2 * p * h + p * r;
  }

  /** The exchange step of `unchecked_partition`: the two stopped scans
      swap their elements, which extends both finished sides by one. */
  lemma PartitionSwap(r: seq<int>, s: seq<int>, f: nat, l: nat, pivot: int)
    requires f < l < |r| && multiset(r) == multiset(s)
    requires pivot <= r[f] && r[l] <= pivot
    requires AtMost(r[..f], pivot)
    requires forall k :: l < k < |r| ==> pivot <= r[k]
    ensures multiset(AlgoBase.IterSwap(r, f, l)) == multiset(s)
    ensures AtMost(AlgoBase.IterSwap(r, f, l)[..f + 1], pivot)
    ensures forall k :: l <= k < |r| ==> pivot <= AlgoBase.IterSwap(r, f, l)[k]
  {
    AlgoBase.IterSwapInvolution(r, f, l);
    var r' := AlgoBase.IterSwap(r, f, l);
    assert r'[..f + 1] == r[..f] + [r[l]];
  }

  /** `unchecked_partition`: Hoare partition around `pivot` with no bounds
      checks. An element not below the pivot stops the upward scan and one
      not above it stops the downward scan, so the caller must supply both.
      Returns the cut: nothing before it exceeds the pivot, nothing from it
      on is below it; a cut at the very front means every later element
      exceeds the pivot. */
  method UncheckedPartition(s: seq<int>, pivot: int) returns (r: seq<int>, cut: nat)
    requires exists i :: 0 <= i < |s| && pivot <= s[i]
    requires exists j :: 0 <= j < |s| && s[j] <= pivot
    ensures |r| == |s| && multiset(r) == multiset(s)
    ensures cut < |s|
    ensures AtMost(r[..cut], pivot) && AtLeast(r[cut..], pivot)
    ensures cut == 0 ==> forall k :: 0 < k < |s| ==> pivot < s[k]
  {
    r := s;
    var f := 0;
    var l := |s|;
    ghost var up :| 0 <= up < |s| && pivot <= s[up];
    ghost var down :| 0 <= down < |s| && s[down] <= pivot;
    while true
      invariant |r| == |s| && multiset(r) == multiset(s)
      invariant 0 <= f <= up < |s| && pivot <= r[up]
      invariant 0 <= down < l <= |s| && r[down] <= pivot
      invariant f <= l
      invariant AtMost(r[..f], pivot)
      invariant forall k :: l <= k < |s| ==> pivot <= r[k]
      invariant f == 0 ==> l == |s| && r == s
      decreases l - f
    {
      while r[f] < pivot
        invariant f <= up
        invariant AtMost(r[..f], pivot)
        decreases up - f
      {
        f := f + 1;
      }
      l := l - 1;
      while pivot < r[l]
        invariant down <= l
        invariant forall k :: l < k < |s| ==> pivot <= r[k]
        invariant f == 0 ==> forall k :: l < k < |s| ==> pivot < r[k]
        decreases l
      {
        l := l - 1;
      }
      if !(f < l) {
        cut := f;
        assert forall k :: cut <= k < |s| ==> pivot <= r[k];
        return;
      }
      PartitionSwap(r, s, f, l, pivot);
      r := AlgoBase.IterSwap(r, f, l);
      down := f;
      up := l;
      f := f + 1;
    }
  }

  /** The largest value of a heap is no larger after a `pop_heap_aux` that
      replaced the root with a smaller value. */
  lemma RootDrops(a: seq<int>, b: seq<int>, len: nat, dest: nat)
    requires 0 < len <= dest < |a| && len <= |b|
    requires HeapAlgo.IsHeap(a[..len]) && a[dest] < a[0]
    requires multiset(b[..len]) == multiset(a[..len]) - multiset{a[0]} + multiset{a[dest]}
    ensures b[0] <= a[0]
  {
    HeapAlgo.HeapRootBounds(a[..len]);
    assert b[..len][0] in multiset(b[..len]);
    if b[0] != a[dest] {
      assert b[0] in multiset(a[..len]);
      var j :| 0 <= j < len && a[..len][j] == b[0];
    }
  }

  /** `partial_sort`: the `middle` smallest elements end up sorted at the
      front, every one of them at most every element after them. */
  method PartialSort(s: seq<int>, middle: nat) returns (r: seq<int>)
    requires middle <= |s|
    ensures |r| == |s| && multiset(r) == multiset(s)
    ensures Sorted(r[..middle])
    ensures CutAt(r, middle)
  {
    var h := HeapAlgo.MakeHeap(s[..middle]);
    var a := h + s[middle..];
    assert s == s[..middle] + s[middle..];
    assert |multiset(h)| == |multiset(s[..middle])|;
    assert a[..middle] == h;
    var i := middle;
    while i < |s|
      invariant middle <= i <= |s| && |a| == |s|
      invariant HeapAlgo.IsHeap(a[..middle])
      invariant multiset(a) == multiset(s)
      invariant middle > 0 ==> forall k :: middle <= k < i ==> a[0] <= a[k]
    {
      if a[i] < a[0] {
        var b := HeapAlgo.PopHeapAux(a, middle, i, a[i]);
        if middle > 0 {
          RootDrops(a, b, middle, i);
        }
        a := b;
      }
      i := i + 1;
    }
    var sorted := HeapAlgo.SortHeap(a[..middle]);
    r := sorted + a[middle..];
    PartialSortCut(a, sorted, middle);
  }

  /** Sorting the heap of `partial_sort` in place leaves its elements in
      front of everything the root of the heap bounds. */
  lemma PartialSortCut(a: seq<int>, sorted: seq<int>, middle: nat)
    requires middle <= |a| && HeapAlgo.IsHeap(a[..middle])
    requires middle > 0 ==> forall k :: middle <= k < |a| ==> a[0] <= a[k]
    requires multiset(sorted) == multiset(a[..middle])
    ensures |sorted + a[middle..]| == |a|
    ensures multiset(sorted + a[middle..]) == multiset(a)
    ensures CutAt(sorted + a[middle..], middle)
  {
    var r := sorted + a[middle..];
    assert |multiset(sorted)| == |multiset(a[..middle])|;
    assert a == a[..middle] + a[middle..];
    if middle > 0 {
      HeapAlgo.HeapRootBounds(a[..middle]);
      AtMostPerm(a[..middle], sorted, a[0]);
      forall i, j | 0 <= i < middle <= j < |r|
        ensures r[i] <= r[j]
      {
        assert r[i] == sorted[i] && r[j] == a[j];
      }
    }
  }

  /** Any two elements at least `SmallSectionSize` positions apart are in
      order: the shape `intro_sort` leaves for the final insertion sort. */
  ghost predicate NearlySorted(s: seq<int>) {
    forall i, j :: 0 <= i && i + SmallSectionSize <= j < |s| ==> s[i] <= s[j]
  }

  /** Two nearly sorted pieces on either side of a cut make a nearly sorted
      whole. */
  lemma NearlyFromCut(a: seq<int>, c: int)
    requires 0 <= c <= |a|
    requires CutAt(a, c) && NearlySorted(a[..c]) && NearlySorted(a[c..])
    ensures NearlySorted(a)
  {
    forall i, j | 0 <= i && i + SmallSectionSize <= j < |a|
      ensures a[i] <= a[j]
    {
      if j < c {
        assert a[..c][i] <= a[..c][j];
      } else if c <= i {
        assert a[c..][i - c] <= a[c..][j - c];
      }
    }
  }

  lemma SortedNearly(a: seq<int>)
    requires Sorted(a)
    ensures NearlySorted(a)
  {
  }

  /** The fallback of `intro_sort`: a sorted head in front of a cut and a
      nearly sorted tail give a nearly sorted whole, with a cut after the
      first element. */
  lemma HeapsortTail(r: seq<int>, p: seq<int>, last: nat)
    requires 0 < last <= |r|
    requires CutAt(r, last) && NearlySorted(r[last..])
    requires multiset(p) == multiset(r[..last]) && Sorted(p)
    ensures |p + r[last..]| == |r| && multiset(p + r[last..]) == multiset(r)
    ensures NearlySorted(p + r[last..]) && CutAt(p + r[last..], 1)
  {
    SpliceMultiset(r, p, 0, last);
    CutSurvivesBlock(r, p, 0, last, last);
    var r' := r[..0] + p + r[last..];
    assert r' == p + r[last..];
    assert r'[..last] == p && r'[last..] == r[last..];
    SortedNearly(p);
    NearlyFromCut(r', last);
    forall i, j | 0 <= i < 1 <= j < |r'|
      ensures r'[i] <= r'[j]
    {
      if j < last {
        assert p[0] <= p[j];
      }
    }
  }

  /** One round of the `intro_sort` loop, first half: the partitioned head
      spliced back in front of the old cut gets a cut at the partition
      point and keeps everything after the old cut. */
  lemma QuicksortPartition(r: seq<int>, b: seq<int>, last: nat, cut: nat, mid: int)
    requires 0 <= cut <= last <= |r| && cut <= |b|
    requires CutAt(r, last) && NearlySorted(r[last..])
    requires multiset(b) == multiset(r[..last])
    requires AtMost(b[..cut], mid) && AtLeast(b[cut..], mid)
    ensures |b + r[last..]| == |r| && multiset(b + r[last..]) == multiset(r)
    ensures (b + r[last..])[cut..last] == b[cut..]
    ensures CutAt(b + r[last..], cut) && CutAt(b + r[last..], last)
    ensures NearlySorted((b + r[last..])[last..])
  {
    assert CutAt(r, 0);
    PartitionCut(r, b, 0, last, cut, mid);
    assert r[..0] + b + r[last..] == b + r[last..];
    assert (b + r[last..])[last..] == r[last..];
  }

  /** Second half: the right part handled recursively keeps the cut in
      front of it and leaves everything from that cut on nearly sorted. */
  lemma QuicksortSplice(a: seq<int>, t: seq<int>, cut: nat, last: nat)
    requires cut <= last <= |a|
    requires CutAt(a, cut) && CutAt(a, last) && NearlySorted(a[last..])
    requires multiset(t) == multiset(a[cut..last]) && NearlySorted(t)
    ensures |a[..cut] + t + a[last..]| == |a|
    ensures multiset(a[..cut] + t + a[last..]) == multiset(a)
    ensures CutAt(a[..cut] + t + a[last..], cut)
    ensures NearlySorted((a[..cut] + t + a[last..])[cut..])
  {
    SpliceMultiset(a, t, cut, last);
    CutSurvivesBlock(a, t, cut, last, cut);
    CutSurvivesBlock(a, t, cut, last, last);
    var a' := a[..cut] + t + a[last..];
    assert a'[cut..][..last - cut] == t;
    assert a'[cut..][last - cut..] == a[last..];
    CutSuffix(a', cut, last);
    NearlyFromCut(a'[cut..], last - cut);
  }

  /** The sequence `a` with the block `[lo, hi)` replaced by `t`: a call of
      an algorithm on a sub-range. */
  function Splice(a: seq<int>, t: seq<int>, lo: nat, hi: nat): seq<int>
    requires lo <= hi <= |a|
  {
    a[..lo] + t + a[hi..]
  }

  /** The loop invariant of `intro_sort`: a permutation of the input with a
      cut at `last` and a nearly sorted part from it on. */
  ghost predicate IntroState(r: seq<int>, s: seq<int>, last: nat) {
    |r| == |s| && multiset(r) == multiset(s) && last <= |r|
    && CutAt(r, last) && NearlySorted(r[last..])
  }

  /** One round of the `intro_sort` loop keeps its invariant with the cut
      moved to the partition point. */
  lemma QuicksortRound(r: seq<int>, s: seq<int>, b: seq<int>, t: seq<int>, last: nat, cut: nat, mid: int)
    requires IntroState(r, s, last) && cut <= last && cut <= |b|
    requires multiset(b) == multiset(r[..last])
    requires AtMost(b[..cut], mid) && AtLeast(b[cut..], mid)
    requires multiset(t) == multiset(b[cut..]) && NearlySorted(t)
    ensures last <= |b + r[last..]|
    ensures IntroState(Splice(b + r[last..], t, cut, last), s, cut)
  {
    QuicksortPartition(r, b, last, cut, mid);
    QuicksortSplice(b + r[last..], t, cut, last);
  }

  /** `intro_sort`: quicksort on the median of three, cutting off at
      `SmallSectionSize` and falling back to `partial_sort` of the whole
      range once the depth budget is spent. The result is a permutation
      that is nearly sorted, whose short head (the ghost `head`) is cut
      off from the rest; a range of at most `SmallSectionSize` is left
      alone. */
  method IntroSort(s: seq<int>, depthLimit: nat) returns (r: seq<int>, ghost head: nat)
    ensures |r| == |s| && multiset(r) == multiset(s)
    ensures NearlySorted(r)
    ensures head <= |s| && CutAt(r, head)
    ensures |s| > 0 ==> head > 0
    ensures |s| > SmallSectionSize ==> head <= SmallSectionSize
    ensures |s| <= SmallSectionSize ==> r == s
    decreases depthLimit
  {
    r := s;
    var last: nat := |s|;
    var depth: nat := depthLimit;
    assert r[last..] == [];
    while last > SmallSectionSize
      invariant IntroState(r, s, last)
      invariant |s| > 0 ==> last > 0
      invariant last == |s| ==> r == s
      invariant |s| <= SmallSectionSize ==> last == |s|
      invariant depth <= depthLimit
      decreases last
    {
      if depth == 0 {
        var p := PartialSort(r[..last], last);
        HeapsortTail(r, p, last);
        r := p + r[last..];
        head := 1;
        return;
      }
      depth := depth - 1;
      var x := r[..last];
      MedianSentinels(x);
      var mid := Median(x[0], x[last / 2], x[last - 1]);
      var b, cut := UncheckedPartition(x, mid);
      var t, h := IntroSort(b[cut..], depth);
      QuicksortRound(r, s, b, t, last, cut, mid);
      r := Splice(b + r[last..], t, cut, last);
      last := cut;
    }
    head := last;
    NearlyFromCut(r, last);
  }

  /** `unchecked_linear_insert`: shifts the elements of the sorted run
      `s[..last]` that exceed `value` one place right and puts `value` in
      the gap. No bounds check: an element at most `value` must come first. */
  method UncheckedLinearInsert(s: seq<int>, last: nat, value: int) returns (r: seq<int>)
    requires 0 < last < |s|
    requires Sorted(s[..last]) && s[0] <= value
    ensures |r| == |s| && r[last + 1..] == s[last + 1..] && r[0] == s[0]
    ensures Sorted(r[..last + 1])
    ensures multiset(r[..last + 1]) == multiset(s[..last]) + multiset{value}
  {
    r := s;
    var l := last;
    var next := last - 1;
    while value < r[next]
      invariant 0 <= next < l <= last && next == l - 1
      invariant |r| == |s| && r[..l] == s[..l] && r[last + 1..] == s[last + 1..]
      invariant forall k :: l < k <= last ==> r[k] == s[k - 1] && value < r[k]
      decreases l
    {
      assert r[0] == s[..l][0];
      r := r[l := r[next]];
      l := next;
      next := next - 1;
    }
    assert r[next] == s[..l][next];
    forall k | l <= k < last
      ensures value < s[k]
    {
      assert r[k + 1] == s[k];
    }
    r := r[l := value];
    assert r[..last + 1] == s[..l] + [value] + s[l..last];
    InsertGapSorted(s, l, last, value);
  }

  /** The shape `unchecked_linear_insert` leaves: the sorted run with
      `value` put where the elements larger than it begin. */
  lemma InsertGapSorted(s: seq<int>, l: nat, last: nat, value: int)
    requires 0 < l <= last < |s| && Sorted(s[..last])
    requires s[l - 1] <= value
    requires forall k :: l <= k < last ==> value < s[k]
    ensures Sorted(s[..l] + [value] + s[l..last])
    ensures multiset(s[..l] + [value] + s[l..last]) == multiset(s[..last]) + multiset{value}
  {
    var r := s[..l] + [value] + s[l..last];
    assert s[..last] == s[..l] + s[l..last];
    forall i, j | 0 <= i < j < |r|
      ensures r[i] <= r[j]
    {
      if j < l {
        assert s[..last][i] <= s[..last][j];
      } else if i < l {
        assert s[..last][i] <= s[..last][l - 1];
        if j > l {
          assert r[j] == s[j - 1];
        }
      } else if i > l {
        assert s[..last][i - 1] <= s[..last][j - 1];
      } else {
        assert r[j] == s[j - 1];
      }
    }
  }

  /** `unchecked_insertion_sort` with the element copied before it is
      inserted: sorts a range whose first `start` elements are already
      sorted and whose first element is at most every later one. */
  method UncheckedInsertionSort(s: seq<int>, start: nat) returns (r: seq<int>)
    requires 0 < start <= |s|
    requires Sorted(s[..start])
    requires forall k :: start <= k < |s| ==> s[0] <= s[k]
    ensures Sorted(r) && multiset(r) == multiset(s)
  {
    r := s;
    var i := start;
    while i < |s|
      invariant start <= i <= |s| && |r| == |s|
      invariant Sorted(r[..i]) && r[i..] == s[i..] && r[0] == s[0]
      invariant multiset(r) == multiset(s)
    {
      assert r[i] == s[i];
      var b := UncheckedLinearInsert(r, i, r[i]);
      InsertedPrefix(r, b, i);
      r := b;
      i := i + 1;
    }
    assert r[..|s|] == r;
  }

  /** The shift-to-front branch of `insertion_sort`: after the sorted run
      moved one place right, the new element, smaller than all of it, goes
      first. */
  lemma MoveToFront(r: seq<int>, c: seq<int>, i: nat)
    requires 0 < i < |r| && |c| == |r| && Sorted(r[..i]) && r[i] < r[0]
    requires c[1..i + 1] == r[..i] && c[i + 1..] == r[i + 1..]
    ensures Sorted(c[0 := r[i]][..i + 1]) && c[0 := r[i]][i + 1..] == r[i + 1..]
    ensures multiset(c[0 := r[i]]) == multiset(r)
  {
    var b := c[0 := r[i]];
    assert b == [r[i]] + r[..i] + r[i + 1..];
    assert r == r[..i] + [r[i]] + r[i + 1..];
    forall p, q | 0 <= p < q <= i
      ensures b[p] <= b[q]
    {
      if p > 0 {
        assert r[..i][p - 1] <= r[..i][q - 1];
      } else {
        assert r[..i][0] <= r[..i][q - 1];
      }
    }
  }

  /** The linear-insert branch keeps the multiset of the whole range. */
  lemma InsertedPrefix(r: seq<int>, c: seq<int>, i: nat)
    requires i < |r| && |c| == |r| && c[i + 1..] == r[i + 1..]
    requires multiset(c[..i + 1]) == multiset(r[..i]) + multiset{r[i]}
    ensures multiset(c) == multiset(r)
  {
    assert r == r[..i] + [r[i]] + r[i + 1..];
    assert c == c[..i + 1] + c[i + 1..];
  }

  /** `insertion_sort`: an element smaller than the first is moved to the
      front by shifting the whole sorted run with `copy_backward`; any other
      is inserted with the unchecked linear insert. */
  method InsertionSort(s: seq<int>) returns (r: seq<int>)
    ensures Sorted(r) && multiset(r) == multiset(s)
  {
    if |s| == 0 {
      return s;
    }
    r := s;
    var i := 1;
    while i < |s|
      invariant 1 <= i <= |s| && |r| == |s|
      invariant Sorted(r[..i]) && r[i..] == s[i..]
      invariant multiset(r) == multiset(s)
    {
      var value := r[i];
      if value < r[0] {
        var c, start := AlgoBase.CopyBackward(r, 0, i, i + 1);
        MoveToFront(r, c, i);
        r := c[0 := value];
      } else {
        var c := UncheckedLinearInsert(r, i, value);
        InsertedPrefix(r, c, i);
        r := c;
      }
      i := i + 1;
    }
    assert r[..|s|] == r;
  }

  /** `final_insertion_sort`: a long range is finished by an insertion sort
      of its first `SmallSectionSize` elements and an unchecked insertion of
      the rest, which is safe because the ghost `head` cuts off the smallest
      elements inside that first section. */
  method FinalInsertionSort(s: seq<int>, ghost head: nat) returns (r: seq<int>)
    requires |s| > SmallSectionSize ==> 0 < head <= SmallSectionSize && CutAt(s, head)
    ensures Sorted(r) && multiset(r) == multiset(s)
  {
    if |s| > SmallSectionSize {
      var p := InsertionSort(s[..SmallSectionSize]);
      var a := p + s[SmallSectionSize..];
      assert s == s[..SmallSectionSize] + s[SmallSectionSize..];
      assert |multiset(p)| == |multiset(s[..SmallSectionSize])|;
      assert a[..SmallSectionSize] == p;
      PermMember(p, s[..SmallSectionSize], 0);
      var j :| 0 <= j < SmallSectionSize && p[j] == s[0];
      assert p[0] <= p[j];
      forall k | SmallSectionSize <= k < |a|
        ensures a[0] <= a[k]
      {
        assert s[0] <= s[k];
      }
      r := UncheckedInsertionSort(a, SmallSectionSize);
    } else {
      r := InsertionSort(s);
    }
  }

  /** `sort`: introspective sort with depth budget twice the binary
      logarithm of the length, then the final insertion sort. By
      `SortIsReference` the result is the reference arrangement. */
  method Sort(s: seq<int>) returns (r: seq<int>)
    ensures Sorted(r) && multiset(r) == multiset(s)
    ensures |s| == 0 ==> r == s
  {
    if |s| == 0 {
      return s;
    }
    var lg := Slg2(|s|);
    var a, head := IntroSort(s, lg * 2);
    r := FinalInsertionSort(a, head);
  }

  /** A sorted permutation of `s` is unique, so whatever `sort` returns is
      exactly the reference arrangement `SortedOf(s)`. */
  lemma SortIsReference(s: seq<int>, r: seq<int>)
    requires Sorted(r) && multiset(r) == multiset(s)
    ensures r == SortedOf(s)
  {
    Merge.SortedUnique(r, SortedOf(s));
  }

  /** `nth_element` with the pivot taken by value: the element that belongs
      at `nth` in sorted order is put there, nothing before it is larger and
      nothing after it is smaller. `nth == |s|` leaves the range alone. */
  method NthElement(s: seq<int>, nth: nat) returns (r: seq<int>)
    requires nth <= |s|
    ensures |r| == |s| && multiset(r) == multiset(s)
    ensures nth < |s| ==> forall i :: 0 <= i < nth ==> r[i] <= r[nth]
    ensures nth < |s| ==> forall i :: nth < i < |s| ==> r[nth] <= r[i]
    ensures nth < |s| ==> r[nth] == SortedOf(s)[nth]
    ensures nth == |s| ==> r == s
  {
    if nth == |s| {
      return s;
    }
    r := s;
    var first: nat := 0;
    var last: nat := |s|;
    while last - first > 3
      invariant NthState(r, s, first, last, nth)
      decreases last - first
    {
      var x := r[first..last];
      MedianSentinels(x);
      var pivot := Median(x[0], x[|x| / 2], x[|x| - 1]);
      var b, cut := UncheckedPartition(x, pivot);
      NthRound(r, s, b, first, last, cut, pivot, nth);
      r := Splice(r, b, first, last);
      if first + cut <= nth {
        first := first + cut;
      } else {
        last := first + cut;
      }
    }
    var sorted := InsertionSort(r[first..last]);
    NthFinish(r, s, sorted, first, last, nth);
    r := Splice(r, sorted, first, last);
    NthIsSortedValue(r, SortedOf(s), nth);
  }

  /** Reference: the sorted arrangement of `s`, by merging sorted halves. */
  function SortedOf(s: seq<int>): (t: seq<int>)
    ensures |t| == |s| && Sorted(t) && multiset(t) == multiset(s)
    decreases |s|
  {
    if |s| <= 1 then s
    else
      var h := |s| / 2;
      assert s == s[..h] + s[h..];
      var a, b := SortedOf(s[..h]), SortedOf(s[h..]);
      Merge.MergedSorted(a, b);
      Merge.MergedPerm(a, b);
      Merge.Merged(a, b)
  }

  /** A sorted run at most `v`, then `v`, then a sorted run at least `v`
      is sorted. */
  lemma SortedAround(x: seq<int>, v: int, y: seq<int>)
    requires Sorted(x) && Sorted(y) && AtMost(x, v) && AtLeast(y, v)
    ensures Sorted(x + [v] + y)
  {
    var u := x + [v] + y;
    forall i, j | 0 <= i < j < |u|
      ensures u[i] <= u[j]
    {
      if j < |x| || i > |x| {
      } else if i < |x| {
        assert u[i] <= v;
      } else {
        assert v <= u[j];
      }
    }
  }

  /** Rearranging both sides of position `nth` keeps the elements. */
  lemma PermAround(r: seq<int>, nth: nat, x: seq<int>, y: seq<int>)
    requires nth < |r|
    requires multiset(x) == multiset(r[..nth]) && multiset(y) == multiset(r[nth + 1..])
    ensures multiset(x + [r[nth]] + y) == multiset(r)
  {
    assert r == r[..nth] + [r[nth]] + r[nth + 1..];
  }

  /** A range split at `nth` into a part at most `r[nth]` and a part at
      least it holds at `nth` the element every sorted arrangement of it
      holds there. */
  lemma NthIsSortedValue(r: seq<int>, t: seq<int>, nth: nat)
    requires nth < |r| && |t| == |r|
    requires forall i :: 0 <= i < nth ==> r[i] <= r[nth]
    requires forall i :: nth < i < |r| ==> r[nth] <= r[i]
    requires Sorted(t) && multiset(t) == multiset(r)
    ensures t[nth] == r[nth]
  {
    var v := r[nth];
    var x, y := SortedOf(r[..nth]), SortedOf(r[nth + 1..]);
    assert AtMost(r[..nth], v);
    assert AtLeast(r[nth + 1..], v);
    AtMostPerm(r[..nth], x, v);
    AtLeastPerm(r[nth + 1..], y, v);
    SortedAround(x, v, y);
    PermAround(r, nth, x, y);
    Merge.SortedUnique(t, x + [v] + y);
    assert (x + [v] + y)[|x|] == v;
  }

  /** The loop invariant of `nth_element`: a permutation of the input with
      cuts at both ends of the range still to be narrowed, which holds
      `nth`. */
  ghost predicate NthState(r: seq<int>, s: seq<int>, first: nat, last: nat, nth: nat) {
    |r| == |s| && multiset(r) == multiset(s) && first <= nth < last <= |r|
    && CutAt(r, first) && CutAt(r, last)
  }

  /** A partition round of `nth_element` keeps its invariant for the side of
      the cut that holds `nth`. */
  lemma NthRound(r: seq<int>, s: seq<int>, b: seq<int>, first: nat, last: nat, cut: nat, pivot: int, nth: nat)
    requires NthState(r, s, first, last, nth)
    requires multiset(b) == multiset(r[first..last]) && cut <= |b|
    requires AtMost(b[..cut], pivot) && AtLeast(b[cut..], pivot)
    requires 0 < cut < |b|
    ensures first + cut < last && |Splice(r, b, first, last)| == |r|
    ensures first + cut <= nth ==> NthState(Splice(r, b, first, last), s, first + cut, last, nth)
    ensures nth < first + cut ==> NthState(Splice(r, b, first, last), s, first, first + cut, nth)
  {
    assert |multiset(b)| == |multiset(r[first..last])|;
    PartitionCut(r, b, first, last, cut, pivot);
  }

  /** Sorting the final short range of `nth_element` between its two cuts
      puts the right element at `nth`. */
  lemma NthFinish(r: seq<int>, s: seq<int>, sorted: seq<int>, first: nat, last: nat, nth: nat)
    requires NthState(r, s, first, last, nth)
    requires multiset(sorted) == multiset(r[first..last]) && Sorted(sorted)
    ensures |Splice(r, sorted, first, last)| == |s|
    ensures multiset(Splice(r, sorted, first, last)) == multiset(s)
    ensures forall i :: 0 <= i < nth ==> Splice(r, sorted, first, last)[i] <= Splice(r, sorted, first, last)[nth]
    ensures forall i :: nth < i < |s| ==> Splice(r, sorted, first, last)[nth] <= Splice(r, sorted, first, last)[i]
  {
    SpliceMultiset(r, sorted, first, last);
    CutSurvivesBlock(r, sorted, first, last, first);
    CutSurvivesBlock(r, sorted, first, last, last);
    var r' := Splice(r, sorted, first, last);
    assert r'[first..last] == sorted;
    forall i | 0 <= i < |s| && i != nth
      ensures i < nth ==> r'[i] <= r'[nth]
      ensures nth < i ==> r'[nth] <= r'[i]
    {
      if first <= i < last {
        assert sorted[i - first] == r'[i] && sorted[nth - first] == r'[nth];
      }
    }
  }
}
