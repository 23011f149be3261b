/** `swap`, `swap_range` and `pair`. Values are immutable, so a swap returns
    the exchanged values; `move` is a copy in this value model. The pair
    comparisons take the components' `operator<` as the functions `lt1` and
    `lt2`. */
module Utility {
  import AlgoBase

  // -----------------------------------------------------------------------
  // swap

  /** `swap`: through a temporary, `left` receives `right` and `right`
      receives the old `left`. */
  method Swap<T>(left: T, right: T) returns (l: T, r: T)
    ensures l == right && r == left
  {
    var tmp := left;
    l := right;
    r := tmp;
  }

  /** Reference for `swap_range`: the first `last - first` elements of the
      two ranges trade places and nothing else moves. */
  function SwappedRanges<T>(a: seq<T>, first: nat, last: nat, b: seq<T>, dest: nat): (p: (seq<T>, seq<T>))
    requires first <= last <= |a| && dest + (last - first) <= |b|
  {
    var end := dest + (last - first);
    (a[..first] + b[dest..end] + a[last..], b[..dest] + a[first..last] + b[end..])
  }

  /** Swapping the same two ranges again restores both sequences. */
  lemma SwappedRangesInvolution<T>(a: seq<T>, first: nat, last: nat, b: seq<T>, dest: nat)
    requires first <= last <= |a| && dest + (last - first) <= |b|
    ensures var p := SwappedRanges(a, first, last, b, dest);
      SwappedRanges(p.0, first, last, p.1, dest) == (a, b)
  {
    var end := dest + (last - first);
    var p := SwappedRanges(a, first, last, b, dest);
    Spliced(a, first, last, b[dest..end]);
    Spliced(b, dest, end, a[first..last]);
    var q := SwappedRanges(p.0, first, last, p.1, dest);
    assert q.0 == a[..first] + a[first..last] + a[last..];
    assert q.1 == b[..dest] + b[dest..end] + b[end..];
    assert a[..first] + a[first..last] + a[last..] == a;
    assert b[..dest] + b[dest..end] + b[end..] == b;
  }

  /** The three parts of `u` with `[first, last)` replaced by `t`. */
  lemma Spliced<T>(u: seq<T>, first: nat, last: nat, t: seq<T>)
    requires first <= last <= |u| && |t| == last - first
    ensures var s := u[..first] + t + u[last..];
      |s| == |u| && s[..first] == u[..first] && s[first..last] == t && s[last..] == u[last..]
  {
    var s := u[..first] + t + u[last..];
    assert s[..first] == u[..first];
    assert s[first..last] == t;
    assert s[last..] == u[last..];
  }

  /** Loop state of `swap_range` after `i` swaps. */
  ghost predicate SwapRangeState<T>(x: seq<T>, y: seq<T>, a: seq<T>, first: nat, last: nat, b: seq<T>, dest: nat, i: nat)
  {
    first + i <= last <= |a| && dest + (last - first) <= |b| && |x| == |a| && |y| == |b|
    && (forall k :: 0 <= k < |a| && !(first <= k < first + i) ==> x[k] == a[k])
    && (forall k :: 0 <= k < |b| && !(dest <= k < dest + i) ==> y[k] == b[k])
    && (forall k :: first <= k < first + i ==> x[k] == b[dest + (k - first)])
    && (forall k :: dest <= k < dest + i ==> y[k] == a[first + (k - dest)])
  }

  /** `swap_range`: swaps `*first` with `*dest` pair by pair until `first`
      reaches `last`, and returns the advanced `dest`. The two ranges are
      taken from separate sequences `a` and `b`; the same-sequence case is
      `Rearrange.SwapRanges`. */
  method SwapRange<T>(a: seq<T>, first: nat, last: nat, b: seq<T>, dest: nat) returns (x: seq<T>, y: seq<T>, end: nat)
    requires first <= last <= |a| && dest + (last - first) <= |b|
    ensures end == dest + (last - first)
    ensures (x, y) == SwappedRanges(a, first, last, b, dest)
  {
    x, y := a, b;
    var f, d := first, dest;
    while f != last
      invariant d == dest + (f - first)
      invariant SwapRangeState(x, y, a, first, last, b, dest, f - first)
      decreases last - f
    {
      var l, r := Swap(x[f], y[d]);
      x := x[f := l];
      y := y[d := r];
      f, d := f + 1, d + 1;
    }
    end := d;
    var p := SwappedRanges(a, first, last, b, dest);
    forall k | 0 <= k < |a|
      ensures x[k] == p.0[k]
    {
      if first <= k < last {
        assert p.0[k] == b[dest..end][k - first];
      }
    }
    forall k | 0 <= k < |b|
      ensures y[k] == p.1[k]
    {
      if dest <= k < end {
        assert p.1[k] == a[first..last][k - dest];
      }
    }
    assert x == p.0 && y == p.1;
  }

  /** Swapping the first three of `[1, 2, 3, 4, 5]` with `[5, 4, 3, 2, 1]`
      gives `[5, 4, 3, 4, 5]` and `[1, 2, 3, 2, 1]`. */
  lemma SwappedRangesExample()
    ensures SwappedRanges([1, 2, 3, 4, 5], 0, 3, [5, 4, 3, 2, 1], 0) == ([5, 4, 3, 4, 5], [1, 2, 3, 2, 1])
  {
    var a, b := [1, 2, 3, 4, 5], [5, 4, 3, 2, 1];
    assert a[..0] + b[0..3] + a[3..] == [5, 4, 3, 4, 5];
    assert b[..0] + a[0..3] + b[3..] == [1, 2, 3, 2, 1];
  }

  /** `swap` of two arrays of the same length `N`: `swap_range` over the
      whole of `a` into `b`. */
  method SwapArrays<T>(a: seq<T>, b: seq<T>) returns (x: seq<T>, y: seq<T>)
    requires |a| == |b|
    ensures x == b && y == a
  {
    var end;
    x, y, end := SwapRange(a, 0, |a|, b, 0);
    assert a[..0] + b[0..|a|] + a[|a|..] == b;
    assert b[..0] + a[0..|a|] + b[|a|..] == a;
  }

  // -----------------------------------------------------------------------
  // pair

  datatype Pair<T1, T2> = Pair(first: T1, second: T2)

  /** `make_pair`: a pair holding the two arguments. */
  function MakePair<T1, T2>(first: T1, second: T2): (p: Pair<T1, T2>)
    ensures p.first == first && p.second == second
  {
    Pair(first, second)
  }

  /** `pair::swap` and the free `swap` on pairs: both components are
      exchanged with `swap`. */
  method PairSwap<T1, T2>(left: Pair<T1, T2>, right: Pair<T1, T2>) returns (l: Pair<T1, T2>, r: Pair<T1, T2>)
    ensures l == right && r == left
  {
    var f1, f2 := Swap(left.first, right.first);
    var s1, s2 := Swap(left.second, right.second);
    l := Pair(f1, s1);
    r := Pair(f2, s2);
  }

  /** `operator==` on pairs: both components compare equal. */
  function PairEqual<T1(==), T2(==)>(left: Pair<T1, T2>, right: Pair<T1, T2>): (b: bool)
    ensures b <==> left == right
  {
    left.first == right.first && left.second == right.second
  }

  function PairNotEqual<T1(==), T2(==)>(left: Pair<T1, T2>, right: Pair<T1, T2>): (b: bool)
    ensures b <==> left != right
  {
    !PairEqual(left, right)
  }

  /** `operator<` on pairs: `first` decides, and only when neither `first`
      is below the other does `second` decide. */
  function PairLess<T1, T2>(left: Pair<T1, T2>, right: Pair<T1, T2>, lt1: (T1, T1) -> bool, lt2: (T2, T2) -> bool): bool
  {
    lt1(left.first, right.first) || (!lt1(right.first, left.first) && lt2(left.second, right.second))
  }

  function PairGreater<T1, T2>(left: Pair<T1, T2>, right: Pair<T1, T2>, lt1: (T1, T1) -> bool, lt2: (T2, T2) -> bool): bool
  {
    PairLess(right, left, lt1, lt2)
  }

  function PairLessEq<T1, T2>(left: Pair<T1, T2>, right: Pair<T1, T2>, lt1: (T1, T1) -> bool, lt2: (T2, T2) -> bool): bool
  {
    !PairLess(right, left, lt1, lt2)
  }

  function PairGreaterEq<T1, T2>(left: Pair<T1, T2>, right: Pair<T1, T2>, lt1: (T1, T1) -> bool, lt2: (T2, T2) -> bool): bool
  {
    !PairLess(left, right, lt1, lt2)
  }

  function IntLess(x: int, y: int): bool { x < y }

  /** With `<` on integer components, pair `<` is the lexicographic order,
      and `>`, `<=` and `>=` are its converse, its reflexive closure and
      the converse of that; so `(1, 2) < (1, 3)` and `(1, 2) <= (1, 2)`. */
  lemma PairOrderInt(left: Pair<int, int>, right: Pair<int, int>)
    ensures PairLess(left, right, IntLess, IntLess) <==>
      left.first < right.first || (left.first == right.first && left.second < right.second)
    ensures PairGreater(left, right, IntLess, IntLess) <==>
      left.first > right.first || (left.first == right.first && left.second > right.second)
    ensures PairLessEq(left, right, IntLess, IntLess) <==> PairLess(left, right, IntLess, IntLess) || left == right
    ensures PairGreaterEq(left, right, IntLess, IntLess) <==> PairGreater(left, right, IntLess, IntLess) || left == right
  {
  }

  /** Exactly one of `l < r`, `l == r`, `r < l` holds for integer pairs. */
  lemma PairTrichotomyInt(left: Pair<int, int>, right: Pair<int, int>)
    ensures PairLess(left, right, IntLess, IntLess) || left == right || PairLess(right, left, IntLess, IntLess)
    ensures !(PairLess(left, right, IntLess, IntLess) && PairLess(right, left, IntLess, IntLess))
    ensures PairLess(left, right, IntLess, IntLess) ==> left != right
  {
  }

  /** Two pairs are equivalent under pair `<` exactly when their firsts
      are equivalent and their seconds are equivalent. */
  lemma PairIncomparable<T1(!new), T2(!new)>(left: Pair<T1, T2>, right: Pair<T1, T2>, lt1: (T1, T1) -> bool, lt2: (T2, T2) -> bool)
    requires AlgoBase.StrictWeakOrder(lt1)
    ensures !PairLess(left, right, lt1, lt2) && !PairLess(right, left, lt1, lt2) <==>
      !lt1(left.first, right.first) && !lt1(right.first, left.first) &&
      !lt2(left.second, right.second) && !lt2(right.second, left.second)
  {
  }

  /** When the component orders are strict weak orders, so is pair `<`:
      the precondition the sorting and searching algorithms place on their
      comparator carries over to pairs. */
  lemma PairStrictWeakOrder<T1(!new), T2(!new)>(lt1: (T1, T1) -> bool, lt2: (T2, T2) -> bool)
    requires AlgoBase.StrictWeakOrder(lt1) && AlgoBase.StrictWeakOrder(lt2)
    ensures AlgoBase.StrictWeakOrder((l: Pair<T1, T2>, r: Pair<T1, T2>) => PairLess(l, r, lt1, lt2))
  {
    var lt := (l: Pair<T1, T2>, r: Pair<T1, T2>) => PairLess(l, r, lt1, lt2);
    forall x, y, z | lt(x, y) && lt(y, z)
      ensures lt(x, z)
    {
      PairTransitive(x, y, z, lt1, lt2);
    }
    forall x, y, z | !lt(x, y) && !lt(y, x) && !lt(y, z) && !lt(z, y)
      ensures !lt(x, z) && !lt(z, x)
    {
      PairIncomparable(x, y, lt1, lt2);
      PairIncomparable(y, z, lt1, lt2);
      PairIncomparable(x, z, lt1, lt2);
    }
  }

  lemma PairTransitive<T1(!new), T2(!new)>(x: Pair<T1, T2>, y: Pair<T1, T2>, z: Pair<T1, T2>, lt1: (T1, T1) -> bool, lt2: (T2, T2) -> bool)
    requires AlgoBase.StrictWeakOrder(lt1) && AlgoBase.StrictWeakOrder(lt2)
    requires PairLess(x, y, lt1, lt2) && PairLess(y, z, lt1, lt2)
    ensures PairLess(x, z, lt1, lt2)
  {
    if lt1(x.first, y.first) {
      if lt1(y.first, z.first) {
      } else {
        assert !lt1(z.first, y.first);
      }
    } else {
      assert !lt1(y.first, x.first) && lt2(x.second, y.second);
    }
  }
}
