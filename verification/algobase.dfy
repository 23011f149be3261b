/** The elementary algorithms of algobase.hpp.

    Ranges are sequences. The copy family works inside ONE buffer `m`
    (source `[first, last)` and destination both index into `m`), because the
    library's callers use them to shift elements within a single array; the
    element-by-element loop is modelled, and the contracts say for which
    overlaps that loop is exact. */
module AlgoBase {

  /** The library's `operator<` on an element type, modelled by an integer
      key: `a < b` exactly when `key(a) < key(b)`. Elements with equal keys are
      "ties": equivalent for the order, but possibly different values. */
  function Max<T>(left: T, right: T, key: T -> int): (r: T)
    ensures r == left || r == right
    ensures key(r) >= key(left) && key(r) >= key(right)
    ensures key(left) == key(right) ==> r == right
  {
    if key(left) > key(right) then left else right
  }

  function Min<T>(left: T, right: T, key: T -> int): (r: T)
    ensures r == left || r == right
    ensures key(r) <= key(left) && key(r) <= key(right)
    ensures key(left) == key(right) ==> r == right
  {
    if key(left) < key(right) then left else right
  }

  /** A strict weak order: irreflexive, transitive, and with transitive
      incomparability (the requirement the library places on `Compare`). */
  ghost predicate StrictWeakOrder<T(!new)>(compare: (T, T) -> bool) {
    (forall x :: !compare(x, x)) &&
    (forall x, y, z :: compare(x, y) && compare(y, z) ==> compare(x, z)) &&
    (forall x, y, z :: !compare(x, y) && !compare(y, x) && !compare(y, z) && !compare(z, y) ==>
       !compare(x, z) && !compare(z, x))
  }

  /** `max` with a comparator: `right` only when `left` is strictly below it. */
  function MaxBy<T>(left: T, right: T, compare: (T, T) -> bool): (r: T)
    ensures r == left || r == right
    ensures compare(left, right) ==> r == right
    ensures !compare(left, right) ==> r == left
  {
    if compare(left, right) then right else left
  }

  /** `min` with a comparator: `right` only when it is strictly below `left`. */
  function MinBy<T>(left: T, right: T, compare: (T, T) -> bool): (r: T)
    ensures r == left || r == right
    ensures compare(right, left) ==> r == right
    ensures !compare(right, left) ==> r == left
  {
    if compare(right, left) then right else left
  }

  /** Under a strict weak order the comparator forms pick an extreme element
      and, on ties, the LEFT argument (unlike the operator forms `Max` and
      `Min`, which pick the right one). */
  lemma MaxMinByExtreme<T(!new)>(left: T, right: T, compare: (T, T) -> bool)
    requires StrictWeakOrder(compare)
    ensures !compare(MaxBy(left, right, compare), left)
    ensures !compare(MaxBy(left, right, compare), right)
    ensures !compare(left, MinBy(left, right, compare))
    ensures !compare(right, MinBy(left, right, compare))
    ensures !compare(left, right) && !compare(right, left) ==>
      MaxBy(left, right, compare) == left && MinBy(left, right, compare) == left
  {
  }

  /** `iter_swap`: exchange the elements at two positions. */
  function IterSwap<T>(s: seq<T>, i: nat, j: nat): (r: seq<T>)
    requires i < |s| && j < |s|
    ensures |r| == |s| && r[i] == s[j] && r[j] == s[i]
    ensures forall k :: 0 <= k < |s| && k != i && k != j ==> r[k] == s[k]
  {
    s[i := s[j]][j := s[i]]
  }

  /** Swapping twice restores the range, and a swap is a permutation. */
  lemma IterSwapInvolution<T>(s: seq<T>, i: nat, j: nat)
    requires i < |s| && j < |s|
    ensures IterSwap(IterSwap(s, i, j), i, j) == s
    ensures multiset(IterSwap(s, i, j)) == multiset(s)
  {
    var r := IterSwap(IterSwap(s, i, j), i, j);
    assert forall k :: 0 <= k < |s| ==> r[k] == s[k];
  }

  /** `copy` (the random-access element loop): writes `m[first..last]` to the
      positions starting at `dest` of the same buffer and returns the end of
      the written range. The loop is exact unless the destination starts
      strictly inside the source. */
  method Copy<T>(m: seq<T>, first: nat, last: nat, dest: nat) returns (r: seq<T>, end: nat)
    requires first <= last <= |m| && dest + (last - first) <= |m|
    ensures end == dest + (last - first)
    ensures |r| == |m|
    ensures dest <= first || dest >= last ==> r[dest..end] == m[first..last]
    ensures r[..dest] == m[..dest] && r[end..] == m[end..]
  {
    r := m;
    var n := last - first;
    var i := 0;
    while i < n
      invariant 0 <= i <= n && |r| == |m|
      invariant forall k :: 0 <= k < |m| && !(dest <= k < dest + i) ==> r[k] == m[k]
      invariant dest <= first || dest >= last ==> forall k :: dest <= k < dest + i ==> r[k] == m[k - dest + first]
    {
      r := r[dest + i := r[first + i]];
      i := i + 1;
    }
    end := dest + n;
    assert r[..dest] == m[..dest] && r[end..] == m[end..];
    if dest <= first || dest >= last {
      assert forall k :: 0 <= k < n ==> r[dest..end][k] == r[dest + k] == m[first + k];
    }
  }

  /** `copy_backward` (the random-access element loop): writes `m[first..last]`
      so that it ends just before `dest`, copying from the back; it returns
      the start of the written range. Exact unless the destination ends
      strictly inside the source. */
  method CopyBackward<T>(m: seq<T>, first: nat, last: nat, dest: nat) returns (r: seq<T>, start: nat)
    requires first <= last <= |m| && last - first <= dest <= |m|
    ensures start == dest - (last - first)
    ensures |r| == |m|
    ensures dest >= last || dest <= first ==> r[start..dest] == m[first..last]
    ensures r[..start] == m[..start] && r[dest..] == m[dest..]
  {
    r := m;
    var n := last - first;
    var i := n;
    while i > 0
      invariant 0 <= i <= n && |r| == |m|
      invariant forall k :: 0 <= k < |m| && !(dest - n + i <= k < dest) ==> r[k] == m[k]
      invariant dest >= last || dest <= first ==> forall k :: dest - n + i <= k < dest ==> r[k] == m[k - dest + last]
    {
      i := i - 1;
      r := r[dest - n + i := r[first + i]];
    }
    start := dest - n;
    assert r[..start] == m[..start] && r[dest..] == m[dest..];
    if dest >= last || dest <= first {
      assert forall k :: 0 <= k < n ==> r[start..dest][k] == r[start + k] == m[first + k];
    }
  }

  /** `fill_n`: writes `value` to `n` positions from `first`; a count that
      is zero or negative writes nothing. Returns the end position. */
  method FillN<T>(m: seq<T>, first: nat, n: int, value: T) returns (r: seq<T>, end: nat)
    requires n <= 0 || first + n <= |m|
    requires first <= |m|
    ensures end == if n > 0 then first + n else first
    ensures |r| == |m|
    ensures forall i :: first <= i < end ==> r[i] == value
    ensures r[..first] == m[..first] && r[end..] == m[end..]
  {
    r := m;
    var k := n;
    end := first;
    while k > 0
      invariant |r| == |m| && first <= end && end + (if k > 0 then k else 0) == (if n > 0 then first + n else first)
      invariant forall i :: first <= i < end ==> r[i] == value
      invariant r[..first] == m[..first] && r[end..] == m[end..]
    {
      r := r[end := value];
      end := end + 1;
      k := k - 1;
    }
  }

  /** `fill`: every position of `[first, last)` receives `value`. */
  method Fill<T>(m: seq<T>, first: nat, last: nat, value: T) returns (r: seq<T>)
    requires first <= last <= |m|
    ensures |r| == |m|
    ensures forall i :: first <= i < last ==> r[i] == value
    ensures r[..first] == m[..first] && r[last..] == m[last..]
  {
    var end;
    r, end := FillN(m, first, last - first, value);
  }

  /** `equal`: the first range matches the equally long prefix of the
      second (which must be at least as long). */
  method Equal<T(==)>(s1: seq<T>, s2: seq<T>) returns (b: bool)
    requires |s1| <= |s2|
    ensures b <==> s1 == s2[..|s1|]
  {
    var i := 0;
    while i < |s1|
      invariant 0 <= i <= |s1|
      invariant s1[..i] == s2[..i]
    {
      if s1[i] != s2[i] {
        return false;
      }
      i := i + 1;
    }
    assert s1 == s1[..i];
    return true;
  }

  /** `mismatch`: the first position where the ranges differ, or the end of
      the first range. */
  method Mismatch<T(==)>(s1: seq<T>, s2: seq<T>) returns (i: nat)
    requires |s1| <= |s2|
    ensures i <= |s1|
    ensures s1[..i] == s2[..i]
    ensures i < |s1| ==> s1[i] != s2[i]
  {
    i := 0;
    while i < |s1| && s1[i] == s2[i]
      invariant 0 <= i <= |s1|
      invariant s1[..i] == s2[..i]
    {
      i := i + 1;
    }
  }

  /** Lexicographic order, as a reference definition: the first difference
      decides, and a proper prefix is smaller. */
  ghost predicate LexLess(a: seq<int>, b: seq<int>)
    decreases |a|
  {
    if |a| == 0 then |b| > 0
    else if |b| == 0 then false
    else a[0] < b[0] || (a[0] == b[0] && LexLess(a[1..], b[1..]))
  }

  /** `lexicographical_compare`. */
  method LexicographicalCompare(s1: seq<int>, s2: seq<int>) returns (b: bool)
    ensures b <==> LexLess(s1, s2)
  {
    var i := 0;
    while i < |s1| && i < |s2|
      invariant 0 <= i <= |s1| && i <= |s2|
      invariant LexLess(s1, s2) <==> LexLess(s1[i..], s2[i..])
    {
      if s1[i] < s2[i] {
        return true;
      }
      if s1[i] > s2[i] {
        return false;
      }
      assert s1[i..][1..] == s1[i + 1..] && s2[i..][1..] == s2[i + 1..];
      i := i + 1;
    }
    return i == |s1| && i != |s2|;
  }

  /** The lexicographic order is a strict total order on sequences: exactly
      one of `a < b`, `a == b`, `b < a` holds. */
  lemma {:induction false} LexTrichotomy(a: seq<int>, b: seq<int>)
    ensures LexLess(a, b) || a == b || LexLess(b, a)
    ensures !(LexLess(a, b) && LexLess(b, a)) && !(a == b && LexLess(a, b))
    decreases |a|
  {
    if |a| > 0 && |b| > 0 {
      LexTrichotomy(a[1..], b[1..]);
      if a[0] == b[0] {
        assert a == [a[0]] + a[1..] && b == [b[0]] + b[1..];
        assert a == b <==> a[1..] == b[1..];
      }
    }
  }

  lemma {:induction false} LexTransitive(a: seq<int>, b: seq<int>, c: seq<int>)
    requires LexLess(a, b) && LexLess(b, c)
    ensures LexLess(a, c)
    decreases |a|
  {
    if |a| > 0 && a[0] == b[0] && b[0] == c[0] {
      LexTransitive(a[1..], b[1..], c[1..]);
    }
  }

  /** The sign of `memcmp` over the first `n` bytes: negative, zero or
      positive as the first differing byte is smaller, absent or larger. */
  function Memcmp(p: seq<int>, q: seq<int>, n: nat): (c: int)
    requires n <= |p| && n <= |q|
    ensures c == 0 <==> p[..n] == q[..n]
    decreases n
  {
    if n == 0 then 0
    else if p[0] != q[0] then (if p[0] < q[0] then -1 else 1)
    else
      var c := Memcmp(p[1..], q[1..], n - 1);
      assert p[..n] == [p[0]] + p[1..][..n - 1] && q[..n] == [q[0]] + q[1..][..n - 1];
      c
  }

  /** The overload of `lexicographical_compare` for `unsigned char` ranges:
      `memcmp` on the common length, then the shorter range is smaller. */
  function LexCompareBytes(s1: seq<int>, s2: seq<int>): bool {
    var n := if |s1| < |s2| then |s1| else |s2|;
    var c := Memcmp(s1, s2, n);
    if c != 0 then c < 0 else |s1| < |s2|
  }

  /** The `memcmp` overload agrees with the generic element loop. */
  lemma {:induction false} LexCompareBytesAgrees(s1: seq<int>, s2: seq<int>)
    ensures LexCompareBytes(s1, s2) <==> LexLess(s1, s2)
    decreases |s1|
  {
    if |s1| > 0 && |s2| > 0 && s1[0] == s2[0] {
      LexCompareBytesAgrees(s1[1..], s2[1..]);
      var n := if |s1| < |s2| then |s1| else |s2|;
      assert Memcmp(s1, s2, n) == Memcmp(s1[1..], s2[1..], n - 1);
    }
  }
}
