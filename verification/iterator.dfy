/** Iterator operations as integer position arithmetic. An iterator into a
    container is its position (an offset from `begin()`); the tag of an
    iterator selects which loop `distance` and `advance` run. */
module Iterators {

  /** The iterator tags. Forward, bidirectional and random-access iterators
      are also input iterators, so an operation without an overload for a
      tag falls back to the input-iterator one. */
  datatype Category = Input | Output | Forward | Bidirectional | RandomAccess

  /** `distance_dispatch` for input iterators: counts increments until the
      two positions meet. The source needs `last` to be reachable from
      `first`. */
  method DistanceInput(first: int, last: int) returns (n: int)
    requires first <= last
    ensures n == DistanceRandom(first, last)
    ensures n >= 0
  {
    var it := first;
    n := 0;
    while it != last
      invariant first <= it <= last
      invariant n == it - first
      decreases last - it
    {
      it := it + 1;
      n := n + 1;
    }
  }

  /** `distance_dispatch` for random-access iterators: one subtraction. */
  function DistanceRandom(first: int, last: int): int {
    last - first
  }

  /** `distance`: picks the loop by tag; only random-access iterators have
      their own overload. */
  method Distance(first: int, last: int, cat: Category) returns (n: int)
    requires cat != Output
    requires cat != RandomAccess ==> first <= last
    ensures n == last - first
  {
    if cat == RandomAccess {
      n := DistanceRandom(first, last);
    } else {
      n := DistanceInput(first, last);
    }
  }

  /** `advance_dispatch` for input iterators: `while (n--) ++iter`, which
      needs `n >= 0` (a negative count would not stop). */
  method AdvanceInput(pos: int, n: int) returns (r: int)
    requires n >= 0
    ensures r == pos + n
  {
    r := pos;
    var k := n;
    while k != 0
      invariant 0 <= k <= n
      invariant r == pos + (n - k)
      decreases k
    {
      k := k - 1;
      r := r + 1;
    }
  }

  /** `advance_dispatch` for bidirectional iterators: steps forward `n`
      times, or back `-n` times when `n` is negative. */
  method AdvanceBidirectional(pos: int, n: int) returns (r: int)
    ensures r == pos + n
  {
    r := pos;
    var k := n;
    if k >= 0 {
      while k != 0
        invariant 0 <= k <= n
        invariant r == pos + (n - k)
        decreases k
      {
        k := k - 1;
        r := r + 1;
      }
    } else {
      while k != 0
        invariant n <= k <= 0
        invariant r == pos + (n - k)
        decreases -k
      {
        k := k + 1;
        r := r - 1;
      }
    }
  }

  /** `advance`: input and forward iterators take the input loop, which
      needs a non-negative count; random-access iterators add `n`. Output
      iterators have no overload. */
  method Advance(pos: int, n: int, cat: Category) returns (r: int)
    requires cat != Output
    requires cat == Input || cat == Forward ==> n >= 0
    ensures r == pos + n
  {
    match cat
    case RandomAccess =>
      r := pos + n;
    case Bidirectional =>
      r := AdvanceBidirectional(pos, n);
    case _ =>
      r := AdvanceInput(pos, n);
  }

  /** A `reverse_iterator` holds the position `base()` just past the
      element it refers to. */
  datatype ReverseIterator = ReverseIterator(base: int)

  /** `rbegin()` wraps `end()` and `rend()` wraps `begin()`. */
  function RBegin(size: nat): ReverseIterator {
    ReverseIterator(size)
  }

  function REnd(): ReverseIterator {
    ReverseIterator(0)
  }

  /** `operator*`: the element just before `base()`. */
  function Deref(s: seq<int>, it: ReverseIterator): int
    requires 0 < it.base <= |s|
  {
    s[it.base - 1]
  }

  /** `++` and `--` move `base()` down and up by one. */
  function Inc(it: ReverseIterator): ReverseIterator {
    ReverseIterator(it.base - 1)
  }

  function Dec(it: ReverseIterator): ReverseIterator {
    ReverseIterator(it.base + 1)
  }

  /** `+ n` and `+= n` move `base()` down by `n`; `- n` and `-= n` move it
      up. */
  function Plus(it: ReverseIterator, n: int): ReverseIterator {
    ReverseIterator(it.base - n)
  }

  function Minus(it: ReverseIterator, n: int): ReverseIterator {
    ReverseIterator(it.base + n)
  }

  /** `operator[]`: dereferences `*this + n`. */
  function Index(s: seq<int>, it: ReverseIterator, n: int): int
    requires 0 < it.base - n <= |s|
  {
    Deref(s, Plus(it, n))
  }

  /** The free operators on two reverse iterators. */
  function Difference(lhs: ReverseIterator, rhs: ReverseIterator): int {
    rhs.base - lhs.base
  }

  predicate Less(lhs: ReverseIterator, rhs: ReverseIterator) {
    lhs.base > rhs.base
  }

  predicate Greater(lhs: ReverseIterator, rhs: ReverseIterator) {
    lhs.base < rhs.base
  }

  predicate LessEq(lhs: ReverseIterator, rhs: ReverseIterator) {
    !Greater(lhs, rhs)
  }

  predicate GreaterEq(lhs: ReverseIterator, rhs: ReverseIterator) {
    !Less(lhs, rhs)
  }

  /** Walking a reverse iterator from `rbegin()` visits the elements from
      the back: the `k`-th step, by increments or by `operator[]`, reaches
      `s[|s| - 1 - k]`, and `|s|` steps reach `rend()`. */
  lemma {:induction false} ReverseTraversal(s: seq<int>, k: nat)
    requires k < |s|
    ensures Deref(s, Plus(RBegin(|s|), k)) == s[|s| - 1 - k]
    ensures Index(s, RBegin(|s|), k) == s[|s| - 1 - k]
    ensures Plus(RBegin(|s|), |s|) == REnd()
    ensures Difference(REnd(), RBegin(|s|)) == |s|
  {
  }

  /** `k` increments equal `+ k`, and `-` undoes `+`. */
  lemma {:induction false} ReverseSteps(it: ReverseIterator, k: nat)
    ensures Steps(it, k) == Plus(it, k)
    ensures Minus(Plus(it, k), k) == it && Dec(Inc(it)) == it
    ensures Difference(Plus(it, k), it) == k
    decreases k
  {
    if k > 0 {
      ReverseSteps(it, k - 1);
    }
  }

  /** `k` applications of `++`. */
  function Steps(it: ReverseIterator, k: nat): ReverseIterator {
    if k == 0 then it else Inc(Steps(it, k - 1))
  }

  /** The comparisons agree with the difference, as for ordinary
      iterators, and form a total order: exactly one of `<`, `==`, `>`
      holds; `<=` and `>=` are their negations. */
  lemma ReverseOrder(a: ReverseIterator, b: ReverseIterator)
    ensures Less(a, b) <==> Difference(a, b) < 0
    ensures a == b <==> Difference(a, b) == 0
    ensures Greater(a, b) <==> Difference(a, b) > 0
    ensures Less(a, b) <==> Greater(b, a)
    ensures LessEq(a, b) <==> Less(a, b) || a == b
    ensures GreaterEq(a, b) <==> Greater(a, b) || a == b
  {
  }
}
