/** Binary search over a range ordered by `<`: `lower_bound`,
    `upper_bound`, `binary_search` and `equal_range`. The forward and
    random-access tiers probe the same positions (one advances an iterator
    `half` steps, the other adds `half`), so each is modelled once on
    offsets. Every result is tied to a linear-scan reference definition. */
module Search {
  import opened Ranges

  /** Every element below `v` comes before every element that is not: the
      condition under which `lower_bound` finds the boundary. */
  ghost predicate PartitionedBelow(s: seq<int>, v: int) {
    forall i, j :: 0 <= i < j < |s| && s[j] < v ==> s[i] < v
  }

  /** Every element at most `v` comes before every element above it: the
      condition for `upper_bound`. */
  ghost predicate PartitionedAtMost(s: seq<int>, v: int) {
    forall i, j :: 0 <= i < j < |s| && s[j] <= v ==> s[i] <= v
  }

  /** Reference: the first position whose element is not less than `v`,
      found by scanning from the front; `|s|` if there is none. */
  function FirstNotLess(s: seq<int>, v: int): (i: nat)
    ensures i <= |s|
  {
    if |s| == 0 || !(s[0] < v) then 0 else 1 + FirstNotLess(s[1..], v)
  }

  /** Reference: the first position whose element is greater than `v`. */
  function FirstGreater(s: seq<int>, v: int): (i: nat)
    ensures i <= |s|
  {
    if |s| == 0 || v < s[0] then 0 else 1 + FirstGreater(s[1..], v)
  }

  /** A position with only smaller elements before it and a not-smaller
      element at it (or the end) is the one the scan finds. */
  lemma {:induction false} FirstNotLessAt(s: seq<int>, v: int, i: nat)
    requires i <= |s|
    requires forall k :: 0 <= k < i ==> s[k] < v
    requires i < |s| ==> !(s[i] < v)
    ensures FirstNotLess(s, v) == i
    decreases i
  {
    if i > 0 {
      FirstNotLessAt(s[1..], v, i - 1);
    }
  }

  lemma {:induction false} FirstGreaterAt(s: seq<int>, v: int, i: nat)
    requires i <= |s|
    requires forall k :: 0 <= k < i ==> s[k] <= v
    requires i < |s| ==> v < s[i]
    ensures FirstGreater(s, v) == i
    decreases i
  {
    if i > 0 {
      FirstGreaterAt(s[1..], v, i - 1);
    }
  }

  /** A sorted range is partitioned around every value. */
  lemma SortedPartitioned(s: seq<int>, v: int)
    requires Sorted(s)
    ensures PartitionedBelow(s, v) && PartitionedAtMost(s, v)
  {
  }

  /** `lower_bound`: halve the candidate range, keeping the upper half when
      the middle element is less than `value`. Returns the first position
      whose element is not less than `value`. */
  method LowerBound(s: seq<int>, value: int) returns (i: nat)
    requires PartitionedBelow(s, value)
    ensures i <= |s|
    ensures forall k :: 0 <= k < i ==> s[k] < value
    ensures forall k :: i <= k < |s| ==> !(s[k] < value)
    ensures i == FirstNotLess(s, value)
  {
    var first: nat := 0;
    var len: nat := |s|;
    while len > 0
      invariant first + len <= |s|
      invariant forall k :: 0 <= k < first ==> s[k] < value
      invariant forall k :: first + len <= k < |s| ==> !(s[k] < value)
    {
      var half := len / 2;
      var middle := first + half;
      if s[middle] < value {
        first := middle + 1;
        len := len - half - 1;
      } else {
        len := half;
      }
    }
    i := first;
    FirstNotLessAt(s, value, i);
  }

  /** `upper_bound`: keeps the lower half when `value` is less than the
      middle element. Returns the first position whose element is greater
      than `value`. */
  method UpperBound(s: seq<int>, value: int) returns (i: nat)
    requires PartitionedAtMost(s, value)
    ensures i <= |s|
    ensures forall k :: 0 <= k < i ==> s[k] <= value
    ensures forall k :: i <= k < |s| ==> value < s[k]
    ensures i == FirstGreater(s, value)
  {
    var first: nat := 0;
    var len: nat := |s|;
    while len > 0
      invariant first + len <= |s|
      invariant forall k :: 0 <= k < first ==> s[k] <= value
      invariant forall k :: first + len <= k < |s| ==> value < s[k]
    {
      var half := len / 2;
      var middle := first + half;
      if value < s[middle] {
        len := half;
      } else {
        first := middle + 1;
        len := len - half - 1;
      }
    }
    i := first;
    FirstGreaterAt(s, value, i);
  }

  /** `binary_search`: the lower bound is a position holding `value`. */
  method BinarySearch(s: seq<int>, value: int) returns (found: bool)
    requires Sorted(s)
    ensures found <==> value in s
  {
    SortedPartitioned(s, value);
    var i := LowerBound(s, value);
    found := i != |s| && !(value < s[i]);
    if value in s {
      var k :| 0 <= k < |s| && s[k] == value;
    }
  }

  /** `equal_range`: narrows the range until its middle element equals
      `value`, then finds the lower bound left of it and the upper bound
      right of it. When `value` does not occur the result is `(|s|, |s|)`,
      not the insertion point. */
  method EqualRange(s: seq<int>, value: int) returns (lo: nat, hi: nat)
    requires Sorted(s)
    ensures value in s ==> lo == FirstNotLess(s, value) && hi == FirstGreater(s, value)
    ensures value !in s ==> lo == |s| && hi == |s|
    ensures lo <= hi <= |s|
    ensures forall k :: lo <= k < hi ==> s[k] == value
  {
    var first: nat := 0;
    var len: nat := |s|;
    while len > 0
      invariant first + len <= |s|
      invariant forall k :: 0 <= k < first ==> s[k] < value
      invariant forall k :: first + len <= k < |s| ==> value < s[k]
    {
      var half := len / 2;
      var middle := first + half;
      if s[middle] < value {
        first := middle + 1;
        len := len - half - 1;
      } else if value < s[middle] {
        len := half;
      } else {
        var left := LowerBoundIn(s, first, middle, value);
        var right := UpperBoundIn(s, middle + 1, first + len, value);
        FirstNotLessAt(s, value, left);
        FirstGreaterAt(s, value, right);
        return left, right;
      }
    }
    assert value !in s by {
      forall k | 0 <= k < |s|
        ensures s[k] != value
      {
      }
    }
    return |s|, |s|;
  }

  /** `lower_bound` called on the sub-range `[first, last)` of `s`, as
      `equal_range` does; the result is an offset into `s`. */
  method LowerBoundIn(s: seq<int>, first: nat, last: nat, value: int) returns (i: nat)
    requires first <= last < |s| && Sorted(s) && s[last] == value
    requires forall k :: 0 <= k < first ==> s[k] < value
    ensures first <= i <= last
    ensures forall k :: 0 <= k < i ==> s[k] < value
    ensures i < |s| && !(s[i] < value)
  {
    SortedPartitioned(s[first..last], value);
    var j := LowerBound(s[first..last], value);
    i := first + j;
    forall k | first <= k < i
      ensures s[k] < value
    {
      assert s[first..last][k - first] == s[k];
    }
    if j < last - first {
      assert s[first..last][j] == s[i];
    }
  }

  /** `upper_bound` called on the sub-range `[first, last)` of `s`. */
  method UpperBoundIn(s: seq<int>, first: nat, last: nat, value: int) returns (i: nat)
    requires 0 < first <= last <= |s| && Sorted(s) && s[first - 1] == value
    requires forall k :: last <= k < |s| ==> value < s[k]
    ensures first <= i <= last
    ensures forall k :: 0 <= k < i ==> s[k] <= value
    ensures i < |s| ==> value < s[i]
  {
    SortedPartitioned(s[first..last], value);
    var j := UpperBound(s[first..last], value);
    i := first + j;
    forall k | 0 <= k < i
      ensures s[k] <= value
    {
      if k >= first {
        assert s[first..last][k - first] == s[k];
      } else {
        assert s[k] <= s[first - 1];
      }
    }
    if j < last - first {
      assert s[first..last][j] == s[i];
    }
  }

  /** In `[1, 2, 3, 3, 4, 5]` the value 3 starts at offset 2 and its upper
      bound is offset 4. */
  lemma BoundsExample()
    ensures FirstNotLess([1, 2, 3, 3, 4, 5], 3) == 2
    ensures FirstGreater([1, 2, 3, 3, 4, 5], 3) == 4
  {
    var s := [1, 2, 3, 3, 4, 5];
    FirstNotLessAt(s, 3, 2);
    FirstGreaterAt(s, 3, 4);
  }
}
