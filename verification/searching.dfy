/** The linear searching algorithms of algo.hpp: `find`, `search`,
    `search_n`, `find_end` (both iterator tiers), `adjacent_find`,
    `includes`, `is_sorted`, `max_element` and `min_elememt` (so spelled in
    the library). A range is the sequence `s`; a returned iterator is an
    offset into it, and `|s|` stands for `last`. Each result is tied to a
    reference characterisation: the first (or last) position where a
    stated condition holds, or the end when there is none. */
module Searching {
  import opened Ranges
  import Rearrange

  // -----------------------------------------------------------------------
  // find

  /** `find` from offset `from`: the first position at or after `from`
      holding `value`, or the end. */
  method Find(s: seq<int>, from: nat, value: int) returns (i: nat)
    requires from <= |s|
    ensures from <= i <= |s|
    ensures i < |s| ==> s[i] == value
    ensures forall k :: from <= k < i ==> s[k] != value
  {
    i := from;
    while i != |s| && s[i] != value
      invariant from <= i <= |s|
      invariant forall k :: from <= k < i ==> s[k] != value
    {
      i := i + 1;
    }
  }

  // -----------------------------------------------------------------------
  // search

  /** The pattern `p` occurs in `s` starting at `i`. */
  ghost predicate MatchesAt(s: seq<int>, p: seq<int>, i: int) {
    0 <= i && i + |p| <= |s| && s[i..i + |p|] == p
  }

  /** No occurrence can start where the pattern no longer fits. */
  lemma NoRoom(s: seq<int>, p: seq<int>, from: int)
    requires from + |p| > |s|
    ensures forall k :: from <= k ==> !MatchesAt(s, p, k)
  {
  }

  /** `search`: the first position where `p` occurs in `s`, or the end when
      it occurs nowhere. An empty pattern occurs at the start. The pattern
      is compared from its front; on a mismatch the candidate start moves
      on by one, and when the candidate is the last place the pattern fits
      the search gives up. */
  method Search(s: seq<int>, p: seq<int>) returns (i: nat)
    ensures i <= |s|
    ensures forall k :: 0 <= k < i ==> !MatchesAt(s, p, k)
    ensures i == |s| || MatchesAt(s, p, i)
  {
    var d1, d2 := |s|, |p|;
    if d1 < d2 {
      NoRoom(s, p, 0);
      return |s|;
    }
    var first1, current2 := 0, 0;
    while current2 != |p|
      invariant first1 + |p| <= |s| && d1 == |s| - first1 && d2 == |p|
      invariant 0 <= current2 <= |p|
      invariant s[first1..first1 + current2] == p[..current2]
      invariant forall k :: 0 <= k < first1 ==> !MatchesAt(s, p, k)
      decreases |s| - first1, |p| - current2
    {
      if s[first1 + current2] == p[current2] {
        assert s[first1..first1 + current2 + 1] == s[first1..first1 + current2] + [s[first1 + current2]];
        assert p[..current2 + 1] == p[..current2] + [p[current2]];
        current2 := current2 + 1;
      } else {
        assert s[first1..first1 + |p|][current2] != p[current2];
        if d1 == d2 {
          NoRoom(s, p, first1 + 1);
          return |s|;
        }
        first1, current2, d1 := first1 + 1, 0, d1 - 1;
      }
    }
    assert p[..|p|] == p;
    i := first1;
  }

  // -----------------------------------------------------------------------
  // find_end

  /** `find_end`'s promise: the start of the last occurrence of a
      non-empty pattern, or the end when the pattern is empty or occurs
      nowhere. */
  ghost predicate LastMatch(s: seq<int>, p: seq<int>, i: nat) {
    i <= |s|
    && (|p| == 0 ==> i == |s|)
    && (|p| > 0 ==>
          (i == |s| && forall k :: !MatchesAt(s, p, k))
          || (MatchesAt(s, p, i) && forall k :: i < k ==> !MatchesAt(s, p, k)))
  }

  /** Occurrences in a suffix are occurrences in the whole, shifted. */
  lemma MatchesInSuffix(s: seq<int>, p: seq<int>, f: nat, k: int)
    requires f <= |s| && 0 <= k
    ensures MatchesAt(s[f..], p, k) <==> MatchesAt(s, p, f + k)
  {
    if 0 <= k && k + |p| <= |s| - f {
      assert s[f..][k..k + |p|] == s[f + k..f + k + |p|];
    }
  }

  /** `find_end_dispatch` for forward iterators: `search` again and again,
      each time from just after the previous occurrence, until it fails. */
  method FindEndForward(s: seq<int>, p: seq<int>) returns (i: nat)
    ensures LastMatch(s, p, i)
  {
    if |p| == 0 {
      return |s|;
    }
    var result, first1 := |s|, 0;
    while true
      invariant first1 <= |s| && result <= |s|
      invariant result == |s| ==> forall k :: 0 <= k < first1 ==> !MatchesAt(s, p, k)
      invariant result < |s| ==> MatchesAt(s, p, result) && result < first1
      invariant result < |s| ==> forall k :: result < k < first1 ==> !MatchesAt(s, p, k)
      decreases |s| - first1
    {
      var j := Search(s[first1..], p);
      if first1 + j == |s| {
        forall k | first1 <= k
          ensures !MatchesAt(s, p, k)
        {
          MatchesInSuffix(s, p, first1, k - first1);
        }
        return result;
      }
      MatchesInSuffix(s, p, first1, j);
      forall k | first1 <= k < first1 + j
        ensures !MatchesAt(s, p, k)
      {
        MatchesInSuffix(s, p, first1, k - first1);
      }
      result, first1 := first1 + j, first1 + j + 1;
    }
  }

  /** An occurrence in the reversed sequence of the reversed pattern is an
      occurrence of the pattern, counted from the other end. */
  lemma ReversedMatches(s: seq<int>, p: seq<int>, j: int)
    requires 0 <= j && j + |p| <= |s|
    ensures MatchesAt(Rearrange.Reversed(s), Rearrange.Reversed(p), j) <==> MatchesAt(s, p, |s| - j - |p|)
  {
    var i := |s| - j - |p|;
    var w := s[i..i + |p|];
    ReversedSlice(s, i, j, |p|);
    if Rearrange.Reversed(w) == Rearrange.Reversed(p) {
      Rearrange.ReversedInvolution(w);
      Rearrange.ReversedInvolution(p);
    }
  }

  lemma ReversedAt(s: seq<int>, k: nat)
    requires k < |s|
    ensures Rearrange.Reversed(s)[k] == s[|s| - 1 - k]
  {
  }

  /** A window of the reversed sequence is the reversed mirror window. */
  lemma ReversedSlice(s: seq<int>, i: nat, j: nat, len: nat)
    requires i + len + j == |s|
    ensures Rearrange.Reversed(s)[j..j + len] == Rearrange.Reversed(s[i..i + len])
  {
    var w := s[i..i + len];
    var rs, rw := Rearrange.Reversed(s), Rearrange.Reversed(w);
    forall k | 0 <= k < len
      ensures rs[j..j + len][k] == rw[k]
    {
      ReversedAt(s, j + k);
      ReversedAt(w, k);
      assert w[len - 1 - k] == s[i + (len - 1 - k)];
    }
  }

  /** `find_end_dispatch` for bidirectional iterators: `search` through
      reverse iterators for the reversed pattern, then step back from the
      found `base()` by the pattern's length. */
  method FindEndBidirectional(s: seq<int>, p: seq<int>) returns (i: nat)
    ensures LastMatch(s, p, i)
  {
    var rs, rp := Rearrange.Reversed(s), Rearrange.Reversed(p);
    var j := Search(rs, rp);
    if j == |s| {
      if |p| > 0 {
        forall k | MatchesAt(s, p, k)
          ensures false
        {
          ReversedMatches(s, p, |s| - k - |p|);
        }
      }
      return |s|;
    }
    if |p| == 0 {
      assert MatchesAt(rs, rp, 0);
    }
    ReversedMatches(s, p, j);
    i := |s| - j - |p|;
    forall k | i < k && MatchesAt(s, p, k)
      ensures false
    {
      ReversedMatches(s, p, |s| - k - |p|);
    }
  }

  /** `find_end`: dispatches on the iterator tier; both tiers find the
      same position. */
  method FindEnd(s: seq<int>, p: seq<int>, bidirectional: bool) returns (i: nat)
    ensures LastMatch(s, p, i)
  {
    if bidirectional {
      i := FindEndBidirectional(s, p);
    } else {
      i := FindEndForward(s, p);
    }
  }

  /** `LastMatch` singles out one position, so the two tiers agree. */
  lemma LastMatchUnique(s: seq<int>, p: seq<int>, i: nat, j: nat)
    requires LastMatch(s, p, i) && LastMatch(s, p, j)
    ensures i == j
  {
  }

  // -----------------------------------------------------------------------
  // search_n

  /** `n` consecutive copies of `v` start at `i`. */
  ghost predicate RunAt(s: seq<int>, n: nat, v: int, i: int) {
    0 <= i && i + n <= |s| && forall k :: i <= k < i + n ==> s[k] == v
  }

  /** `search_n`: for `n <= 0` the start; otherwise the first position
      where `n` copies of `value` begin, or the end. After each `find` of
      `value` it counts the copies that follow; a run that is too short
      resumes the `find` from the first position that broke it. */
  method SearchN(s: seq<int>, n: int, value: int) returns (i: nat)
    ensures n <= 0 ==> i == 0
    ensures n > 0 ==> i <= |s| && (i == |s| || RunAt(s, n, value, i))
    ensures n > 0 ==> forall k :: 0 <= k < i ==> !RunAt(s, n, value, k)
  {
    if n <= 0 {
      return 0;
    }
    var first := Find(s, 0, value);
    forall k | 0 <= k < first
      ensures !RunAt(s, n, value, k)
    {
      assert s[k] != value;
    }
    while first != |s|
      invariant first <= |s|
      invariant first < |s| ==> s[first] == value
      invariant forall k :: 0 <= k < first ==> !RunAt(s, n, value, k)
      decreases |s| - first
    {
      var counter := n - 1;
      var iter := first + 1;
      while iter != |s| && counter != 0 && s[iter] == value
        invariant first < iter <= |s| && counter == n - (iter - first)
        invariant forall k :: first <= k < iter ==> s[k] == value
      {
        iter, counter := iter + 1, counter - 1;
      }
      if counter == 0 {
        return first;
      }
      // Every start in `[first, iter]` covers `iter`, which ends the run.
      forall k | first <= k <= iter
        ensures !RunAt(s, n, value, k)
      {
        assert iter < k + n;
      }
      if iter == |s| {
        first := |s|;
      } else {
        var next := Find(s, iter, value);
        forall k | iter <= k < next
          ensures !RunAt(s, n, value, k)
        {
          assert s[k] != value;
        }
        first := next;
      }
    }
    i := |s|;
  }

  // -----------------------------------------------------------------------
  // adjacent_find

  /** `adjacent_find`: the first position whose element equals the next
      one, or the end. */
  method AdjacentFind(s: seq<int>) returns (i: nat)
    ensures i <= |s|
    ensures i < |s| ==> i + 1 < |s| && s[i] == s[i + 1]
    ensures forall k :: 0 <= k < i && k + 1 < |s| ==> s[k] != s[k + 1]
  {
    if |s| == 0 {
      return 0;
    }
    var first, next := 0, 1;
    while next != |s|
      invariant next == first + 1 && next <= |s|
      invariant forall k :: 0 <= k < first ==> s[k] != s[k + 1]
    {
      if s[first] == s[next] {
        return first;
      }
      first, next := next, next + 1;
    }
    i := |s|;
  }

  // -----------------------------------------------------------------------
  // includes

  /** Below every element of a sorted sequence, a value is not in it. */
  lemma BelowAll(s: seq<int>, v: int)
    requires Sorted(s) && |s| > 0 && v < s[0]
    ensures v !in multiset(s)
  {
    forall k | 0 < k < |s|
      ensures s[k] != v
    {
      assert s[0] <= s[k];
    }
    assert v !in s;
  }

  /** `includes` on sorted ranges: walks both ranges, failing on an
      element of the second below the first's current one, skipping
      smaller elements of the first and matching equal ones. True exactly
      when the second range is a sub-multiset of the first. */
  method Includes(a: seq<int>, b: seq<int>) returns (r: bool)
    requires Sorted(a) && Sorted(b)
    ensures r <==> multiset(b) <= multiset(a)
  {
    var i, j := 0, 0;
    while i != |a| && j != |b|
      invariant i <= |a| && j <= |b|
      invariant multiset(b) <= multiset(a) <==> multiset(b[j..]) <= multiset(a[i..])
      decreases |a| - i + |b| - j
    {
      if b[j] < a[i] {
        IncludesFails(a, b, i, j);
        return false;
      } else if a[i] < b[j] {
        IncludesSkips(a, b, i, j);
        i := i + 1;
      } else {
        IncludesMatches(a, b, i, j);
        i, j := i + 1, j + 1;
      }
    }
    if j == |b| {
      assert b[j..] == [];
      return true;
    }
    assert a[i..] == [] && b[j] in multiset(b[j..]);
    return false;
  }

  /** An element of the second range below the first's current element
      is missing from the rest of the first. */
  lemma IncludesFails(a: seq<int>, b: seq<int>, i: nat, j: nat)
    requires Sorted(a) && i < |a| && j < |b| && b[j] < a[i]
    ensures !(multiset(b[j..]) <= multiset(a[i..]))
  {
    SortedSuffix(a, i);
    BelowAll(a[i..], b[j]);
    assert b[j] in multiset(b[j..]);
  }

  /** A smaller element of the first range can match nothing further on in
      the second. */
  lemma IncludesSkips(a: seq<int>, b: seq<int>, i: nat, j: nat)
    requires Sorted(b) && i < |a| && j < |b| && a[i] < b[j]
    ensures multiset(b[j..]) <= multiset(a[i..]) <==> multiset(b[j..]) <= multiset(a[i + 1..])
  {
    assert a[i..] == [a[i]] + a[i + 1..];
    SortedSuffix(b, j);
    BelowAll(b[j..], a[i]);
    SkipAbsent(multiset(b[j..]), multiset(a[i + 1..]), a[i]);
  }

  /** Equal elements match each other. */
  lemma IncludesMatches(a: seq<int>, b: seq<int>, i: nat, j: nat)
    requires i < |a| && j < |b| && a[i] == b[j]
    ensures multiset(b[j..]) <= multiset(a[i..]) <==> multiset(b[j + 1..]) <= multiset(a[i + 1..])
  {
    assert a[i..] == [a[i]] + a[i + 1..] && b[j..] == [b[j]] + b[j + 1..];
    DropCommon(multiset(b[j + 1..]), multiset(a[i + 1..]), a[i]);
  }

  lemma SortedSuffix(s: seq<int>, i: nat)
    requires Sorted(s) && i <= |s|
    ensures Sorted(s[i..])
  {
    assert forall x, y :: 0 <= x < y < |s| - i ==> s[i..][x] == s[i + x] && s[i..][y] == s[i + y];
  }

  /** A value absent from `x` does not matter on the right of `<=`. */
  lemma SkipAbsent(x: multiset<int>, y: multiset<int>, v: int)
    requires v !in x
    ensures x <= multiset{v} + y <==> x <= y
  {
    if x <= multiset{v} + y {
      forall e | e in x
        ensures x[e] <= y[e]
      {
        assert e != v;
      }
    }
  }

  /** A common element can be dropped from both sides of `<=`. */
  lemma DropCommon(x: multiset<int>, y: multiset<int>, v: int)
    ensures multiset{v} + x <= multiset{v} + y <==> x <= y
  {
    if multiset{v} + x <= multiset{v} + y {
      forall e | e in x
        ensures x[e] <= y[e]
      {
        assert (multiset{v} + x)[e] <= (multiset{v} + y)[e];
      }
    }
  }

  // -----------------------------------------------------------------------
  // is_sorted

  /** `is_sorted`: checks that no element is less than the one before it;
      that is exactly sortedness. */
  method IsSorted(s: seq<int>) returns (b: bool)
    ensures b <==> Sorted(s)
  {
    if |s| == 0 {
      return true;
    }
    var first, next := 0, 1;
    while next != |s|
      invariant next == first + 1 && next <= |s|
      invariant Sorted(s[..next])
    {
      if s[next] < s[first] {
        return false;
      }
      SortedExtend(s, next);
      first, next := next, next + 1;
    }
    assert s[..next] == s;
    b := true;
  }

  /** A sorted prefix grows by an element no smaller than its last. */
  lemma SortedExtend(s: seq<int>, n: nat)
    requires 0 < n < |s| && Sorted(s[..n]) && s[n - 1] <= s[n]
    ensures Sorted(s[..n + 1])
  {
    var t := s[..n + 1];
    forall x, y | 0 <= x < y < |t|
      ensures t[x] <= t[y]
    {
      if y == n && x < n - 1 {
        assert s[..n][x] <= s[..n][n - 1];
      } else if y < n {
        assert s[..n][x] <= s[..n][y];
      }
    }
  }

  // -----------------------------------------------------------------------
  // max_element / min_elememt

  /** `max_element`: the first position of a largest element (a later one
      replaces the candidate only when strictly larger); the end for an
      empty range. */
  method MaxElement(s: seq<int>) returns (i: nat)
    ensures |s| == 0 ==> i == 0
    ensures |s| > 0 ==> i < |s| && forall k :: 0 <= k < |s| ==> s[k] <= s[i]
    ensures |s| > 0 ==> forall k :: 0 <= k < i ==> s[k] < s[i]
  {
    if |s| == 0 {
      return 0;
    }
    var result, first := 0, 1;
    while first != |s|
      invariant result < first <= |s|
      invariant forall k :: 0 <= k < first ==> s[k] <= s[result]
      invariant forall k :: 0 <= k < result ==> s[k] < s[result]
    {
      if s[result] < s[first] {
        result := first;
      }
      first := first + 1;
    }
    i := result;
  }

  /** `min_elememt`: the first position of a smallest element. */
  method MinElement(s: seq<int>) returns (i: nat)
    ensures |s| == 0 ==> i == 0
    ensures |s| > 0 ==> i < |s| && forall k :: 0 <= k < |s| ==> s[i] <= s[k]
    ensures |s| > 0 ==> forall k :: 0 <= k < i ==> s[i] < s[k]
  {
    if |s| == 0 {
      return 0;
    }
    var result, first := 0, 1;
    while first != |s|
      invariant result < first <= |s|
      invariant forall k :: 0 <= k < first ==> s[result] <= s[k]
      invariant forall k :: 0 <= k < result ==> s[result] < s[k]
    {
      if s[first] < s[result] {
        result := first;
      }
      first := first + 1;
    }
    i := result;
  }
}
