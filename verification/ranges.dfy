/** Shared vocabulary for ranges.

    A range `[first, last)` of the library is modelled as the sequence of the
    elements it holds; positions inside the range are offsets from `first`.
    The sorting, searching and merging algorithms of algo.hpp and
    heap_algo.hpp compare elements with `<` only;
    the model uses `int` elements, on which `<` is a strict total order. */
module Ranges {

  /** Non-descending order: no later element is smaller than an earlier one. */
  ghost predicate Sorted(s: seq<int>) {
    forall i, j :: 0 <= i < j < |s| ==> s[i] <= s[j]
  }

  /** Every element of `x` is at most every element of `y`: the property of a
      partition cut ("nothing left of the cut exceeds anything right of it"). */
  ghost predicate AllLe(x: seq<int>, y: seq<int>) {
    forall i, j :: 0 <= i < |x| && 0 <= j < |y| ==> x[i] <= y[j]
  }

  /** Every element of `x` is at most `p`. */
  ghost predicate AtMost(x: seq<int>, p: int) {
    forall i :: 0 <= i < |x| ==> x[i] <= p
  }

  /** Every element of `x` is at least `p`. */
  ghost predicate AtLeast(x: seq<int>, p: int) {
    forall i :: 0 <= i < |x| ==> p <= x[i]
  }

  /** `r` agrees with `s` everywhere outside `[lo, hi)`. */
  ghost predicate SameOutside(r: seq<int>, s: seq<int>, lo: int, hi: int)
    requires 0 <= lo <= hi <= |s|
  {
    |r| == |s| && r[..lo] == s[..lo] && r[hi..] == s[hi..]
  }

  /** Reading `r` where it agrees with `s`: one position, or a window
      that misses `[lo, hi)`. */
  lemma SameOutsideAt(r: seq<int>, s: seq<int>, lo: int, hi: int, k: int)
    requires 0 <= lo <= hi <= |s| && SameOutside(r, s, lo, hi)
    requires 0 <= k < |s| && (k < lo || hi <= k)
    ensures r[k] == s[k]
  {
    if k < lo {
      assert r[..lo][k] == s[..lo][k];
    } else {
      assert r[hi..][k - hi] == s[hi..][k - hi];
    }
  }

  /** A window that misses `[lo, hi)` is unchanged. */
  lemma SameOutsideWindow(r: seq<int>, s: seq<int>, lo: int, hi: int, x: int, y: int)
    requires 0 <= lo <= hi <= |s| && SameOutside(r, s, lo, hi)
    requires 0 <= x <= y <= |s| && (y <= lo || hi <= x)
    ensures r[x..y] == s[x..y]
  {
    forall k | x <= k < y
      ensures r[k] == s[k]
    {
      SameOutsideAt(r, s, lo, hi, k);
    }
  }

  /** Agreement on a window carries over to the windows inside it. */
  lemma AgreeWithin(u: seq<int>, t: seq<int>, lo: nat, hi: nat, i: nat, j: nat)
    requires lo <= i <= j <= hi <= |u| && hi <= |t| && u[lo..hi] == t[lo..hi]
    ensures u[i..j] == t[i..j]
  {
    forall k | 0 <= k < j - i
      ensures u[i..j][k] == t[i..j][k]
    {
      assert u[i..j][k] == u[lo..hi][i - lo + k];
      assert t[i..j][k] == t[lo..hi][i - lo + k];
    }
  }

  /** A window of a window is a window of the whole. */
  lemma SliceOfSlice(s: seq<int>, lo: nat, hi: nat, i: nat, j: nat)
    requires lo <= hi <= |s| && i <= j <= hi - lo
    ensures s[lo..hi][i..j] == s[lo + i..lo + j]
  {
    forall k | 0 <= k < j - i
      ensures s[lo..hi][i..j][k] == s[lo + i..lo + j][k]
    {
      assert s[lo..hi][i..j][k] == s[lo..hi][i + k] == s[lo + i + k];
    }
  }

  /** A window is the concatenation of its two consecutive parts. */
  lemma Windows2(s: seq<int>, p: nat, q: nat, t: nat)
    requires p <= q <= t <= |s|
    ensures s[p..t] == s[p..q] + s[q..t]
  {
  }

  /** A window is the concatenation of its three consecutive parts. */
  lemma Windows3(s: seq<int>, p: nat, q: nat, t: nat, u: nat)
    requires p <= q <= t <= u <= |s|
    ensures s[p..u] == s[p..q] + s[q..t] + s[t..u]
  {
  }

  /** Two changes confined to windows inside `[lo, hi)` leave everything
      outside `[lo, hi)` alone. */
  lemma SameOutsideCompose(t: seq<int>, r: seq<int>, s: seq<int>, lo1: int, hi1: int, lo2: int, hi2: int, lo: int, hi: int)
    requires 0 <= lo <= hi <= |s|
    requires 0 <= lo1 <= hi1 <= |s| && SameOutside(r, s, lo1, hi1)
    requires 0 <= lo2 <= hi2 <= |r| && SameOutside(t, r, lo2, hi2)
    requires lo <= lo1 && hi1 <= hi && lo <= lo2 && hi2 <= hi
    ensures SameOutside(t, s, lo, hi)
  {
    SameOutsideWindow(r, s, lo1, hi1, 0, lo);
    SameOutsideWindow(t, r, lo2, hi2, 0, lo);
    SameOutsideWindow(r, s, lo1, hi1, hi, |s|);
    SameOutsideWindow(t, r, lo2, hi2, hi, |s|);
    assert t[..lo] == t[0..lo] && s[..lo] == s[0..lo] && r[..lo] == r[0..lo];
    assert t[hi..] == t[hi..|s|] && s[hi..] == s[hi..|s|] && r[hi..] == r[hi..|s|];
  }

  /** An element of a permutation of `x` is an element of `x`. */
  lemma PermMember(x: seq<int>, y: seq<int>, i: int)
    requires multiset(x) == multiset(y)
    requires 0 <= i < |y|
    ensures exists j :: 0 <= j < |x| && x[j] == y[i]
  {
    assert y[i] in multiset(y);
    assert y[i] in x;
  }

  /** Bounds on all elements survive a permutation. */
  lemma AtMostPerm(x: seq<int>, y: seq<int>, p: int)
    requires multiset(x) == multiset(y)
    requires AtMost(x, p)
    ensures AtMost(y, p)
  {
    forall i | 0 <= i < |y|
      ensures y[i] <= p
    {
      PermMember(x, y, i);
    }
  }

  lemma AtLeastPerm(x: seq<int>, y: seq<int>, p: int)
    requires multiset(x) == multiset(y)
    requires AtLeast(x, p)
    ensures AtLeast(y, p)
  {
    forall i | 0 <= i < |y|
      ensures p <= y[i]
    {
      PermMember(x, y, i);
    }
  }

  /** A cut survives permuting either side of it. */
  lemma AllLePerm(x: seq<int>, y: seq<int>, x': seq<int>, y': seq<int>)
    requires multiset(x) == multiset(x') && multiset(y) == multiset(y')
    requires AllLe(x, y)
    ensures AllLe(x', y')
  {
    forall i, j | 0 <= i < |x'| && 0 <= j < |y'|
      ensures x'[i] <= y'[j]
    {
      PermMember(x, x', i);
      PermMember(y, y', j);
    }
  }

  /** Exchanging two positions keeps the multiset of a sequence. */
  lemma SwapPerm(s: seq<int>, i: int, j: int)
    requires 0 <= i < |s| && 0 <= j < |s|
    ensures multiset(s[i := s[j]][j := s[i]]) == multiset(s)
  {
  }

  /** Position `c` is a cut of `s`: nothing before it exceeds anything from
      it on. */
  ghost predicate CutAt(s: seq<int>, c: int) {
    forall i, j :: 0 <= i < c <= j < |s| ==> s[i] <= s[j]
  }

  /** Permuting a block that lies wholly on one side of a cut keeps the cut. */
  lemma CutSurvivesBlock(a: seq<int>, b: seq<int>, lo: int, hi: int, c: int)
    requires 0 <= lo <= hi <= |a|
    requires multiset(b) == multiset(a[lo..hi])
    requires c <= lo || c >= hi
    requires CutAt(a, c)
    ensures CutAt(a[..lo] + b + a[hi..], c)
  {
    var a' := a[..lo] + b + a[hi..];
    assert |b| == hi - lo by {
      assert |multiset(b)| == |multiset(a[lo..hi])|;
    }
    forall i, j | 0 <= i < c <= j < |a'|
      ensures a'[i] <= a'[j]
    {
      if lo <= i < hi {
        PermMember(a[lo..hi], b, i - lo);
      } else if lo <= j < hi {
        PermMember(a[lo..hi], b, j - lo);
      }
    }
  }

  /** A partition of the block between two cuts around a pivot adds a cut
      at the partition point. */
  lemma CutFromPartition(a: seq<int>, lo: int, hi: int, c: int, pivot: int)
    requires 0 <= lo <= c <= hi <= |a|
    requires CutAt(a, lo) && CutAt(a, hi)
    requires AtMost(a[lo..c], pivot) && AtLeast(a[c..hi], pivot)
    ensures CutAt(a, c)
  {
    forall i, j | 0 <= i < c <= j < |a|
      ensures a[i] <= a[j]
    {
      if i < lo {
      } else if j >= hi {
      } else {
        assert a[lo..c][i - lo] <= pivot;
        assert pivot <= a[c..hi][j - c];
      }
    }
  }

  /** A sorted block between two cuts, with every other position cut off,
      makes the whole sequence sorted. */
  lemma SortedFromCuts(a: seq<int>, lo: int, hi: int)
    requires 0 <= lo <= hi <= |a|
    requires CutAt(a, lo) && CutAt(a, hi) && Sorted(a[lo..hi])
    requires Sorted(a[..lo]) && Sorted(a[hi..])
    ensures Sorted(a)
  {
    forall i, j | 0 <= i < j < |a|
      ensures a[i] <= a[j]
    {
      if j < lo {
        assert a[..lo][i] <= a[..lo][j];
      } else if i >= hi {
        assert a[hi..][i - hi] <= a[hi..][j - hi];
      } else if lo <= i && j < hi {
        assert a[lo..hi][i - lo] <= a[lo..hi][j - lo];
      }
    }
  }

  /** Splicing a permutation of a block back in keeps the multiset. */
  lemma SpliceMultiset(a: seq<int>, b: seq<int>, lo: int, hi: int)
    requires 0 <= lo <= hi <= |a|
    requires multiset(b) == multiset(a[lo..hi])
    ensures |a[..lo] + b + a[hi..]| == |a|
    ensures multiset(a[..lo] + b + a[hi..]) == multiset(a)
  {
    assert |multiset(b)| == |multiset(a[lo..hi])|;
    assert a == a[..lo] + a[lo..hi] + a[hi..];
  }

  /** Partitioning the block between two cuts around a pivot and splicing
      it back keeps both cuts and the multiset and adds a cut at the
      partition point. */
  lemma PartitionCut(a: seq<int>, b: seq<int>, lo: int, hi: int, cut: int, pivot: int)
    requires 0 <= lo <= hi <= |a| && 0 <= cut <= |b|
    requires CutAt(a, lo) && CutAt(a, hi)
    requires multiset(b) == multiset(a[lo..hi])
    requires AtMost(b[..cut], pivot) && AtLeast(b[cut..], pivot)
    ensures |a[..lo] + b + a[hi..]| == |a|
    ensures multiset(a[..lo] + b + a[hi..]) == multiset(a)
    ensures (a[..lo] + b + a[hi..])[lo..hi] == b
    ensures CutAt(a[..lo] + b + a[hi..], lo) && CutAt(a[..lo] + b + a[hi..], hi)
    ensures CutAt(a[..lo] + b + a[hi..], lo + cut)
  {
    SpliceMultiset(a, b, lo, hi);
    CutSurvivesBlock(a, b, lo, hi, lo);
    CutSurvivesBlock(a, b, lo, hi, hi);
    var a' := a[..lo] + b + a[hi..];
    assert a'[lo..hi] == b;
    assert a'[lo..lo + cut] == b[..cut];
    assert a'[lo + cut..hi] == b[cut..];
    CutFromPartition(a', lo, hi, lo + cut, pivot);
  }

  /** A cut of a sequence is a cut of every suffix that contains it. */
  lemma CutSuffix(a: seq<int>, lo: int, c: int)
    requires 0 <= lo <= c <= |a|
    requires CutAt(a, c)
    ensures CutAt(a[lo..], c - lo)
  {
  }
}
