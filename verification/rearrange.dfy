/** Rearranging algorithms that move elements without comparing them:
    `reverse`, `reverse_copy` and `swap_ranges`. Positions are offsets into
    the sequence `s` that holds the range (and, for two-range algorithms,
    both ranges). */
module Rearrange {
  import AlgoBase
  import opened Iterators

  /** Reference: the elements of `s` from the back. */
  function Reversed<T>(s: seq<T>): seq<T> {
    seq(|s|, k requires 0 <= k < |s| => s[|s| - 1 - k])
  }

  /** Reversing twice restores the sequence; reversal keeps the multiset and
      turns a concatenation around. */
  lemma ReversedInvolution<T>(s: seq<T>)
    ensures Reversed(Reversed(s)) == s
  {
    assert forall k :: 0 <= k < |s| ==> Reversed(Reversed(s))[k] == s[k];
  }

  lemma ReversedConcat<T>(a: seq<T>, b: seq<T>)
    ensures Reversed(a + b) == Reversed(b) + Reversed(a)
  {
    var r := Reversed(a + b);
    assert forall k :: 0 <= k < |b| ==> r[k] == b[|b| - 1 - k];
    assert forall k :: |b| <= k < |a| + |b| ==> r[k] == a[|a| + |b| - 1 - k];
  }

  lemma {:induction false} ReversedMultiset<T>(s: seq<T>)
    ensures multiset(Reversed(s)) == multiset(s)
  {
    if |s| > 0 {
      var init, last := s[..|s| - 1], s[|s| - 1];
      ReversedMultiset(init);
      assert s == init + [last];
      assert Reversed(s) == [last] + Reversed(init);
      calc {
        multiset(Reversed(s));
        multiset([last]) + multiset(Reversed(init));
        multiset([last]) + multiset(init);
        multiset(s);
      }
    }
  }

  /** `r` is `s` with `[first, last)` reversed in place. */
  ghost predicate ReversedIn<T>(r: seq<T>, s: seq<T>, first: nat, last: nat)
    requires first <= last <= |s|
  {
    |r| == |s| && r[..first] == s[..first] && r[last..] == s[last..]
    && forall k :: first <= k < last ==> r[k] == s[first + last - 1 - k]
  }

  lemma ReversedInSplice<T>(r: seq<T>, s: seq<T>, first: nat, last: nat)
    requires first <= last <= |s|
    requires ReversedIn(r, s, first, last)
    ensures r == s[..first] + Reversed(s[first..last]) + s[last..]
  {
    var t := s[..first] + Reversed(s[first..last]) + s[last..];
    assert forall k :: 0 <= k < |r| ==> r[k] == t[k] by {
      forall k | 0 <= k < |r|
        ensures r[k] == t[k]
      {
        if k < first {
          assert r[..first][k] == s[..first][k];
        } else if k >= last {
          assert r[last..][k - last] == s[last..][k - last];
        }
      }
    }
  }

  /** `reverse_dispatch` for bidirectional iterators: exchange the outermost
      pair and move both ends inwards until they meet or cross. */
  method ReverseBidirectional<T>(s: seq<T>, first: nat, last: nat) returns (r: seq<T>)
    requires first <= last <= |s|
    ensures r == s[..first] + Reversed(s[first..last]) + s[last..]
  {
    r := s;
    var f := first;
    var l := last;
    while true
      invariant first <= f <= l <= last && f - first == last - l
      invariant |r| == |s| && r[..first] == s[..first] && r[last..] == s[last..]
      invariant forall k :: first <= k < f || l <= k < last ==> r[k] == s[first + last - 1 - k]
      invariant forall k :: f <= k < l ==> r[k] == s[k]
      decreases l - f
    {
      if f == l {
        break;
      }
      l := l - 1;
      if f == l {
        break;
      }
      r := AlgoBase.IterSwap(r, f, l);
      f := f + 1;
    }
    ReversedInSplice(r, s, first, last);
  }

  /** `reverse_dispatch` for random-access iterators: exchange while the
      front is before the back. */
  method ReverseRandomAccess<T>(s: seq<T>, first: nat, last: nat) returns (r: seq<T>)
    requires first <= last <= |s|
    ensures r == s[..first] + Reversed(s[first..last]) + s[last..]
  {
    r := s;
    var f := first;
    var l := last;
    while f < l
      invariant first <= f && l <= last && f - first == last - l && f <= l + 1
      invariant |r| == |s| && r[..first] == s[..first] && r[last..] == s[last..]
      invariant forall k :: first <= k < f || l <= k < last ==> r[k] == s[first + last - 1 - k]
      invariant forall k :: f <= k < l ==> r[k] == s[k]
    {
      l := l - 1;
      r := AlgoBase.IterSwap(r, f, l);
      f := f + 1;
    }
    ReversedInSplice(r, s, first, last);
  }

  /** `reverse`: dispatches on the iterator tag (bidirectional or better). */
  method Reverse<T>(s: seq<T>, first: nat, last: nat, cat: Category) returns (r: seq<T>)
    requires first <= last <= |s|
    requires cat == Bidirectional || cat == RandomAccess
    ensures r == s[..first] + Reversed(s[first..last]) + s[last..]
  {
    if cat == RandomAccess {
      r := ReverseRandomAccess(s, first, last);
    } else {
      r := ReverseBidirectional(s, first, last);
    }
  }

  /** `reverse_copy`: writes the range back to front into `out` from
      position `result` and returns the end of what it wrote. */
  method ReverseCopy<T>(s: seq<T>, out: seq<T>, result: nat) returns (o: seq<T>, end: nat)
    requires result + |s| <= |out|
    ensures end == result + |s|
    ensures |o| == |out| && o[result..end] == Reversed(s)
    ensures o[..result] == out[..result] && o[end..] == out[end..]
  {
    o := out;
    var last := |s|;
    end := result;
    while last != 0
      invariant 0 <= last <= |s| && end == result + (|s| - last)
      invariant |o| == |out| && o[..result] == out[..result] && o[result + |s|..] == out[result + |s|..]
      invariant forall k :: result <= k < end ==> o[k] == s[|s| - 1 - (k - result)]
    {
      last := last - 1;
      o := o[end := s[last]];
      end := end + 1;
    }
    assert forall k :: 0 <= k < |s| ==> o[result..end][k] == o[result + k];
  }

  /** After `f1 - first1` exchanges: the positions done in each range hold
      the other range's elements, every other position is untouched, and
      the multiset is that of `s`. */
  ghost predicate SwapState(r: seq<int>, s: seq<int>, first1: nat, first2: nat, f1: nat, f2: nat)
  {
    first1 <= f1 && f2 == first2 + (f1 - first1) && f1 <= |s| && f2 <= |s|
    && |r| == |s| && multiset(r) == multiset(s)
    && (forall k :: 0 <= k < |s| && !(first1 <= k < f1) && !(first2 <= k < f2) ==> r[k] == s[k])
    && (forall k :: first1 <= k < f1 ==> r[k] == s[k - first1 + first2])
    && (forall k :: first2 <= k < f2 ==> r[k] == s[k - first2 + first1])
  }

  /** One exchange of the next pair, when neither position is done yet. */
  lemma SwapStep(r: seq<int>, s: seq<int>, first1: nat, first2: nat, f1: nat, f2: nat, last1: nat)
    requires f1 < last1 <= |s| && f2 + (last1 - f1) <= |s|
    requires last1 <= first2 || f2 + (last1 - f1) <= first1
    requires SwapState(r, s, first1, first2, f1, f2)
    ensures SwapState(AlgoBase.IterSwap(r, f1, f2), s, first1, first2, f1 + 1, f2 + 1)
  {
    AlgoBase.IterSwapInvolution(r, f1, f2);
    assert r[f1] == s[f1] && r[f2] == s[f2];
  }

  /** `swap_ranges`: exchanges `[first1, last1)` with the equally long range
      from `first2`, pair by pair, and returns the end of the second range.
      The two ranges must not overlap. */
  method SwapRanges(s: seq<int>, first1: nat, last1: nat, first2: nat) returns (r: seq<int>, end2: nat)
    requires first1 <= last1 <= |s| && first2 + (last1 - first1) <= |s|
    requires last1 <= first2 || first2 + (last1 - first1) <= first1
    ensures end2 == first2 + (last1 - first1)
    ensures |r| == |s| && multiset(r) == multiset(s)
    ensures r[first1..last1] == s[first2..end2] && r[first2..end2] == s[first1..last1]
    ensures forall k :: 0 <= k < |s| && !(first1 <= k < last1) && !(first2 <= k < end2) ==> r[k] == s[k]
  {
    r := s;
    var f1 := first1;
    var f2 := first2;
    while f1 != last1
      invariant first1 <= f1 <= last1
      invariant SwapState(r, s, first1, first2, f1, f2)
      decreases last1 - f1
    {
      SwapStep(r, s, first1, first2, f1, f2, last1);
      r := AlgoBase.IterSwap(r, f1, f2);
      f1 := f1 + 1;
      f2 := f2 + 1;
    }
    end2 := f2;
    assert forall k :: 0 <= k < last1 - first1 ==> r[first1..last1][k] == s[first2..end2][k];
    assert forall k :: 0 <= k < last1 - first1 ==> r[first2..end2][k] == s[first1..last1][k];
  }
}
