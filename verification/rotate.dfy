/** `rotate` in its three iterator tiers, `rgcd`, and `rotate_copy`. Inside
    a tier the range is the whole sequence `s` and `middle` an offset into
    it; the front-end `Rotate` cuts `[first, last)` out of a larger
    sequence, dispatches on the tag, and splices the result back. */
module Rotate {
  import opened Orbits
  import opened Iterators
  import AlgoBase
  import Rearrange
  import Ranges

  /** Reference: `s` rotated so that `s[m]` comes first. */
  function Rotated(s: seq<int>, m: nat): seq<int>
    requires m <= |s|
  {
    s[m..] + s[..m]
  }

  /** Element `k` of the rotation is element `k + m` of `s`, counted
      cyclically; rotating by `m` and then by `|s| - m` gives `s` back. */
  lemma RotatedIndex(s: seq<int>, m: nat, k: nat)
    requires m <= |s| && k < |s|
    ensures |Rotated(s, m)| == |s|
    ensures Rotated(s, m)[k] == s[(k + m) % |s|]
  {
    var n := |s|;
    if k + m < n {
      SmallMod(k + m, n);
    } else {
      SmallMod(k + m - n, n);
      MulAddMod(1, n, k + m - n);
    }
  }

  lemma RotatedInverse(s: seq<int>, m: nat)
    requires m <= |s|
    ensures Rotated(Rotated(s, m), |s| - m) == s
    ensures multiset(Rotated(s, m)) == multiset(s)
  {
    var r := Rotated(s, m);
    assert r[..|s| - m] == s[m..];
    assert r[|s| - m..] == s[..m];
    assert s == s[..m] + s[m..];
  }

  /** `rgcd`: Euclid's loop. The result is the greatest common divisor: it
      is zero only for two zeros, divides both arguments, and every common
      divisor divides it. */
  method Rgcd(m: nat, n: nat) returns (g: nat)
    ensures g == Gcd(m, n)
    ensures g == 0 <==> m == 0 && n == 0
    ensures g > 0 ==> Divides(g, m) && Divides(g, n)
    ensures forall c :: Divides(c, m) && Divides(c, n) ==> Divides(c, g)
  {
    var a, b := m, n;
    while b != 0
      invariant Gcd(a, b) == Gcd(m, n)
      decreases b
    {
      QuotRem(a, b);
      var t := a % b;
      a := b;
      b := t;
    }
    g := a;
    GcdDivides(m, n);
    forall c | Divides(c, m) && Divides(c, n)
      ensures Divides(c, g)
    {
      GcdGreatest(m, n, c);
    }
  }

  // ---------------------------------------------------------------------
  // Forward iterators: block swapping (Gries and Mills).

  /** The invariant of both loops: the finished prefix, then the part of
      the range from `f2`, then `[mid, f2)`, then `[f, mid)`, spell the
      target rotation. */
  ghost predicate ForwardGoal(r: seq<int>, f: nat, mid: nat, f2: nat, target: seq<int>) {
    f <= mid <= f2 <= |r| && r[..f] + r[f2..] + r[mid..f2] + r[f..mid] == target
  }

  /** Swapping `*f` with `*f2` and advancing both keeps the invariant. */
  lemma ForwardSwapStep(r: seq<int>, f: nat, mid: nat, f2: nat, target: seq<int>)
    requires f < mid <= f2 < |r| && ForwardGoal(r, f, mid, f2, target)
    ensures ForwardGoal(AlgoBase.IterSwap(r, f, f2), f + 1, mid, f2 + 1, target)
  {
    var r' := AlgoBase.IterSwap(r, f, f2);
    assert r'[..f + 1] == r[..f] + [r[f2]];
    assert r'[f2 + 1..] == r[f2 + 1..];
    assert r'[mid..f2 + 1] == r[mid..f2] + [r[f]];
    assert r'[f + 1..mid] == r[f + 1..mid];
    assert r[f2..] == [r[f2]] + r[f2 + 1..];
    assert r[f..mid] == [r[f]] + r[f + 1..mid];
  }

  /** Moving `mid` up to `f2` when the front block is used up, or `f2` back
      to `mid` when the back block is, only relabels empty pieces. */
  lemma ForwardRelabelMid(r: seq<int>, f: nat, mid: nat, f2: nat, target: seq<int>)
    requires f == mid && ForwardGoal(r, f, mid, f2, target)
    ensures ForwardGoal(r, f, f2, f2, target)
  {
    assert r[f..mid] == [] && r[f2..f2] == [];
  }

  lemma ForwardRelabelBack(r: seq<int>, f: nat, mid: nat, f2: nat, target: seq<int>)
    requires f2 == |r| && ForwardGoal(r, f, mid, f2, target)
    ensures ForwardGoal(r, f, mid, mid, target)
  {
    assert r[f2..] == [] && r[mid..mid] == [] && r[mid..] == r[mid..f2];
  }

  /** One iteration of the first loop, stated on the values the loop
      variables take after it (`r'`, `f'`, `mid'`, `f2'`). */
  lemma ForwardFirstLoop(r: seq<int>, f: nat, mid: nat, f2: nat, target: seq<int>,
                         r': seq<int>, f': nat, mid': nat, f2': nat)
    requires f < mid <= f2 < |r| && ForwardGoal(r, f, mid, f2, target)
    requires r' == AlgoBase.IterSwap(r, f, f2) && f' == f + 1 && f2' == f2 + 1
    requires mid' == if f' == mid then f2' else mid
    ensures ForwardGoal(r', f', mid', f2', target)
  {
    ForwardSwapStep(r, f, mid, f2, target);
    if f' == mid {
      ForwardRelabelMid(r', f', mid, f2', target);
    }
  }

  /** One iteration of the second loop, likewise. */
  lemma ForwardSecondLoop(r: seq<int>, f: nat, mid: nat, f2: nat, target: seq<int>,
                          r': seq<int>, f': nat, mid': nat, f2': nat)
    requires f < mid <= f2 < |r| && ForwardGoal(r, f, mid, f2, target)
    requires r' == AlgoBase.IterSwap(r, f, f2) && f' == f + 1
    requires mid' == if f' == mid then f2 + 1 else mid
    requires f2' == if f' != mid && f2 + 1 == |r| then mid else f2 + 1
    ensures ForwardGoal(r', f', mid', f2', target)
  {
    ForwardSwapStep(r, f, mid, f2, target);
    if f' == mid {
      ForwardRelabelMid(r', f', mid, f2 + 1, target);
    } else if f2 + 1 == |r| {
      ForwardRelabelBack(r', f', mid, f2 + 1, target);
    }
  }

  /** At the start the finished prefix is empty and both blocks are whole;
      at the end the blocks are empty and the prefix is everything. */
  lemma ForwardEnds(s: seq<int>, middle: nat, r: seq<int>, f: nat)
    requires middle <= |s|
    ensures ForwardGoal(s, 0, middle, middle, Rotated(s, middle))
    ensures ForwardGoal(r, f, |r|, |r|, Rotated(s, middle)) ==> r == Rotated(s, middle)
  {
    assert s[..0] + s[middle..] + s[middle..middle] + s[0..middle] == Rotated(s, middle);
    if f <= |r| {
      assert r[..f] + r[|r|..] + r[|r|..|r|] + r[f..|r|] == r;
    }
  }

  /** `rotate_dispatch` for forward iterators. The first loop runs until
      the back block reaches the end, which fixes the returned position;
      the second finishes the rotation of what is left. */
  method RotateForward(s: seq<int>, middle: nat) returns (r: seq<int>, newMiddle: nat)
    requires 0 < middle < |s|
    ensures r == Rotated(s, middle)
    ensures newMiddle == |s| - middle
  {
    var n := |s|;
    ghost var target := Rotated(s, middle);
    r := s;
    var first: nat := 0;
    var mid: nat := middle;
    var first2: nat := middle;
    ForwardEnds(s, middle, r, 0);
    while true
      invariant |r| == n && first < mid <= first2 < n
      invariant first + middle == first2
      invariant ForwardGoal(r, first, mid, first2, target)
      decreases n - first2
    {
      ghost var r0, f0, m0, g0 := r, first, mid, first2;
      r := AlgoBase.IterSwap(r, first, first2);
      first := first + 1;
      first2 := first2 + 1;
      if first == mid {
        mid := first2;
      }
      ForwardFirstLoop(r0, f0, m0, g0, target, r, first, mid, first2);
      if first2 == n {
        break;
      }
    }
    newMiddle := first;
    ForwardRelabelBack(r, first, mid, first2, target);
    first2 := mid;
    while first2 != n
      invariant |r| == n && first <= mid <= first2 <= n
      invariant first2 < n ==> first < mid
      invariant first2 == n ==> mid == n
      invariant ForwardGoal(r, first, mid, first2, target)
      decreases n - first
    {
      ghost var r0, f0, m0, g0 := r, first, mid, first2;
      r := AlgoBase.IterSwap(r, first, first2);
      first := first + 1;
      first2 := first2 + 1;
      if first == mid {
        mid := first2;
      } else if first2 == n {
        first2 := mid;
      }
      ForwardSecondLoop(r0, f0, m0, g0, target, r, first, mid, first2);
    }
    ForwardEnds(s, middle, r, first);
  }

  // ---------------------------------------------------------------------
  // Bidirectional iterators: three reversals.

  /** The exchange loop of the bidirectional tier: outside `[first, last)`
      the range is `t` reversed, inside it is `t` unchanged. */
  ghost predicate MirrorState(r: seq<int>, t: seq<int>, first: nat, last: nat) {
    |r| == |t| && first <= last <= |t| && first + last == |t|
    && (forall k :: 0 <= k < first || last <= k < |t| ==> r[k] == t[|t| - 1 - k])
    && (forall k :: first <= k < last ==> r[k] == t[k])
  }

  lemma MirrorStep(r: seq<int>, t: seq<int>, first: nat, last: nat)
    requires MirrorState(r, t, first, last) && first + 2 <= last
    ensures MirrorState(AlgoBase.IterSwap(r, first, last - 1), t, first + 1, last - 1)
  {
    var r' := AlgoBase.IterSwap(r, first, last - 1);
    forall k | 0 <= k < first + 1 || last - 1 <= k < |t|
      ensures r'[k] == t[|t| - 1 - k]
    {
      if k == first || k == last - 1 {
        assert r[first] == t[first] && r[last - 1] == t[last - 1];
      }
    }
  }

  /** Reversing what is left between the two ends reverses all of `t`. */
  lemma MirrorFinish(r: seq<int>, t: seq<int>, first: nat, last: nat, r': seq<int>)
    requires MirrorState(r, t, first, last)
    requires r' == r[..first] + Rearrange.Reversed(r[first..last]) + r[last..]
    ensures r' == Rearrange.Reversed(t)
  {
    assert forall k :: 0 <= k < |t| ==> r'[k] == t[|t| - 1 - k] by {
      forall k | 0 <= k < |t|
        ensures r'[k] == t[|t| - 1 - k]
      {
        if k < first {
          assert r'[k] == r[..first][k];
        } else if k < last {
          assert r'[k] == Rearrange.Reversed(r[first..last])[k - first];
        } else {
          assert r'[k] == r[last..][k - last];
        }
      }
    }
  }

  /** Reversing both blocks and then the whole range rotates it. */
  lemma ThreeReversals(s: seq<int>, middle: nat)
    requires middle <= |s|
    ensures Rearrange.Reversed(Rearrange.Reversed(s[..middle]) + Rearrange.Reversed(s[middle..])) == Rotated(s, middle)
  {
    Rearrange.ReversedConcat(Rearrange.Reversed(s[..middle]), Rearrange.Reversed(s[middle..]));
    Rearrange.ReversedInvolution(s[..middle]);
    Rearrange.ReversedInvolution(s[middle..]);
  }

  /** The two block reversals at the start of the bidirectional tier. */
  lemma BlocksReversed(s: seq<int>, middle: nat, r1: seq<int>, r2: seq<int>)
    requires middle <= |s|
    requires r1 == s[..0] + Rearrange.Reversed(s[0..middle]) + s[middle..]
    requires r2 == r1[..middle] + Rearrange.Reversed(r1[middle..|s|]) + r1[|s|..]
    ensures r2 == Rearrange.Reversed(s[..middle]) + Rearrange.Reversed(s[middle..])
  {
    assert r1[..middle] == Rearrange.Reversed(s[..middle]);
    assert r1[middle..|s|] == s[middle..];
  }

  /** `rotate_dispatch` for bidirectional iterators: reverse both blocks,
      exchange from both ends until one block is exhausted, then reverse
      the part in between. Altogether the range is reversed once more. */
  method RotateBidirectional(s: seq<int>, middle: nat) returns (r: seq<int>, newMiddle: nat)
    requires 0 < middle < |s|
    ensures r == Rotated(s, middle)
    ensures newMiddle == |s| - middle
  {
    var n := |s|;
    r := Rearrange.ReverseBidirectional(s, 0, middle);
    ghost var r1 := r;
    r := Rearrange.ReverseBidirectional(r, middle, n);
    ghost var t := r;
    BlocksReversed(s, middle, r1, t);
    var first: nat := 0;
    var last: nat := n;
    while first != middle && middle != last
      invariant first <= middle <= last && MirrorState(r, t, first, last)
    {
      MirrorStep(r, t, first, last);
      last := last - 1;
      r := AlgoBase.IterSwap(r, first, last);
      first := first + 1;
    }
    ghost var r2 := r;
    if first == middle {
      r := Rearrange.ReverseBidirectional(r, middle, last);
      newMiddle := last;
    } else {
      r := Rearrange.ReverseBidirectional(r, first, middle);
      newMiddle := first;
    }
    MirrorFinish(r2, t, first, last, r);
    ThreeReversals(s, middle);
  }

  // ---------------------------------------------------------------------
  // Random-access iterators: one pass around each cycle.
  //
  // Cycle lengths and residues are written with `Quot` and `Rem`, which
  // agree with `/` and `%` (`Orbits.QuotRem`).

  /** Before cycle `i` of `RotateRandomAccess`: the positions of the
      residues below `i` hold their final elements, the rest are untouched. */
  ghost predicate OuterState(a: seq<int>, s: seq<int>, i: nat, l: nat, d: nat)
    requires 0 < l < |s| && d > 0
  {
    |a| == |s|
    && forall k {:trigger a[k]} :: 0 <= k < |s| ==> a[k] == (if Rem(k, d) < i then s[Next(k, l, |s|)] else s[k])
  }

  /** Inside cycle `i`, after `t` moves: the first `t` positions of the
      cycle hold the element one step further on, the others are untouched,
      and positions off the cycle keep what they held when it began. */
  ghost predicate CycleState(a: seq<int>, c0: seq<int>, s: seq<int>, i: nat, t: nat, l: nat, d: nat)
    requires Setting(i, l, |s|, d)
  {
    var n := |s|;
    |a| == n && |c0| == n && t < Quot(n, d)
    && (forall u {:trigger a[Pos(i, u, l, n)]} :: 0 <= u < t ==> a[Pos(i, u, l, n)] == s[Next(Pos(i, u, l, n), l, n)])
    && (forall u {:trigger a[Pos(i, u, l, n)]} :: t <= u < Quot(n, d) ==> a[Pos(i, u, l, n)] == s[Pos(i, u, l, n)])
    && (forall k {:trigger a[k]} :: 0 <= k < n && Rem(k, d) != i ==> a[k] == c0[k])
  }

  /** A rotation has at least two positions per cycle and moves each
      cycle forward by at least one reduced step. */
  lemma CycleCounts(i: nat, l: nat, n: nat, d: nat)
    requires Setting(i, l, n, d)
    ensures Quot(n, d) >= 2 && Quot(l, d) >= 1
  {
    SettingFacts(i, l, n, d);
    QuotRem(n, d);
    QuotRem(l, d);
  }

  /** Every position of cycle `i` has residue `i`. */
  lemma PosRem(i: nat, t: nat, l: nat, n: nat, d: nat)
    requires Setting(i, l, n, d)
    ensures Rem(Pos(i, t, l, n), d) == i
  {
    PosResidue(i, t, l, n, d);
    QuotRem(Pos(i, t, l, n), d);
  }

  /** A cycle starts from an untouched residue class. */
  lemma CycleStart(c0: seq<int>, s: seq<int>, i: nat, l: nat, d: nat)
    requires Setting(i, l, |s|, d) && OuterState(c0, s, i, l, d)
    ensures CycleState(c0, c0, s, i, 0, l, d)
    ensures c0[i] == s[i]
  {
    CycleCounts(i, l, |s|, d);
    forall u | 0 <= u < Quot(|s|, d)
      ensures c0[Pos(i, u, l, |s|)] == s[Pos(i, u, l, |s|)]
    {
      PosRem(i, u, l, |s|, d);
    }
    PosRem(i, 0, l, |s|, d);
  }

  /** One move `*p = *q` with `q` the next position on the cycle. */
  lemma CycleMove(a: seq<int>, c0: seq<int>, s: seq<int>, i: nat, t: nat, l: nat, d: nat, p: nat, q: nat)
    requires Setting(i, l, |s|, d) && CycleState(a, c0, s, i, t, l, d)
    requires t + 1 < Quot(|s|, d) && p == Pos(i, t, l, |s|) && q == Pos(i, t + 1, l, |s|)
    ensures CycleState(a[p := a[q]], c0, s, i, t + 1, l, d)
  {
    var n := |s|;
    var a' := a[p := a[q]];
    QuotRem(n, d);
    forall u | 0 <= u < t + 1
      ensures a'[Pos(i, u, l, n)] == s[Next(Pos(i, u, l, n), l, n)]
    {
      if u < t {
        PosDistinct(i, u, t, l, n, d);
      }
    }
    forall u | t + 1 <= u < Quot(n, d)
      ensures a'[Pos(i, u, l, n)] == s[Pos(i, u, l, n)]
    {
      PosDistinct(i, t, u, l, n, d);
    }
    PosRem(i, t, l, n, d);
  }

  /** The assignment `*p = *q` of the cycle walk, `q` being the position
      after `p` on the cycle. */
  method Move(a: seq<int>, ghost c0: seq<int>, ghost s: seq<int>, ghost i: nat, ghost t: nat, ghost l: nat, ghost d: nat,
              p: nat, q: nat)
    returns (r: seq<int>)
    requires Setting(i, l, |s|, d) && CycleState(a, c0, s, i, t, l, d)
    requires t + 1 < Quot(|s|, d) && p == Pos(i, t, l, |s|) && q == Pos(i, t + 1, l, |s|)
    ensures CycleState(r, c0, s, i, t + 1, l, d)
  {
    CycleMove(a, c0, s, i, t, l, d, p, q);
    r := a[p := a[q]];
  }

  /** `*p = tmp` at the last position `t` of the cycle completes residue
      `i`. */
  lemma CycleClose(a: seq<int>, c0: seq<int>, s: seq<int>, i: nat, t: nat, l: nat, d: nat)
    requires Setting(i, l, |s|, d) && OuterState(c0, s, i, l, d)
    requires t + 1 == Quot(|s|, d) && CycleState(a, c0, s, i, t, l, d)
    ensures OuterState(a[Pos(i, t, l, |s|) := s[i]], s, i + 1, l, d)
  {
    forall k | 0 <= k < |s|
      ensures a[Pos(i, t, l, |s|) := s[i]][k] == (if Rem(k, d) < i + 1 then s[Next(k, l, |s|)] else s[k])
    {
      CloseAt(a, c0, s, i, t, l, d, k);
    }
  }

  lemma CloseAt(a: seq<int>, c0: seq<int>, s: seq<int>, i: nat, t: nat, l: nat, d: nat, k: nat)
    requires Setting(i, l, |s|, d) && OuterState(c0, s, i, l, d)
    requires t + 1 == Quot(|s|, d) && CycleState(a, c0, s, i, t, l, d) && k < |s|
    ensures a[Pos(i, t, l, |s|) := s[i]][k] == (if Rem(k, d) < i + 1 then s[Next(k, l, |s|)] else s[k])
  {
    var n := |s|;
    QuotRem(n, d);
    QuotRem(k, d);
    PosRem(i, t, l, n, d);
    if Rem(k, d) == i {
      var u := PosCover(i, k, l, n, d);
      if u < t {
        PosDistinct(i, u, t, l, n, d);
      } else {
        PosPeriod(i, l, n, d);
      }
    }
  }

  /** When every residue is done, each position holds the element `l`
      further on, cyclically: the rotation. */
  lemma OuterDone(a: seq<int>, s: seq<int>, l: nat, d: nat)
    requires 0 < l < |s| && d > 0 && OuterState(a, s, d, l, d)
    ensures a == Rotated(s, l)
  {
  }

  /** Control facts of the `l < r` loop: from position `t` with fewer than
      `r / d` completed `+ l` moves, the test `p > first + r` is taken
      exactly when the step wraps (a `- r` move), and otherwise the step is
      a `+ l` move; the step does not reach the end of the cycle. */
  lemma ShortStep(i: nat, t: nat, l: nat, n: nat, d: nat)
    requires Setting(i, l, n, d) && l < n - l
    requires t < Quot(n, d) && t - Wraps(i, t, l, n) < Quot(n - l, d)
    ensures t + 1 < Quot(n, d)
    ensures Pos(i, t, l, n) > i + (n - l) ==>
      Pos(i, t + 1, l, n) == Pos(i, t, l, n) - (n - l) && Pos(i, t + 1, l, n) < l
      && (t + 1) - Wraps(i, t + 1, l, n) == t - Wraps(i, t, l, n)
    ensures !(Pos(i, t, l, n) > i + (n - l)) ==>
      Pos(i, t + 1, l, n) == Pos(i, t, l, n) + l
      && (t + 1) - Wraps(i, t + 1, l, n) == t - Wraps(i, t, l, n) + 1
  {
    QuotRem(n, d);
    QuotRem(n - l, d);
    var L := n / d;
    SettingFacts(i, l, n, d);
    WrapsLast(i, l, n, d);
    RightQuot(i, l, n, d);
    PosLast(i, l, n, d);
    var p := Pos(i, t, l, n);
    if p <= i + (n - l) {
      PosDistinct(i, t, L - 1, l, n, d);
      PosResidue(i, t, l, n, d);
      ResidueBelow(p, i, n - l, d);
    }
  }

  /** After a `- r` move of the `l < r` loop the `+ l` move that follows
      does not wrap and does not reach the end of the cycle. */
  lemma ShortAfterWrap(i: nat, t: nat, l: nat, n: nat, d: nat)
    requires Setting(i, l, n, d) && l < n - l
    requires t < Quot(n, d) && Pos(i, t, l, n) < l
    ensures t + 1 < Quot(n, d)
    ensures Pos(i, t + 1, l, n) == Pos(i, t, l, n) + l
    ensures (t + 1) - Wraps(i, t + 1, l, n) == t - Wraps(i, t, l, n) + 1
  {
    QuotRem(n, d);
    PosLast(i, l, n, d);
  }

  /** The `l < r` loop ends after exactly `n / d - 1` moves. */
  lemma ShortExit(i: nat, t: nat, l: nat, n: nat, d: nat)
    requires Setting(i, l, n, d) && l < n - l
    requires t < Quot(n, d) && t - Wraps(i, t, l, n) == Quot(n - l, d)
    ensures t + 1 == Quot(n, d)
  {
    QuotRem(n, d);
    QuotRem(n - l, d);
    var L := n / d;
    SettingFacts(i, l, n, d);
    WrapsLast(i, l, n, d);
    RightQuot(i, l, n, d);
    PosLast(i, l, n, d);
    var t' := if t < L - 1 then t else L - 2;
    WrapsMono(i, t', L - 2, l, n);
  }

  /** Control facts of the `l > r` loop: with fewer than `l / d - 1`
      completed `- r` moves, the test `p < last - l` is taken exactly when
      the step does not wrap (a `+ l` move), and otherwise the step is a
      `- r` move; the step does not reach the end of the cycle. */
  lemma LongStep(i: nat, t: nat, l: nat, n: nat, d: nat)
    requires Setting(i, l, n, d) && n - l < l
    requires t < Quot(n, d) && Wraps(i, t, l, n) < Quot(l, d) - 1
    ensures t + 1 < Quot(n, d)
    ensures Pos(i, t, l, n) < n - l ==>
      Pos(i, t + 1, l, n) == Pos(i, t, l, n) + l && Pos(i, t + 1, l, n) >= l
      && Wraps(i, t + 1, l, n) == Wraps(i, t, l, n)
    ensures !(Pos(i, t, l, n) < n - l) ==>
      Pos(i, t + 1, l, n) == Pos(i, t, l, n) - (n - l)
      && Wraps(i, t + 1, l, n) == Wraps(i, t, l, n) + 1
  {
    QuotRem(n, d);
    QuotRem(l, d);
    SettingFacts(i, l, n, d);
    WrapsLast(i, l, n, d);
  }

  /** After a `+ l` move of the `l > r` loop the `- r` move that follows
      wraps and does not reach the end of the cycle. */
  lemma LongAfterAdvance(i: nat, t: nat, l: nat, n: nat, d: nat)
    requires Setting(i, l, n, d) && n - l < l
    requires t < Quot(n, d) && Pos(i, t, l, n) >= l
    ensures t + 1 < Quot(n, d)
    ensures Pos(i, t + 1, l, n) == Pos(i, t, l, n) - (n - l)
    ensures Wraps(i, t + 1, l, n) == Wraps(i, t, l, n) + 1
  {
    QuotRem(n, d);
    SettingFacts(i, l, n, d);
    PosLast(i, l, n, d);
    RightQuot(i, l, n, d);
    GcdDivides(n, l);
    MultipleGap(n - l, l, d);
  }

  /** The `l > r` loop ends after exactly `n / d - 1` moves. */
  lemma LongExit(i: nat, t: nat, l: nat, n: nat, d: nat)
    requires Setting(i, l, n, d) && n - l < l
    requires t < Quot(n, d) && Wraps(i, t, l, n) == Quot(l, d) - 1
    ensures t + 1 == Quot(n, d)
  {
    QuotRem(n, d);
    QuotRem(l, d);
    var L := n / d;
    SettingFacts(i, l, n, d);
    WrapsLast(i, l, n, d);
    RightQuot(i, l, n, d);
    PosLast(i, l, n, d);
    GcdDivides(n, l);
    MultipleGap(n - l, l, d);
    var t' := if t < L - 1 then t else L - 2;
    WrapsMono(i, t', L - 2, l, n);
  }

  /** The `l < r` walk around cycle `i`: a `- r` move whenever `p` is past
      `first + r`, then a `+ l` move, `r / d` times (`bound`). It stops on
      the last position of the cycle. */
  method WalkShort(a: seq<int>, ghost c0: seq<int>, ghost s: seq<int>, i: nat, l: nat, d: nat, bound: nat)
    returns (r: seq<int>, p: nat, t: nat)
    requires |a| == |s| && Setting(i, l, |s|, d) && l < |s| - l
    requires bound == Quot(|s| - l, d)
    requires CycleState(a, c0, s, i, 0, l, d)
    ensures t + 1 == Quot(|s|, d) && p == Pos(i, t, l, |s|)
    ensures CycleState(r, c0, s, i, t, l, d)
  {
    var n := |a|;
    var rr := n - l;
    r, p, t := a, i, 0;
    var j := 0;
    while j < bound
      invariant CycleState(r, c0, s, i, t, l, d)
      invariant p == Pos(i, t, l, n) && j == t - Wraps(i, t, l, n) && j <= bound
    {
      ShortStep(i, t, l, n, d);
      if p > i + rr {
        r := Move(r, c0, s, i, t, l, d, p, p - rr);
        p := p - rr;
        t := t + 1;
        ShortAfterWrap(i, t, l, n, d);
      }
      r := Move(r, c0, s, i, t, l, d, p, p + l);
      p := p + l;
      t := t + 1;
      j := j + 1;
    }
    ShortExit(i, t, l, n, d);
  }

  /** The `l > r` walk around cycle `i`: a `+ l` move whenever `p` is
      before `last - l`, then a `- r` move, `l / d - 1` times (`bound` is
      `l / d`). */
  method WalkLong(a: seq<int>, ghost c0: seq<int>, ghost s: seq<int>, i: nat, l: nat, d: nat, bound: nat)
    returns (r: seq<int>, p: nat, t: nat)
    requires |a| == |s| && Setting(i, l, |s|, d) && |s| - l < l
    requires bound == Quot(l, d)
    requires CycleState(a, c0, s, i, 0, l, d)
    ensures t + 1 == Quot(|s|, d) && p == Pos(i, t, l, |s|)
    ensures CycleState(r, c0, s, i, t, l, d)
  {
    var n := |a|;
    var rr := n - l;
    CycleCounts(i, l, n, d);
    r, p, t := a, i, 0;
    var j := 0;
    while j < bound - 1
      invariant CycleState(r, c0, s, i, t, l, d)
      invariant p == Pos(i, t, l, n) && j == Wraps(i, t, l, n) && j <= bound - 1
    {
      LongStep(i, t, l, n, d);
      if p < n - l {
        r := Move(r, c0, s, i, t, l, d, p, p + l);
        p := p + l;
        t := t + 1;
        LongAfterAdvance(i, t, l, n, d);
      }
      r := Move(r, c0, s, i, t, l, d, p, p - rr);
      p := p - rr;
      t := t + 1;
      j := j + 1;
    }
    LongExit(i, t, l, n, d);
  }

  /** `rotate_dispatch` for random-access iterators. Equal blocks are
      exchanged with `swap_ranges`; otherwise each of the `rgcd(n, l)`
      cycles of the map `x -> x + l (mod n)` is walked once, moving each
      element `l` places towards the front, with `+ l` and `- r` moves
      scheduled so that positions stay inside the range. */
  method RotateRandomAccess(s: seq<int>, middle: nat) returns (r: seq<int>, result: nat)
    requires 0 < middle < |s|
    ensures r == Rotated(s, middle)
    ensures result == |s| - middle
  {
    var n := |s|;
    var l := middle;
    var rr := n - l;
    result := rr;
    if l == rr {
      var e;
      r, e := Rearrange.SwapRanges(s, 0, l, l);
      assert r[..l] == s[l..] && r[l..] == s[..l];
      assert r == r[..l] + r[l..];
      return;
    }
    var cycles := Rgcd(n, l);
    GcdBelow(n, l);
    r := s;
    var first: nat := 0;
    while first < cycles
      invariant first <= cycles && 0 < cycles
      invariant OuterState(r, s, first, l, cycles)
    {
      ghost var c0 := r;
      assert Setting(first, l, n, cycles);
      CycleStart(c0, s, first, l, cycles);
      var tmp := r[first];
      var p: nat;
      var t: nat;
      if l < rr {
        var bound := rr / cycles;
        QuotRem(rr, cycles);
        r, p, t := WalkShort(r, c0, s, first, l, cycles, bound);
      } else {
        var bound := l / cycles;
        QuotRem(l, cycles);
        r, p, t := WalkLong(r, c0, s, first, l, cycles, bound);
      }
      CycleClose(r, c0, s, first, t, l, cycles);
      r := r[p := tmp];
      first := first + 1;
    }
    OuterDone(r, s, l, cycles);
  }

  // ---------------------------------------------------------------------
  // Front-ends.

  /** `rotate`: an empty block returns the other end unchanged; otherwise
      the tier for the tag rotates `[first, last)` so that `middle` comes
      first, and the result is where the old first element went. */
  method Rotate(s: seq<int>, first: nat, middle: nat, last: nat, cat: Category) returns (r: seq<int>, result: nat)
    requires first <= middle <= last <= |s|
    requires cat == Forward || cat == Bidirectional || cat == RandomAccess
    ensures r == s[..first] + s[middle..last] + s[first..middle] + s[last..]
    ensures result == first + (last - middle)
  {
    if first == middle {
      assert s == s[..first] + s[middle..last] + s[last..];
      return s, last;
    }
    if middle == last {
      assert s == s[..first] + s[first..middle] + s[last..];
      return s, first;
    }
    var x := s[first..last];
    var y: seq<int>;
    var k: nat;
    if cat == Forward {
      y, k := RotateForward(x, middle - first);
    } else if cat == Bidirectional {
      y, k := RotateBidirectional(x, middle - first);
    } else {
      y, k := RotateRandomAccess(x, middle - first);
    }
    assert x[middle - first..] == s[middle..last] && x[..middle - first] == s[first..middle];
    r := s[..first] + y + s[last..];
    result := first + k;
  }

  /** What the second copy of `rotate_copy` leaves in the window of the
      shared buffer that stands for `out`. */
  lemma RotateCopyWindow(out: seq<int>, base: nat, result: nat, e1: nat, e2: nat,
                         m: seq<int>, m1: seq<int>, m2: seq<int>, x: seq<int>, y: seq<int>)
    requires base + result <= e1 <= e2 <= |m| && m[base..] == out
    requires |m1| == |m| && m1[base + result..e1] == x
    requires m1[..base + result] == m[..base + result] && m1[e1..] == m[e1..]
    requires |m2| == |m| && m2[e1..e2] == y
    requires m2[..e1] == m1[..e1] && m2[e2..] == m1[e2..]
    ensures m2[base..][result..e2 - base] == x + y
    ensures m2[base..][..result] == out[..result]
    ensures m2[base..][e2 - base..] == out[e2 - base..]
  {
    Ranges.AgreeWithin(m2, m1, 0, e1, base + result, e1);
    Ranges.AgreeWithin(m2, m1, 0, e1, base, base + result);
    Ranges.AgreeWithin(m1, m, 0, base + result, base, base + result);
    Ranges.SliceOfSlice(m2, base, |m2|, result, e2 - base);
    assert m2[base + result..e2] == m2[base + result..e1] + m2[e1..e2];
    Ranges.SliceOfSlice(m2, base, |m2|, 0, result);
    Ranges.SliceOfSlice(m, base, |m|, 0, result);
    assert m2[base..] == m2[base..|m2|] && m[base..] == m[base..|m|];
    assert m2[e2..] == m1[e2..] == m[e2..];
  }

  /** `rotate_copy`: copies `[middle, last)` and then `[first, middle)` to
      `out` from position `result`, leaving `s` alone; returns the end of
      the written range. */
  method RotateCopy(s: seq<int>, first: nat, middle: nat, last: nat, out: seq<int>, result: nat)
    returns (o: seq<int>, end: nat)
    requires first <= middle <= last <= |s|
    requires result + (last - first) <= |out|
    ensures end == result + (last - first) && |o| == |out|
    ensures o[result..end] == s[middle..last] + s[first..middle]
    ensures o[..result] == out[..result] && o[end..] == out[end..]
  {
    var m := s + out;
    var base := |s|;
    assert m[middle..last] == s[middle..last];
    var m1, e1 := AlgoBase.Copy(m, middle, last, base + result);
    Ranges.AgreeWithin(m1, m, 0, base + result, first, middle);
    assert m1[first..middle] == s[first..middle];
    var m2, e2 := AlgoBase.Copy(m1, first, middle, e1);
    RotateCopyWindow(out, base, result, e1, e2, m, m1, m2, s[middle..last], s[first..middle]);
    o := m2[base..];
    end := e2 - base;
  }
}
