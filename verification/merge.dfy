/** Merging: the stable two-range `merge` and `merge_backward`, which the
    in-place merge family of inplace.dfy builds on.

    As with `copy`, a merge takes its inputs from, and writes its output
    to, positions of one buffer `m`; the caller lays the ranges out in it.
    The output may overlap the second input as long as it never overtakes
    the position being taken from, which is how `merge_adaptive` uses both
    merges. */
module Merge {
  import opened Ranges
  import opened Iterators
  import AlgoBase
  import Search
  import Rotate
  import Memory

  // -----------------------------------------------------------------------
  // Reference definitions

  /** Reference: merge from the front, taking from `b` only when its head
      is strictly smaller (ties go to `a`, which makes `merge` stable). */
  function Merged(a: seq<int>, b: seq<int>): (r: seq<int>)
    ensures |r| == |a| + |b|
    decreases |a| + |b|
  {
    if |a| == 0 then b
    else if |b| == 0 then a
    else if b[0] < a[0] then [b[0]] + Merged(a, b[1..])
    else [a[0]] + Merged(a[1..], b)
  }

  /** Reference: merge from the back, placing the last element of `a` only
      when the last element of `b` is strictly smaller than it. */
  function MergedBack(a: seq<int>, b: seq<int>): (r: seq<int>)
    ensures |r| == |a| + |b|
    decreases |a| + |b|
  {
    if |a| == 0 then b
    else if |b| == 0 then a
    else if b[|b| - 1] < a[|a| - 1] then MergedBack(a[..|a| - 1], b) + [a[|a| - 1]]
    else MergedBack(a, b[..|b| - 1]) + [b[|b| - 1]]
  }

  /** Multiset bookkeeping for one element added at either end. */
  lemma MultisetCons(v: int, s: seq<int>, t: seq<int>)
    requires t == [v] + s
    ensures multiset(t) == multiset(s) + multiset{v}
  {
  }

  lemma MultisetSnoc(s: seq<int>, v: int, t: seq<int>)
    requires t == s + [v]
    ensures multiset(t) == multiset(s) + multiset{v}
  {
  }

  lemma AddToFirst(x: multiset<int>, y: multiset<int>, a: multiset<int>, b: multiset<int>, a': multiset<int>, v: int)
    requires x == y + multiset{v} && y == a' + b && a == a' + multiset{v}
    ensures x == a + b
  {
  }

  lemma AddToSecond(x: multiset<int>, y: multiset<int>, a: multiset<int>, b: multiset<int>, b': multiset<int>, v: int)
    requires x == y + multiset{v} && y == a + b' && b == b' + multiset{v}
    ensures x == a + b
  {
  }

  /** Both merges are permutations of the concatenated inputs. */
  lemma {:induction false} MergedPerm(a: seq<int>, b: seq<int>)
    ensures multiset(Merged(a, b)) == multiset(a) + multiset(b)
    decreases |a| + |b|
  {
    if |a| > 0 && |b| > 0 {
      if b[0] < a[0] {
        var y := b[1..];
        MergedPerm(a, y);
        MultisetCons(b[0], Merged(a, y), Merged(a, b));
        MultisetCons(b[0], y, b);
        AddToSecond(multiset(Merged(a, b)), multiset(Merged(a, y)), multiset(a), multiset(b), multiset(y), b[0]);
      } else {
        var x := a[1..];
        MergedPerm(x, b);
        MultisetCons(a[0], Merged(x, b), Merged(a, b));
        MultisetCons(a[0], x, a);
        AddToFirst(multiset(Merged(a, b)), multiset(Merged(x, b)), multiset(a), multiset(b), multiset(x), a[0]);
      }
    }
  }

  lemma {:induction false} MergedBackPerm(a: seq<int>, b: seq<int>)
    ensures multiset(MergedBack(a, b)) == multiset(a) + multiset(b)
    decreases |a| + |b|
  {
    if |a| > 0 && |b| > 0 {
      if b[|b| - 1] < a[|a| - 1] {
        var x, v := a[..|a| - 1], a[|a| - 1];
        MergedBackPerm(x, b);
        MultisetSnoc(MergedBack(x, b), v, MergedBack(a, b));
        MultisetSnoc(x, v, a);
        AddToFirst(multiset(MergedBack(a, b)), multiset(MergedBack(x, b)), multiset(a), multiset(b), multiset(x), v);
      } else {
        var y, v := b[..|b| - 1], b[|b| - 1];
        MergedBackPerm(a, y);
        MultisetSnoc(MergedBack(a, y), v, MergedBack(a, b));
        MultisetSnoc(y, v, b);
        AddToSecond(multiset(MergedBack(a, b)), multiset(MergedBack(a, y)), multiset(a), multiset(b), multiset(y), v);
      }
    }
  }

  lemma SortedCons(x: int, t: seq<int>)
    requires Sorted(t) && AtLeast(t, x)
    ensures Sorted([x] + t)
  {
    var u := [x] + t;
    forall i, j | 0 <= i < j < |u|
      ensures u[i] <= u[j]
    {
      if i > 0 {
        assert u[i] == t[i - 1] && u[j] == t[j - 1];
      } else {
        assert u[j] == t[j - 1];
      }
    }
  }

  lemma SortedSnoc(t: seq<int>, x: int)
    requires Sorted(t) && AtMost(t, x)
    ensures Sorted(t + [x])
  {
  }

  /** Merging two sorted ranges gives a sorted range, from either end. */
  lemma {:induction false} MergedSorted(a: seq<int>, b: seq<int>)
    requires Sorted(a) && Sorted(b)
    ensures Sorted(Merged(a, b))
    decreases |a| + |b|
  {
    if |a| > 0 && |b| > 0 {
      if b[0] < a[0] {
        var t := Merged(a, b[1..]);
        MergedSorted(a, b[1..]);
        MergedPerm(a, b[1..]);
        assert AtLeast(a + b[1..], b[0]);
        AtLeastPerm(a + b[1..], t, b[0]);
        SortedCons(b[0], t);
      } else {
        var t := Merged(a[1..], b);
        MergedSorted(a[1..], b);
        MergedPerm(a[1..], b);
        assert AtLeast(a[1..] + b, a[0]);
        AtLeastPerm(a[1..] + b, t, a[0]);
        SortedCons(a[0], t);
      }
    }
  }

  lemma {:induction false} MergedBackSorted(a: seq<int>, b: seq<int>)
    requires Sorted(a) && Sorted(b)
    ensures Sorted(MergedBack(a, b))
    decreases |a| + |b|
  {
    if |a| > 0 && |b| > 0 {
      var a', b' := a[..|a| - 1], b[..|b| - 1];
      if b[|b| - 1] < a[|a| - 1] {
        var t := MergedBack(a', b);
        MergedBackSorted(a', b);
        MergedBackPerm(a', b);
        assert AtMost(a' + b, a[|a| - 1]);
        AtMostPerm(a' + b, t, a[|a| - 1]);
        SortedSnoc(t, a[|a| - 1]);
      } else {
        var t := MergedBack(a, b');
        MergedBackSorted(a, b');
        MergedBackPerm(a, b');
        assert AtMost(a + b', b[|b| - 1]);
        AtMostPerm(a + b', t, b[|b| - 1]);
        SortedSnoc(t, b[|b| - 1]);
      }
    }
  }

  /** A sorted arrangement of a multiset is unique. */
  lemma {:induction false} SortedUnique(x: seq<int>, y: seq<int>)
    requires Sorted(x) && Sorted(y) && multiset(x) == multiset(y)
    ensures x == y
    decreases |x|
  {
    assert |x| == |multiset(x)| == |multiset(y)| == |y|;
    if |x| > 0 {
      SortedHeads(x, y);
      TailsPerm(x, y);
      SortedUnique(x[1..], y[1..]);
      assert x == [x[0]] + x[1..] && y == [y[0]] + y[1..];
    }
  }

  /** Sorted permutations start with the same (least) element. */
  lemma SortedHeads(x: seq<int>, y: seq<int>)
    requires Sorted(x) && Sorted(y) && multiset(x) == multiset(y)
    requires |x| > 0 && |y| > 0
    ensures x[0] == y[0]
    ensures Sorted(x[1..]) && Sorted(y[1..])
  {
    PermMember(x, y, 0);
    PermMember(y, x, 0);
  }

  /** Removing equal heads from two permutations leaves permutations. */
  lemma TailsPerm(x: seq<int>, y: seq<int>)
    requires multiset(x) == multiset(y) && |x| > 0 && |y| > 0 && x[0] == y[0]
    ensures multiset(x[1..]) == multiset(y[1..])
  {
    assert x == [x[0]] + x[1..] && y == [y[0]] + y[1..];
    assert multiset(x) == multiset{x[0]} + multiset(x[1..]);
    assert multiset(y) == multiset{y[0]} + multiset(y[1..]);
    assert multiset(x[1..]) == multiset(x) - multiset{x[0]};
    assert multiset(y[1..]) == multiset(y) - multiset{y[0]};
  }

  /** On sorted inputs the two merges agree: `merge_backward` is the same
      stable merge, computed from the other end. */
  lemma MergedBackAgrees(a: seq<int>, b: seq<int>)
    requires Sorted(a) && Sorted(b)
    ensures MergedBack(a, b) == Merged(a, b)
  {
    MergedSorted(a, b);
    MergedBackSorted(a, b);
    MergedPerm(a, b);
    MergedBackPerm(a, b);
    SortedUnique(MergedBack(a, b), Merged(a, b));
  }

  /** The merge of two sorted ranges is the sorted arrangement of their
      elements. */
  lemma MergedIsSort(a: seq<int>, b: seq<int>, x: seq<int>)
    requires Sorted(a) && Sorted(b)
    requires Sorted(x) && multiset(x) == multiset(a + b)
    ensures x == Merged(a, b)
  {
    MergedSorted(a, b);
    MergedPerm(a, b);
    SortedUnique(x, Merged(a, b));
  }

  // -----------------------------------------------------------------------
  // merge

  /** Where `merge` may write: the output `[result, result + n1 + n2)`
      does not meet the first input, and it meets the second only behind
      its read position (`result + n1 <= first2`). */
  ghost predicate MergeFits(n: nat, first1: nat, last1: nat, first2: nat, last2: nat, result: nat) {
    first1 <= last1 <= n && first2 <= last2 <= n
    && result + (last1 - first1) + (last2 - first2) <= n
    && (last1 <= result || result + (last1 - first1) + (last2 - first2) <= first1)
    && (last2 <= result || result + (last1 - first1) <= first2)
  }

  /** After taking `i` elements from `a` (which sits at `first1`) and `j`
      from `b` (at `first2`): only the written prefix of the output has
      changed, and it followed by the merge of what is left is the whole
      merge. */
  ghost predicate MergeState(r: seq<int>, m: seq<int>, a: seq<int>, b: seq<int>,
                             result: nat, i: nat, j: nat)
  {
    i <= |a| && j <= |b| && result + i + j <= |m|
    && SameOutside(r, m, result, result + i + j)
    && r[result..result + i + j] + Merged(a[i..], b[j..]) == Merged(a, b)
  }

  /** One merge step on the sequences alone: the smaller head (the head of
      `a` on a tie) is the next element of the merge. */
  lemma MergedTakeSecond(done: seq<int>, a: seq<int>, b: seq<int>, i: nat, j: nat, whole: seq<int>)
    requires i < |a| && j < |b| && b[j] < a[i]
    requires done + Merged(a[i..], b[j..]) == whole
    ensures (done + [b[j]]) + Merged(a[i..], b[j + 1..]) == whole
  {
    var x, y := a[i..], b[j..];
    assert x[0] == a[i] && y[0] == b[j];
    assert y[1..] == b[j + 1..];
  }

  lemma MergedTakeFirst(done: seq<int>, a: seq<int>, b: seq<int>, i: nat, j: nat, whole: seq<int>)
    requires i < |a| && j < |b| && !(b[j] < a[i])
    requires done + Merged(a[i..], b[j..]) == whole
    ensures (done + [a[i]]) + Merged(a[i + 1..], b[j..]) == whole
  {
    var x, y := a[i..], b[j..];
    assert x[0] == a[i] && y[0] == b[j];
    assert x[1..] == a[i + 1..];
  }

  /** Writing position `pos` extends the changed window by one. */
  lemma WriteNext(r: seq<int>, m: seq<int>, lo: nat, pos: nat, v: int)
    requires lo <= pos < |m| && SameOutside(r, m, lo, pos)
    ensures SameOutside(r[pos := v], m, lo, pos + 1)
    ensures r[pos := v][lo..pos + 1] == r[lo..pos] + [v]
  {
    var r' := r[pos := v];
    assert r'[..lo] == r[..lo];
    assert r'[pos + 1..] == r[pos + 1..];
    assert r[pos + 1..] == r[pos..][1..];
  }

  /** The loop takes from the inputs where the output has not reached. */
  lemma MergeReads(m: seq<int>, a: seq<int>, b: seq<int>, first1: nat, first2: nat, result: nat,
                   r: seq<int>, i: nat, j: nat)
    requires MergeFits(|m|, first1, first1 + |a|, first2, first2 + |b|, result)
    requires a == m[first1..first1 + |a|] && b == m[first2..first2 + |b|]
    requires MergeState(r, m, a, b, result, i, j)
    requires i < |a| && j < |b|
    ensures r[first1 + i] == a[i] && r[first2 + j] == b[j]
  {
    SameOutsideAt(r, m, result, result + i + j, first1 + i);
    SameOutsideAt(r, m, result, result + i + j, first2 + j);
  }

  /** The two steps of the merge loop, on the values the loop writes. */
  lemma MergeStepSecond(m: seq<int>, a: seq<int>, b: seq<int>, result: nat,
                       r: seq<int>, i: nat, j: nat, out: nat, p: nat)
    requires MergeState(r, m, a, b, result, i, j)
    requires i < |a| && j < |b| && out == result + i + j && out < |m|
    requires b[j] < a[i] && p < |r| && r[p] == b[j]
    ensures MergeState(r[out := r[p]], m, a, b, result, i, j + 1)
  {
    var r' := r[out := r[p]];
    assert r' == r[out := b[j]];
    MergedTakeSecond(r[result..out], a, b, i, j, Merged(a, b));
    WriteNext(r, m, result, out, b[j]);
    assert r'[result..out + 1] == r[result..out] + [b[j]];
    assert r'[result..out + 1] + Merged(a[i..], b[j + 1..]) == Merged(a, b);
  }

  lemma MergeStepFirst(m: seq<int>, a: seq<int>, b: seq<int>, result: nat,
                       r: seq<int>, i: nat, j: nat, out: nat, p: nat)
    requires MergeState(r, m, a, b, result, i, j)
    requires i < |a| && j < |b| && out == result + i + j && out < |m|
    requires !(b[j] < a[i]) && p < |r| && r[p] == a[i]
    ensures MergeState(r[out := r[p]], m, a, b, result, i + 1, j)
  {
    var r' := r[out := r[p]];
    assert r' == r[out := a[i]];
    MergedTakeFirst(r[result..out], a, b, i, j, Merged(a, b));
    WriteNext(r, m, result, out, a[i]);
    assert r'[result..out + 1] == r[result..out] + [a[i]];
    assert r'[result..out + 1] + Merged(a[i + 1..], b[j..]) == Merged(a, b);
  }

  /** When one input is used up, the merge of what is left is the rest of
      the first input followed by the rest of the second. */
  lemma MergedRest(a: seq<int>, b: seq<int>, i: nat, j: nat)
    requires i <= |a| && j <= |b| && (i == |a| || j == |b|)
    ensures Merged(a[i..], b[j..]) == a[i..] + b[j..]
  {
    if i == |a| {
      assert a[i..] == [];
    } else {
      assert b[j..] == [];
    }
  }

  /** One trailing copy: the unread rest of an input (`x` at `fx`, from
      its `k`-th element) lands just after the output window `[lo, pos)`,
      which grows to `[lo, e)`. */
  lemma CopiedRest(m: seq<int>, x: seq<int>, fx: nat, k: nat,
                   r: seq<int>, lo: nat, pos: nat, r1: seq<int>, e: nat)
    requires fx + |x| <= |m| && x == m[fx..fx + |x|] && k <= |x|
    requires lo <= pos <= e <= |m| && e == pos + (|x| - k)
    requires SameOutside(r, m, lo, pos)
    requires fx + |x| <= lo || pos <= fx + k
    requires |r1| == |r| && r1[pos..e] == r[fx + k..fx + |x|]
    requires SameOutside(r1, r, pos, e)
    ensures r1[pos..e] == x[k..]
    ensures SameOutside(r1, m, lo, e)
  {
    SameOutsideWindow(r, m, lo, pos, fx + k, fx + |x|);
    SliceOfSlice(m, fx, fx + |x|, k, |x|);
    SameOutsideCompose(r1, r, m, lo, pos, pos, e, lo, e);
  }

  /** Once one input is used up, the two trailing copies append the rest
      of each input to what the loop wrote, and change nothing else. */
  lemma MergeFinish(m: seq<int>, a: seq<int>, b: seq<int>, first1: nat, first2: nat, result: nat,
                    r: seq<int>, i: nat, j: nat, r1: seq<int>, e1: nat, r2: seq<int>, e2: nat)
    requires MergeFits(|m|, first1, first1 + |a|, first2, first2 + |b|, result)
    requires a == m[first1..first1 + |a|] && b == m[first2..first2 + |b|]
    requires i <= |a| && j <= |b| && (i == |a| || j == |b|)
    requires SameOutside(r, m, result, result + i + j)
    requires e1 == result + |a| + j && |r1| == |r|
    requires r1[result + i + j..e1] == r[first1 + i..first1 + |a|]
    requires SameOutside(r1, r, result + i + j, e1)
    requires e2 == e1 + (|b| - j) && |r2| == |r1|
    requires r2[e1..e2] == r1[first2 + j..first2 + |b|]
    requires SameOutside(r2, r1, e1, e2)
    ensures r2[result..e2] == r[result..result + i + j] + (a[i..] + b[j..])
    ensures SameOutside(r2, m, result, e2)
  {
    var pos := result + i + j;
    CopiedRest(m, a, first1, i, r, result, pos, r1, e1);
    CopiedRest(m, b, first2, j, r1, result, e1, r2, e2);
    assert r2[pos..e1] == a[i..] by {
      SameOutsideWindow(r2, r1, e1, e2, pos, e1);
    }
    assert r2[result..pos] == r[result..pos] by {
      SameOutsideWindow(r2, r1, e1, e2, result, pos);
      SameOutsideWindow(r1, r, pos, e1, result, pos);
    }
    Windows3(r2, result, pos, e1, e2);
  }

  /** One round of the element loop: writes the smaller head (the first
      input's on a tie) to the next output position. */
  method MergeOne(m: seq<int>, first1: nat, first2: nat, result: nat, ghost a: seq<int>, ghost b: seq<int>,
                  r: seq<int>, i: nat, j: nat)
    returns (r': seq<int>, i': nat, j': nat)
    requires MergeFits(|m|, first1, first1 + |a|, first2, first2 + |b|, result)
    requires a == m[first1..first1 + |a|] && b == m[first2..first2 + |b|]
    requires MergeState(r, m, a, b, result, i, j)
    requires i < |a| && j < |b|
    ensures MergeState(r', m, a, b, result, i', j')
    ensures i' + j' == i + j + 1 && i <= i' && j <= j'
  {
    var out := result + i + j;
    MergeReads(m, a, b, first1, first2, result, r, i, j);
    if r[first2 + j] < r[first1 + i] {
      MergeStepSecond(m, a, b, result, r, i, j, out, first2 + j);
      r', i', j' := r[out := r[first2 + j]], i, j + 1;
    } else {
      MergeStepFirst(m, a, b, result, r, i, j, out, first1 + i);
      r', i', j' := r[out := r[first1 + i]], i + 1, j;
    }
  }

  /** The element loop of `merge`: stops when either input is used up. */
  method MergeLoop(m: seq<int>, first1: nat, last1: nat, first2: nat, last2: nat, result: nat)
    returns (r: seq<int>, i: nat, j: nat)
    requires MergeFits(|m|, first1, last1, first2, last2, result)
    ensures MergeState(r, m, m[first1..last1], m[first2..last2], result, i, j)
    ensures first1 + i == last1 || first2 + j == last2
  {
    ghost var a, b := m[first1..last1], m[first2..last2];
    r := m;
    i, j := 0, 0;
    while first1 + i != last1 && first2 + j != last2
      invariant MergeState(r, m, a, b, result, i, j)
      decreases (|a| - i) + (|b| - j)
    {
      r, i, j := MergeOne(m, first1, first2, result, a, b, r, i, j);
    }
  }

  /** After the element loop, the two trailing copies complete the
      merge. The requirements are the loop's and the copies' guarantees as
      they stand. */
  lemma MergeTail(m: seq<int>, first1: nat, last1: nat, first2: nat, last2: nat, result: nat,
                  r0: seq<int>, i: nat, j: nat, out: nat,
                  r1: seq<int>, e1: nat, r2: seq<int>, e2: nat)
    requires MergeFits(|m|, first1, last1, first2, last2, result)
    requires MergeState(r0, m, m[first1..last1], m[first2..last2], result, i, j)
    requires first1 + i == last1 || first2 + j == last2
    requires out == result + i + j
    requires e1 == out + (last1 - (first1 + i)) && |r1| == |r0|
    requires out <= first1 + i || out >= last1 ==> r1[out..e1] == r0[first1 + i..last1]
    requires r1[..out] == r0[..out] && r1[e1..] == r0[e1..]
    requires e2 == e1 + (last2 - (first2 + j)) && |r2| == |r1|
    requires e1 <= first2 + j || e1 >= last2 ==> r2[e1..e2] == r1[first2 + j..last2]
    requires r2[..e1] == r1[..e1] && r2[e2..] == r1[e2..]
    ensures e2 == result + (last1 - first1) + (last2 - first2)
    ensures r2[result..e2] == Merged(m[first1..last1], m[first2..last2])
    ensures SameOutside(r2, m, result, e2)
  {
    var a, b := m[first1..last1], m[first2..last2];
    assert first1 + |a| == last1 && first2 + |b| == last2;
    assert out <= first1 + i || out >= last1;
    assert e1 <= first2 + j || e1 >= last2;
    assert SameOutside(r0, m, result, out);
    assert SameOutside(r1, r0, out, e1) && SameOutside(r2, r1, e1, e2);
    MergeFinish(m, a, b, first1, first2, result, r0, i, j, r1, e1, r2, e2);
    MergedRest(a, b, i, j);
  }

  /** `merge`: repeatedly writes the smaller head (the first range's on a
      tie) to `result`, then copies the rest of the first range and the
      rest of the second; returns the end of the output. */
  method Merge(m: seq<int>, first1: nat, last1: nat, first2: nat, last2: nat, result: nat)
    returns (r: seq<int>, end: nat)
    requires MergeFits(|m|, first1, last1, first2, last2, result)
    ensures end == result + (last1 - first1) + (last2 - first2)
    ensures |r| == |m|
    ensures r[result..end] == Merged(m[first1..last1], m[first2..last2])
    ensures SameOutside(r, m, result, end)
  {
    var r0, i, j := MergeLoop(m, first1, last1, first2, last2, result);
    var out := result + i + j;
    var r1, e1 := AlgoBase.Copy(r0, first1 + i, last1, out);
    var r2, e2 := AlgoBase.Copy(r1, first2 + j, last2, e1);
    MergeTail(m, first1, last1, first2, last2, result, r0, i, j, out, r1, e1, r2, e2);
    r, end := r2, e2;
  }

  // -----------------------------------------------------------------------
  // merge_backward

  /** Where `merge_backward` may write: the output `[result - n1 - n2,
      result)` does not meet the second input, and it meets the first only
      ahead of its read position (`last1 + n2 <= result`), which is how
      `merge_adaptive` calls it with the first run in place. */
  ghost predicate MergeBackFits(n: nat, first1: nat, last1: nat, first2: nat, last2: nat, result: nat) {
    first1 <= last1 <= n && first2 <= last2 <= n
    && (last1 - first1) + (last2 - first2) <= result <= n
    && (last1 + (last2 - first2) <= result || result <= first1)
    && (last2 + (last1 - first1) + (last2 - first2) <= result || result <= first2)
  }

  /** With `k1` elements of `a` and `k2` of `b` still unread (both read
      from the back), the output holds `[out, result)`: only that window
      has changed, and the merge of what is left followed by it is the
      whole merge. */
  ghost predicate BackState(r: seq<int>, m: seq<int>, a: seq<int>, b: seq<int>,
                            out: nat, result: nat, k1: nat, k2: nat)
  {
    k1 <= |a| && k2 <= |b| && result <= |m|
    && out + (|a| - k1) + (|b| - k2) == result
    && SameOutside(r, m, out, result)
    && MergedBack(a[..k1], b[..k2]) + r[out..result] == MergedBack(a, b)
  }

  /** One backward merge step on the sequences alone: the larger last
      element (the second input's on a tie) is the last element of the
      merge. */
  lemma MergedBackTakeFirst(done: seq<int>, a: seq<int>, b: seq<int>, k1: nat, k2: nat, whole: seq<int>)
    requires 0 < k1 <= |a| && 0 < k2 <= |b| && b[k2 - 1] < a[k1 - 1]
    requires MergedBack(a[..k1], b[..k2]) + done == whole
    ensures MergedBack(a[..k1 - 1], b[..k2]) + ([a[k1 - 1]] + done) == whole
  {
    var x, y := a[..k1], b[..k2];
    var x', v := a[..k1 - 1], a[k1 - 1];
    assert x[..|x| - 1] == x' && x[|x| - 1] == v && y[|y| - 1] == b[k2 - 1];
    var t := MergedBack(x', y);
    assert MergedBack(x, y) == t + [v];
    assert t + ([v] + done) == (t + [v]) + done;
  }

  lemma MergedBackTakeSecond(done: seq<int>, a: seq<int>, b: seq<int>, k1: nat, k2: nat, whole: seq<int>)
    requires 0 < k1 <= |a| && 0 < k2 <= |b| && !(b[k2 - 1] < a[k1 - 1])
    requires MergedBack(a[..k1], b[..k2]) + done == whole
    ensures MergedBack(a[..k1], b[..k2 - 1]) + ([b[k2 - 1]] + done) == whole
  {
    var x, y := a[..k1], b[..k2];
    var y', v := b[..k2 - 1], b[k2 - 1];
    assert y[..|y| - 1] == y' && x[|x| - 1] == a[k1 - 1] && y[|y| - 1] == v;
    var t := MergedBack(x, y');
    assert MergedBack(x, y) == t + [v];
    assert t + ([v] + done) == (t + [v]) + done;
  }

  /** Writing just before the window extends it by one at the front. */
  lemma WriteBefore(r: seq<int>, m: seq<int>, pos: nat, hi: nat, v: int)
    requires 0 < pos <= hi <= |m| && SameOutside(r, m, pos, hi)
    ensures SameOutside(r[pos - 1 := v], m, pos - 1, hi)
    ensures r[pos - 1 := v][pos - 1..hi] == [v] + r[pos..hi]
  {
    var r' := r[pos - 1 := v];
    assert r'[..pos - 1] == r[..pos - 1];
    assert r[..pos - 1] == r[..pos][..pos - 1];
    assert r'[hi..] == r[hi..];
  }

  /** The backward loop takes from the inputs where the output has not
      reached. */
  lemma BackReads(m: seq<int>, a: seq<int>, b: seq<int>, first1: nat, first2: nat, out: nat, result: nat,
                  r: seq<int>, k1: nat, k2: nat)
    requires MergeBackFits(|m|, first1, first1 + |a|, first2, first2 + |b|, result)
    requires a == m[first1..first1 + |a|] && b == m[first2..first2 + |b|]
    requires BackState(r, m, a, b, out, result, k1, k2)
    requires 0 < k1 && 0 < k2
    ensures 0 < out
    ensures r[first1 + k1 - 1] == a[k1 - 1] && r[first2 + k2 - 1] == b[k2 - 1]
  {
    SameOutsideAt(r, m, out, result, first1 + k1 - 1);
    SameOutsideAt(r, m, out, result, first2 + k2 - 1);
  }

  /** The two steps of the backward loop, on the values the loop writes. */
  lemma BackStepFirst(m: seq<int>, a: seq<int>, b: seq<int>, out: nat, result: nat,
                      r: seq<int>, k1: nat, k2: nat, p: nat,
                      r': seq<int>, out': nat, k1': nat, k2': nat)
    requires BackState(r, m, a, b, out, result, k1, k2)
    requires 0 < k1 && 0 < k2 && 0 < out
    requires b[k2 - 1] < a[k1 - 1] && p < |r| && r[p] == a[k1 - 1]
    requires r' == r[out - 1 := r[p]] && out' == out - 1 && k1' == k1 - 1 && k2' == k2
    ensures BackState(r', m, a, b, out', result, k1', k2')
  {
    assert r' == r[out - 1 := a[k1 - 1]];
    MergedBackTakeFirst(r[out..result], a, b, k1, k2, MergedBack(a, b));
    WriteBefore(r, m, out, result, a[k1 - 1]);
    assert r'[out'..result] == [a[k1 - 1]] + r[out..result];
    assert MergedBack(a[..k1'], b[..k2']) + r'[out'..result] == MergedBack(a, b);
  }

  lemma BackStepSecond(m: seq<int>, a: seq<int>, b: seq<int>, out: nat, result: nat,
                       r: seq<int>, k1: nat, k2: nat, p: nat,
                       r': seq<int>, out': nat, k1': nat, k2': nat)
    requires BackState(r, m, a, b, out, result, k1, k2)
    requires 0 < k1 && 0 < k2 && 0 < out
    requires !(b[k2 - 1] < a[k1 - 1]) && p < |r| && r[p] == b[k2 - 1]
    requires r' == r[out - 1 := r[p]] && out' == out - 1 && k1' == k1 && k2' == k2 - 1
    ensures BackState(r', m, a, b, out', result, k1', k2')
  {
    assert r' == r[out - 1 := b[k2 - 1]];
    MergedBackTakeSecond(r[out..result], a, b, k1, k2, MergedBack(a, b));
    WriteBefore(r, m, out, result, b[k2 - 1]);
    assert r'[out'..result] == [b[k2 - 1]] + r[out..result];
    assert MergedBack(a[..k1'], b[..k2']) + r'[out'..result] == MergedBack(a, b);
  }

  /** The two steps of the backward loop as the loop sees them: the
      comparison is on the buffer, the ranges are given by their ends. */
  lemma BackTakeFirst(m: seq<int>, first1: nat, last1: nat, first2: nat, last2: nat, result: nat,
                      r: seq<int>, out: nat, k1: nat, k2: nat,
                      r': seq<int>, out': nat, k1': nat, k2': nat)
    requires MergeBackFits(|m|, first1, last1, first2, last2, result)
    requires BackState(r, m, m[first1..last1], m[first2..last2], out, result, k1, k2)
    requires 0 < k1 && 0 < k2 && r[first2 + k2 - 1] < r[first1 + k1 - 1]
    requires 0 < out && r' == r[out - 1 := r[first1 + k1 - 1]]
    requires out' == out - 1 && k1' == k1 - 1 && k2' == k2
    ensures BackState(r', m, m[first1..last1], m[first2..last2], out', result, k1', k2')
  {
    var a, b := m[first1..last1], m[first2..last2];
    BackReads(m, a, b, first1, first2, out, result, r, k1, k2);
    BackStepFirst(m, a, b, out, result, r, k1, k2, first1 + k1 - 1, r', out', k1', k2');
  }

  lemma BackTakeSecond(m: seq<int>, first1: nat, last1: nat, first2: nat, last2: nat, result: nat,
                       r: seq<int>, out: nat, k1: nat, k2: nat,
                       r': seq<int>, out': nat, k1': nat, k2': nat)
    requires MergeBackFits(|m|, first1, last1, first2, last2, result)
    requires BackState(r, m, m[first1..last1], m[first2..last2], out, result, k1, k2)
    requires 0 < k1 && 0 < k2 && !(r[first2 + k2 - 1] < r[first1 + k1 - 1])
    requires 0 < out && r' == r[out - 1 := r[first2 + k2 - 1]]
    requires out' == out - 1 && k1' == k1 && k2' == k2 - 1
    ensures BackState(r', m, m[first1..last1], m[first2..last2], out', result, k1', k2')
  {
    var a, b := m[first1..last1], m[first2..last2];
    BackReads(m, a, b, first1, first2, out, result, r, k1, k2);
    BackStepSecond(m, a, b, out, result, r, k1, k2, first2 + k2 - 1, r', out', k1', k2');
  }

  /** One round of the backward loop: writes the larger of the two last
      elements (the second input's on a tie) just before the output, and
      says which input it came from. */
  method MergeBackOne(m: seq<int>, first1: nat, last1: nat, first2: nat, last2: nat, result: nat,
                      r: seq<int>, out: nat, k1: nat, k2: nat)
    returns (r': seq<int>, out': nat, k1': nat, k2': nat, tookFirst: bool)
    requires MergeBackFits(|m|, first1, last1, first2, last2, result)
    requires BackState(r, m, m[first1..last1], m[first2..last2], out, result, k1, k2)
    requires 0 < k1 && 0 < k2
    ensures BackState(r', m, m[first1..last1], m[first2..last2], out', result, k1', k2')
    ensures tookFirst ==> k1' == k1 - 1 && k2' == k2
    ensures !tookFirst ==> k1' == k1 && k2' == k2 - 1
  {
    assert first1 + k1 - 1 < |r| && first2 + k2 - 1 < |r|;
    BackReads(m, m[first1..last1], m[first2..last2], first1, first2, out, result, r, k1, k2);
    if r[first2 + k2 - 1] < r[first1 + k1 - 1] {
      r', out', k1', k2', tookFirst := r[out - 1 := r[first1 + k1 - 1]], out - 1, k1 - 1, k2, true;
      BackTakeFirst(m, first1, last1, first2, last2, result, r, out, k1, k2, r', out', k1', k2');
    } else {
      r', out', k1', k2', tookFirst := r[out - 1 := r[first2 + k2 - 1]], out - 1, k1, k2 - 1, false;
      BackTakeSecond(m, first1, last1, first2, last2, result, r, out, k1, k2, r', out', k1', k2');
    }
  }

  /** When one input is used up, the backward merge of what is left is the
      rest of the other input. */
  lemma MergedBackRest(a: seq<int>, b: seq<int>, k1: nat, k2: nat)
    requires k1 <= |a| && k2 <= |b| && (k1 == 0 || k2 == 0)
    ensures MergedBack(a[..k1], b[..k2]) == a[..k1] + b[..k2]
  {
    if k1 == 0 {
      assert a[..k1] == [];
      assert [] + b[..k2] == b[..k2];
    } else {
      assert b[..k2] == [];
      assert a[..k1] + [] == a[..k1];
    }
  }

  /** The closing `copy_backward` of the unread rest of one input (`cnt`
      elements at `src`) puts that rest just before the output window and
      changes nothing else. */
  lemma BackFrame(m: seq<int>, a: seq<int>, b: seq<int>, first1: nat, first2: nat, out: nat, result: nat,
                  r: seq<int>, k1: nat, k2: nat, src: nat, cnt: nat, r1: seq<int>, start: nat)
    requires MergeBackFits(|m|, first1, first1 + |a|, first2, first2 + |b|, result)
    requires a == m[first1..first1 + |a|] && b == m[first2..first2 + |b|]
    requires k1 <= |a| && k2 <= |b| && out + (|a| - k1) + (|b| - k2) == result
    requires SameOutside(r, m, out, result)
    requires (k1 == 0 && src == first2 && cnt == k2) || (k2 == 0 && src == first1 && cnt == k1)
    requires start == out - cnt && |r1| == |r|
    requires out >= src + cnt || out <= src ==> r1[start..out] == r[src..src + cnt]
    requires r1[..start] == r[..start] && r1[out..] == r[out..]
    ensures start == result - |a| - |b|
    ensures r1[start..result] == (if k1 == 0 then b[..k2] else a[..k1]) + r[out..result]
    ensures SameOutside(r1, m, start, result)
  {
    var rest := if k1 == 0 then b[..k2] else a[..k1];
    assert src + cnt <= out || result <= src;
    SameOutsideWindow(r, m, out, result, src, src + cnt);
    BackRest(m, a, b, first1, first2, k1, k2, src, cnt);
    assert r1[start..out] == rest;
    WidenFront(m, r, r1, start, out, result);
    Windows2(r1, start, out, result);
  }

  /** The run that the early `copy_backward` exit moves is the unused
      head of the input that is not yet exhausted. */
  lemma BackRest(m: seq<int>, a: seq<int>, b: seq<int>, first1: nat, first2: nat,
                 k1: nat, k2: nat, src: nat, cnt: nat)
    requires first1 + |a| <= |m| && first2 + |b| <= |m|
    requires a == m[first1..first1 + |a|] && b == m[first2..first2 + |b|]
    requires k1 <= |a| && k2 <= |b|
    requires (k1 == 0 && src == first2 && cnt == k2) || (k2 == 0 && src == first1 && cnt == k1)
    ensures src + cnt <= |m|
    ensures (if k1 == 0 then b[..k2] else a[..k1]) == m[src..src + cnt]
  {
    if k1 == 0 {
      SliceOfSlice(m, first2, first2 + |b|, 0, k2);
    } else {
      SliceOfSlice(m, first1, first1 + |a|, 0, k1);
    }
  }

  /** A change confined to `[start, out)` on top of one confined to
      `[out, result)` is confined to `[start, result)`, and leaves the
      second window as it was. */
  lemma WidenFront(m: seq<int>, r: seq<int>, r1: seq<int>, start: nat, out: nat, result: nat)
    requires start <= out <= result <= |m| && SameOutside(r, m, out, result)
    requires |r1| == |r| && r1[..start] == r[..start] && r1[out..] == r[out..]
    ensures r1[out..result] == r[out..result]
    ensures SameOutside(r1, m, start, result)
  {
    assert r1[out..result] == r[out..result] by {
      assert r1[out..][..result - out] == r[out..][..result - out];
    }
    assert r1[..start] == m[..start] by {
      assert r[..start] == r[..out][..start];
      assert m[..start] == m[..out][..start];
    }
    assert r1[result..] == m[result..] by {
      assert r1[result..] == r1[out..][result - out..];
      assert r[result..] == r[out..][result - out..];
    }
  }

  /** The closing copy completes the backward merge. The requirements are
      the state and the copy's guarantees as they stand. */
  lemma BackTail(m: seq<int>, a: seq<int>, b: seq<int>, first1: nat, first2: nat, out: nat, result: nat,
                 r: seq<int>, k1: nat, k2: nat, src: nat, cnt: nat, r1: seq<int>, start: nat)
    requires MergeBackFits(|m|, first1, first1 + |a|, first2, first2 + |b|, result)
    requires a == m[first1..first1 + |a|] && b == m[first2..first2 + |b|]
    requires BackState(r, m, a, b, out, result, k1, k2)
    requires (k1 == 0 && src == first2 && cnt == k2) || (k2 == 0 && src == first1 && cnt == k1)
    requires start == out - cnt && |r1| == |r|
    requires out >= src + cnt || out <= src ==> r1[start..out] == r[src..src + cnt]
    requires r1[..start] == r[..start] && r1[out..] == r[out..]
    ensures start == result - |a| - |b|
    ensures r1[start..result] == MergedBack(a, b)
    ensures SameOutside(r1, m, start, result)
  {
    BackFrame(m, a, b, first1, first2, out, result, r, k1, k2, src, cnt, r1, start);
    MergedBackRest(a, b, k1, k2);
  }

  /** Before the backward loop nothing is written and everything is
      unread. */
  lemma BackStart(m: seq<int>, a: seq<int>, b: seq<int>, result: nat)
    requires |a| + |b| <= result <= |m|
    ensures BackState(m, m, a, b, result, result, |a|, |b|)
  {
    assert a[..|a|] == a && b[..|b|] == b;
    assert m[result..result] == [];
  }

  /** The closing `copy_backward` of the unread rest of whichever input
      is used up first. */
  method BackCopyRest(m: seq<int>, first1: nat, last1: nat, first2: nat, last2: nat, result: nat,
                      r: seq<int>, out: nat, k1: nat, k2: nat)
    returns (r1: seq<int>, start: nat)
    requires MergeBackFits(|m|, first1, last1, first2, last2, result)
    requires BackState(r, m, m[first1..last1], m[first2..last2], out, result, k1, k2)
    requires k1 == 0 || k2 == 0
    ensures start == result - (last1 - first1) - (last2 - first2)
    ensures |r1| == |m|
    ensures r1[start..result] == MergedBack(m[first1..last1], m[first2..last2])
    ensures SameOutside(r1, m, start, result)
  {
    ghost var a, b := m[first1..last1], m[first2..last2];
    if k1 == 0 {
      r1, start := AlgoBase.CopyBackward(r, first2, first2 + k2, out);
      BackTail(m, a, b, first1, first2, out, result, r, k1, k2, first2, k2, r1, start);
    } else {
      r1, start := AlgoBase.CopyBackward(r, first1, first1 + k1, out);
      BackTail(m, a, b, first1, first2, out, result, r, k1, k2, first1, k1, r1, start);
    }
  }

  /** `merge_backward`: an empty input means a `copy_backward` of the
      other; otherwise, reading both inputs from the back, repeatedly
      writes the larger last element (the first input's only when the
      second's is strictly smaller) before `result`, and as soon as one
      input is used up, `copy_backward`s the rest of the other. Returns
      the start of the output. */
  method MergeBackward(m: seq<int>, first1: nat, last1: nat, first2: nat, last2: nat, result: nat)
    returns (r: seq<int>, start: nat)
    requires MergeBackFits(|m|, first1, last1, first2, last2, result)
    ensures start == result - (last1 - first1) - (last2 - first2)
    ensures |r| == |m|
    ensures r[start..result] == MergedBack(m[first1..last1], m[first2..last2])
    ensures SameOutside(r, m, start, result)
  {
    BackStart(m, m[first1..last1], m[first2..last2], result);
    if first1 == last1 || first2 == last2 {
      r, start := BackCopyRest(m, first1, last1, first2, last2, result, m, result, last1 - first1, last2 - first2);
      return;
    }
    var k1, k2 := last1 - first1, last2 - first2;
    var out := result;
    r := m;
    while true
      invariant 0 < k1 && 0 < k2
      invariant BackState(r, m, m[first1..last1], m[first2..last2], out, result, k1, k2)
      decreases k1 + k2
    {
      var tookFirst;
      r, out, k1, k2, tookFirst := MergeBackOne(m, first1, last1, first2, last2, result, r, out, k1, k2);
      if tookFirst {
        if k1 == 0 {
          r, start := BackCopyRest(m, first1, last1, first2, last2, result, r, out, k1, k2);
          return;
        }
      } else {
        if k2 == 0 {
          r, start := BackCopyRest(m, first1, last1, first2, last2, result, r, out, k1, k2);
          return;
        }
      }
    }
  }
}
