/** The in-place merge family: `rotate_adaptive`, `merge_without_buffer`,
    `merge_adaptive` and `inplace_merge`.

    The range being merged lives in `s[..n]`; the algorithms that use a
    temporary buffer see it laid out behind the range, at `[n, |m|)` of
    one buffer `m`, so `copy` and the merges can move elements between the
    two. The buffer's contents afterwards are not part of any result. */
module Inplace {
  import opened Ranges
  import opened Iterators
  import AlgoBase
  import Search
  import Rotate
  import Memory
  import Merge

  // -----------------------------------------------------------------------
  // rotate_adaptive

  /** Reference: `s[..n]` with the blocks `[first, middle)` and
      `[middle, last)` exchanged. */
  function Exchanged(s: seq<int>, first: nat, middle: nat, last: nat, n: nat): seq<int>
    requires first <= middle <= last <= n <= |s|
  {
    s[..first] + s[middle..last] + s[first..middle] + s[last..n]
  }

  /** The first branch of `rotate_adaptive` (the second block is the
      shorter one and fits the buffer): copy it to the buffer, move the
      first block to the back with `copy_backward`, copy the buffer to the
      front. The requirements are the three copies' guarantees as they
      stand. */
  lemma ExchangeBySecond(m: seq<int>, n: nat, first: nat, middle: nat, last: nat,
                         r1: seq<int>, e1: nat, r2: seq<int>, s2: nat, r3: seq<int>, e3: nat)
    requires first <= middle <= last <= n && n + (last - middle) <= |m|
    requires e1 == n + (last - middle) && |r1| == |m|
    requires n <= middle || n >= last ==> r1[n..e1] == m[middle..last]
    requires r1[..n] == m[..n] && r1[e1..] == m[e1..]
    requires s2 == last - (middle - first) && |r2| == |r1|
    requires last >= middle || last <= first ==> r2[s2..last] == r1[first..middle]
    requires r2[..s2] == r1[..s2] && r2[last..] == r1[last..]
    requires e3 == first + (e1 - n) && |r3| == |r2|
    requires first <= n || first >= e1 ==> r3[first..e3] == r2[n..e1]
    requires r3[..first] == r2[..first] && r3[e3..] == r2[e3..]
    ensures |r3| == |m| && e3 == first + (last - middle)
    ensures r3[..n] == Exchanged(m, first, middle, last, n)
  {
    AgreeWithin(r3, r2, 0, first, 0, first);
    AgreeWithin(r2, r1, 0, s2, 0, first);
    AgreeWithin(r1, m, 0, n, 0, first);
    assert r3[..first] == m[..first];
    AgreeWithin(r2, r1, last, |r2|, n, e1);
    assert r3[first..e3] == m[middle..last];
    AgreeWithin(r3, r2, e3, |r3|, e3, last);
    AgreeWithin(r1, m, 0, n, first, middle);
    assert r3[e3..last] == m[first..middle];
    AgreeWithin(r3, r2, e3, |r3|, last, n);
    AgreeWithin(r2, r1, last, |r2|, last, n);
    AgreeWithin(r1, m, 0, n, last, n);
    assert r3[last..n] == m[last..n];
    Windows3(r3, first, e3, last, n);
  }

  /** The second branch (the first block fits the buffer): copy it to the
      buffer, move the second block to the front with `copy`, copy the
      buffer to the back with `copy_backward`. */
  lemma ExchangeByFirst(m: seq<int>, n: nat, first: nat, middle: nat, last: nat,
                        r1: seq<int>, e1: nat, r2: seq<int>, e2: nat, r3: seq<int>, s3: nat)
    requires first <= middle <= last <= n && n + (middle - first) <= |m|
    requires e1 == n + (middle - first) && |r1| == |m|
    requires n <= first || n >= middle ==> r1[n..e1] == m[first..middle]
    requires r1[..n] == m[..n] && r1[e1..] == m[e1..]
    requires e2 == first + (last - middle) && |r2| == |r1|
    requires first <= middle || first >= last ==> r2[first..e2] == r1[middle..last]
    requires r2[..first] == r1[..first] && r2[e2..] == r1[e2..]
    requires s3 == last - (e1 - n) && |r3| == |r2|
    requires last >= e1 || last <= n ==> r3[s3..last] == r2[n..e1]
    requires r3[..s3] == r2[..s3] && r3[last..] == r2[last..]
    ensures |r3| == |m| && s3 == first + (last - middle)
    ensures r3[..n] == Exchanged(m, first, middle, last, n)
  {
    AgreeWithin(r3, r2, 0, s3, 0, first);
    AgreeWithin(r1, m, 0, n, 0, first);
    assert r3[..first] == m[..first];
    AgreeWithin(r3, r2, 0, s3, first, s3);
    AgreeWithin(r1, m, 0, n, middle, last);
    assert r3[first..s3] == m[middle..last];
    AgreeWithin(r2, r1, e2, |r2|, n, e1);
    assert r3[s3..last] == m[first..middle];
    AgreeWithin(r3, r2, last, |r3|, last, n);
    AgreeWithin(r2, r1, e2, |r2|, last, n);
    AgreeWithin(r1, m, 0, n, last, n);
    assert r3[last..n] == m[last..n];
    Windows3(r3, first, s3, last, n);
  }

  /** `rotate` leaves the buffer alone, so it exchanges the blocks of the
      range in front of it. */
  lemma RotateIsExchange(m: seq<int>, n: nat, first: nat, middle: nat, last: nat, r: seq<int>)
    requires first <= middle <= last <= n <= |m|
    requires r == m[..first] + m[middle..last] + m[first..middle] + m[last..]
    ensures |r| == |m| && r[..n] == Exchanged(m, first, middle, last, n)
  {
    assert r[..n] == m[..first] + m[middle..last] + m[first..middle] + m[last..][..n - last];
  }

  /** `rotate_adaptive`: exchanges the blocks `[first, middle)` (`len1`
      elements) and `[middle, last)` (`len2`) through the buffer when the
      block it has to park there fits (the second one when it is the
      shorter, else the first), and with `rotate` otherwise. Returns where
      the first block now starts. */
  method RotateAdaptive(m: seq<int>, n: nat, first: nat, middle: nat, last: nat, len1: nat, len2: nat, cat: Category)
    returns (r: seq<int>, newMiddle: nat)
    requires first <= middle <= last <= n <= |m|
    requires len1 == middle - first && len2 == last - middle
    requires cat == Bidirectional || cat == RandomAccess
    ensures |r| == |m| && newMiddle == first + len2
    ensures r[..n] == Exchanged(m, first, middle, last, n)
  {
    var bufferSize := |m| - n;
    if len1 > len2 && len2 <= bufferSize {
      var r1, e1 := AlgoBase.Copy(m, middle, last, n);
      var r2, s2 := AlgoBase.CopyBackward(r1, first, middle, last);
      var r3, e3 := AlgoBase.Copy(r2, n, e1, first);
      ExchangeBySecond(m, n, first, middle, last, r1, e1, r2, s2, r3, e3);
      r, newMiddle := r3, e3;
    } else if len1 <= bufferSize {
      var r1, e1 := AlgoBase.Copy(m, first, middle, n);
      var r2, e2 := AlgoBase.Copy(r1, middle, last, first);
      var r3, s3 := AlgoBase.CopyBackward(r2, n, e1, last);
      ExchangeByFirst(m, n, first, middle, last, r1, e1, r2, e2, r3, s3);
      r, newMiddle := r3, s3;
    } else {
      r, newMiddle := Rotate.Rotate(m, first, middle, last, cat);
      RotateIsExchange(m, n, first, middle, last, r);
    }
  }

  // -----------------------------------------------------------------------
  // What an in-place merge promises

  /** The two runs `[first, middle)` and `[middle, last)` are each sorted. */
  ghost predicate SortedRuns(s: seq<int>, first: nat, middle: nat, last: nat)
    requires first <= middle <= last <= |s|
  {
    Sorted(s[first..middle]) && Sorted(s[middle..last])
  }

  /** `r` holds the elements of `s[first..last]` in sorted order there and
      agrees with `s` on the rest of `[0, n)`. */
  ghost predicate MergedIn(r: seq<int>, s: seq<int>, first: nat, last: nat, n: nat)
    requires first <= last <= n <= |s|
  {
    |r| == |s| && r[..first] == s[..first] && r[last..n] == s[last..n]
    && Sorted(r[first..last]) && multiset(r[first..last]) == multiset(s[first..last])
  }

  /** A range with an empty run is already merged. */
  lemma NothingToMerge(s: seq<int>, first: nat, middle: nat, last: nat, n: nat)
    requires first <= middle <= last <= n <= |s| && SortedRuns(s, first, middle, last)
    requires first == middle || middle == last
    ensures MergedIn(s, s, first, last, n)
  {
    if first == middle {
      assert s[first..last] == s[middle..last];
    } else {
      assert s[first..last] == s[first..middle];
    }
  }

  /** Two single elements are merged by one compare-and-swap. */
  lemma TwoMerged(s: seq<int>, first: nat, middle: nat, last: nat, r: seq<int>)
    requires middle == first + 1 && last == middle + 1 && last <= |s|
    requires r == if s[middle] < s[first] then AlgoBase.IterSwap(s, first, middle) else s
    ensures MergedIn(r, s, first, last, |s|)
  {
    assert s[first..last] == [s[first], s[middle]];
    if s[middle] < s[first] {
      assert r[first..last] == [s[middle], s[first]];
      assert r[..first] == s[..first];
      assert r[last..] == s[last..];
    }
  }

  // -----------------------------------------------------------------------
  // Dividing a merge in two

  /** Reference: the cut points of the divide step. The longer run is cut
      in half; the other is cut where the element at that half would go:
      its `lower_bound` when the first run is the longer, its
      `upper_bound` otherwise. */
  function CutPoints(s: seq<int>, first: nat, middle: nat, last: nat): (c: (nat, nat))
    requires first < middle < last <= |s|
    ensures first <= c.0 <= middle <= c.1 <= last
    ensures middle - first > last - middle ==> c.0 == first + (middle - first) / 2
    ensures middle - first <= last - middle ==> c.1 == middle + (last - middle) / 2
  {
    var len1, len2 := middle - first, last - middle;
    if len1 > len2 then
      var firstCut := first + len1 / 2;
      (firstCut, middle + Search.FirstNotLess(s[middle..last], s[firstCut]))
    else
      var secondCut := middle + len2 / 2;
      (first + Search.FirstGreater(s[first..middle], s[secondCut]), secondCut)
  }

  /** The element at the half-way cut, around which the four blocks
      separate. */
  function CutPivot(s: seq<int>, first: nat, middle: nat, last: nat): int
    requires first < middle < last <= |s|
  {
    if middle - first > last - middle then s[first + (middle - first) / 2]
    else s[middle + (last - middle) / 2]
  }

  /** The blocks left of the cuts hold nothing above `p`, the blocks right
      of them nothing below it. */
  ghost predicate Separated(s: seq<int>, first: nat, firstCut: nat, middle: nat, secondCut: nat, last: nat, p: int)
    requires first <= firstCut <= middle <= secondCut <= last <= |s|
  {
    AtMost(s[first..firstCut], p) && AtMost(s[middle..secondCut], p)
    && AtLeast(s[firstCut..middle], p) && AtLeast(s[secondCut..last], p)
  }

  /** When neither run is empty and they are not both single elements,
      both halves of the divide step are shorter than the range. */
  lemma CutsShrink(s: seq<int>, first: nat, middle: nat, last: nat)
    requires first < middle < last <= |s| && last - first > 2
    ensures (CutPoints(s, first, middle, last).0 - first) + (CutPoints(s, first, middle, last).1 - middle) < last - first
    ensures (middle - CutPoints(s, first, middle, last).0) + (last - CutPoints(s, first, middle, last).1) < last - first
  {
  }

  /** Cutting the first run in half and the second at the `lower_bound`
      of the half-way element separates the blocks around that element. */
  lemma SeparatedByLower(s: seq<int>, first: nat, firstCut: nat, middle: nat, secondCut: nat, last: nat)
    requires first <= firstCut < middle <= secondCut <= last <= |s|
    requires SortedRuns(s, first, middle, last)
    requires forall k :: 0 <= k < secondCut - middle ==> s[middle..last][k] < s[firstCut]
    requires forall k :: secondCut - middle <= k < last - middle ==> !(s[middle..last][k] < s[firstCut])
    ensures Separated(s, first, firstCut, middle, secondCut, last, s[firstCut])
  {
    var a, p := s[first..middle], s[firstCut];
    assert p == a[firstCut - first];
    forall k | 0 <= k < firstCut - first
      ensures s[first..firstCut][k] <= p
    {
      assert s[first..firstCut][k] == a[k];
    }
    forall k | 0 <= k < middle - firstCut
      ensures p <= s[firstCut..middle][k]
    {
      assert s[firstCut..middle][k] == a[firstCut - first + k];
    }
    forall k | 0 <= k < secondCut - middle
      ensures s[middle..secondCut][k] <= p
    {
      assert s[middle..secondCut][k] == s[middle..last][k];
    }
    forall k | 0 <= k < last - secondCut
      ensures p <= s[secondCut..last][k]
    {
      assert s[secondCut..last][k] == s[middle..last][secondCut - middle + k];
    }
  }

  /** Cutting the second run in half and the first at the `upper_bound`
      of the half-way element separates the blocks around that element. */
  lemma SeparatedByUpper(s: seq<int>, first: nat, firstCut: nat, middle: nat, secondCut: nat, last: nat)
    requires first <= firstCut <= middle <= secondCut < last <= |s|
    requires SortedRuns(s, first, middle, last)
    requires forall k :: 0 <= k < firstCut - first ==> s[first..middle][k] <= s[secondCut]
    requires forall k :: firstCut - first <= k < middle - first ==> s[secondCut] < s[first..middle][k]
    ensures Separated(s, first, firstCut, middle, secondCut, last, s[secondCut])
  {
    var b, p := s[middle..last], s[secondCut];
    assert p == b[secondCut - middle];
    forall k | 0 <= k < firstCut - first
      ensures s[first..firstCut][k] <= p
    {
      assert s[first..firstCut][k] == s[first..middle][k];
    }
    forall k | 0 <= k < middle - firstCut
      ensures p <= s[firstCut..middle][k]
    {
      assert s[firstCut..middle][k] == s[first..middle][firstCut - first + k];
    }
    forall k | 0 <= k < secondCut - middle
      ensures s[middle..secondCut][k] <= p
    {
      assert s[middle..secondCut][k] == b[k];
    }
    forall k | 0 <= k < last - secondCut
      ensures p <= s[secondCut..last][k]
    {
      assert s[secondCut..last][k] == b[secondCut - middle + k];
    }
  }

  /** The divide step's cuts: `advance` by half the longer run, then
      `lower_bound` or `upper_bound` in the other run, and `distance` for
      the other length. */
  method Cuts(s: seq<int>, first: nat, middle: nat, last: nat, len1: nat, len2: nat, cat: Category)
    returns (firstCut: nat, secondCut: nat, len11: nat, len22: nat)
    requires first < middle < last <= |s| && len1 == middle - first && len2 == last - middle
    requires SortedRuns(s, first, middle, last)
    requires cat == Bidirectional || cat == RandomAccess
    ensures (firstCut, secondCut) == CutPoints(s, first, middle, last)
    ensures first <= firstCut <= middle <= secondCut <= last
    ensures len11 == firstCut - first && len22 == secondCut - middle
    ensures Separated(s, first, firstCut, middle, secondCut, last, CutPivot(s, first, middle, last))
  {
    if len1 > len2 {
      len11 := len1 / 2;
      var fc := Advance(first, len11, cat);
      firstCut := fc;
      Search.SortedPartitioned(s[middle..last], s[firstCut]);
      var k := Search.LowerBound(s[middle..last], s[firstCut]);
      secondCut := middle + k;
      var d := Distance(middle, secondCut, cat);
      len22 := d;
      CutsByLower(s, first, middle, last, firstCut, k);
      SeparatedByLower(s, first, firstCut, middle, secondCut, last);
    } else {
      len22 := len2 / 2;
      var sc := Advance(middle, len22, cat);
      secondCut := sc;
      Search.SortedPartitioned(s[first..middle], s[secondCut]);
      var k := Search.UpperBound(s[first..middle], s[secondCut]);
      firstCut := first + k;
      var d := Distance(first, firstCut, cat);
      len11 := d;
      CutsByUpper(s, first, middle, last, secondCut, k);
      SeparatedByUpper(s, first, firstCut, middle, secondCut, last);
    }
  }

  lemma CutsByLower(s: seq<int>, first: nat, middle: nat, last: nat, firstCut: nat, k: nat)
    requires first < middle < last <= |s| && middle - first > last - middle
    requires firstCut == first + (middle - first) / 2
    requires k == Search.FirstNotLess(s[middle..last], s[firstCut])
    ensures CutPoints(s, first, middle, last) == (firstCut, middle + k)
    ensures CutPivot(s, first, middle, last) == s[firstCut]
  {
  }

  lemma CutsByUpper(s: seq<int>, first: nat, middle: nat, last: nat, secondCut: nat, k: nat)
    requires first < middle < last <= |s| && middle - first <= last - middle
    requires secondCut == middle + (last - middle) / 2
    requires k == Search.FirstGreater(s[first..middle], s[secondCut])
    ensures CutPoints(s, first, middle, last) == (first + k, secondCut)
    ensures CutPivot(s, first, middle, last) == s[secondCut]
  {
  }

  /** Where the exchange of the inner blocks puts the four blocks. */
  lemma ExchangedParts(s: seq<int>, n: nat, first: nat, firstCut: nat, middle: nat, secondCut: nat, last: nat,
                       t: seq<int>, newMiddle: nat)
    requires first <= firstCut <= middle <= secondCut <= last <= n <= |s|
    requires newMiddle == firstCut + (secondCut - middle)
    requires |t| == |s| && t[..n] == Exchanged(s, firstCut, middle, secondCut, n)
    ensures t[..first] == s[..first] && t[last..n] == s[last..n]
    ensures t[first..firstCut] == s[first..firstCut] && t[firstCut..newMiddle] == s[middle..secondCut]
    ensures t[newMiddle..secondCut] == s[firstCut..middle] && t[secondCut..last] == s[secondCut..last]
  {
    ExchangedOuter(s, n, first, firstCut, middle, secondCut, last, t, newMiddle);
    ExchangedKept(s, n, first, firstCut, middle, secondCut, last, t, newMiddle);
    ExchangedMoved(s, n, first, firstCut, middle, secondCut, last, t, newMiddle);
  }

  /** Outside `[first, last)` nothing moves. */
  lemma ExchangedOuter(s: seq<int>, n: nat, first: nat, firstCut: nat, middle: nat, secondCut: nat, last: nat,
                       t: seq<int>, newMiddle: nat)
    requires first <= firstCut <= middle <= secondCut <= last <= n <= |s|
    requires newMiddle == firstCut + (secondCut - middle)
    requires |t| == |s| && t[..n] == Exchanged(s, firstCut, middle, secondCut, n)
    ensures t[..first] == s[..first] && t[last..n] == s[last..n]
  {
    forall k | 0 <= k < first
      ensures t[..first][k] == s[..first][k]
    {
      ExchangedAt(s, firstCut, middle, secondCut, n, t, k);
    }
    forall k | 0 <= k < n - last
      ensures t[last..n][k] == s[last..n][k]
    {
      ExchangedAt(s, firstCut, middle, secondCut, n, t, last + k);
    }
  }

  /** The blocks before `firstCut` and from `secondCut` stay in place. */
  lemma ExchangedKept(s: seq<int>, n: nat, first: nat, firstCut: nat, middle: nat, secondCut: nat, last: nat,
                      t: seq<int>, newMiddle: nat)
    requires first <= firstCut <= middle <= secondCut <= last <= n <= |s|
    requires newMiddle == firstCut + (secondCut - middle)
    requires |t| == |s| && t[..n] == Exchanged(s, firstCut, middle, secondCut, n)
    ensures t[first..firstCut] == s[first..firstCut] && t[secondCut..last] == s[secondCut..last]
  {
    forall k | 0 <= k < firstCut - first
      ensures t[first..firstCut][k] == s[first..firstCut][k]
    {
      ExchangedAt(s, firstCut, middle, secondCut, n, t, first + k);
    }
    forall k | 0 <= k < last - secondCut
      ensures t[secondCut..last][k] == s[secondCut..last][k]
    {
      ExchangedAt(s, firstCut, middle, secondCut, n, t, secondCut + k);
    }
  }

  /** The two inner blocks trade places. */
  lemma ExchangedMoved(s: seq<int>, n: nat, first: nat, firstCut: nat, middle: nat, secondCut: nat, last: nat,
                       t: seq<int>, newMiddle: nat)
    requires first <= firstCut <= middle <= secondCut <= last <= n <= |s|
    requires newMiddle == firstCut + (secondCut - middle)
    requires |t| == |s| && t[..n] == Exchanged(s, firstCut, middle, secondCut, n)
    ensures t[firstCut..newMiddle] == s[middle..secondCut] && t[newMiddle..secondCut] == s[firstCut..middle]
  {
    forall k | 0 <= k < newMiddle - firstCut
      ensures t[firstCut..newMiddle][k] == s[middle..secondCut][k]
    {
      ExchangedAt(s, firstCut, middle, secondCut, n, t, firstCut + k);
    }
    forall k | 0 <= k < secondCut - newMiddle
      ensures t[newMiddle..secondCut][k] == s[firstCut..middle][k]
    {
      ExchangedAt(s, firstCut, middle, secondCut, n, t, newMiddle + k);
    }
  }

  /** One position of a sequence that agrees with `Exchanged` on `[0, n)`. */
  lemma ExchangedAt(s: seq<int>, first: nat, middle: nat, last: nat, n: nat, t: seq<int>, k: nat)
    requires first <= middle <= last <= n <= |s| && n <= |t|
    requires t[..n] == Exchanged(s, first, middle, last, n) && k < n
    ensures k < first ==> t[k] == s[k]
    ensures first <= k < first + (last - middle) ==> t[k] == s[middle + (k - first)]
    ensures first + (last - middle) <= k < last ==> t[k] == s[first + (k - first - (last - middle))]
    ensures last <= k ==> t[k] == s[k]
  {
    var a, b, c, d := s[..first], s[middle..last], s[first..middle], s[last..n];
    assert t[k] == (a + b + c + d)[k];
  }

  /** A slice of a sorted window is sorted. */
  lemma SortedWindow(s: seq<int>, lo: nat, hi: nat, i: nat, j: nat)
    requires lo <= i <= j <= hi <= |s| && Sorted(s[lo..hi])
    ensures Sorted(s[i..j])
  {
    forall x, y | 0 <= x < y < j - i
      ensures s[i..j][x] <= s[i..j][y]
    {
      assert s[i..j][x] == s[lo..hi][i - lo + x];
      assert s[i..j][y] == s[lo..hi][i - lo + y];
    }
  }

  /** After the exchange, each half of the range holds two sorted runs. */
  lemma RunsAfterExchange(s: seq<int>, n: nat, first: nat, firstCut: nat, middle: nat, secondCut: nat, last: nat,
                          t: seq<int>, newMiddle: nat)
    requires first <= firstCut <= middle <= secondCut <= last <= n <= |s|
    requires SortedRuns(s, first, middle, last)
    requires newMiddle == firstCut + (secondCut - middle)
    requires |t| == |s| && t[..n] == Exchanged(s, firstCut, middle, secondCut, n)
    ensures SortedRuns(t, first, firstCut, newMiddle) && SortedRuns(t, newMiddle, secondCut, last)
  {
    ExchangedParts(s, n, first, firstCut, middle, secondCut, last, t, newMiddle);
    SortedWindow(s, first, middle, first, firstCut);
    SortedWindow(s, middle, last, middle, secondCut);
    SortedWindow(s, first, middle, firstCut, middle);
    SortedWindow(s, middle, last, secondCut, last);
  }

  /** The first half's merge leaves the second half's runs alone. */
  lemma RunsSurvive(t: seq<int>, u: seq<int>, first: nat, newMiddle: nat, secondCut: nat, last: nat, n: nat)
    requires first <= newMiddle <= secondCut <= last <= n <= |t|
    requires MergedIn(u, t, first, newMiddle, n)
    requires SortedRuns(t, newMiddle, secondCut, last)
    ensures SortedRuns(u, newMiddle, secondCut, last)
  {
    AgreeWithin(u, t, newMiddle, n, newMiddle, secondCut);
    AgreeWithin(u, t, newMiddle, n, secondCut, last);
  }

  /** Two sorted pieces separated by `p` join into a sorted piece. */
  lemma JoinSorted(x: seq<int>, y: seq<int>, p: int)
    requires Sorted(x) && Sorted(y) && AtMost(x, p) && AtLeast(y, p)
    ensures Sorted(x + y)
  {
    var z := x + y;
    forall i, j | 0 <= i < j < |z|
      ensures z[i] <= z[j]
    {
      if j < |x| {
        assert z[i] == x[i] && z[j] == x[j];
      } else if i >= |x| {
        assert z[i] == y[i - |x|] && z[j] == y[j - |x|];
      } else {
        assert z[i] == x[i] && z[j] == y[j - |x|];
      }
    }
  }

  lemma AtMostJoin(x: seq<int>, y: seq<int>, p: int)
    requires AtMost(x, p) && AtMost(y, p)
    ensures AtMost(x + y, p)
  {
    var z := x + y;
    forall i | 0 <= i < |z|
      ensures z[i] <= p
    {
      if i >= |x| {
        assert z[i] == y[i - |x|];
      }
    }
  }

  lemma AtLeastJoin(x: seq<int>, y: seq<int>, p: int)
    requires AtLeast(x, p) && AtLeast(y, p)
    ensures AtLeast(x + y, p)
  {
    var z := x + y;
    forall i | 0 <= i < |z|
      ensures p <= z[i]
    {
      if i >= |x| {
        assert z[i] == y[i - |x|];
      }
    }
  }

  /** The four blocks, regrouped, hold the elements of the range. */
  lemma BlocksMultiset(s: seq<int>, first: nat, firstCut: nat, middle: nat, secondCut: nat, last: nat)
    requires first <= firstCut <= middle <= secondCut <= last <= |s|
    ensures multiset(s[first..firstCut] + s[middle..secondCut]) + multiset(s[firstCut..middle] + s[secondCut..last])
            == multiset(s[first..last])
  {
    assert s[first..last] == s[first..middle] + s[middle..last];
    assert s[first..middle] == s[first..firstCut] + s[firstCut..middle];
    assert s[middle..last] == s[middle..secondCut] + s[secondCut..last];
  }

  /** Once both halves are merged, the whole range is: the first half
      holds exactly the blocks below the pivot and the second those above
      it. */
  lemma DivideAndMerge(s: seq<int>, n: nat, first: nat, firstCut: nat, middle: nat, secondCut: nat, last: nat, p: int,
                       t: seq<int>, newMiddle: nat, u: seq<int>, w: seq<int>)
    requires first <= firstCut <= middle <= secondCut <= last <= n <= |s|
    requires Separated(s, first, firstCut, middle, secondCut, last, p)
    requires newMiddle == firstCut + (secondCut - middle)
    requires |t| == |s| && t[..n] == Exchanged(s, firstCut, middle, secondCut, n)
    requires MergedIn(u, t, first, newMiddle, n)
    requires MergedIn(w, u, newMiddle, last, n)
    ensures MergedIn(w, s, first, last, n)
  {
    ExchangedParts(s, n, first, firstCut, middle, secondCut, last, t, newMiddle);
    HalvesFrame(t, u, w, first, newMiddle, last, n);
    var low := s[first..firstCut] + s[middle..secondCut];
    var high := s[firstCut..middle] + s[secondCut..last];
    HalfBelow(s, first, firstCut, middle, secondCut, p, t[first..newMiddle], w[first..newMiddle]);
    HalfAbove(s, firstCut, middle, secondCut, last, p, t[newMiddle..last], w[newMiddle..last]);
    BlocksMultiset(s, first, firstCut, middle, secondCut, last);
    JoinHalves(w, first, newMiddle, last, p, multiset(low), multiset(high), multiset(s[first..last]));
  }

  /** The merged first half is a permutation of the two low blocks, so
      nothing in it exceeds the pivot. */
  lemma HalfBelow(s: seq<int>, first: nat, firstCut: nat, middle: nat, secondCut: nat, p: int, x: seq<int>, y: seq<int>)
    requires first <= firstCut <= middle <= secondCut <= |s|
    requires AtMost(s[first..firstCut], p) && AtMost(s[middle..secondCut], p)
    requires x == s[first..firstCut] + s[middle..secondCut] && multiset(y) == multiset(x)
    ensures AtMost(y, p)
  {
    AtMostJoin(s[first..firstCut], s[middle..secondCut], p);
    AtMostPerm(x, y, p);
  }

  lemma HalfAbove(s: seq<int>, firstCut: nat, middle: nat, secondCut: nat, last: nat, p: int, x: seq<int>, y: seq<int>)
    requires firstCut <= middle <= secondCut <= last <= |s|
    requires AtLeast(s[firstCut..middle], p) && AtLeast(s[secondCut..last], p)
    requires x == s[firstCut..middle] + s[secondCut..last] && multiset(y) == multiset(x)
    ensures AtLeast(y, p)
  {
    AtLeastJoin(s[firstCut..middle], s[secondCut..last], p);
    AtLeastPerm(x, y, p);
  }

  /** Two sorted halves on either side of the pivot make a sorted range
      holding both halves' elements. */
  lemma JoinHalves(w: seq<int>, first: nat, newMiddle: nat, last: nat, p: int,
                   low: multiset<int>, high: multiset<int>, all: multiset<int>)
    requires first <= newMiddle <= last <= |w|
    requires Sorted(w[first..newMiddle]) && AtMost(w[first..newMiddle], p) && multiset(w[first..newMiddle]) == low
    requires Sorted(w[newMiddle..last]) && AtLeast(w[newMiddle..last], p) && multiset(w[newMiddle..last]) == high
    requires low + high == all
    ensures Sorted(w[first..last]) && multiset(w[first..last]) == all
  {
    JoinSorted(w[first..newMiddle], w[newMiddle..last], p);
    assert w[first..last] == w[first..newMiddle] + w[newMiddle..last];
  }

  /** The frame of the two half merges: the first half is left as the
      first merge made it, the second half starts from the exchange, and
      the rest of `[0, n)` is untouched. */
  lemma HalvesFrame(t: seq<int>, u: seq<int>, w: seq<int>, first: nat, newMiddle: nat, last: nat, n: nat)
    requires first <= newMiddle <= last <= n <= |t|
    requires MergedIn(u, t, first, newMiddle, n)
    requires MergedIn(w, u, newMiddle, last, n)
    ensures w[..first] == t[..first] && w[last..n] == t[last..n]
    ensures w[first..newMiddle] == u[first..newMiddle]
    ensures Sorted(w[first..newMiddle]) && multiset(w[first..newMiddle]) == multiset(t[first..newMiddle])
    ensures Sorted(w[newMiddle..last]) && multiset(w[newMiddle..last]) == multiset(t[newMiddle..last])
  {
    AgreeWithin(w, u, 0, newMiddle, 0, first);
    AgreeWithin(w, u, 0, newMiddle, first, newMiddle);
    AgreeWithin(u, t, newMiddle, n, newMiddle, last);
    AgreeWithin(u, t, newMiddle, n, last, n);
  }

  // -----------------------------------------------------------------------
  // merge_without_buffer

  /** `merge_without_buffer`: nothing to do when a run is empty; one
      compare-and-swap for two single elements; otherwise cut both runs
      (see `CutPoints`), `rotate` the inner blocks into place, and merge
      each half recursively. */
  method MergeWithoutBuffer(s: seq<int>, first: nat, middle: nat, last: nat, len1: nat, len2: nat, cat: Category)
    returns (r: seq<int>)
    requires first <= middle <= last <= |s| && len1 == middle - first && len2 == last - middle
    requires SortedRuns(s, first, middle, last)
    requires cat == Bidirectional || cat == RandomAccess
    ensures MergedIn(r, s, first, last, |s|)
    decreases last - first
  {
    if len1 == 0 || len2 == 0 {
      NothingToMerge(s, first, middle, last, |s|);
      return s;
    }
    if len1 + len2 == 2 {
      if s[middle] < s[first] {
        r := AlgoBase.IterSwap(s, first, middle);
      } else {
        r := s;
      }
      TwoMerged(s, first, middle, last, r);
      return;
    }
    var firstCut, secondCut, len11, len22 := Cuts(s, first, middle, last, len1, len2, cat);
    CutsShrink(s, first, middle, last);
    var t, newMiddle := Rotate.Rotate(s, firstCut, middle, secondCut, cat);
    RotateIsExchange(s, |s|, firstCut, middle, secondCut, t);
    RunsAfterExchange(s, |s|, first, firstCut, middle, secondCut, last, t, newMiddle);
    var u := MergeWithoutBuffer(t, first, firstCut, newMiddle, len11, len22, cat);
    RunsSurvive(t, u, first, newMiddle, secondCut, last, |s|);
    var w := MergeWithoutBuffer(u, newMiddle, secondCut, last, len1 - len11, len2 - len22, cat);
    DivideAndMerge(s, |s|, first, firstCut, middle, secondCut, last, CutPivot(s, first, middle, last), t, newMiddle, u, w);
    r := w;
  }

  // -----------------------------------------------------------------------
  // merge_adaptive

  /** The first run moved to the buffer and merged from there back into
      the range is the merge of the two runs. */
  lemma AdaptiveFront(m: seq<int>, n: nat, first: nat, middle: nat, last: nat,
                      r1: seq<int>, e1: nat, r2: seq<int>, end: nat)
    requires first <= middle <= last <= n && n + (middle - first) <= |m|
    requires SortedRuns(m, first, middle, last)
    requires e1 == n + (middle - first) && |r1| == |m|
    requires r1[n..e1] == m[first..middle] && r1[..n] == m[..n]
    requires end == first + (e1 - n) + (last - middle) && |r2| == |r1|
    requires r2[first..end] == Merge.Merged(r1[n..e1], r1[middle..last])
    requires SameOutside(r2, r1, first, end)
    ensures MergedIn(r2, m, first, last, n)
  {
    var a, b := m[first..middle], m[middle..last];
    AgreeWithin(r1, m, 0, n, middle, last);
    assert r2[first..last] == Merge.Merged(a, b);
    MergedOfRuns(m, first, middle, last, r2[first..last]);
    ThroughBuffer(m, r1, r2, first, last, n);
  }

  /** The merge of two sorted runs, sorted and holding their elements. */
  lemma MergedOfRuns(m: seq<int>, first: nat, middle: nat, last: nat, x: seq<int>)
    requires first <= middle <= last <= |m| && SortedRuns(m, first, middle, last)
    requires x == Merge.Merged(m[first..middle], m[middle..last])
    ensures Sorted(x) && multiset(x) == multiset(m[first..last])
  {
    assert m[first..last] == m[first..middle] + m[middle..last];
    MergeOfSorted(m[first..middle], m[middle..last], x);
  }

  lemma MergeOfSorted(a: seq<int>, b: seq<int>, x: seq<int>)
    requires Sorted(a) && Sorted(b) && x == Merge.Merged(a, b)
    ensures Sorted(x) && multiset(x) == multiset(a + b)
  {
    Merge.MergedSorted(a, b);
    Merge.MergedPerm(a, b);
  }

  /** Writing the buffer and then only `[first, last)` of the range leaves
      the rest of `[0, n)` as it was. */
  lemma ThroughBuffer(m: seq<int>, r1: seq<int>, r2: seq<int>, first: nat, last: nat, n: nat)
    requires first <= last <= n <= |m| && |r1| == |m| && r1[..n] == m[..n]
    requires SameOutside(r2, r1, first, last)
    ensures r2[..first] == m[..first] && r2[last..n] == m[last..n]
  {
    AgreeWithin(r1, m, 0, n, 0, first);
    AgreeWithin(r1, m, 0, n, last, n);
    SameOutsideWindow(r2, r1, first, last, 0, first);
    SameOutsideWindow(r2, r1, first, last, last, n);
    assert r2[..first] == r2[0..first] && m[..first] == m[0..first];
  }

  /** The second run moved to the buffer and merged backwards from there
      into the range is the merge of the two runs. */
  lemma AdaptiveBack(m: seq<int>, n: nat, first: nat, middle: nat, last: nat,
                     r1: seq<int>, e1: nat, r2: seq<int>, start: nat)
    requires first <= middle <= last <= n && n + (last - middle) <= |m|
    requires SortedRuns(m, first, middle, last)
    requires e1 == n + (last - middle) && |r1| == |m|
    requires r1[n..e1] == m[middle..last] && r1[..n] == m[..n]
    requires start == last - (middle - first) - (e1 - n) && |r2| == |r1|
    requires r2[start..last] == Merge.MergedBack(r1[first..middle], r1[n..e1])
    requires SameOutside(r2, r1, start, last)
    ensures MergedIn(r2, m, first, last, n)
  {
    var a, b := m[first..middle], m[middle..last];
    AgreeWithin(r1, m, 0, n, first, middle);
    Merge.MergedBackAgrees(a, b);
    assert r2[first..last] == Merge.Merged(a, b);
    MergedOfRuns(m, first, middle, last, r2[first..last]);
    ThroughBuffer(m, r1, r2, first, last, n);
  }

  /** `merge_adaptive` on the range `[first, last)` of `m[..n]`, with the
      buffer `m[n..]` of `|m| - n >= 1` elements: when the first run is the
      shorter and fits, it goes to the buffer and `merge` brings it back
      forwards; otherwise, when the second run fits, it goes to the buffer
      and `merge_backward` brings it back; otherwise the range is divided
      as in `merge_without_buffer`, with `rotate_adaptive` for the
      exchange. */
  method MergeAdaptive(m: seq<int>, n: nat, first: nat, middle: nat, last: nat, len1: nat, len2: nat, cat: Category)
    returns (r: seq<int>)
    requires first <= middle <= last <= n < |m| && len1 == middle - first && len2 == last - middle
    requires SortedRuns(m, first, middle, last)
    requires cat == Bidirectional || cat == RandomAccess
    ensures MergedIn(r, m, first, last, n)
    decreases last - first
  {
    var bufferSize := |m| - n;
    if len1 <= len2 && len1 <= bufferSize {
      var r1, e1 := AlgoBase.Copy(m, first, middle, n);
      var r2, end := Merge.Merge(r1, n, e1, middle, last, first);
      AdaptiveFront(m, n, first, middle, last, r1, e1, r2, end);
      r := r2;
    } else if len2 <= bufferSize {
      var r1, e1 := AlgoBase.Copy(m, middle, last, n);
      var r2, start := Merge.MergeBackward(r1, first, middle, n, e1, last);
      AdaptiveBack(m, n, first, middle, last, r1, e1, r2, start);
      r := r2;
    } else {
      var firstCut, secondCut, len11, len22 := Cuts(m, first, middle, last, len1, len2, cat);
      CutsShrink(m, first, middle, last);
      var t, newMiddle := RotateAdaptive(m, n, firstCut, middle, secondCut, len1 - len11, len22, cat);
      RunsAfterExchange(m, n, first, firstCut, middle, secondCut, last, t, newMiddle);
      var u := MergeAdaptive(t, n, first, firstCut, newMiddle, len11, len22, cat);
      RunsSurvive(t, u, first, newMiddle, secondCut, last, n);
      var w := MergeAdaptive(u, n, newMiddle, secondCut, last, len1 - len11, len2 - len22, cat);
      DivideAndMerge(m, n, first, firstCut, middle, secondCut, last, CutPivot(m, first, middle, last), t, newMiddle, u, w);
      r := w;
    }
  }

  /** Which way one call of `merge_adaptive` goes, for a buffer of
      `bufferSize` elements. */
  datatype AdaptiveStep =
    | ThroughFront
    | ThroughBack
    | Split(firstCut: nat, secondCut: nat, newMiddle: nat)

  /** The branch `merge_adaptive` takes as written, for any buffer size,
      and where a split puts the two recursive calls. */
  function AdaptiveStepOf(s: seq<int>, first: nat, middle: nat, last: nat, bufferSize: nat): (st: AdaptiveStep)
    requires first <= middle <= last <= |s|
    ensures st.ThroughFront? <==> middle - first <= last - middle && middle - first <= bufferSize
    ensures st.Split? ==> bufferSize < middle - first && bufferSize < last - middle
    ensures st.Split? ==> first <= st.firstCut <= middle <= st.secondCut <= last
    ensures st.Split? ==> st.newMiddle == st.firstCut + (st.secondCut - middle)
  {
    var len1, len2 := middle - first, last - middle;
    if len1 <= len2 && len1 <= bufferSize then ThroughFront
    else if len2 <= bufferSize then ThroughBack
    else
      var (fc, sc) := CutPoints(s, first, middle, last);
      Split(fc, sc, fc + (sc - middle))
  }

  /** With an empty buffer the split can repeat itself: on `[2, 1]` the
      cut leaves the first half empty, the exchange moves nothing, and the
      second recursive call is the original call again, so the recursion
      never ends. */
  lemma AdaptiveZeroBufferRepeats()
    ensures AdaptiveStepOf([2, 1], 0, 1, 2, 0) == Split(0, 1, 0)
    ensures Exchanged([2, 1], 0, 1, 1, 2) == [2, 1]
  {
    assert [2, 1][0..1] == [2];
    assert Search.FirstGreater([2], 1) == 0;
  }

  /** With a buffer of at least one element, both recursive calls of a
      split are on shorter ranges, so `merge_adaptive` terminates. */
  lemma AdaptiveSplitShrinks(s: seq<int>, first: nat, middle: nat, last: nat, bufferSize: nat)
    requires first <= middle <= last <= |s| && bufferSize >= 1
    requires AdaptiveStepOf(s, first, middle, last, bufferSize).Split?
    ensures var st := AdaptiveStepOf(s, first, middle, last, bufferSize);
            st.newMiddle - first < last - first && last - st.newMiddle < last - first
  {
    CutsShrink(s, first, middle, last);
  }

  // -----------------------------------------------------------------------
  // inplace_merge

  /** Two sorted runs merged in place are, by content, the merge of the
      runs. */
  lemma MergedInIsMerge(r: seq<int>, s: seq<int>, first: nat, middle: nat, last: nat, n: nat)
    requires first <= middle <= last <= n <= |s| && SortedRuns(s, first, middle, last)
    requires MergedIn(r, s, first, last, n)
    ensures r[first..last] == Merge.Merged(s[first..middle], s[middle..last])
  {
    assert s[first..last] == s[first..middle] + s[middle..last];
    Merge.MergedIsSort(s[first..middle], s[middle..last], r[first..last]);
  }

  /** The same, for a merge over the whole sequence. */
  lemma MergedInWhole(r: seq<int>, s: seq<int>, first: nat, middle: nat, last: nat)
    requires first <= middle <= last <= |s| && SortedRuns(s, first, middle, last)
    requires MergedIn(r, s, first, last, |s|)
    ensures |r| == |s| && r[..first] == s[..first] && r[last..] == s[last..]
    ensures r[first..last] == Merge.Merged(s[first..middle], s[middle..last])
  {
    MergedInIsMerge(r, s, first, middle, last, |s|);
    assert r[last..] == r[last..|s|] && s[last..] == s[last..|s|];
  }

  /** The range followed by a buffer of `k` elements (their initial
      contents do not matter; every one is `fill`). */
  function WithBuffer(s: seq<int>, k: nat, fill: int): (m: seq<int>)
    ensures |m| == |s| + k && m[..|s|] == s
  {
    s + seq(k, _ => fill)
  }

  /** The runs are where they were once the buffer is appended. */
  lemma RunsWithBuffer(s: seq<int>, m: seq<int>, first: nat, middle: nat, last: nat)
    requires first <= middle <= last <= |s| <= |m| && m[..|s|] == s
    requires SortedRuns(s, first, middle, last)
    ensures SortedRuns(m, first, middle, last)
  {
    AgreeWithin(m, s, 0, |s|, first, middle);
    AgreeWithin(m, s, 0, |s|, middle, last);
  }

  /** Dropping the buffer after the adaptive merge. */
  lemma DropBuffer(s: seq<int>, m: seq<int>, r0: seq<int>, r: seq<int>, first: nat, middle: nat, last: nat)
    requires first <= middle <= last <= |s| <= |m| && m[..|s|] == s
    requires SortedRuns(s, first, middle, last)
    requires MergedIn(r0, m, first, last, |s|) && r == r0[..|s|]
    ensures |r| == |s| && r[..first] == s[..first] && r[last..] == s[last..]
    ensures r[first..last] == Merge.Merged(s[first..middle], s[middle..last])
  {
    AgreeWithin(m, s, 0, |s|, first, middle);
    AgreeWithin(m, s, 0, |s|, middle, last);
    AgreeWithin(m, s, 0, |s|, first, last);
    AgreeWithin(m, s, 0, |s|, 0, first);
    AgreeWithin(m, s, 0, |s|, last, |s|);
    AgreeWithin(r0, r, 0, |s|, first, last);
    AgreeWithin(r0, r, 0, |s|, 0, first);
    AgreeWithin(r0, r, 0, |s|, last, |s|);
    assert SortedRuns(m, first, middle, last);
    MergedInIsMerge(r0, m, first, middle, last, |s|);
    assert r[..first] == r[0..first] && s[..first] == s[0..first] && m[..first] == m[0..first];
    assert r[last..] == r[last..|s|] && s[last..] == s[last..|s|];
  }

  /** `inplace_merge`: merges the sorted runs `[first, middle)` and
      `[middle, last)` of `s` into one sorted run, asking for a temporary
      buffer as long as the range (`malloc` answering through `mallocOk`);
      without one it merges by rotations, with one adaptively. The result
      is the merge of the two runs, and nothing outside the range moves. */
  method InplaceMerge(s: seq<int>, first: nat, middle: nat, last: nat, elemSize: nat, mallocOk: nat -> bool, cat: Category)
    returns (r: seq<int>)
    requires first <= middle <= last <= |s| && elemSize > 0
    requires SortedRuns(s, first, middle, last)
    requires cat == Bidirectional || cat == RandomAccess
    ensures |r| == |s| && r[..first] == s[..first] && r[last..] == s[last..]
    ensures r[first..last] == Merge.Merged(s[first..middle], s[middle..last])
  {
    if first == middle || middle == last {
      NothingToMerge(s, first, middle, last, |s|);
      MergedInWhole(s, s, first, middle, last);
      return s;
    }
    var len1 := Distance(first, middle, cat);
    var len2 := Distance(middle, last, cat);
    var buf := Memory.NewTemporaryBuffer(first, last, elemSize, mallocOk);
    if !buf.HasStorage() {
      r := MergeWithoutBuffer(s, first, middle, last, len1, len2, cat);
      MergedInWhole(r, s, first, middle, last);
    } else {
      var m := WithBuffer(s, buf.size, s[first]);
      RunsWithBuffer(s, m, first, middle, last);
      var r0 := MergeAdaptive(m, |s|, first, middle, last, len1, len2, cat);
      r := r0[..|s|];
      DropBuffer(s, m, r0, r, first, middle, last);
    }
  }
}
