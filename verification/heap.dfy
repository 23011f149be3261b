/** The binary max-heap primitives of heap_algo.hpp and the `is_heap` check.

    A heap range is modelled as a sequence; node `c > 0` has parent
    `Parent(c)` and children `2c+1`, `2c+2`. `HeapUnder(s, top, len)` is the
    max-heap property restricted to the subtree rooted at `top` and to the
    first `len` positions, which is what `adjust_heap` maintains for an
    arbitrary `holeIndex`. */
module HeapAlgo {
  import opened Ranges

  /** The parent index, as the source's `(holeIndex - 1) / 2` with C++
      truncating division (so the parent of 0 is 0). */
  function Parent(c: nat): (p: nat)
    ensures c > 0 ==> 2 * p + 1 <= c <= 2 * p + 2
    ensures c == 0 ==> p == 0
  {
    if c == 0 then 0 else (c - 1) / 2
  }

  /** Node `c` lies in the subtree rooted at node `t`. */
  predicate InTree(c: nat, t: nat)
    decreases c
  {
    c == t || (c > t && InTree(Parent(c), t))
  }

  /** Max-heap order on every parent link of the subtree rooted at `top`,
      restricted to positions below `len`. */
  ghost predicate HeapUnder(s: seq<int>, top: nat, len: nat)
    requires len <= |s|
  {
    forall c: nat :: top < c < len && InTree(c, top) ==> s[Parent(c)] >= s[c]
  }

  /** The whole sequence is a max-heap. */
  ghost predicate IsHeap(s: seq<int>) {
    HeapUnder(s, 0, |s|)
  }

  /** Heap order on every link of the subtree except the link into `hole`. */
  ghost predicate LinksExceptInto(s: seq<int>, top: nat, len: nat, hole: nat)
    requires len <= |s|
  {
    forall c: nat :: top < c < len && InTree(c, top) && c != hole ==> s[Parent(c)] >= s[c]
  }

  /** Heap order on every link of the subtree that does not touch `hole`. */
  ghost predicate LinksAvoiding(s: seq<int>, top: nat, len: nat, hole: nat)
    requires len <= |s|
  {
    forall c: nat :: top < c < len && InTree(c, top) && c != hole && Parent(c) != hole ==>
      s[Parent(c)] >= s[c]
  }

  /** The parent of `hole` dominates the children of `hole`, so that a value
      moved up out of `hole` may be replaced by either child. */
  ghost predicate GrandparentBound(s: seq<int>, top: nat, len: nat, hole: nat)
    requires len <= |s| && hole < |s|
  {
    hole != top ==>
      (2 * hole + 1 < len ==> s[Parent(hole)] >= s[2 * hole + 1]) &&
      (2 * hole + 2 < len ==> s[Parent(hole)] >= s[2 * hole + 2])
  }

  lemma InTreeAbove(c: nat, t: nat)
    requires InTree(c, t)
    ensures t <= c
  {
  }

  /** Every node lies in the tree rooted at 0. */
  lemma {:induction false} InTreeRoot(c: nat)
    ensures InTree(c, 0)
    decreases c
  {
    if c > 0 {
      InTreeRoot(Parent(c));
    }
  }

  /** A node whose parent lies in a subtree lies in it too. */
  lemma InTreeChild(c: nat, t: nat)
    requires c > t && InTree(Parent(c), t)
    ensures InTree(c, t)
  {
  }

  /** The root of a heap is its largest element. */
  lemma {:induction false} HeapRootMax(s: seq<int>, i: nat)
    requires IsHeap(s)
    requires i < |s|
    ensures s[i] <= s[0]
    decreases i
  {
    if i > 0 {
      InTreeRoot(i);
      HeapRootMax(s, Parent(i));
    }
  }

  /** The root of a heap bounds every element. */
  lemma HeapRootBounds(s: seq<int>)
    requires IsHeap(s) && |s| > 0
    ensures AtMost(s, s[0])
  {
    forall i | 0 <= i < |s|
      ensures s[i] <= s[0]
    {
      HeapRootMax(s, i);
    }
  }

  /** `a` agrees with `s` at every position other than `hole` that lies
      outside the subtree rooted at `top` or at or beyond `len`. */
  ghost predicate KeptExcept(a: seq<int>, s: seq<int>, hole: nat, top: nat, len: nat)
    requires |a| == |s|
  {
    forall i :: 0 <= i < |s| && i != hole && (i >= len || !InTree(i, top)) ==> a[i] == s[i]
  }

  /** `push_heap_aux`: sift `value` up from `hole` towards `top`, moving each
      smaller parent down into the hole. `len` is the extent of the heap the
      caller works on; it is not a parameter of the source. */
  method PushHeapAux(s: seq<int>, hole: nat, top: nat, value: int, ghost len: nat)
    returns (r: seq<int>)
    requires top <= hole < |s| && len <= |s|
    requires hole < len || hole == top
    requires InTree(hole, top)
    requires LinksExceptInto(s[hole := value], top, len, hole)
    requires GrandparentBound(s[hole := value], top, len, hole)
    ensures |r| == |s|
    ensures HeapUnder(r, top, len)
    ensures multiset(r) == multiset(s[hole := value])
    ensures KeptExcept(r, s, hole, top, len)
    ensures hole == top ==> r == s[hole := value]
  {
    var a := s;
    var h := hole;
    var parent := Parent(h);
    while h > top && a[parent] < value
      invariant |a| == |s|
      invariant top <= h <= hole && InTree(h, top) && parent == Parent(h)
      invariant h < len || h == top
      invariant LinksExceptInto(a[h := value], top, len, h)
      invariant GrandparentBound(a[h := value], top, len, h)
      invariant multiset(a[h := value]) == multiset(s[hole := value])
      invariant KeptExcept(a, s, hole, top, len)
      invariant hole == top ==> a == s
      decreases h
    {
      SiftUpStep(a, h, top, len, value);
      a := a[h := a[parent]];
      h := parent;
      parent := Parent(h);
    }
    a := a[h := value];
    r := a;
  }

  /** One iteration of the sift-up loop keeps the loop's invariants. */
  lemma SiftUpStep(a: seq<int>, h: nat, top: nat, len: nat, value: int)
    requires top < h < len <= |a| && InTree(h, top)
    requires a[Parent(h)] < value
    requires LinksExceptInto(a[h := value], top, len, h)
    requires GrandparentBound(a[h := value], top, len, h)
    ensures InTree(Parent(h), top) && top <= Parent(h)
    ensures LinksExceptInto(a[h := a[Parent(h)]][Parent(h) := value], top, len, Parent(h))
    ensures GrandparentBound(a[h := a[Parent(h)]][Parent(h) := value], top, len, Parent(h))
    ensures multiset(a[h := a[Parent(h)]][Parent(h) := value]) == multiset(a[h := value])
  {
    var p := Parent(h);
    InTreeAbove(p, top);
    var v := a[h := value];
    var w := a[h := a[p]][p := value];
    assert w == v[h := v[p]][p := v[h]];
    SwapPerm(v, h, p);
    SiftUpLinks(v, w, h, top, len);
    SiftUpGrandparent(v, w, h, top, len);
  }

  lemma SiftUpLinks(v: seq<int>, w: seq<int>, h: nat, top: nat, len: nat)
    requires top < h < len <= |v| && InTree(h, top)
    requires w == v[h := v[Parent(h)]][Parent(h) := v[h]]
    requires v[Parent(h)] < v[h]
    requires LinksExceptInto(v, top, len, h)
    requires GrandparentBound(v, top, len, h)
    ensures LinksExceptInto(w, top, len, Parent(h))
  {
    var p := Parent(h);
    forall c: nat | top < c < len && InTree(c, top) && c != p
      ensures w[Parent(c)] >= w[c]
    {
      if c == h {
      } else if Parent(c) == h {
        assert w[c] == v[c];
      } else if Parent(c) == p {
        assert v[Parent(c)] >= v[c];
      } else {
        assert v[Parent(c)] >= v[c];
      }
    }
  }

  lemma SiftUpGrandparent(v: seq<int>, w: seq<int>, h: nat, top: nat, len: nat)
    requires top < h < len <= |v| && InTree(h, top)
    requires w == v[h := v[Parent(h)]][Parent(h) := v[h]]
    requires v[Parent(h)] < v[h]
    requires LinksExceptInto(v, top, len, h)
    ensures GrandparentBound(w, top, len, Parent(h))
  {
    var p := Parent(h);
    if p != top {
      InTreeAbove(p, top);
      var g := Parent(p);
      assert v[g] >= v[p];
      if 2 * p + 1 < len && 2 * p + 1 != h {
        InTreeChild(2 * p + 1, top);
        assert v[p] >= v[2 * p + 1];
      }
      if 2 * p + 2 < len && 2 * p + 2 != h {
        InTreeChild(2 * p + 2, top);
        assert v[p] >= v[2 * p + 2];
      }
    }
  }

  /** Positions outside the subtree rooted at `top` (or beyond `len`) other
      than `top` itself still hold their values from `s`. */
  ghost predicate FrameKept(a: seq<int>, s: seq<int>, top: nat, len: nat)
    requires |a| == |s|
  {
    KeptExcept(a, s, top, top, len)
  }

  /** The state of `adjust_heap`'s walk down: `a` with `value` put into the
      hole `h` is a permutation of `s` with `value` at `top`. */
  ghost predicate DownState(a: seq<int>, s: seq<int>, h: nat, top: nat, len: nat, value: int)
  {
    |a| == |s| && len <= |s| && h < |s| &&
    top <= h && InTree(h, top) && (h < len || h == top) &&
    LinksAvoiding(a, top, len, h) &&
    GrandparentBound(a, top, len, h) &&
    multiset(a[h := value]) == multiset(s[top := value]) &&
    FrameKept(a, s, top, len)
  }

  /** `adjust_heap`: the value at `hole` is replaced by `value` and the
      subtree rooted at `hole` is restored to heap order, by walking the hole
      down to a leaf along larger children and sifting `value` back up. */
  method AdjustHeap(s: seq<int>, hole: nat, len: nat, value: int) returns (r: seq<int>)
    requires hole < |s| && hole <= len <= |s|
    requires LinksAvoiding(s, hole, len, hole)
    ensures |r| == |s|
    ensures HeapUnder(r, hole, len)
    ensures multiset(r) == multiset(s[hole := value])
    ensures FrameKept(r, s, hole, len)
    ensures hole == len ==> r == s[hole := value]
  {
    var top := hole;
    var a, h := WalkDown(s, top, len, value);
    LeafHole(a, h, top, len, value);
    r := PushHeapAux(a, h, top, value, len);
    FrameCompose(r, a, s, h, top, len);
  }

  /** The first half of `adjust_heap`: the hole walks down from `top`,
      pulling up the larger child each time, until it reaches a leaf. */
  method WalkDown(s: seq<int>, top: nat, len: nat, value: int) returns (a: seq<int>, h: nat)
    requires top < |s| && top <= len <= |s|
    requires LinksAvoiding(s, top, len, top)
    ensures DownState(a, s, h, top, len, value)
    ensures 2 * h + 1 >= len
    ensures top == len ==> a == s && h == top
  {
    a := s;
    h := top;
    var rchild := 2 * h + 2;
    while rchild < len
      invariant DownState(a, s, h, top, len, value)
      invariant rchild == 2 * h + 2
      invariant top == len ==> a == s && h == top
      decreases len - h
    {
      if a[rchild] < a[rchild - 1] {
        rchild := rchild - 1;
      }
      SiftDownStep(a, s, h, rchild, top, len, value);
      a := a[h := a[rchild]];
      h := rchild;
      rchild := 2 * (rchild + 1);
    }
    if rchild == len {
      var child := rchild - 1;
      SiftDownStep(a, s, h, child, top, len, value);
      a := a[h := a[child]];
      h := child;
    }
  }

  lemma FrameCompose(r: seq<int>, a: seq<int>, s: seq<int>, h: nat, top: nat, len: nat)
    requires |a| == |s| && FrameKept(a, s, top, len)
    requires h == top || (h < len && InTree(h, top))
    requires |r| == |s|
    requires KeptExcept(r, a, h, top, len)
    ensures FrameKept(r, s, top, len)
  {
    forall i | 0 <= i < |s| && i != top && (i >= len || !InTree(i, top))
      ensures r[i] == s[i]
    {
      assert i != h;
    }
  }

  /** Moving the larger child `ch` of the hole up into the hole keeps the
      invariants of the walk down. */
  lemma SiftDownStep(a: seq<int>, s: seq<int>, h: nat, ch: nat, top: nat, len: nat, value: int)
    requires DownState(a, s, h, top, len, value)
    requires ch == 2 * h + 1 || ch == 2 * h + 2
    requires ch < len
    requires 2 * h + 2 < len ==> a[ch] >= a[2 * h + 1] && a[ch] >= a[2 * h + 2]
    requires 2 * h + 2 >= len ==> ch == 2 * h + 1
    ensures DownState(a[h := a[ch]], s, ch, top, len, value)
  {
    InTreeChild(ch, top);
    SiftDownPerm(a, h, ch, value);
    SiftDownLinks(a, h, ch, top, len);
    SiftDownGrandparent(a, h, ch, top, len);
    FrameStep(a, s, h, a[ch], top, len);
  }

  lemma SiftDownPerm(a: seq<int>, h: nat, ch: nat, value: int)
    requires h < |a| && ch < |a|
    ensures multiset(a[h := a[ch]][ch := value]) == multiset(a[h := value])
  {
    var v := a[h := value];
    assert a[h := a[ch]][ch := value] == v[h := v[ch]][ch := v[h]];
    SwapPerm(v, h, ch);
  }

  /** Writing inside the subtree keeps the frame. */
  lemma FrameStep(a: seq<int>, s: seq<int>, h: nat, x: int, top: nat, len: nat)
    requires |a| == |s| && h < |s| && FrameKept(a, s, top, len)
    requires h == top || (h < len && InTree(h, top))
    ensures FrameKept(a[h := x], s, top, len)
  {
  }

  lemma SiftDownLinks(a: seq<int>, h: nat, ch: nat, top: nat, len: nat)
    requires top <= h && InTree(h, top) && len <= |a|
    requires ch == 2 * h + 1 || ch == 2 * h + 2
    requires ch < len
    requires 2 * h + 2 < len ==> a[ch] >= a[2 * h + 1] && a[ch] >= a[2 * h + 2]
    requires 2 * h + 2 >= len ==> ch == 2 * h + 1
    requires LinksAvoiding(a, top, len, h)
    requires GrandparentBound(a, top, len, h)
    ensures LinksAvoiding(a[h := a[ch]], top, len, ch)
  {
    var b := a[h := a[ch]];
    forall c: nat | top < c < len && InTree(c, top) && c != ch && Parent(c) != ch
      ensures b[Parent(c)] >= b[c]
    {
      if c == h {
        assert b[c] == a[ch];
      } else if Parent(c) == h {
        assert b[c] == a[c];
      } else {
        assert a[Parent(c)] >= a[c];
      }
    }
  }

  lemma SiftDownGrandparent(a: seq<int>, h: nat, ch: nat, top: nat, len: nat)
    requires top <= h && InTree(h, top) && len <= |a|
    requires ch == 2 * h + 1 || ch == 2 * h + 2
    requires ch < len
    requires LinksAvoiding(a, top, len, h)
    ensures GrandparentBound(a[h := a[ch]], top, len, ch)
  {
    InTreeChild(ch, top);
    if 2 * ch + 1 < len {
      InTreeChild(2 * ch + 1, top);
      assert a[ch] >= a[2 * ch + 1];
    }
    if 2 * ch + 2 < len {
      InTreeChild(2 * ch + 2, top);
      assert a[ch] >= a[2 * ch + 2];
    }
  }

  /** Once the hole is a leaf the sift-up preconditions hold. */
  lemma LeafHole(a: seq<int>, h: nat, top: nat, len: nat, value: int)
    requires h < |a| && len <= |a| && 2 * h + 2 >= len
    requires 2 * h + 1 >= len
    requires LinksAvoiding(a, top, len, h)
    ensures LinksExceptInto(a[h := value], top, len, h)
    ensures GrandparentBound(a[h := value], top, len, h)
  {
    forall c: nat | top < c < len && InTree(c, top) && c != h
      ensures a[h := value][Parent(c)] >= a[h := value][c]
    {
      assert Parent(c) != h;
    }
  }

  /** `pop_heap_aux`: the root of the heap `[0, len)` is written to `dest`
      (outside the heap) and `value` is sifted into the root's place. */
  method PopHeapAux(s: seq<int>, len: nat, dest: nat, value: int) returns (r: seq<int>)
    requires len <= dest < |s|
    requires IsHeap(s[..len])
    ensures |r| == |s|
    ensures IsHeap(r[..len])
    ensures dest > 0 ==> r[dest] == s[0]
    ensures dest == 0 ==> r[0] == value
    ensures forall i :: len <= i < |s| && i != dest && i != 0 ==> r[i] == s[i]
    ensures multiset(r) == multiset(s) - multiset{s[dest]} + multiset{value}
    ensures len > 0 ==> multiset(r[..len]) == multiset(s[..len]) - multiset{s[0]} + multiset{value}
  {
    var a := s[dest := s[0]];
    HeapPrefix(s, len);
    assert s[..len] == a[..len];
    HeapPrefix(a, len);
    r := AdjustHeap(a, 0, len, value);
    HeapPrefix(r, len);
    if len > 0 {
      assert r[len..] == a[len..] by {
        forall i | len <= i < |s|
          ensures r[i] == a[i]
        {
          assert i != 0;
        }
      }
      PrefixMultiset(r, a, len, value);
    }
  }

  /** A prefix of a sequence is a heap exactly when the heap order holds on
      the links below `len`. */
  lemma HeapPrefix(s: seq<int>, len: nat)
    requires len <= |s|
    ensures IsHeap(s[..len]) <==> HeapUnder(s, 0, len)
    ensures HeapUnder(s, 0, len) ==> LinksAvoiding(s, 0, len, 0)
  {
    var t := s[..len];
    if HeapUnder(s, 0, len) {
      forall c: nat | 0 < c < len && InTree(c, 0)
        ensures t[Parent(c)] >= t[c]
      {
      }
    }
    if IsHeap(t) {
      forall c: nat | 0 < c < len && InTree(c, 0)
        ensures s[Parent(c)] >= s[c]
      {
        assert t[Parent(c)] >= t[c];
      }
    }
  }

  /** Replacing position 0 and permuting only the prefix changes the prefix's
      multiset by exactly that replacement. */
  lemma PrefixMultiset(r: seq<int>, a: seq<int>, len: nat, value: int)
    requires 0 < len <= |a| == |r|
    requires r[len..] == a[len..]
    requires multiset(r) == multiset(a[0 := value])
    ensures multiset(r[..len]) == multiset(a[..len]) - multiset{a[0]} + multiset{value}
  {
    assert r == r[..len] + r[len..];
    assert a[0 := value] == a[..len][0 := value] + a[len..];
    var x, y, z := multiset(r[..len]), multiset(a[..len][0 := value]), multiset(a[len..]);
    assert x + z == y + z;
    assert x == y by {
      forall e
        ensures x[e] == y[e]
      {
        assert (x + z)[e] == (y + z)[e];
      }
    }
    assert multiset(a[..len][0 := value]) == multiset(a[..len]) - multiset{a[0]} + multiset{value};
  }

  /** `pop_heap`: the largest element moves to the last position and the
      remaining positions form a heap again. */
  method PopHeap(s: seq<int>) returns (r: seq<int>)
    requires |s| >= 1 && IsHeap(s)
    ensures |r| == |s|
    ensures multiset(r) == multiset(s)
    ensures IsHeap(r[..|s| - 1])
    ensures AtMost(r, r[|s| - 1])
  {
    var n := |s|;
    HeapRootBounds(s);
    assert IsHeap(s[..n - 1]) by {
      forall c: nat | 0 < c < n - 1 && InTree(c, 0)
        ensures s[..n - 1][Parent(c)] >= s[..n - 1][c]
      {
      }
    }
    r := PopHeapAux(s, n - 1, n - 1, s[n - 1]);
    assert s[n - 1 := s[n - 1]] == s;
    AtMostPerm(s, r, s[0]);
  }

  /** `push_heap`: the last element joins the heap formed by the others. */
  method PushHeap(s: seq<int>) returns (r: seq<int>)
    requires |s| >= 1 && IsHeap(s[..|s| - 1])
    ensures |r| == |s|
    ensures IsHeap(r)
    ensures multiset(r) == multiset(s)
  {
    var n := |s|;
    InTreeRoot(n - 1);
    assert LinksExceptInto(s[n - 1 := s[n - 1]], 0, n, n - 1) by {
      forall c: nat | 0 < c < n && InTree(c, 0) && c != n - 1
        ensures s[Parent(c)] >= s[c]
      {
        assert s[..n - 1][Parent(c)] >= s[..n - 1][c];
      }
    }
    assert s[n - 1 := s[n - 1]] == s;
    r := PushHeapAux(s, n - 1, 0, s[n - 1], n);
  }

  /** `is_heap`: walks every child once, advancing the parent after each
      right child, and reports whether no parent is smaller than a child. */
  method IsHeapCheck(s: seq<int>) returns (b: bool)
    ensures b <==> IsHeap(s)
  {
    var n := |s|;
    var parent := 0;
    var child := 1;
    while child < n
      invariant 1 <= child && (child <= n || n == 0)
      invariant parent == Parent(child)
      invariant forall c: nat :: 0 < c < child && c < n ==> s[Parent(c)] >= s[c]
    {
      if s[parent] < s[child] {
        InTreeRoot(child);
        return false;
      }
      if child % 2 == 0 {
        parent := parent + 1;
      }
      child := child + 1;
    }
    return true;
  }

  /** Every parent link whose parent index is at least `p` is heap-ordered:
      the subtrees rooted at `p` and beyond are heaps. */
  ghost predicate LinksFrom(a: seq<int>, p: nat, n: nat)
    requires n <= |a|
  {
    forall c: nat :: 0 < c < n && Parent(c) >= p ==> a[Parent(c)] >= a[c]
  }

  /** `make_heap`, which the sort's heap path calls but which no file of the
      library defines: the classic bottom-up construction, adjusting every
      internal node from the last one back to the root. */
  method MakeHeap(s: seq<int>) returns (r: seq<int>)
    ensures IsHeap(r)
    ensures multiset(r) == multiset(s)
  {
    var n := |s|;
    if n < 2 {
      return s;
    }
    var a := s;
    var p := (n - 2) / 2 + 1;
    while p > 0
      invariant 0 <= p <= (n - 2) / 2 + 1
      invariant |a| == n && LinksFrom(a, p, n)
      invariant multiset(a) == multiset(s)
    {
      p := p - 1;
      MakeHeapPre(a, p, n);
      var b := AdjustHeap(a, p, n, a[p]);
      assert a[p := a[p]] == a;
      MakeHeapStep(a, b, p, n);
      a := b;
    }
    forall c: nat | 0 < c < n && InTree(c, 0)
      ensures a[Parent(c)] >= a[c]
    {
    }
    r := a;
  }

  lemma MakeHeapPre(a: seq<int>, p: nat, n: nat)
    requires p < n <= |a| && LinksFrom(a, p + 1, n)
    ensures LinksAvoiding(a, p, n, p)
  {
    forall c: nat | p < c < n && InTree(c, p) && Parent(c) != p
      ensures a[Parent(c)] >= a[c]
    {
      InTreeAbove(Parent(c), p);
    }
  }

  lemma MakeHeapStep(a: seq<int>, b: seq<int>, p: nat, n: nat)
    requires p < n <= |a| == |b|
    requires LinksFrom(a, p + 1, n)
    requires HeapUnder(b, p, n) && FrameKept(b, a, p, n)
    ensures LinksFrom(b, p, n)
  {
    forall c: nat | 0 < c < n && Parent(c) >= p
      ensures b[Parent(c)] >= b[c]
    {
      if InTree(c, p) {
      } else if InTree(Parent(c), p) {
        InTreeChild(c, p);
      } else {
        assert b[c] == a[c] && b[Parent(c)] == a[Parent(c)];
      }
    }
  }

  /** Two sorted runs with every element of the first at most every element
      of the second form a sorted sequence. */
  lemma SortedJoin(x: seq<int>, y: seq<int>)
    requires Sorted(x) && Sorted(y) && AllLe(x, y)
    ensures Sorted(x + y)
  {
  }

  /** `sort_heap`, which no file of the library defines either: pop the
      largest element to the back until one element is left. */
  method SortHeap(s: seq<int>) returns (r: seq<int>)
    requires IsHeap(s)
    ensures Sorted(r)
    ensures multiset(r) == multiset(s)
  {
    var n := |s|;
    var a := s;
    var k := n;
    assert a[..k] == s;
    while k > 1
      invariant 0 <= k <= n && |a| == n
      invariant IsHeap(a[..k])
      invariant Sorted(a[k..]) && AllLe(a[..k], a[k..])
      invariant multiset(a) == multiset(s)
    {
      var t := PopHeap(a[..k]);
      SortHeapStep(a, t, k);
      a := t + a[k..];
      k := k - 1;
      assert a[..k] == t[..k];
    }
    assert a == a[..k] + a[k..];
    SortedJoin(a[..k], a[k..]);
    r := a;
  }

  lemma SortHeapStep(a: seq<int>, t: seq<int>, k: nat)
    requires 1 < k <= |a| && |t| == k
    requires multiset(t) == multiset(a[..k])
    requires AtMost(t, t[k - 1])
    requires Sorted(a[k..]) && AllLe(a[..k], a[k..])
    ensures Sorted((t + a[k..])[k - 1..])
    ensures AllLe((t + a[k..])[..k - 1], (t + a[k..])[k - 1..])
    ensures multiset(t + a[k..]) == multiset(a)
  {
    var b := t + a[k..];
    assert b[k - 1..] == [t[k - 1]] + a[k..];
    assert b[..k - 1] == t[..k - 1];
    AllLePerm(a[..k], a[k..], t, a[k..]);
    assert a == a[..k] + a[k..];
  }
}
