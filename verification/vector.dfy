/** The growable array of vector.hpp. Its three pointers `_begin`, `_end`
    and `_cap` become a storage sequence `buf` (the allocated block, its
    length the capacity) and the count `size` of constructed elements at
    its front, so `begin <= end <= cap` is `size <= |buf|`. Slots past
    `size` hold whatever the model put there; nothing looks at them before
    writing. `size_type` is 64-bit unsigned; `max_size()` is
    `SIZE_MAX / sizeof(T)`, so every operation that consults it takes the
    element size. Element type: `int`. */
module Vector {
  import AlgoBase

  const SizeMax: nat := 0xFFFF_FFFF_FFFF_FFFF

  /** The error a member throws. */
  datatype Error = LengthError | OutOfRange

  datatype Result<T> = Ok(value: T) | Fail(err: Error)

  datatype Vec = Vec(buf: seq<int>, size: nat)

  /** `begin <= end <= cap`. */
  ghost predicate Valid(v: Vec) {
    v.size <= |v.buf|
  }

  /** The constructed elements, `[begin, end)`. */
  function Elems(v: Vec): seq<int>
    requires Valid(v)
  {
    v.buf[..v.size]
  }

  function Capacity(v: Vec): nat {
    |v.buf|
  }

  /** `max_size()`: the largest count of elements of this size that
      `size_type` can measure in bytes. */
  function MaxSize(elemSize: nat): nat
    requires elemSize >= 1
  {
    SizeMax / elemSize
  }

  /** Freshly allocated storage; its content is never read. */
  function Raw(n: nat): (b: seq<int>)
    ensures |b| == n
  {
    seq(n, _ => 0)
  }

  /** `n` copies of `value`. */
  function Repeat(n: nat, value: int): (s: seq<int>)
    ensures |s| == n && forall i :: 0 <= i < n ==> s[i] == value
  {
    seq(n, _ => value)
  }

  /** Reference: `xs` inserted into `s` before position `pos`. */
  function Inserted(s: seq<int>, pos: nat, xs: seq<int>): seq<int>
    requires pos <= |s|
  {
    s[..pos] + xs + s[pos..]
  }

  /** Reference: `s` without the positions `[first, last)`. */
  function Erased(s: seq<int>, first: nat, last: nat): seq<int>
    requires first <= last <= |s|
  {
    s[..first] + s[last..]
  }

  /** Erasing what was inserted gives back the original sequence. */
  lemma EraseUndoesInsert(s: seq<int>, pos: nat, xs: seq<int>)
    requires pos <= |s|
    ensures |Inserted(s, pos, xs)| == |s| + |xs|
    ensures Erased(Inserted(s, pos, xs), pos, pos + |xs|) == s
  {
    var t := Inserted(s, pos, xs);
    assert t[..pos] == s[..pos];
    assert t[pos + |xs|..] == s[pos..];
  }

  /** Inserting a slice back where it was erased gives back the original
      sequence. */
  lemma InsertUndoesErase(s: seq<int>, first: nat, last: nat)
    requires first <= last <= |s|
    ensures Inserted(Erased(s, first, last), first, s[first..last]) == s
  {
    var e := Erased(s, first, last);
    assert e[..first] == s[..first];
    assert e[first..] == s[last..];
    assert s == s[..first] + s[first..last] + s[last..];
  }

  // -----------------------------------------------------------------------
  // Construction

  /** The default constructor (`try_init`): a block of 16 elements, or
      all three pointers null when that allocation fails. */
  function Default(allocOk: bool): (v: Vec)
    ensures Valid(v) && Elems(v) == []
    ensures Capacity(v) == if allocOk then 16 else 0
  {
    Vec(Raw(if allocOk then 16 else 0), 0)
  }

  /** `vector(n, value)` (`fill_init`): `n` copies of `value` in a block of
      at least 16 elements. */
  function FillInit(n: nat, value: int): (v: Vec)
    ensures Valid(v) && Elems(v) == Repeat(n, value)
    ensures Capacity(v) == if n < 16 then 16 else n
  {
    Vec(Repeat(n, value) + Raw(AlgoBase.Max(16, n, x => x) - n), n)
  }

  /** `vector(first, last)` (`range_init`): the elements of the range in a
      block of at least 16 elements. */
  function RangeInit(s: seq<int>): (v: Vec)
    ensures Valid(v) && Elems(v) == s
    ensures Capacity(v) == if |s| < 16 then 16 else |s|
  {
    Vec(s + Raw(AlgoBase.Max(|s|, 16, x => x) - |s|), |s|)
  }

  // -----------------------------------------------------------------------
  // Capacity

  /** `get_new_cap` as the source writes it, with `size_type` arithmetic
      wrapping modulo 2^64. */
  function Wrap(x: int): nat {
    if 0 <= x <= SizeMax then x else x % (SizeMax + 1)
  }

  function GetNewCapAsWritten(cur: nat, add: nat, elemSize: nat): (r: Result<nat>)
    requires elemSize >= 1
  {
    var max := MaxSize(elemSize);
    if cur > Wrap(max - add) then Fail(LengthError)
    else if cur > Wrap(max - cur / 2) then
      Ok(if Wrap(cur + add) > Wrap(max - 16) then Wrap(cur + add) else Wrap(cur + add + 16))
    else if cur == 0 then Ok(AlgoBase.Max(add, 16, x => x))
    else Ok(AlgoBase.Max(Wrap(cur + cur / 2), Wrap(cur + add), x => x))
  }

  /** For 4-byte elements `max_size()` is 2^62 - 1. Asking an empty vector
      for room for 2^62 more elements wraps `max_size() - add` round to
      2^64 - 1, so the length check passes and the answer exceeds
      `max_size()`. */
  lemma GetNewCapWraps()
    ensures MaxSize(4) == 0x3FFF_FFFF_FFFF_FFFF
    ensures GetNewCapAsWritten(0, 0x4000_0000_0000_0000, 4) == Ok(0x4000_0000_0000_0000)
  {
  }

  /** `get_new_cap` with the length check it evidently intends: fail
      exactly when the current capacity plus the request exceeds
      `max_size()`. Otherwise grow by half the current capacity (by at least
      the request), start at 16, and near `max_size()` add only the
      request (plus 16 when that still fits). */
  function GetNewCap(cur: nat, add: nat, elemSize: nat): (r: Result<nat>)
    requires elemSize >= 1
    ensures r.Fail? <==> cur + add > MaxSize(elemSize)
    ensures r.Fail? ==> r.err == LengthError
    ensures r.Ok? ==> cur + add <= r.value
    ensures r.Ok? && MaxSize(elemSize) >= 16 ==> r.value <= MaxSize(elemSize)
    ensures r.Ok? && cur == 0 ==> r.value >= 16
    ensures r.Ok? && cur + cur / 2 <= MaxSize(elemSize) ==> r.value >= cur + cur / 2
  {
    var max := MaxSize(elemSize);
    if cur + add > max then Fail(LengthError)
    else if cur > max - cur / 2 then
      Ok(if cur + add > max - 16 then cur + add else cur + add + 16)
    else if cur == 0 then Ok(AlgoBase.Max(add, 16, x => x))
    else Ok(AlgoBase.Max(cur + cur / 2, cur + add, x => x))
  }

  /** Whenever the request itself is at most `max_size()` (and
      `max_size()` is at least 16), the code as written and the corrected
      capacity rule agree: the wrap-around is the whole difference. */
  lemma GetNewCapAgrees(cur: nat, add: nat, elemSize: nat)
    requires elemSize >= 1 && MaxSize(elemSize) >= 16
    requires cur <= SizeMax && add <= MaxSize(elemSize)
    ensures GetNewCapAsWritten(cur, add, elemSize) == GetNewCap(cur, add, elemSize)
  {
    var max := MaxSize(elemSize);
    var w := GetNewCapAsWritten(cur, add, elemSize);
    assert max <= SizeMax;
    WrapInRange(max - add);
    if cur + add > max {
      assert w == Fail(LengthError);
    } else {
      WrapInRange(max - cur / 2);
      WrapInRange(cur + add);
      WrapInRange(max - 16);
      if cur > max - cur / 2 {
        if cur + add <= max - 16 {
          WrapInRange(cur + add + 16);
          assert w == Ok(cur + add + 16);
        } else {
          assert w == Ok(cur + add);
        }
      } else if cur > 0 {
        WrapInRange(cur + cur / 2);
        assert w == Ok(AlgoBase.Max(cur + cur / 2, cur + add, x => x));
      } else {
        assert w == Ok(AlgoBase.Max(add, 16, x => x));
      }
    }
  }

  /** Arithmetic that stays within `size_type` does not wrap. */
  lemma WrapInRange(x: int)
    requires 0 <= x <= SizeMax
    ensures Wrap(x) == x
  {
  }

  /** `reserve(n)`: nothing when the capacity already suffices; a length
      error when `n` exceeds `max_size()`; otherwise the elements move to a
      block of exactly `n`. */
  function Reserve(v: Vec, n: nat, elemSize: nat): (r: Result<Vec>)
    requires Valid(v) && elemSize >= 1
    ensures r.Fail? <==> Capacity(v) < n && n > MaxSize(elemSize)
    ensures r.Fail? ==> r.err == LengthError
    ensures r.Ok? ==> Valid(r.value) && Elems(r.value) == Elems(v)
    ensures r.Ok? ==> Capacity(r.value) == if Capacity(v) < n then n else Capacity(v)
  {
    if Capacity(v) < n then
      if n > MaxSize(elemSize) then Fail(LengthError)
      else
        var b := Elems(v) + Raw(n - v.size);
        assert b[..v.size] == Elems(v);
        Ok(Vec(b, v.size))
    else Ok(v)
  }

  /** Reserving twice for the same count is reserving once. */
  lemma ReserveIdempotent(v: Vec, n: nat, elemSize: nat)
    requires Valid(v) && elemSize >= 1 && Reserve(v, n, elemSize).Ok?
    ensures Reserve(Reserve(v, n, elemSize).value, n, elemSize) == Reserve(v, n, elemSize)
  {
  }

  // -----------------------------------------------------------------------
  // Element access and comparison

  /** `at(n)`: the element at `n`, or an out-of-range error when `n` is
      not below `size()`. */
  function At(v: Vec, n: nat): (r: Result<int>)
    requires Valid(v)
    ensures r.Ok? <==> n < |Elems(v)|
    ensures r.Ok? ==> r.value == Elems(v)[n]
    ensures r.Fail? ==> r.err == OutOfRange
  {
    if !(n < v.size) then Fail(OutOfRange) else Ok(v.buf[n])
  }

  /** `operator==`: equal sizes, then `equal` over the elements. */
  method Equal(v: Vec, w: Vec) returns (b: bool)
    requires Valid(v) && Valid(w)
    ensures b <==> Elems(v) == Elems(w)
  {
    if v.size != w.size {
      return false;
    }
    b := AlgoBase.Equal(Elems(v), Elems(w));
    assert Elems(w)[..|Elems(v)|] == Elems(w);
  }

  /** `operator<`: `lexicographical_compare` over the elements. */
  method Less(v: Vec, w: Vec) returns (b: bool)
    requires Valid(v) && Valid(w)
    ensures b <==> AlgoBase.LexLess(Elems(v), Elems(w))
  {
    b := AlgoBase.LexicographicalCompare(Elems(v), Elems(w));
  }

  /** `operator<=`, written as `!(right < left)`: less or equal. */
  method LessEq(v: Vec, w: Vec) returns (b: bool)
    requires Valid(v) && Valid(w)
    ensures b <==> AlgoBase.LexLess(Elems(v), Elems(w)) || Elems(v) == Elems(w)
  {
    var gt := Less(w, v);
    b := !gt;
    AlgoBase.LexTrichotomy(Elems(v), Elems(w));
  }

  /** `operator>=`, written as `!(left < right)`: greater or equal. */
  method GreaterEq(v: Vec, w: Vec) returns (b: bool)
    requires Valid(v) && Valid(w)
    ensures b <==> AlgoBase.LexLess(Elems(w), Elems(v)) || Elems(v) == Elems(w)
  {
    var lt := Less(v, w);
    b := !lt;
    AlgoBase.LexTrichotomy(Elems(v), Elems(w));
  }

  // -----------------------------------------------------------------------
  // Erasure

  /** `erase(first, last)`: move the tail down over the gap and drop the
      last `last - first` elements. Returns the position `first`. */
  method Erase(v: Vec, first: nat, last: nat) returns (w: Vec, i: nat)
    requires Valid(v) && first <= last <= v.size
    ensures Valid(w) && Capacity(w) == Capacity(v) && i == first
    ensures Elems(w) == Erased(Elems(v), first, last)
  {
    var b, e := AlgoBase.Copy(v.buf, last, v.size, first);
    w := Vec(b, e);
    i := first;
    ErasedFromCopy(v, first, last, b, e);
  }

  lemma ErasedFromCopy(v: Vec, first: nat, last: nat, b: seq<int>, e: nat)
    requires Valid(v) && first <= last <= v.size
    requires e == first + (v.size - last) && |b| == |v.buf|
    requires b[first..e] == v.buf[last..v.size] && b[..first] == v.buf[..first]
    ensures e <= |b| && b[..e] == Erased(Elems(v), first, last)
  {
    assert b[..e] == b[..first] + b[first..e];
    assert Elems(v)[..first] == v.buf[..first];
    assert Elems(v)[last..] == v.buf[last..v.size];
  }

  /** `erase(pos)`: the one-element case. */
  method EraseAt(v: Vec, pos: nat) returns (w: Vec, i: nat)
    requires Valid(v) && pos < v.size
    ensures Valid(w) && Capacity(w) == Capacity(v) && i == pos
    ensures Elems(w) == Elems(v)[..pos] + Elems(v)[pos + 1..]
  {
    var b, e := AlgoBase.Copy(v.buf, pos + 1, v.size, pos);
    w := Vec(b, v.size - 1);
    i := pos;
    ErasedFromCopy(v, pos, pos + 1, b, e);
  }

  // -----------------------------------------------------------------------
  // Insertion

  /** The block a reallocating insertion builds: the prefix, the new
      elements and the suffix, followed by raw storage up to the new
      capacity. */
  function Reallocated(v: Vec, pos: nat, xs: seq<int>, cap: nat): (w: Vec)
    requires Valid(v) && pos <= v.size && v.size + |xs| <= cap
    ensures Valid(w) && Capacity(w) == cap && Elems(w) == Inserted(Elems(v), pos, xs)
  {
    var t := Inserted(Elems(v), pos, xs);
    assert (t + Raw(cap - |t|))[..|t|] == t;
    Vec(t + Raw(cap - |t|), |t|)
  }

  /** `insert(pos, value)`: at the end with room, construct in place;
      elsewhere with room, construct a copy of the last element past the
      end, `copy_backward` the rest up by one and assign the value;
      without room, reallocate with `get_new_cap(1)`. Returns the position
      of the new element. */
  method Insert(v: Vec, pos: nat, value: int, elemSize: nat) returns (r: Result<(Vec, nat)>)
    requires Valid(v) && pos <= v.size && elemSize >= 1
    ensures r.Fail? <==> v.size == Capacity(v) && GetNewCap(Capacity(v), 1, elemSize).Fail?
    ensures r.Fail? ==> r.err == LengthError
    ensures r.Ok? ==> Valid(r.value.0) && r.value.1 == pos
    ensures r.Ok? ==> Elems(r.value.0) == Inserted(Elems(v), pos, [value])
    ensures r.Ok? ==> Capacity(r.value.0) == (if v.size < Capacity(v) then Capacity(v) else GetNewCap(Capacity(v), 1, elemSize).value)
  {
    if v.size != |v.buf| && pos == v.size {
      var b := v.buf[v.size := value];
      assert b[..v.size + 1] == Elems(v) + [value];
      return Ok((Vec(b, v.size + 1), pos));
    } else if v.size != |v.buf| {
      var b0 := v.buf[v.size := v.buf[v.size - 1]];
      var b1, _ := AlgoBase.CopyBackward(b0, pos, v.size - 1, v.size);
      var b2 := b1[pos := value];
      InsertShifted(v, pos, value, b0, b1, b2);
      return Ok((Vec(b2, v.size + 1), pos));
    } else {
      var c := GetNewCap(|v.buf|, 1, elemSize);
      if c.Fail? {
        return Fail(c.err);
      }
      return Ok((Reallocated(v, pos, [value], c.value), pos));
    }
  }

  /** The shifting branch of `insert`: after the copy past the end and the
      backward copy, the value lands at `pos` and the old elements from
      `pos` on sit one place higher. */
  lemma InsertShifted(v: Vec, pos: nat, value: int, b0: seq<int>, b1: seq<int>, b2: seq<int>)
    requires Valid(v) && pos < v.size < |v.buf|
    requires b0 == v.buf[v.size := v.buf[v.size - 1]]
    requires |b1| == |b0| && b1[pos + 1..v.size] == b0[pos..v.size - 1]
    requires b1[..pos + 1] == b0[..pos + 1] && b1[v.size..] == b0[v.size..]
    requires b2 == b1[pos := value]
    ensures b2[..v.size + 1] == Inserted(Elems(v), pos, [value])
  {
    var t := Inserted(Elems(v), pos, [value]);
    forall k | 0 <= k < v.size + 1
      ensures b2[k] == t[k]
    {
      if k < pos {
        assert b1[..pos + 1][k] == b0[..pos + 1][k];
      } else if pos < k < v.size {
        assert b1[pos + 1..v.size][k - pos - 1] == b0[pos..v.size - 1][k - pos - 1];
      } else if k == v.size {
        assert b1[v.size..][0] == b0[v.size..][0];
      }
    }
  }

  /** `copy_insert(pos, first, last)`: with room for the `n` new elements,
      either (more than `n` elements after `pos`) copy the last `n` past
      the end, `move_backward` the rest of the tail up by `n` and copy the
      new elements in, or (at most `n` after `pos`) copy the part of the
      new elements that lands past the old end there, move the tail after
      it and copy the first part in; without room, reallocate with
      `get_new_cap(n)`. `fill_insert` takes the same steps with the range
      replaced by `n` copies of the value. */
  method InsertRange(v: Vec, pos: nat, src: seq<int>, elemSize: nat) returns (r: Result<Vec>)
    requires Valid(v) && pos <= v.size && elemSize >= 1
    ensures r.Fail? <==> |src| > 0 && Capacity(v) - v.size < |src| && GetNewCap(Capacity(v), |src|, elemSize).Fail?
    ensures r.Fail? ==> r.err == LengthError
    ensures r.Ok? ==> Valid(r.value) && Elems(r.value) == Inserted(Elems(v), pos, src)
    ensures r.Ok? ==> Capacity(r.value) == (if Capacity(v) - v.size >= |src| then Capacity(v) else GetNewCap(Capacity(v), |src|, elemSize).value)
  {
    var n := |src|;
    if n == 0 {
      assert Inserted(Elems(v), pos, src) == Elems(v);
      return Ok(v);
    }
    if |v.buf| - v.size >= n {
      var w := InsertWithRoom(v, pos, src);
      return Ok(w);
    } else {
      var c := GetNewCap(|v.buf|, n, elemSize);
      if c.Fail? {
        return Fail(c.err);
      }
      return Ok(Reallocated(v, pos, src, c.value));
    }
  }

  /** The branches of `copy_insert` that fit in the current block. */
  method InsertWithRoom(v: Vec, pos: nat, src: seq<int>) returns (w: Vec)
    requires Valid(v) && pos <= v.size && v.size + |src| <= |v.buf|
    ensures Valid(w) && Capacity(w) == Capacity(v) && Elems(w) == Inserted(Elems(v), pos, src)
  {
    if v.size - pos > |src| {
      w := InsertBeforeLongTail(v, pos, src);
    } else {
      w := InsertBeforeShortTail(v, pos, src);
    }
  }

  /** More than `n` elements after `pos`: copy the last `n` past the end,
      `move_backward` the rest of the tail up by `n`, copy the new
      elements in. */
  method InsertBeforeLongTail(v: Vec, pos: nat, src: seq<int>) returns (w: Vec)
    requires Valid(v) && pos + |src| < v.size && v.size + |src| <= |v.buf|
    ensures Valid(w) && Capacity(w) == Capacity(v) && Elems(w) == Inserted(Elems(v), pos, src)
  {
    var n := |src|;
    var b1, _ := AlgoBase.Copy(v.buf, v.size - n, v.size, v.size);
    var b2, _ := AlgoBase.CopyBackward(b1, pos, v.size - n, v.size);
    var b3 := Overwrite(b2, pos, src);
    InsertLongTail(v, pos, src, b1, b2, b3);
    w := Vec(b3, v.size + n);
  }

  /** At most `n` elements after `pos`: copy the part of the new elements
      that lands past the old end there, move the tail after it, copy the
      first part in. */
  method InsertBeforeShortTail(v: Vec, pos: nat, src: seq<int>) returns (w: Vec)
    requires Valid(v) && pos <= v.size <= pos + |src| && v.size + |src| <= |v.buf|
    ensures Valid(w) && Capacity(w) == Capacity(v) && Elems(w) == Inserted(Elems(v), pos, src)
  {
    var n := |src|;
    var after := v.size - pos;
    var b1 := Overwrite(v.buf, v.size, src[after..]);
    var b2, _ := AlgoBase.Copy(b1, pos, v.size, v.size + n - after);
    var b3 := Overwrite(b2, pos, src[..after]);
    InsertShortTail(v, pos, src, b1, b2, b3);
    w := Vec(b3, v.size + n);
  }

  /** `uninitialized_copy` of a range from outside the block to `at`. */
  function Overwrite(b: seq<int>, at: nat, xs: seq<int>): (r: seq<int>)
    requires at + |xs| <= |b|
    ensures |r| == |b| && r[at..at + |xs|] == xs
    ensures r[..at] == b[..at] && r[at + |xs|..] == b[at + |xs|..]
  {
    b[..at] + xs + b[at + |xs|..]
  }

  /** The in-place branch with more than `n` elements after `pos`. */
  lemma InsertLongTail(v: Vec, pos: nat, src: seq<int>, b1: seq<int>, b2: seq<int>, b3: seq<int>)
    requires Valid(v) && pos + |src| < v.size && v.size + |src| <= |v.buf|
    requires |b1| == |v.buf| && b1[v.size..v.size + |src|] == v.buf[v.size - |src|..v.size]
    requires b1[..v.size] == v.buf[..v.size]
    requires |b2| == |b1| && b2[pos + |src|..v.size] == b1[pos..v.size - |src|]
    requires b2[..pos + |src|] == b1[..pos + |src|] && b2[v.size..] == b1[v.size..]
    requires |b3| == |b2| && b3[pos..pos + |src|] == src
    requires b3[..pos] == b2[..pos] && b3[pos + |src|..] == b2[pos + |src|..]
    ensures b3[..v.size + |src|] == Inserted(Elems(v), pos, src)
  {
    var n := |src|;
    var t := Inserted(Elems(v), pos, src);
    forall k | 0 <= k < v.size + n
      ensures b3[k] == t[k]
    {
      if k < pos {
        assert b3[..pos][k] == b2[..pos][k];
        assert b2[..pos + n][k] == b1[..pos + n][k];
        assert b1[..v.size][k] == v.buf[..v.size][k];
      } else if k < pos + n {
        assert b3[pos..pos + n][k - pos] == src[k - pos];
      } else if k < v.size {
        assert b3[pos + n..][k - pos - n] == b2[pos + n..][k - pos - n];
        assert b2[pos + n..v.size][k - pos - n] == b1[pos..v.size - n][k - pos - n];
        assert b1[..v.size][k - n] == v.buf[..v.size][k - n];
      } else {
        assert b3[pos + n..][k - pos - n] == b2[pos + n..][k - pos - n];
        assert b2[v.size..][k - v.size] == b1[v.size..][k - v.size];
        assert b1[v.size..v.size + n][k - v.size] == v.buf[v.size - n..v.size][k - v.size];
      }
    }
  }

  /** The in-place branch with at most `n` elements after `pos`. */
  lemma InsertShortTail(v: Vec, pos: nat, src: seq<int>, b1: seq<int>, b2: seq<int>, b3: seq<int>)
    requires Valid(v) && pos <= v.size <= pos + |src| && v.size + |src| <= |v.buf|
    requires |b1| == |v.buf| && b1[v.size..pos + |src|] == src[v.size - pos..]
    requires b1[..v.size] == v.buf[..v.size]
    requires |b2| == |b1| && b2[pos + |src|..v.size + |src|] == b1[pos..v.size]
    requires b2[..pos + |src|] == b1[..pos + |src|]
    requires |b3| == |b2| && b3[pos..v.size] == src[..v.size - pos]
    requires b3[..pos] == b2[..pos] && b3[v.size..] == b2[v.size..]
    ensures b3[..v.size + |src|] == Inserted(Elems(v), pos, src)
  {
    var n := |src|;
    var after := v.size - pos;
    var t := Inserted(Elems(v), pos, src);
    forall k | 0 <= k < v.size + n
      ensures b3[k] == t[k]
    {
      if k < pos {
        assert b3[..pos][k] == b2[..pos][k];
        assert b2[..pos + n][k] == b1[..pos + n][k];
        assert b1[..v.size][k] == v.buf[..v.size][k];
      } else if k < v.size {
        assert b3[pos..v.size][k - pos] == src[..after][k - pos];
      } else if k < pos + n {
        assert b3[v.size..][k - v.size] == b2[v.size..][k - v.size];
        assert b2[..pos + n][k] == b1[..pos + n][k];
        assert b1[v.size..pos + n][k - v.size] == src[after..][k - v.size];
      } else {
        assert b3[v.size..][k - v.size] == b2[v.size..][k - v.size];
        assert b2[pos + n..v.size + n][k - pos - n] == b1[pos..v.size][k - pos - n];
        assert b1[..v.size][k - n] == v.buf[..v.size][k - n];
      }
    }
  }

  /** `insert(pos, n, value)` (`fill_insert`): nothing when `n` is 0;
      otherwise `n` copies of `value` before `pos`. Returns `pos`. */
  method FillInsert(v: Vec, pos: nat, n: nat, value: int, elemSize: nat) returns (r: Result<(Vec, nat)>)
    requires Valid(v) && pos <= v.size && elemSize >= 1
    ensures r.Fail? <==> n > 0 && Capacity(v) - v.size < n && GetNewCap(Capacity(v), n, elemSize).Fail?
    ensures r.Fail? ==> r.err == LengthError
    ensures r.Ok? ==> Valid(r.value.0) && r.value.1 == pos
    ensures r.Ok? ==> Elems(r.value.0) == Inserted(Elems(v), pos, Repeat(n, value))
    ensures r.Ok? ==> Capacity(r.value.0) == (if Capacity(v) - v.size >= n then Capacity(v) else GetNewCap(Capacity(v), n, elemSize).value)
  {
    if n == 0 {
      assert Inserted(Elems(v), pos, Repeat(n, value)) == Elems(v);
      return Ok((v, pos));
    }
    var w := InsertRange(v, pos, Repeat(n, value), elemSize);
    if w.Fail? {
      return Fail(w.err);
    }
    return Ok((w.value, pos));
  }

  /** `resize(k, value)`: erase the tail when shrinking, otherwise insert
      `k - size()` copies of `value` at the end. */
  method Resize(v: Vec, k: nat, value: int, elemSize: nat) returns (r: Result<Vec>)
    requires Valid(v) && elemSize >= 1
    ensures r.Fail? <==> k > Capacity(v) && GetNewCap(Capacity(v), k - v.size, elemSize).Fail?
    ensures r.Fail? ==> k > v.size && r.err == LengthError
    ensures r.Ok? ==> Valid(r.value) && |Elems(r.value)| == k
    ensures r.Ok? && k < v.size ==> Elems(r.value) == Elems(v)[..k]
    ensures r.Ok? && k >= v.size ==> Elems(r.value) == Elems(v) + Repeat(k - v.size, value)
  {
    if k < v.size {
      var w, _ := Erase(v, k, v.size);
      assert Elems(v)[v.size..] == [];
      return Ok(w);
    }
    var p := FillInsert(v, v.size, k - v.size, value, elemSize);
    if p.Fail? {
      return Fail(p.err);
    }
    assert Elems(v)[v.size..] == [];
    assert Elems(v)[..v.size] == Elems(v);
    return Ok(p.value.0);
  }
}
