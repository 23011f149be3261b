/** Temporary-buffer sizing and `auto_ptr` ownership. `malloc` is an
    oracle: `mallocOk(bytes)` says whether a request for that many bytes
    succeeds. Pointers are abstract addresses; `None` is the null pointer. */
module Memory {

  datatype Option<T> = None | Some(value: T)

  /** `INT_MAX` of a platform with 32-bit `int`. */
  const IntMax: nat := 2147483647

  /** The largest element count a buffer request is clamped to:
      `INT_MAX / sizeof(T)` (both positive, so C++ and Dafny division
      agree). */
  function MaxElements(elemSize: nat): (m: nat)
    requires elemSize > 0
    ensures m * elemSize <= IntMax < (m + 1) * elemSize
  {
    IntMax / elemSize
  }

  /** The byte count `malloc` is asked for: `len * sizeof(T)`. */
  function Bytes(n: nat, elemSize: nat): nat {
    n * elemSize
  }

  /** The request after the clamp. */
  function Clamped(len: int, elemSize: nat): (c: int)
    requires elemSize > 0
    ensures c <= len && c <= MaxElements(elemSize)
    ensures len <= MaxElements(elemSize) ==> c == len
  {
    if len > MaxElements(elemSize) then MaxElements(elemSize) else len
  }

  /** Reference: the element count the halving search settles on, starting
      from `len`: the first of `len, len / 2, len / 4, ...` whose byte size
      `malloc` grants, or 0 when none of the positive ones is granted. */
  function Granted(len: int, elemSize: nat, mallocOk: nat -> bool): (g: nat)
    decreases if len > 0 then len else 0
  {
    if len <= 0 then 0
    else if mallocOk(Bytes(len, elemSize)) then len
    else Granted(len / 2, elemSize, mallocOk)
  }

  /** `m` is one of the positive counts `len, len / 2, len / 4, ...` the
      halving loop asks for. */
  ghost predicate Halving(len: int, m: int)
    decreases if len > 0 then len else 0
  {
    len > 0 && (m == len || Halving(len / 2, m))
  }

  /** Every halving of `len` is positive and at most `len`. */
  lemma {:induction false} HalvingBounds(len: int, m: int)
    requires Halving(len, m)
    ensures 0 < m <= len
    decreases if len > 0 then len else 0
  {
    if m != len {
      HalvingBounds(len / 2, m);
    }
  }

  /** The granted count is the first halving of `len` that `malloc`
      accepts: a positive grant is a halving whose size `malloc` accepts,
      every larger halving was refused, and so a grant of 0 means that
      `malloc` refused every halving. The whole request is granted when
      `malloc` accepts it. */
  lemma {:induction false} GrantedBounds(len: int, elemSize: nat, mallocOk: nat -> bool)
    ensures Granted(len, elemSize, mallocOk) <= (if len > 0 then len else 0)
    ensures Granted(len, elemSize, mallocOk) > 0 ==> Halving(len, Granted(len, elemSize, mallocOk))
    ensures Granted(len, elemSize, mallocOk) > 0 ==> mallocOk(Bytes(Granted(len, elemSize, mallocOk), elemSize))
    ensures forall m :: Halving(len, m) && m > Granted(len, elemSize, mallocOk) ==> !mallocOk(Bytes(m, elemSize))
    ensures len > 0 && mallocOk(Bytes(len, elemSize)) ==> Granted(len, elemSize, mallocOk) == len
    decreases if len > 0 then len else 0
  {
    var g := Granted(len, elemSize, mallocOk);
    if len > 0 && !mallocOk(Bytes(len, elemSize)) {
      GrantedBounds(len / 2, elemSize, mallocOk);
      forall m | Halving(len, m) && m > g
        ensures !mallocOk(Bytes(m, elemSize))
      {
        if m != len {
          assert Halving(len / 2, m);
        }
      }
    } else if len > 0 {
      forall m | Halving(len, m)
        ensures m <= g
      {
        HalvingBounds(len, m);
      }
    }
  }

  /** `get_buffer_helper`: clamps the request, then asks `malloc` for
      `len` elements, halving `len` after each refusal; returns whether a
      buffer was obtained and its element count, which is 0 exactly when
      none was. The byte count handed to `malloc` never exceeds
      `INT_MAX`, so `len * sizeof(T)` cannot wrap. */
  method GetBufferHelper(len: int, elemSize: nat, mallocOk: nat -> bool)
    returns (found: bool, size: nat)
    requires elemSize > 0
    ensures size == Granted(Clamped(len, elemSize), elemSize, mallocOk)
    ensures found <==> size > 0
    ensures size <= MaxElements(elemSize) && Bytes(size, elemSize) <= IntMax
    ensures len > 0 && len <= MaxElements(elemSize) && mallocOk(Bytes(len, elemSize)) ==> size == len
  {
    var c := Clamped(len, elemSize);
    ghost var start := c;
    var n: nat := if c > 0 then c else 0;
    while n > 0
      invariant n <= MaxElements(elemSize)
      invariant Granted(n, elemSize, mallocOk) == Granted(start, elemSize, mallocOk)
      decreases n
    {
      if mallocOk(Bytes(n, elemSize)) {
        break;
      }
      n := n / 2;
    }
    found, size := n > 0, n;
    GrantedBounds(start, elemSize, mallocOk);
    BufferFits(size, elemSize);
  }

  /** A clamped count, times the element size, stays within `INT_MAX`. */
  lemma BufferFits(n: nat, elemSize: nat)
    requires elemSize > 0 && n <= MaxElements(elemSize)
    ensures Bytes(n, elemSize) <= IntMax
  {
    MulMono(n, MaxElements(elemSize), elemSize);
  }

  lemma MulMono(a: nat, b: nat, c: nat)
    requires a <= b
    ensures a * c <= b * c
  {
  }

  /** A `temporary_buffer` over a range: the distance it was asked for and
      the element count it obtained. */
  datatype TemporaryBuffer = TemporaryBuffer(requested: int, size: nat)
  {
    /** `begin()` is non-null exactly when elements were obtained. */
    predicate HasStorage() {
      size > 0
    }
  }

  /** The `temporary_buffer` constructor: `allocate_buffer` records the
      distance as the requested size, clamps it and halves it after each
      refused `malloc` until one succeeds or it reaches 0. */
  method NewTemporaryBuffer(first: int, last: int, elemSize: nat, mallocOk: nat -> bool)
    returns (b: TemporaryBuffer)
    requires first <= last && elemSize > 0
    ensures b.requested == last - first
    ensures b.size == Granted(Clamped(last - first, elemSize), elemSize, mallocOk)
    ensures b.size <= b.requested
    ensures b.HasStorage() ==> mallocOk(Bytes(b.size, elemSize))
  {
    var original := last - first;
    var len: nat := Clamped(original, elemSize);
    ghost var start := len;
    while len > 0
      invariant len <= original
      invariant Granted(len, elemSize, mallocOk) == Granted(start, elemSize, mallocOk)
      decreases len
    {
      if mallocOk(Bytes(len, elemSize)) {
        break;
      }
      len := len / 2;
    }
    b := TemporaryBuffer(original, len);
  }

  /** A ten-element range asks for ten elements; with `malloc` granting
      anything it gets all ten. */
  lemma TemporaryBufferExample()
    ensures Granted(Clamped(10, 4), 4, (_: nat) => true) == 10
  {
  }

  /** `auto_ptr<T>`: the pointer it owns, or null. */
  datatype AutoPtr = AutoPtr(ptr: Option<nat>)

  /** `get()` and `release()`: release hands back the pointer and leaves
      the `auto_ptr` null, so it no longer deletes it. */
  function Get(p: AutoPtr): Option<nat> {
    p.ptr
  }

  function Release(p: AutoPtr): (r: (Option<nat>, AutoPtr))
    ensures r.0 == Get(p) && Get(r.1) == None
  {
    (p.ptr, AutoPtr(None))
  }

  /** The copy constructor (from the same or a convertible `auto_ptr`):
      the new object takes the pointer and the source is released. */
  function CopyConstruct(other: AutoPtr): (r: (AutoPtr, AutoPtr))
    ensures Get(r.0) == Get(other) && Get(r.1) == None
  {
    var (q, other') := Release(other);
    (AutoPtr(q), other')
  }

  /** Copy assignment. `sameObject` is `this == &other` for the
      same-type operator; the converting operator compares the held
      pointers instead. Unless the guard holds, the old pointer is deleted
      (returned as `deleted`) and ownership moves from `other`. */
  function Assign(self: AutoPtr, other: AutoPtr, sameObject: bool): (r: (AutoPtr, AutoPtr, Option<nat>))
    ensures sameObject ==> r == (self, other, None)
    ensures !sameObject ==> Get(r.0) == Get(other) && Get(r.1) == None && r.2 == Get(self)
  {
    if sameObject then (self, other, None)
    else
      var (q, other') := Release(other);
      (AutoPtr(q), other', self.ptr)
  }

  function AssignConverting(self: AutoPtr, other: AutoPtr): (r: (AutoPtr, AutoPtr, Option<nat>))
    ensures Get(self) == Get(other) ==> r == (self, other, None)
    ensures Get(self) != Get(other) ==> Get(r.0) == Get(other) && Get(r.1) == None && r.2 == Get(self)
  {
    Assign(self, other, self.ptr == other.ptr)
  }

  /** `reset(p)`: replaces (and deletes) the held pointer only when it
      differs from `p`. */
  function Reset(self: AutoPtr, p: Option<nat>): (r: (AutoPtr, Option<nat>))
    ensures Get(r.0) == p
    ensures Get(self) != p ==> r.1 == Get(self)
    ensures Get(self) == p ==> r.1 == None
  {
    if self.ptr != p then (AutoPtr(p), self.ptr) else (self, None)
  }

  /** Two `auto_ptr`s never own the same pointer. */
  predicate SoleOwners(a: AutoPtr, b: AutoPtr) {
    a.ptr.Some? ==> a.ptr != b.ptr
  }

  /** Ownership transfer keeps that invariant: after a copy construction
      or an assignment from another object, exactly one side can still
      delete the pointer. */
  lemma TransferKeepsSoleOwner(self: AutoPtr, other: AutoPtr)
    ensures SoleOwners(CopyConstruct(other).0, CopyConstruct(other).1)
    ensures SoleOwners(Assign(self, other, false).0, Assign(self, other, false).1)
  {
  }
}
