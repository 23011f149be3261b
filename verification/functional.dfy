/** The function objects: arithmetic with C++ integer division, the
    identity elements, the comparison and logical functors, the pair
    projections, the integral `hash` and the FNV-1a `bitwise_hash`. The
    arithmetic and comparison functors are modelled on unbounded `int`. */
module Functional {
  import opened Utility

  // -----------------------------------------------------------------------
  // Arithmetic

  function Plus(x: int, y: int): int { x + y }

  function Minus(x: int, y: int): int { x - y }

  function Multiplies(x: int, y: int): int { x * y }

  function Negate(x: int): int { -x }

  /** `minus` undoes `plus`, `negate` gives the additive inverse, and both
      are involutions in the expected sense. */
  lemma MinusNegateInverse(x: int, y: int)
    ensures Minus(Plus(x, y), y) == x && Plus(Minus(x, y), y) == x
    ensures Plus(x, Negate(x)) == 0 && Negate(Negate(x)) == x
    ensures Minus(x, y) == Plus(x, Negate(y))
  {
  }

  function Abs(x: int): nat { if x < 0 then -x else x }

  /** Euclidean division of naturals: a non-negative quotient, a remainder
      below the divisor, and quotient 0 for a smaller dividend. */
  lemma NatDivision(a: nat, b: nat)
    requires b > 0
    ensures a == (a / b) * b + a % b && 0 <= a % b < b
    ensures a / b >= 0
    ensures a < b ==> a / b == 0 && a % b == a
  {
  }

  /** `divides` on a C++ integer type: the quotient truncated toward zero,
      so its sign is the product of the operands' signs. */
  function Divides(x: int, y: int): (q: int)
    requires y != 0
    ensures q < 0 ==> (x < 0) != (y < 0)
    ensures q > 0 ==> (x < 0) == (y < 0)
    ensures Abs(x) < Abs(y) ==> q == 0
  {
    NatDivision(Abs(x), Abs(y));
    var q := Abs(x) / Abs(y);
    if (x < 0) == (y < 0) then q else -q
  }

  /** `modulus` on a C++ integer type: the remainder takes the sign of the
      dividend and is smaller than the divisor in magnitude. */
  function Modulus(x: int, y: int): (m: int)
    requires y != 0
    ensures Abs(m) < Abs(y)
    ensures m < 0 ==> x < 0
    ensures m > 0 ==> x > 0
  {
    NatDivision(Abs(x), Abs(y));
    var m := Abs(x) % Abs(y);
    if x < 0 then -m else m
  }

  /** The C++ division identity `(x / y) * y + x % y == x`. Together with
      the sign and size of the remainder it pins `divides` and `modulus`
      down as truncating division. */
  lemma DivModIdentity(x: int, y: int)
    requires y != 0
    ensures Multiplies(Divides(x, y), y) + Modulus(x, y) == x
  {
    var a: int, b: int := Abs(x), Abs(y);
    NatDivision(a, b);
    var q0: int, m0: int := a / b, a % b;
    assert a == q0 * b + m0;
    if x >= 0 && y > 0 {
    } else if x < 0 && y > 0 {
      assert Divides(x, y) * y == (-q0) * b == -(q0 * b);
    } else if x >= 0 {
      assert Divides(x, y) * y == (-q0) * (-b) == q0 * b;
    } else {
      assert Divides(x, y) * y == q0 * (-b) == -(q0 * b);
    }
  }

  /** On non-negative operands truncating and Euclidean division agree;
      on a negative dividend they differ: `-7 / 2` is `-3` rem `-1` in C++
      but `-4` rem `1` in Euclidean terms. `1 / 2 == 0` and `1 % 2 == 1`. */
  lemma DividesExamples(x: int, y: int)
    requires x >= 0 && y > 0
    ensures Divides(x, y) == x / y && Modulus(x, y) == x % y
    ensures Divides(1, 2) == 0 && Modulus(1, 2) == 1
    ensures Divides(-7, 2) == -3 && Modulus(-7, 2) == -1
    ensures -7 / 2 == -4 && -7 % 2 == 1
  {
  }

  datatype Monoid = PlusOp | MultipliesOp

  function Apply(op: Monoid, x: int, y: int): int {
    match op
    case PlusOp => Plus(x, y)
    case MultipliesOp => Multiplies(x, y)
  }

  /** `identity_element`: 0 for `plus` and 1 for `multiplies`, the value
      that leaves every operand unchanged on either side. */
  function IdentityElement(op: Monoid): (e: int)
    ensures forall x :: Apply(op, e, x) == x && Apply(op, x, e) == x
  {
    match op
    case PlusOp => 0
    case MultipliesOp => 1
  }

  // -----------------------------------------------------------------------
  // Comparison and logical functors

  datatype Relation = EqualTo | NotEqualTo | Greater | Less | GreaterEqual | LessEqual

  /** The comparison functors: each applies its operator to the two
      arguments. */
  function Compare(rel: Relation, x: int, y: int): bool {
    match rel
    case EqualTo => x == y
    case NotEqualTo => x != y
    case Greater => x > y
    case Less => x < y
    case GreaterEqual => x >= y
    case LessEqual => x <= y
  }

  /** Every comparison functor is determined by `less`: `greater` swaps the
      arguments, `greater_equal` and `less_equal` negate `less` and its
      swap, `equal_to` is incomparability and `not_equal_to` its negation. */
  lemma ComparisonsFromLess(x: int, y: int)
    ensures Compare(Greater, x, y) == Compare(Less, y, x)
    ensures Compare(GreaterEqual, x, y) == !Compare(Less, x, y)
    ensures Compare(LessEqual, x, y) == !Compare(Less, y, x)
    ensures Compare(EqualTo, x, y) == (!Compare(Less, x, y) && !Compare(Less, y, x))
    ensures Compare(NotEqualTo, x, y) == !Compare(EqualTo, x, y)
  {
  }

  /** `logical_and`, `logical_or` and `logical_not` on integers, where
      any non-zero value is true. */
  function LogicalAnd(x: int, y: int): bool { x != 0 && y != 0 }

  function LogicalOr(x: int, y: int): bool { x != 0 || y != 0 }

  function LogicalNot(x: int): bool { x == 0 }

  /** De Morgan's laws relate the three logical functors; `(1, 2)` is
      true under `and`, `(0, 0)` false under `or`. */
  lemma LogicalDeMorgan(x: int, y: int)
    ensures LogicalAnd(x, y) == !(LogicalNot(x) || LogicalNot(y))
    ensures LogicalOr(x, y) == !(LogicalNot(x) && LogicalNot(y))
    ensures LogicalAnd(1, 2) && !LogicalAnd(0, 1) && LogicalOr(0, 1) && !LogicalOr(0, 0)
  {
  }

  // -----------------------------------------------------------------------
  // Projections

  function Identity<T>(x: T): T { x }

  function Select1st<T1, T2>(p: Pair<T1, T2>): T1 { p.first }

  function Select2nd<T1, T2>(p: Pair<T1, T2>): T2 { p.second }

  function Project1st<T1, T2>(x: T1, y: T2): T1 { x }

  function Project2nd<T1, T2>(x: T1, y: T2): T2 { y }

  /** The selectors take a pair built by `make_pair` apart again, and agree
      with the two-argument projections. */
  lemma ProjectionsOfMakePair<T1, T2>(a: T1, b: T2)
    ensures Select1st(MakePair(a, b)) == a == Project1st(a, b)
    ensures Select2nd(MakePair(a, b)) == b == Project2nd(a, b)
    ensures MakePair(Select1st(MakePair(a, b)), Select2nd(MakePair(a, b))) == MakePair(a, b)
    ensures Identity(a) == a
  {
  }

  // -----------------------------------------------------------------------
  // hash

  const SizeModulus: nat := 0x1_0000_0000_0000_0000

  /** The integral `hash` specialisations: `static_cast<size_t>` of the
      value, that is the value reduced modulo 2^64 into `[0, 2^64)`. */
  function HashIntegral(val: int): (h: nat)
    ensures h < SizeModulus
    ensures 0 <= val < SizeModulus ==> h == val
    ensures val < 0 && -(SizeModulus as int) <= val ==> h == val + SizeModulus
  {
    val % SizeModulus
  }

  function HashBool(b: bool): nat { HashIntegral(if b then 1 else 0) }

  /** A C++ `char`: 8 bits, signed as on x86-64 GCC. */
  newtype CChar = c: int | -128 <= c < 128

  /** `hash<char>`: a byte of 0x80 or above is a negative `char`, so it
      wraps to the top of `size_t`. */
  function HashChar(c: CChar): nat { HashIntegral(c as int) }

  /** `hash<char32_t>`: a Unicode code point is non-negative and hashes to
      itself. */
  function HashChar32(c: char): nat { HashIntegral(c as int) }

  /** `hash<bool>(true)` is 1, `hash<char>('a')` is 97, the byte 0xE9 (the
      `char` -23) hashes to 2^64 - 23, `hash<char32_t>` of U+00E9 is 233 and
      a negative value wraps: `hash<int>(-1)` is 2^64 - 1. */
  lemma HashExamples()
    ensures HashBool(true) == 1 && HashChar(97) == 97 && HashIntegral(1) == 1
    ensures HashChar(-23) == SizeModulus - 23 && HashChar32('\U{E9}') == 233
    ensures HashIntegral(-1) == SizeModulus - 1
  {
  }

  /** FNV-1a parameters for a 64-bit `size_t`. */
  const FnvOffset: bv64 := 14695981039346656037
  const FnvPrime: bv64 := 1099511628211

  /** One FNV-1a round: XOR the byte in, then multiply by the prime modulo
      2^64 (`bv64` arithmetic wraps). */
  function FnvStep(h: bv64, b: bv8): bv64 {
    (h ^ (b as bv64)) * FnvPrime
  }

  /** Reference FNV-1a: the hash of the data without its last byte, advanced
      by one round for that byte. */
  function Fnv1a(data: seq<bv8>): bv64 {
    if |data| == 0 then FnvOffset else FnvStep(Fnv1a(data[..|data| - 1]), data[|data| - 1])
  }

  /** FNV-1a folded from the front, starting from the state `h`. */
  function FnvFold(h: bv64, data: seq<bv8>): bv64
    decreases |data|
  {
    if |data| == 0 then h else FnvFold(FnvStep(h, data[0]), data[1..])
  }

  /** Hashing `a + b` is hashing `a` and continuing with the bytes of `b`:
      the hash is a left fold, so data can be fed in pieces. */
  lemma {:induction false} Fnv1aConcat(a: seq<bv8>, b: seq<bv8>)
    ensures Fnv1a(a + b) == FnvFold(Fnv1a(a), b)
    decreases |b|
  {
    if |b| > 0 {
      var a', b' := a + [b[0]], b[1..];
      assert a + b == a' + b';
      assert a'[..|a'| - 1] == a;
      Fnv1aConcat(a', b');
    } else {
      assert a + b == a;
    }
  }

  /** `bitwise_hash(first, count)` on a 64-bit platform: FNV-1a of the first
      `count` bytes; zero bytes give the offset basis. */
  method BitwiseHash(first: seq<bv8>, count: nat) returns (h: bv64)
    requires count <= |first|
    ensures h == FnvFold(FnvOffset, first[..count])
    ensures count == 0 ==> h == FnvOffset
  {
    h := FnvOffset;
    var i := 0;
    while i < count
      invariant i <= count
      invariant h == Fnv1a(first[..i])
    {
      assert first[..i + 1][..i] == first[..i];
      h := FnvStep(h, first[i]);
      i := i + 1;
    }
    assert first[..count] == [] + first[..count];
    Fnv1aConcat([], first[..count]);
  }

  /** The standard FNV-1a test vector: the 64-bit hash of `"a"` is
      0xaf63dc4c8601ec8c. */
  lemma Fnv1aTestVector()
    ensures Fnv1a([0x61]) == 0xaf63dc4c8601ec8c
    ensures FnvFold(FnvOffset, [0x61]) == 0xaf63dc4c8601ec8c
  {
    assert [0x61 as bv8][..0] == [];
    assert [0x61 as bv8][1..] == [];
  }
}
