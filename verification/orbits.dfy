/** The number theory behind the random-access `rotate`: Euclid's greatest
    common divisor, Bezout coefficients, and the cycles that the map
    `x -> (x + l) mod n` makes on the positions `0 .. n - 1`. Rotating a
    range of `n` elements left by `l` moves the element at `Next(x)` to `x`;
    the positions fall into `Gcd(n, l)` cycles of `n / Gcd(n, l)` positions
    each, one per residue modulo the gcd. */
module Orbits {

  /** Euclid's algorithm: the reference for `rgcd`. */
  function Gcd(m: nat, n: nat): nat
    decreases n
  {
    if n == 0 then m else Gcd(n, Rem(m, n))
  }

  /** Quotient and remainder on naturals by repeated subtraction. They
      agree with `/` and `%` (`QuotRem`) but unfold to linear arithmetic,
      so statements about cycle lengths and residues written with them do
      not draw the solver into nonlinear reasoning. */
  function Quot(a: nat, d: nat): nat
    requires d > 0
    decreases a
  {
    if a < d then 0 else 1 + Quot(a - d, d)
  }

  function Rem(a: nat, d: nat): (r: nat)
    requires d > 0
    ensures r < d
    decreases a
  {
    if a < d then a else Rem(a - d, d)
  }

  lemma {:induction false} QuotRem(a: nat, d: nat)
    requires d > 0
    ensures Quot(a, d) == a / d && Rem(a, d) == a % d
    decreases a
  {
    DivMod(a, d);
    if a < d {
      SmallMod(a, d);
      MulCancel(a / d, 0, d);
    } else {
      QuotRem(a - d, d);
      DivMod(a - d, d);
      MulAddMod(1, d, a - d);
      DistribR((a - d) / d, 1, d);
      MulCancel(a / d, (a - d) / d + 1, d);
    }
  }

  /** `d` is a positive divisor of `x`. */
  predicate Divides(d: nat, x: int) {
    d > 0 && x % d == 0
  }

  /** Products and quotients, one algebraic law at a time. */
  lemma Assoc(a: int, b: int, c: int)
    ensures a * (b * c) == (a * b) * c
  {
  }

  lemma Comm(a: int, b: int)
    ensures a * b == b * a
  {
  }

  lemma DistribR(a: int, b: int, c: int)
    ensures (a + b) * c == a * c + b * c
    ensures (a - b) * c == a * c - b * c
  {
  }

  lemma DistribL(a: int, b: int, c: int)
    ensures a * (b + c) == a * b + a * c
    ensures a * (b - c) == a * b - a * c
  {
  }

  lemma MulBounds(e: int, n: int)
    requires n >= 0
    ensures e >= 1 ==> e * n >= n
    ensures e <= -1 ==> e * n <= -n
    ensures e == 0 ==> e * n == 0
  {
    if e >= 1 {
      DistribR(e - 1, 1, n);
    } else if e <= -1 {
      DistribR(e + 1, 1, n);
    }
  }

  lemma MulCancel(a: int, b: int, d: int)
    requires d > 0 && a * d == b * d
    ensures a == b
  {
    DistribR(a, b, d);
    MulBounds(a - b, d);
  }

  lemma DivMod(x: int, d: int)
    requires d > 0
    ensures x == (x / d) * d + x % d && 0 <= x % d < d
  {
    Comm(x / d, d);
  }

  lemma SmallMod(i: int, d: int)
    requires 0 <= i < d
    ensures i % d == i
  {
    DivMod(i, d);
    MulBounds(i / d, d);
  }

  /** Adding a multiple of `c` does not change the remainder modulo `c`. */
  lemma MulAddMod(k: int, c: int, x: int)
    requires c > 0
    ensures (k * c + x) % c == x % c
  {
    var y := k * c + x;
    DivMod(y, c);
    DivMod(x, c);
    var e := k - y / c + x / c;
    DistribR(k - y / c, x / c, c);
    DistribR(k, y / c, c);
    MulBounds(e, c);
  }

  /** A multiple of a positive `d` divided by `d` gives back the factor. */
  lemma MulDiv(k: int, d: int)
    requires d > 0
    ensures (k * d) / d == k && (k * d) % d == 0
  {
    MulAddMod(k, d, 0);
    DivMod(k * d, d);
    MulCancel((k * d) / d, k, d);
  }

  /** A divisor of `n` divides `m` exactly when it divides `m % n`. */
  lemma ModKeepsDivisor(c: nat, m: nat, n: nat)
    requires c > 0 && n > 0 && n % c == 0
    ensures m % c == 0 <==> (m % n) % c == 0
  {
    DivMod(m, n);
    DivMod(n, c);
    Assoc(m / n, n / c, c);
    MulAddMod((m / n) * (n / c), c, m % n);
  }

  /** `Gcd` is zero only for two zeros, and otherwise divides both. */
  lemma {:induction false} GcdDivides(m: nat, n: nat)
    ensures Gcd(m, n) == 0 <==> m == 0 && n == 0
    ensures Gcd(m, n) > 0 ==> Divides(Gcd(m, n), m) && Divides(Gcd(m, n), n)
    decreases n
  {
    if n > 0 {
      QuotRem(m, n);
      GcdDivides(n, m % n);
      ModKeepsDivisor(Gcd(m, n), m, n);
    }
  }

  /** The gcd of `m` and a positive `n` is positive and at most `n`. */
  lemma GcdBelow(m: nat, n: nat)
    requires n > 0
    ensures 0 < Gcd(m, n) <= n
  {
    GcdDivides(m, n);
    var g := Gcd(m, n);
    DivMod(n, g);
    MulBounds(n / g, g);
  }

  /** Every common divisor divides `Gcd`. */
  lemma {:induction false} GcdGreatest(m: nat, n: nat, c: nat)
    requires Divides(c, m) && Divides(c, n)
    ensures Divides(c, Gcd(m, n))
    decreases n
  {
    if n > 0 {
      QuotRem(m, n);
      ModKeepsDivisor(c, m, n);
      GcdGreatest(n, m % n, c);
    }
  }

  /** Bezout: `Gcd(m, n)` is an integer combination of `m` and `n`. */
  lemma {:induction false} Bezout(m: nat, n: nat) returns (x: int, y: int)
    ensures x * m + y * n == Gcd(m, n)
    decreases n
  {
    if n == 0 {
      x, y := 1, 0;
    } else {
      var q := m / n;
      QuotRem(m, n);
      DivMod(m, n);
      var x', y' := Bezout(n, Rem(m, n));
      DistribL(y', m, q * n);
      Assoc(y', q, n);
      DistribR(x', y' * q, n);
      x, y := y', x' - y' * q;
    }
  }

  /** One step of the rotation map on positions `0 .. n - 1`. */
  function Next(x: nat, l: nat, n: nat): (y: nat)
    requires x < n && l < n
    ensures y < n
  {
    if x + l < n then x + l else x + l - n
  }

  /** The position `t` steps along the cycle through `i`. */
  function Pos(i: nat, t: nat, l: nat, n: nat): (p: nat)
    requires i < n && l < n
    ensures p < n
  {
    if t == 0 then i else Next(Pos(i, t - 1, l, n), l, n)
  }

  /** How many of the first `t` steps wrapped past the end. */
  function Wraps(i: nat, t: nat, l: nat, n: nat): nat
    requires i < n && l < n
  {
    if t == 0 then 0
    else Wraps(i, t - 1, l, n) + (if Pos(i, t - 1, l, n) + l >= n then 1 else 0)
  }

  /** Closed form: `t` steps add `t * l` and subtract `n` once per wrap. */
  lemma {:induction false} PosClosed(i: nat, t: nat, l: nat, n: nat)
    requires i < n && l < n
    ensures i + t * l == Wraps(i, t, l, n) * n + Pos(i, t, l, n)
    decreases t
  {
    if t > 0 {
      PosClosed(i, t - 1, l, n);
      DistribR(t - 1, 1, l);
      if Pos(i, t - 1, l, n) + l >= n {
        DistribR(Wraps(i, t - 1, l, n), 1, n);
      }
    }
  }

  /** The setting of a non-trivial rotation: `0 < l < n`, `d` the gcd, and
      the cycle start `i` one of the `d` residues. */
  ghost predicate Setting(i: nat, l: nat, n: nat, d: nat) {
    0 < l < n && d == Gcd(n, l) && i < d && i < n
  }

  /** The facts about `d` every orbit lemma starts from. */
  lemma SettingFacts(i: nat, l: nat, n: nat, d: nat)
    requires Setting(i, l, n, d)
    ensures 0 < d <= l
    ensures (n / d) * d == n && (l / d) * d == l
    ensures n / d >= 2 && l / d >= 1
  {
    GcdDivides(n, l);
    DivMod(n, d);
    DivMod(l, d);
    MulBounds(l / d, d);
    MulBounds(n / d, d);
  }

  /** Dividing Bezout's identity by `d`: the cycle length `n / d` and the
      reduced step `l / d` are coprime. */
  lemma ReducedBezout(i: nat, l: nat, n: nat, d: nat) returns (x: int, y: int)
    requires Setting(i, l, n, d)
    ensures x * (n / d) + y * (l / d) == 1
  {
    SettingFacts(i, l, n, d);
    x, y := Bezout(n, l);
    var L, lq := n / d, l / d;
    Assoc(x, L, d);
    Assoc(y, lq, d);
    DistribR(x * L, y * lq, d);
    MulCancel(x * L + y * lq, 1, d);
  }

  /** Every position on the cycle through `i` is congruent to `i`. */
  lemma PosResidue(i: nat, t: nat, l: nat, n: nat, d: nat)
    requires Setting(i, l, n, d)
    ensures Pos(i, t, l, n) % d == i
  {
    SettingFacts(i, l, n, d);
    PosClosed(i, t, l, n);
    var L, lq, w := n / d, l / d, Wraps(i, t, l, n);
    Assoc(t, lq, d);
    Assoc(w, L, d);
    DistribR(t * lq, w * L, d);
    MulAddMod(t * lq - w * L, d, i);
    SmallMod(i, d);
  }

  /** After `n / d` steps the cycle is back at its start. */
  lemma PosPeriod(i: nat, l: nat, n: nat, d: nat)
    requires Setting(i, l, n, d)
    ensures Pos(i, n / d, l, n) == i
  {
    SettingFacts(i, l, n, d);
    var L, lq := n / d, l / d;
    PosClosed(i, L, l, n);
    var w := Wraps(i, L, l, n);
    Assoc(L, lq, d);
    Assoc(lq, L, d);
    Comm(L, lq);
    DistribR(lq, w, n);
    MulBounds(lq - w, n);
  }

  /** The last position of the cycle is `i + (n - l)`: one step from it
      wraps back to `i`. */
  lemma PosLast(i: nat, l: nat, n: nat, d: nat)
    requires Setting(i, l, n, d)
    ensures n / d >= 2
    ensures Pos(i, n / d - 1, l, n) == i + (n - l)
    ensures Pos(i, n / d - 1, l, n) + l >= n
  {
    SettingFacts(i, l, n, d);
    PosPeriod(i, l, n, d);
  }

  /** The first `n / d` positions of a cycle are pairwise different. */
  lemma PosDistinct(i: nat, t1: nat, t2: nat, l: nat, n: nat, d: nat)
    requires Setting(i, l, n, d)
    requires t1 < t2 < n / d
    ensures Pos(i, t1, l, n) != Pos(i, t2, l, n)
  {
    SettingFacts(i, l, n, d);
    var L, lq := n / d, l / d;
    if Pos(i, t1, l, n) == Pos(i, t2, l, n) {
      PosClosed(i, t1, l, n);
      PosClosed(i, t2, l, n);
      var D, z := t2 - t1, Wraps(i, t2, l, n) - Wraps(i, t1, l, n);
      DistribR(t2, t1, l);
      DistribR(Wraps(i, t2, l, n), Wraps(i, t1, l, n), n);
      assert D * l == z * n;
      Assoc(D, lq, d);
      Assoc(z, L, d);
      MulCancel(D * lq, z * L, d);
      var x, y := ReducedBezout(i, l, n, d);
      CoprimeMultiple(D, z, L, lq, x, y);
    }
  }

  /** If `L` and `lq` are coprime (witnessed by `x`, `y`), `L` divides
      every `D` with `D * lq` a multiple of `L`; so no `D` strictly between
      0 and `L` has that property. */
  lemma CoprimeMultiple(D: int, z: int, L: int, lq: int, x: int, y: int)
    requires x * L + y * lq == 1 && D * lq == z * L
    ensures !(0 < D < L)
  {
    DistribL(D, x * L, y * lq);
    Assoc(D, x, L);
    Assoc(D, y, lq);
    Comm(D, y);
    Assoc(y, D, lq);
    Assoc(y, z, L);
    DistribR(D * x, y * z, L);
    assert D == (D * x + y * z) * L;
    if 0 < D < L {
      MulBounds(D * x + y * z, L);
    }
  }

  /** Every position congruent to `i` lies on the first `n / d` steps of the
      cycle through `i`. */
  lemma PosCover(i: nat, k: nat, l: nat, n: nat, d: nat) returns (t: nat)
    requires Setting(i, l, n, d)
    requires k < n && k % d == i
    ensures t < n / d && Pos(i, t, l, n) == k
  {
    SettingFacts(i, l, n, d);
    var L, lq := n / d, l / d;
    var x, y := ReducedBezout(i, l, n, d);
    var q := k / d;
    DivMod(k, d);
    DivMod(y * q, L);
    var w := (y * q) / L;
    t := (y * q) % L;
    PosClosed(i, t, l, n);
    var W := Wraps(i, t, l, n);
    // t * lq == q - (q * x + w * lq) * L, using y * lq == 1 - x * L
    DistribR(y * q, w * L, lq);
    Comm(y, q);
    Assoc(q, y, lq);
    DistribL(q, 1, x * L);
    Assoc(q, x, L);
    Assoc(w, L, lq);
    Comm(L, lq);
    Assoc(w, lq, L);
    var z := q * x + w * lq;
    DistribR(q * x, w * lq, L);
    assert t * lq == q - z * L;
    Assoc(t, lq, d);
    DistribR(q, z * L, d);
    Assoc(z, L, d);
    assert t * l == q * d - z * n;
    DistribR(z, W, n);
    MulBounds(z + W, n);
  }

  /** A position congruent to `i` below `i + m` for a multiple `m` of `d` is
      below `m`. */
  lemma ResidueBelow(x: nat, i: nat, m: nat, d: nat)
    requires 0 < d && i < d && x % d == i && m % d == 0 && x < i + m
    ensures x < m
  {
    DivMod(x, d);
    DivMod(m, d);
    DistribR(m / d, x / d, d);
    MulBounds(m / d - x / d, d);
  }

  /** Of two multiples of `d`, the smaller is at least `d` below the
      larger. */
  lemma MultipleGap(a: int, b: int, d: int)
    requires d > 0 && a % d == 0 && b % d == 0 && a < b
    ensures a + d <= b
  {
    DivMod(a, d);
    DivMod(b, d);
    DistribR(b / d, a / d, d);
    MulBounds(b / d - a / d, d);
  }

  /** The right part `n - l` of the range is a multiple of `d` too. */
  lemma RightQuot(i: nat, l: nat, n: nat, d: nat)
    requires Setting(i, l, n, d)
    ensures (n - l) % d == 0 && (n - l) / d == n / d - l / d
  {
    SettingFacts(i, l, n, d);
    DistribR(n / d, l / d, d);
    MulDiv(n / d - l / d, d);
  }

  /** More steps never mean fewer wraps, nor fewer steps without a wrap. */
  lemma {:induction false} WrapsMono(i: nat, t1: nat, t2: nat, l: nat, n: nat)
    requires i < n && l < n && t1 <= t2
    ensures Wraps(i, t1, l, n) <= Wraps(i, t2, l, n)
    ensures t1 - Wraps(i, t1, l, n) <= t2 - Wraps(i, t2, l, n)
    decreases t2
  {
    if t1 < t2 {
      WrapsMono(i, t1, t2 - 1, l, n);
    }
  }

  /** A whole cycle but its last step wraps `l / d - 1` times. */
  lemma WrapsLast(i: nat, l: nat, n: nat, d: nat)
    requires Setting(i, l, n, d)
    ensures n / d >= 2
    ensures Wraps(i, n / d - 1, l, n) == l / d - 1
  {
    SettingFacts(i, l, n, d);
    PosLast(i, l, n, d);
    var L, lq := n / d, l / d;
    var w := Wraps(i, L - 1, l, n);
    PosClosed(i, L - 1, l, n);
    DistribR(L - 1, 1, l);
    DistribR(w, 1, n);
    assert L * l == (w + 1) * n;
    Assoc(L, lq, d);
    Assoc(lq, L, d);
    Comm(L, lq);
    MulCancel(lq, w + 1, n);
  }
}
