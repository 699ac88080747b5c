/** Divisors, greatest common divisors and parity. */
module Divisibility {
  import opened Arith

  function Times(k: int, d: int): int { k * d }

  ghost predicate Divides(d: int, x: int) { exists k :: Times(k, d) == x }

  lemma Multiple(d: int, x: int, k: int)
    requires x == k * d
    ensures Divides(d, x)
  {
    assert Times(k, d) == x;
  }

  lemma Factor(d: int, x: int) returns (k: int)
    requires Divides(d, x)
    ensures x == k * d
  {
    k :| Times(k, d) == x;
  }

  lemma DividesCombination(d: int, x: int, y: int, a: int, b: int)
    requires Divides(d, x) && Divides(d, y)
    ensures Divides(d, a * x + b * y)
  {
    var k := Factor(d, x);
    var l := Factor(d, y);
    Associate(a, k, d); Associate(b, l, d);
    Distribute(d, a * k, b * l, 0, 0);
    Multiple(d, a * x + b * y, a * k + b * l);
  }

  lemma DividesTrans(c: int, d: int, x: int)
    requires Divides(c, d) && Divides(d, x)
    ensures Divides(c, x)
  {
    var k := Factor(d, x);
    DividesCombination(c, d, d, k, 0);
  }

  lemma DividesBound(d: int, x: int)
    requires Divides(d, x) && 0 < x
    ensures d <= x && d != 0
  {
    var k := Factor(d, x);
    if d > 0 {
      if k <= 0 { MulMono(k, 0, d); }
      MulMono(1, k, d);
    }
  }

  lemma DividesMod(d: int, x: int)
    requires 0 < d
    ensures Divides(d, x) <==> x % d == 0
  {
    if Divides(d, x) {
      var k := Factor(d, x);
      DivModUnique(x, d, k, 0);
    }
    if x % d == 0 { Multiple(d, x, x / d); }
  }

  /** g is the greatest common divisor of u and v; the gcd of 0 and 0 is 0. */
  ghost predicate IsGcd(g: int, u: int, v: int) {
    && 0 <= g && Divides(g, u) && Divides(g, v)
    && forall c :: Divides(c, u) && Divides(c, v) ==> Divides(c, g)
  }

  lemma GcdUnique(g: int, h: int, u: int, v: int)
    requires IsGcd(g, u, v) && IsGcd(h, u, v)
    ensures g == h
  {
    assert Divides(g, h) && Divides(h, g);
    if g > 0 { DividesBound(h, g); }
    if h > 0 { DividesBound(g, h); }
  }

  /** A common divisor that is a combination of the two numbers is the greatest. */
  lemma BezoutGcd(g: int, u: int, v: int, s: int, t: int)
    requires 0 <= g && Divides(g, u) && Divides(g, v) && g == s * u + t * v
    ensures IsGcd(g, u, v)
  {
    forall c | Divides(c, u) && Divides(c, v) ensures Divides(c, g) {
      DividesCombination(c, u, v, s, t);
    }
  }

  /** The two pairs have the same common divisors. */
  ghost predicate SameDivisors(u: int, v: int, a: int, b: int) {
    forall c :: Divides(c, u) && Divides(c, v) <==> Divides(c, a) && Divides(c, b)
  }

  lemma SameGcd(g: int, u: int, v: int, a: int, b: int)
    requires SameDivisors(u, v, a, b) && IsGcd(g, a, b)
    ensures IsGcd(g, u, v)
  {
    assert Divides(g, a) && Divides(g, b);
  }

  lemma SubtractDivisors(u: int, v: int)
    ensures SameDivisors(u, v, u - v, v)
  {
    forall c ensures Divides(c, u) && Divides(c, v) <==> Divides(c, u - v) && Divides(c, v) {
      if Divides(c, u) && Divides(c, v) { DividesCombination(c, u, v, 1, -1); }
      if Divides(c, u - v) && Divides(c, v) { DividesCombination(c, u - v, v, 1, 1); }
    }
  }

  lemma OddProduct(x: int, y: int)
    ensures (x * y) % 2 == (x % 2) * (y % 2)
  {
    if x % 2 == 0 { TwiceTimes(x / 2, y); } else { TwiceAndOneTimes(x / 2, y); }
  }

  lemma TwiceTimes(i: int, y: int)
    ensures ((2 * i) * y) % 2 == 0
  {
    Associate(2, i, y);
    TwiceMore(i * y, 0);
  }

  lemma TwiceAndOneTimes(i: int, y: int)
    ensures ((2 * i + 1) * y) % 2 == y % 2
  {
    Distribute(y, 2 * i, 1, 0, 0);
    Associate(2, i, y);
    TwiceMore(i * y, y);
  }

  lemma TwiceMore(z: int, w: int)
    ensures (2 * z + w) % 2 == w % 2
  {
  }

  lemma OddDivisor(c: int, v: int)
    requires Divides(c, v) && v % 2 == 1
    ensures c % 2 == 1
  {
    var k := Factor(c, v);
    OddProduct(k, c);
  }

  /** Halving one of two numbers keeps the common divisors when the other is odd. */
  lemma HalveDivisors(u: int, v: int)
    requires v % 2 == 1 && u % 2 == 0
    ensures SameDivisors(u, v, u / 2, v)
  {
    forall c ensures Divides(c, u) && Divides(c, v) <==> Divides(c, u / 2) && Divides(c, v) {
      if Divides(c, u) && Divides(c, v) {
        OddDivisor(c, v);
        var k := Factor(c, u);
        OddProduct(k, c);
        Associate(2, k / 2, c);
        Multiple(c, u / 2, k / 2);
      }
      if Divides(c, u / 2) && Divides(c, v) { DividesCombination(c, u / 2, v, 2, 0); }
    }
  }

  lemma {:induction false} ShiftDivisors(u: int, v: int, k: nat)
    requires v % 2 == 1
    ensures SameDivisors(u * Pow2(k), v, u, v)
    decreases k
  {
    if k > 0 {
      var w := u * Pow2(k - 1);
      Associate(u, 2, Pow2(k - 1));
      assert u * Pow2(k) == 2 * w;
      hide Pow2, Divides;
      HalveDivisors(2 * w, v);
      ShiftDivisors(u, v, k - 1);
    }
  }

  /** Every two numbers have a gcd that is a combination of them. */
  lemma {:induction false} Bezout(u: nat, v: nat) returns (g: int, s: int, t: int)
    ensures IsGcd(g, u, v) && g == s * u + t * v
    decreases v
  {
    if v == 0 {
      g, s, t := u, 1, 0;
      Multiple(g, u, 1); Multiple(g, v, 0);
    } else {
      var q, r := u / v, u % v;
      var s', t';
      g, s', t' := Bezout(v, r);
      s, t := t', s' - q * t';
      assert u == q * v + r;
      EuclidStep(u, v, q, r, s', t');
      DividesCombination(g, v, r, q, 1);
    }
    BezoutGcd(g, u, v, s, t);
  }

  lemma EuclidStep(u: int, v: int, q: int, r: int, s: int, t: int)
    requires u == q * v + r
    ensures t * u + (s - q * t) * v == s * v + t * r
  {
    Distribute(t, q * v, r, 0, 0);
    Distribute(v, s, 0, 0, q * t);
    Associate(t, q, v); Associate(v, q, t);
  }

  lemma ScaleGcd(g: int, u: nat, v: nat, m: nat)
    requires IsGcd(g, u, v) && 0 < m
    ensures IsGcd(g * m, u * m, v * m)
  {
    var h, s, t := Bezout(u, v);
    GcdUnique(g, h, u, v);
    ScaleFactor(g, u, m); ScaleFactor(g, v, m);
    Distribute(m, s * u, t * v, 0, 0);
    Associate(s, u, m); Associate(t, v, m);
    MulBounds(0, g, 0, m);
    BezoutGcd(g * m, u * m, v * m, s, t);
  }

  lemma ScaleFactor(g: int, u: int, m: int)
    requires Divides(g, u)
    ensures Divides(g * m, u * m)
  {
    var k := Factor(g, u);
    Associate(k, g, m);
    Multiple(g * m, u * m, k);
  }

  /** How often 2 divides x. */
  function TrailingZeros(x: int): (k: nat)
    requires 0 < x
    ensures x % Pow2(k) == 0 && x / Pow2(k) * Pow2(k) == x && (x / Pow2(k)) % 2 == 1
  {
    if x % 2 == 1 then
      assert Pow2(0) == 1;
      0
    else
      var k := TrailingZeros(x / 2);
      OneMoreZero(x, k);
      k + 1
  }

  lemma OneMoreZero(x: int, k: nat)
    requires 0 < x && x % 2 == 0 && (x / 2) / Pow2(k) * Pow2(k) == x / 2 && ((x / 2) / Pow2(k)) % 2 == 1
    ensures x % Pow2(k + 1) == 0 && x / Pow2(k + 1) == (x / 2) / Pow2(k)
    ensures x / Pow2(k + 1) * Pow2(k + 1) == x
  {
    var q := (x / 2) / Pow2(k);
    Associate(q, 2, Pow2(k));
    DivModUnique(x, Pow2(k + 1), q, 0);
  }
}
