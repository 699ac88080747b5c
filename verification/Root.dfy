/** Integer z-th roots by Newton's iteration. */
module Root {
  import opened Arith
  import opened Limb
  import opened LimbLogic
  import opened Mpz
  import opened Power

  /** x is the z-th root of y, truncated toward zero. */
  ghost predicate IsRoot(x: int, y: int, z: nat) {
    if y >= 0 then 0 <= x && Pow(x, z) <= y < Pow(x + 1, z)
    else x <= 0 && Pow(-x, z) <= -y < Pow(-x + 1, z)
  }

  /** The root is determined by the number. */
  lemma RootUnique(x: int, x': int, y: int, z: nat)
    requires IsRoot(x, y, z) && IsRoot(x', y, z)
    ensures x == x'
  {
    var a, b := Abs(x), Abs(x');
    if a < b { PowMono(a + 1, b, z); }
    if b < a { PowMono(b + 1, a, z); }
  }

  /** The inequality of arithmetic and geometric means, for one x and z - 1 times u. */
  lemma {:induction false} MeansInequality(x: int, u: int, z: nat)
    requires 0 <= x && 0 <= u && 1 <= z
    ensures z * x * Pow(u, z - 1) - (z - 1) * Pow(u, z) <= Pow(x, z)
    decreases z
  {
    if z == 1 {
      assert Pow(u, 0) == 1 && Pow(x, 1) == x * Pow(x, 0);
    } else {
      MeansInequality(x, u, z - 1);
      var p := Pow(u, z - 2);
      assert Pow(u, z - 1) == u * p && Pow(u, z) == u * (u * p);
      PowMono(0, u, z - 2);
      MeansStep(x, u, p, z - 1, Pow(x, z - 1));
    }
  }

  lemma MeansStep(x: int, u: int, p: int, k: int, y: int)
    requires 0 <= x && 0 <= p && 1 <= k && k * x * p - (k - 1) * (u * p) <= y
    ensures (k + 1) * x * (u * p) - k * (u * (u * p)) <= x * y
  {
    MulMono(k * x * p - (k - 1) * (u * p), y, x);
    var d := x - u;
    assert 0 <= k * p * (d * d) by { MulBounds(0, k, 0, p); assert 0 <= d * d; MulBounds(0, k * p, 0, d * d); }
    MeansAlgebra(x, u, p, k);
  }

  lemma MeansAlgebra(x: int, u: int, p: int, k: int)
    ensures (k * x * p - (k - 1) * (u * p)) * x - ((k + 1) * x * (u * p) - k * (u * (u * p))) ==
            k * p * ((x - u) * (x - u))
  {
  }

  /** One Newton step never falls below the root. */
  lemma {:induction false} NewtonAbove(a: int, u: int, z: nat, q: int, n: int)
    requires 0 <= a && 0 < u && 1 <= z && 0 <= q && 0 <= n
    requires a < (q + 1) * Pow(u, z - 1) && q + (z - 1) * u < z * (n + 1)
    ensures a < Pow(n + 1, z)
  {
    var x, p := n + 1, Pow(u, z - 1);
    assert Pow(u, z) == u * p;
    hide Pow;
    MeansInequality(x, u, z);
    NewtonAlgebra(a, q, p, z * x, z - 1, u, Pow(x, z));
  }

  lemma NewtonAlgebra(a: int, q: int, p: int, zx: int, y: int, u: int, w: int)
    requires a < (q + 1) * p && 0 <= p && q + 1 <= zx - y * u && zx * p - y * (u * p) <= w
    ensures a < w
  {
    MulMono(q + 1, zx - y * u, p);
    Distribute(p, zx, 0, 0, y * u);
    Associate(y, u, p);
  }

  /** A step that does not go down was taken from at most the root. */
  lemma {:induction false} NewtonStops(a: int, u: int, z: nat, q: int, n: int)
    requires 0 < u && 1 <= z && u <= n
    requires q * Pow(u, z - 1) <= a && z * n <= q + (z - 1) * u
    ensures Pow(u, z) <= a
  {
    MulMono(u, n, z);
    Distribute(u, z, 0, 0, 1);
    MulMono(u, q, Pow(u, z - 1));
  }

  lemma FloorBounds(n: int, d: int)
    requires 0 <= n && 0 < d
    ensures 0 <= n / d && (n / d) * d <= n < (n / d + 1) * d
  {
    var q := n / d;
    Distribute(d, q, 1, 0, 0);
    if q < 0 { MulMono(q, -1, d); }
  }

  /** mpz_sizeinbase(y, 2). */
  function BitLength(a: int): (n: nat)
    requires 0 < a
    ensures 1 <= n && Pow2(n - 1) <= a < Pow2(n)
  {
    if a == 1 then assert Pow2(0) == 1; 1 else 1 + BitLength(a / 2)
  }

  /** The exponent of the starting value. */
  function StartBits(a: int, z: nat): (k: nat)
    requires 0 < a && 1 <= z
  {
    FloorBounds(BitLength(a), z);
    BitLength(a) / z + 1
  }

  /** The starting value 2^(bits / z + 1) is above the root. */
  lemma StartAbove(a: int, z: nat)
    requires 0 < a && 1 <= z
    ensures a < Pow(Pow2(StartBits(a, z)) + 1, z)
  {
    var n, k := BitLength(a), StartBits(a, z);
    FloorBounds(n, z);
    Pow2Mono(n, k * z);
    PowOfTwo(k); PowOfTwo(k * z);
    PowMul(2, k, z);
    PowMono(Pow2(k), Pow2(k) + 1, z);
  }

  /** mpz_tdiv_q for a positive divisor. */
  function Tdiv(n: int, d: int): (q: int)
    requires 0 < d
  {
    if n >= 0 then n / d else -((-n) / d)
  }

  /** u and its successor t, with the quotient q of a by |u|^(z - 1): magnitudes of one Newton step. */
  ghost predicate Stepped(a: int, z: nat, u: int, q: int, t: int)
    requires 1 <= z
  {
    && 0 <= q && 0 <= t
    && q * Pow(u, z - 1) <= a < (q + 1) * Pow(u, z - 1)
    && z * t <= q + (z - 1) * u < z * (t + 1)
  }

  lemma MagnitudeStep(a: int, z: nat, u: int, p: int)
    requires 0 <= a && 1 <= z && 0 < u && p == Pow(u, z - 1) && 0 < p
    ensures 0 <= a / p && Stepped(a, z, u, a / p, (a / p + (z - 1) * u) / z)
  {
    FloorBounds(a, p);
    var q := a / p;
    MulBounds(0, z - 1, 0, u);
    FloorBounds(q + (z - 1) * u, z);
  }

  /** One step of the loop, on signed numbers: the sign of y is carried along. */
  method NewtonStep(y: int, u: int, z: Limb) returns (t: int, ghost q: int)
    requires 1 <= z && y != 0 && u != 0 && (u < 0) == (y < 0) && (y < 0 ==> z % 2 == 1)
    ensures t == 0 || (t < 0) == (y < 0)
    ensures Stepped(Abs(y), z, Abs(u), q, Abs(t))
  {
    var p := PowUi(u, z - 1);
    EvenPower(u, z - 1);
    ghost var neg, a, w := y < 0, Abs(y), Abs(u);
    MagnitudeStep(a, z, w, p);
    q := a / p;
    t := Tdiv(y, p);
    assert t == Signed(neg, q) by { TdivSigned(neg, a, p); }
    var v := u * (z - 1);
    SignedScale(neg, w, z - 1);
    t := t + v;
    MulBounds(0, z - 1, 0, w);
    TdivSigned(neg, q + (z - 1) * w, z);
    t := Tdiv(t, z);
  }

  lemma EvenPower(u: int, k: nat)
    requires u != 0 && (u < 0 ==> k % 2 == 0)
    ensures Pow(u, k) == Pow(Abs(u), k) > 0
  {
    PowNegate(u, k);
  }

  lemma SignedScale(neg: bool, w: int, k: int)
    ensures Signed(neg, w) * k == Signed(neg, k * w)
  {
    Opposite(w, k);
  }

  lemma TdivSigned(neg: bool, a: int, d: int)
    requires 0 <= a && 0 < d
    ensures Tdiv(Signed(neg, a), d) == Signed(neg, a / d)
  {
    if a == 0 { DivModUnique(0, d, 0, 0); }
  }

  /** The same step for square roots. */
  method SqrtStep(y: int, u: int) returns (t: int, ghost q: int)
    requires 0 < y && 0 < u
    ensures 0 <= t && Stepped(y, 2, u, q, t)
  {
    assert Pow(u, 1) == u * Pow(u, 0);
    MagnitudeStep(y, 2, u, u);
    t := Tdiv(y, u);
    q := t;
    t := t + u;
    t := t / 2;
  }

  /** A step from above the root stays above, and is positive. */
  lemma {:induction false} StepAbove(a: int, z: nat, u: int, q: int, t: int)
    requires 1 < a && 1 <= z && 0 < u && Stepped(a, z, u, q, t)
    ensures 0 < t && a < Pow(t + 1, z)
    ensures u <= t ==> Pow(u, z) <= a
  {
    NewtonAbove(a, u, z, q, t);
    if t == 0 { PowOne(z); }
    if u <= t { NewtonStops(a, u, z, q, t); }
  }

  lemma {:induction false} PowOne(z: nat)
    ensures Pow(1, z) == 1
    decreases z
  {
    if z > 0 { PowOne(z - 1); }
  }

  /** The loop for z == 2. */
  method SqrtLoop(y: int, t0: int) returns (u: int)
    requires 1 < y && 0 < t0 && y < Pow(t0 + 1, 2)
    ensures 0 < u && Pow(u, 2) <= y < Pow(u + 1, 2)
  {
    u := t0;
    var t;
    ghost var q;
    t, q := SqrtStep(y, u);
    StepAbove(y, 2, u, q, t);
    while t < u
      invariant 0 < u && y < Pow(u + 1, 2)
      invariant 0 < t && y < Pow(t + 1, 2) && (u <= t ==> Pow(u, 2) <= y)
      decreases u
    {
      u := t;
      t, q := SqrtStep(y, u);
      StepAbove(y, 2, u, q, t);
    }
  }

  /** The loop for the other exponents. */
  method RootLoop(y: int, z: Limb, t0: int) returns (u: int)
    requires 1 < Abs(y) && 1 <= z && t0 != 0 && (t0 < 0) == (y < 0) && (y < 0 ==> z % 2 == 1)
    requires Abs(y) < Pow(Abs(t0) + 1, z)
    ensures u != 0 && (u < 0) == (y < 0) && Pow(Abs(u), z) <= Abs(y) < Pow(Abs(u) + 1, z)
  {
    u := t0;
    var t;
    ghost var q;
    t, q := NewtonStep(y, u, z);
    StepAbove(Abs(y), z, Abs(u), q, Abs(t));
    while Abs(t) < Abs(u)
      invariant u != 0 && (u < 0) == (y < 0) && Abs(y) < Pow(Abs(u) + 1, z)
      invariant t != 0 && (t < 0) == (y < 0) && Abs(y) < Pow(Abs(t) + 1, z)
      invariant Abs(u) <= Abs(t) ==> Pow(Abs(u), z) <= Abs(y)
      decreases Abs(u)
    {
      u := t;
      t, q := NewtonStep(y, u, z);
      StepAbove(Abs(y), z, Abs(u), q, Abs(t));
    }
  }

  /** mpz_rootrem: false stands for its two fatal errors. */
  method RootRem(y: int, z: Limb) returns (ok: bool, x: int, r: int)
    ensures ok <==> z != 0 && (y < 0 ==> z % 2 == 1)
    ensures ok ==> IsRoot(x, y, z) && y == Pow(x, z) + r
  {
    x, r := 0, 0;
    if y < 0 && z % 2 == 0 { return false, x, r; }
    if z == 0 { return false, x, r; }
    ok := true;
    if Abs(y) <= 1 {
      x := y;
      SmallRoot(y, z);
      return;
    }
    StartAbove(Abs(y), z);
    var t: int := Pow2(StartBits(Abs(y), z));
    var u;
    if z == 2 {
      u := SqrtLoop(y, t);
    } else {
      if y < 0 { t := -t; }
      u := RootLoop(y, z, t);
    }
    t := PowUi(u, z);
    r := y - t;
    x := u;
  }

  lemma {:induction false} SmallRoot(y: int, z: nat)
    requires Abs(y) <= 1 && 1 <= z && (y < 0 ==> z % 2 == 1)
    ensures IsRoot(y, y, z) && Pow(y, z) == y
  {
    PowOne(z);
    PowNegate(1, z);
    assert Pow(0, z) == 0;
    assert Pow(2, z) > 1 by { PowOne(z - 1); PowMono(1, 2, z - 1); }
  }

  /** What is left over has the sign of y and is less than the gap to the next power. */
  lemma RemainderSign(x: int, y: int, z: nat, r: int)
    requires IsRoot(x, y, z) && y == Pow(x, z) + r && (y < 0 ==> z % 2 == 1)
    ensures r != 0 ==> (r < 0) == (y < 0)
    ensures Abs(r) < Pow(Abs(x) + 1, z) - Pow(Abs(x), z)
  {
    PowNegate(x, z);
  }
}
