/** Extended binary gcd and modular inverse, over the integers that mpz_t objects hold. */
module GcdExt {
  import opened Arith
  import opened Limb
  import opened Mpz
  import opened Divisibility

  function Sign(x: int): (s: int) { if x < 0 then -1 else if x == 0 then 0 else 1 }

  /** |_mp_size|: how many limbs a magnitude takes. */
  function LimbSize(x: int): (n: nat)
    requires 0 <= x
  {
    if x == 0 then 0 else 1 + LimbSize(x / B)
  }

  /** x without its factors of two. */
  function OddPart(x: int): (q: int)
    requires 0 < x
  {
    x / Pow2(TrailingZeros(x))
  }

  /** mpz_make_odd. */
  method MakeOdd(r: int) returns (q: int, shift: nat)
    requires 0 < r
    ensures r == q * Pow2(shift) && q % 2 == 1 && 0 < q <= r && q == OddPart(r)
  {
    shift := TrailingZeros(r);
    q := r / Pow2(shift);
    PositiveFactor(q, Pow2(shift), r);
  }

  lemma PositiveFactor(q: int, p: int, r: int)
    requires q * p == r && 0 < p && 0 < r
    ensures 0 < q <= r
  {
    if q <= 0 { MulMono(q, 0, p); }
    MulMono(1, p, q);
  }

  /** u and v in terms of tu and tv, with cofactors of determinant det. */
  ghost predicate Cofactors(u: int, v: int, tu: int, tv: int, t0: int, t1: int, s0: int, s1: int, det: int) {
    && u == t0 * tu + t1 * tv
    && v == s0 * tu + s1 * tv
    && t0 * s1 - s0 * t1 == det
    && 0 <= t0 && 0 <= t1 && 0 <= s0 && 0 <= s1
  }

  /** tv = tv' + tu, or tu = tu' + tv. */
  lemma Subtract(u: int, v: int, tu: int, tv: int, t0: int, t1: int, s0: int, s1: int, det: int)
    requires Cofactors(u, v, tu, tv, t0, t1, s0, s1, det)
    ensures Cofactors(u, v, tu, tv - tu, t0 + t1, t1, s0 + s1, s1, det)
    ensures Cofactors(u, v, tu - tv, tv, t0, t0 + t1, s0, s0 + s1, det)
  {
    Regroup(t0, t1, tu, tv); Regroup(s0, s1, tu, tv);
    Determinant(t0, t1, s0, s1);
  }

  lemma Regroup(a: int, b: int, x: int, y: int)
    ensures (a + b) * x + b * (y - x) == a * x + b * y == a * (x - y) + (a + b) * y
  {
  }

  lemma Determinant(t0: int, t1: int, s0: int, s1: int)
    ensures (t0 + t1) * s1 - (s0 + s1) * t1 == t0 * s1 - s0 * t1 == t0 * (s0 + s1) - s0 * (t0 + t1)
  {
  }

  /** tv = p tv'. */
  lemma ScaleSecond(u: int, v: int, tu: int, tv: int, t0: int, t1: int, s0: int, s1: int, det: int, p: int)
    requires Cofactors(u, v, tu, tv * p, t0, t1, s0, s1, det) && 0 < p
    ensures Cofactors(u, v, tu, tv, t0, t1 * p, s0, s1 * p, det * p)
  {
    Associate(t1, tv, p); Associate(tv, t1, p);
    Associate(s1, tv, p); Associate(tv, s1, p);
    MulBounds(0, t1, 0, p); MulBounds(0, s1, 0, p);
    ScaleDeterminant(t0, s1, s0, t1, p);
  }

  lemma ScaleDeterminant(a: int, b: int, c: int, d: int, p: int)
    ensures a * (b * p) - c * (d * p) == (a * b - c * d) * p == (a * p) * b - (c * p) * d
  {
  }

  /** tu = p tu'. */
  lemma ScaleFirst(u: int, v: int, tu: int, tv: int, t0: int, t1: int, s0: int, s1: int, det: int, p: int)
    requires Cofactors(u, v, tu * p, tv, t0, t1, s0, s1, det) && 0 < p
    ensures Cofactors(u, v, tu, tv, t0 * p, t1, s0 * p, s1, det * p)
  {
    Associate(t0, tu, p); Associate(tu, t0, p);
    Associate(s0, tu, p); Associate(tu, s0, p);
    MulBounds(0, t0, 0, p); MulBounds(0, s0, 0, p);
    ScaleDeterminant(t0, s1, s0, t1, p);
  }

  /** The subtract-and-shift loop: afterwards tu is 0 or tv. */
  method BinarySteps(ghost u: int, ghost v: int, tu0: int, tv0: int, t00: int, t10: int, s00: int, s10: int,
                     power0: nat)
    returns (tu: int, tv: int, t0: int, t1: int, s0: int, s1: int, power: nat)
    requires Cofactors(u, v, tu0, tv0, t00, t10, s00, s10, Pow2(power0))
    requires tu0 % 2 == 1 && tv0 % 2 == 1 && 0 < tu0 && 0 < tv0
    ensures Cofactors(u, v, tu, tv, t0, t1, s0, s1, Pow2(power))
    ensures tu == tv && 0 < tv && tv % 2 == 1
  {
    tu, tv, t0, t1, s0, s1, power := tu0, tv0, t00, t10, s00, s10, power0;
    while tu != tv
      invariant Cofactors(u, v, tu, tv, t0, t1, s0, s1, Pow2(power))
      invariant tu % 2 == 1 && tv % 2 == 1 && 0 < tu && 0 < tv
      decreases tu + tv
    {
      Subtract(u, v, tu, tv, t0, t1, s0, s1, Pow2(power));
      var shift;
      if tu < tv {
        var d := tv - tu;
        t0, s0 := t0 + t1, s0 + s1;
        tv, shift := MakeOdd(d);
        Pow2Add(power, shift);
        ScaleSecond(u, v, tu, tv, t0, t1, s0, s1, Pow2(power), Pow2(shift));
        t1, s1 := t1 * Pow2(shift), s1 * Pow2(shift);
      } else {
        var d := tu - tv;
        t1, s1 := t0 + t1, s0 + s1;
        tu, shift := MakeOdd(d);
        Pow2Add(power, shift);
        ScaleFirst(u, v, tu, tv, t0, t1, s0, s1, Pow2(power), Pow2(shift));
        t0, s0 := t0 * Pow2(shift), s0 * Pow2(shift);
      }
      power := power + shift;
    }
  }

  /** From 2^uz tu and 2^vz tv, with tu and tv odd, to the odd gcd and scaled cofactors of it. */
  method OddGcd(tu0: int, tv0: int, uz: nat, vz: nat) returns (tv: int, s0: int, t0: int, power: nat)
    requires tu0 % 2 == 1 && tv0 % 2 == 1 && 0 < tu0 && 0 < tv0
    ensures var u, v := tu0 * Pow2(uz), tv0 * Pow2(vz);
            && 0 < tv && tv % 2 == 1 && Divides(tv, u) && Divides(tv, v)
            && t0 * v + s0 * u == Pow2(power) * tv && s0 <= 0 && -v <= s0 * tv
  {
    ghost var u, v := tu0 * Pow2(uz), tv0 * Pow2(vz);
    tv := tv0;
    t0 := Pow2(uz);
    var q, tu := tu0 / tv, tu0 % tv;
    var t1 := q * Pow2(uz);
    s0 := 0;
    var s1 := Pow2(vz);
    power := uz + vz;
    QuotientNonneg(tu0, tv);
    Start(tu0, tv, q, tu, Pow2(uz), Pow2(vz));
    Pow2Add(uz, vz);
    if tu > 0 {
      var shift;
      var r := tu;
      tu, shift := MakeOdd(r);
      Pow2Add(power, shift);
        ScaleFirst(u, v, tu, tv, t0, t1, s0, s1, Pow2(power), Pow2(shift));
      t0, s0 := t0 * Pow2(shift), s0 * Pow2(shift);
      power := power + shift;
      tu, tv, t0, t1, s0, s1, power := BinarySteps(u, v, tu, tv, t0, t1, s0, s1, power);
    }
    Finish(u, v, tu, tv, t0, t1, s0, s1, Pow2(power));
    s0 := -s0;
  }

  lemma Start(tu0: int, tv: int, q: int, tu: int, p: int, r: int)
    requires tu0 == q * tv + tu && 0 <= q && 0 < p && 0 < r
    ensures Cofactors(tu0 * p, tv * r, tu, tv, p, q * p, 0, r, p * r)
  {
    Distribute(p, q * tv, tu, 0, 0);
    Associate(p, q, tv);
    MulBounds(0, q, 0, p);
  }

  lemma QuotientNonneg(n: int, d: int)
    requires 0 <= n && 0 < d
    ensures n == n / d * d + n % d && 0 <= n / d
  {
    if n / d < 0 { MulMono(n / d, -1, d); }
  }

  lemma Finish(u: int, v: int, tu: int, tv: int, t0: int, t1: int, s0: int, s1: int, det: int)
    requires Cofactors(u, v, tu, tv, t0, t1, s0, s1, det)
    requires 0 < tv && (tu == tv || (tu == 0 && s0 == 0))
    ensures Divides(tv, u) && Divides(tv, v)
    ensures t0 * v + (-s0) * u == det * tv && 0 <= s0 && -v <= (-s0) * tv
  {
    Multiple(tv, t0 * tu, if tu == 0 then 0 else t0);
    Multiple(tv, s0 * tu, if tu == 0 then 0 else s0);
    Multiple(tv, t1 * tv, t1); Multiple(tv, s1 * tv, s1);
    DividesCombination(tv, t0 * tu, t1 * tv, 1, 1);
    DividesCombination(tv, s0 * tu, s1 * tv, 1, 1);
    Eliminate(t0, t1, s0, s1, tu, tv);
    MulBounds(0, s1, 0, tv);
    Negation(s0, u); Negation(s0, tv);
  }

  lemma Negation(a: int, b: int)
    ensures (-a) * b == -(a * b)
  {
  }

  lemma Eliminate(t0: int, t1: int, s0: int, s1: int, x: int, y: int)
    ensures t0 * (s0 * x + s1 * y) - s0 * (t0 * x + t1 * y) == (t0 * s1 - s0 * t1) * y
  {
    var a, b, c, d := t0 * s0, t0 * s1, s0 * t0, s0 * t1;
    Distribute(t0, s0 * x, s1 * y, 0, 0);
    Distribute(s0, t0 * x, t1 * y, 0, 0);
    Associate(t0, s0, x); Associate(t0, s1, y); Associate(s0, t0, x); Associate(s0, t1, y);
    Distribute(y, b, 0, 0, d);
  }

  /** At least one of two cofactors is odd, and 2^power is a combination: one halving is exact. */
  lemma HalvingExact(s0: int, t0: int, s1: int, t1: int, e: int)
    requires s0 * t1 + t0 * s1 == e && e % 2 == 0 && (s1 % 2 == 1 || t1 % 2 == 1)
    ensures s0 % 2 == 1 || t0 % 2 == 1 ==> (s0 - s1) % 2 == 0 && (t0 + t1) % 2 == 0
  {
    OddProduct(s0, t1);
    OddProduct(t0, s1);
    EvenSum(s0 * t1, t0 * s1);
    Parities((s0 * t1) % 2, (t0 * s1) % 2, s0 % 2, t0 % 2, s1 % 2, t1 % 2);
    SameParity(s0, s1);
    SameParity(t0, t1);
  }

  lemma SameParity(x: int, y: int)
    ensures x % 2 == y % 2 ==> (x - y) % 2 == 0 && (x + y) % 2 == 0
  {
  }

  lemma EvenSum(x: int, y: int)
    requires (x + y) % 2 == 0
    ensures (x % 2 + y % 2) % 2 == 0
  {
  }

  lemma Parities(x: int, y: int, a: int, b: int, c: int, d: int)
    requires 0 <= a <= 1 && 0 <= b <= 1 && 0 <= c <= 1 && 0 <= d <= 1
    requires x == a * d && y == b * c && (x + y) % 2 == 0 && (c == 1 || d == 1)
    ensures a == 1 || b == 1 ==> a == c && b == d
  {
  }

  lemma HalveIdentity(s: int, t: int, s1: int, t1: int)
    ensures (2 * s) * t1 + (2 * t) * s1 == 2 * (s * t1 + t * s1)
  {
  }

  lemma ShiftIdentity(s0: int, t0: int, s1: int, t1: int)
    ensures (s0 - s1) * t1 + (t0 + t1) * s1 == s0 * t1 + t0 * s1 == (s0 + s1) * t1 + (t0 - t1) * s1
  {
  }

  /** The loop that takes the factors of two out of the cofactors. */
  method RemoveTwos(s00: int, t00: int, s1: int, t1: int, power0: nat) returns (s0: int, t0: int)
    requires s00 * t1 + t00 * s1 == Pow2(power0) && (s1 % 2 == 1 || t1 % 2 == 1)
    requires -s1 <= s00 <= 0
    ensures s0 * t1 + t0 * s1 == 1 && -s1 <= s0 <= 0
  {
    s0, t0 := s00, t00;
    var power := power0;
    while power > 0
      invariant s0 * t1 + t0 * s1 == Pow2(power) && -s1 <= s0 <= 0
    {
      HalvingExact(s0, t0, s1, t1, Pow2(power));
      ShiftIdentity(s0, t0, s1, t1);
      if s0 % 2 == 1 || t0 % 2 == 1 {
        s0, t0 := s0 - s1, t0 + t1;
      }
      HalveIdentity(s0 / 2, t0 / 2, s1, t1);
      s0, t0 := s0 / 2, t0 / 2;
      power := power - 1;
    }
  }

  /** The final choice between s and s + v/g: the smaller one in magnitude. */
  method Smaller(s00: int, t00: int, s1: int, t1: int) returns (s0: int, t0: int)
    requires s00 * t1 + t00 * s1 == 1 && -s1 <= s00 <= 0
    ensures s0 * t1 + t0 * s1 == 1 && 2 * Abs(s0) <= s1
  {
    s0, t0 := s00, t00;
    ShiftIdentity(s0, t0, s1, t1);
    var s2 := s0 + s1;
    if Abs(s0) > Abs(s2) {
      s0 := s2;
      t0 := t0 - t1;
    }
  }

  /** The part of mpz_gcdext after the operands have been put in order by size: |u| and |v| are 2^gz 2^uz tu
      and 2^gz 2^vz tv. */
  method OrderedGcdExt(u: int, v: int, tu: int, tv: int, uz: nat, vz: nat, gz: nat) returns (g: int, s: int, t: int)
    requires tu % 2 == 1 && tv % 2 == 1 && 0 < tu && 0 < tv && (uz == 0 || vz == 0)
    requires Abs(u) == tu * Pow2(uz) * Pow2(gz) && Abs(v) == tv * Pow2(vz) * Pow2(gz)
    ensures IsGcd(g, u, v) && 0 < g && g == s * u + t * v
    ensures 2 * Abs(s) * g <= Abs(v)
  {
    ghost var x, y := tu * Pow2(uz), tv * Pow2(vz);
    var o, s0, t0, power := OddGcd(tu, tv, uz, vz);
    g := o * Pow2(gz);
    var s1 := Abs(v) / g;
    var t1 := Abs(u) / g;
    CofactorQuotients(x, y, o, Pow2(gz), s1, t1, s0, t0, Pow2(power));
    OddQuotient(tu, tv, uz, vz, o, s1, t1);
    s0, t0 := RemoveTwos(s0, t0, s1, t1, power);
    s0, t0 := Smaller(s0, t0, s1, t1);
    Signs(u, v, g, s1, t1, s0, t0);
    s := if u < 0 then -s0 else s0;
    t := if v < 0 then -t0 else t0;
  }

  /** The magnitudes divided by g, and 2^power as their combination. */
  lemma CofactorQuotients(x: int, y: int, o: int, m: int, s1: int, t1: int, s0: int, t0: int, p: int)
    requires 0 < o && 0 < m && Divides(o, x) && Divides(o, y) && 0 <= x && 0 <= y
    requires t0 * y + s0 * x == p * o && s0 <= 0 && -y <= s0 * o
    requires 0 < o * m && s1 == (y * m) / (o * m) && t1 == (x * m) / (o * m)
    ensures x == t1 * o && y == s1 * o && x * m == t1 * (o * m) && y * m == s1 * (o * m)
    ensures s0 * t1 + t0 * s1 == p && -s1 <= s0 <= 0
  {
    var k := ExactQuotient(x, o, m);
    var l := ExactQuotient(y, o, m);
    Associate(t0, s1, o); Associate(s0, t1, o);
    Distribute(o, t0 * s1, s0 * t1, 0, 0);
    CancelFactor(t0 * s1 + s0 * t1, p, o);
    Associate(t1, o, m); Associate(s1, o, m);
    if s0 < -s1 { MulMono(s0, -s1 - 1, o); Distribute(o, -s1, 0, 0, 1); Negation(s1, o); }
  }

  lemma CancelFactor(a: int, b: int, c: int)
    requires 0 < c && a * c == b * c
    ensures a == b
  {
    if a < b { MulMono(a + 1, b, c); Distribute(c, a, 1, 0, 0); }
    if b < a { MulMono(b + 1, a, c); Distribute(c, b, 1, 0, 0); }
  }

  lemma ExactQuotient(x: int, o: int, m: int) returns (k: int)
    requires 0 < o && 0 < m && Divides(o, x) && 0 < o * m
    ensures x == k * o && (x * m) / (o * m) == k
  {
    k := Factor(o, x);
    Associate(k, o, m);
    DivModUnique(x * m, o * m, k, 0);
  }

  /** Of the two quotients by the odd gcd at least one is odd. */
  lemma OddQuotient(tu: int, tv: int, uz: nat, vz: nat, o: int, s1: int, t1: int)
    requires tu % 2 == 1 && tv % 2 == 1 && (uz == 0 || vz == 0)
    requires tu * Pow2(uz) == t1 * o && tv * Pow2(vz) == s1 * o
    ensures s1 % 2 == 1 || t1 % 2 == 1
  {
    assert Pow2(0) == 1;
    OddProduct(t1, o); OddProduct(s1, o);
  }

  lemma Signs(u: int, v: int, g: int, s1: int, t1: int, s0: int, t0: int)
    requires 0 < g && Abs(u) == t1 * g && Abs(v) == s1 * g
    requires s0 * t1 + t0 * s1 == 1 && 2 * Abs(s0) <= s1
    ensures var s, t := if u < 0 then -s0 else s0, if v < 0 then -t0 else t0;
            IsGcd(g, u, v) && g == s * u + t * v && 2 * Abs(s) * g <= Abs(v)
  {
    var s, t := if u < 0 then -s0 else s0, if v < 0 then -t0 else t0;
    assert g == s * u + t * v by {
      SignCancels(u, s0); SignCancels(v, t0);
      ScaleIdentity(s0, t1, t0, s1, g);
    }
    assert 2 * Abs(s) * g <= Abs(v) by { MulMono(2 * Abs(s0), s1, g); }
    AbsMultiple(g, u, t1); AbsMultiple(g, v, s1);
    BezoutGcd(g, u, v, s, t);
  }

  lemma ScaleIdentity(a: int, b: int, c: int, d: int, g: int)
    ensures a * (b * g) + c * (d * g) == (a * b + c * d) * g
  {
  }

  lemma AbsMultiple(g: int, u: int, k: int)
    requires Abs(u) == k * g
    ensures Divides(g, u)
  {
    Negation(k, g);
    Multiple(g, u, if u < 0 then -k else k);
  }

  lemma SignCancels(u: int, s: int)
    ensures (if u < 0 then -s else s) * u == s * Abs(u)
  {
  }

  /** The operand whose odd part takes more limbs comes first; its cofactor is the small one. */
  ghost predicate SwapsOperands(u: int, v: int)
    requires u != 0 && v != 0
  {
    var x, y := OddPart(Abs(u)), OddPart(Abs(v));
    0 <= x && 0 <= y && LimbSize(x) < LimbSize(y)
  }

  /** mpz_gcdext. */
  method ExtendedGcd(u: int, v: int) returns (g: int, s: int, t: int)
    ensures IsGcd(g, u, v) && g == s * u + t * v
    ensures u != 0 && v != 0 ==> if SwapsOperands(u, v) then 2 * Abs(t) * g <= Abs(u) else 2 * Abs(s) * g <= Abs(v)
  {
    if u == 0 {
      g, s, t := Abs(v), 0, Sign(v);
      Multiple(g, u, 0); Multiple(g, v, Sign(v));
      BezoutGcd(g, u, v, s, t);
      return;
    }
    if v == 0 {
      g, s, t := Abs(u), Sign(u), 0;
      Multiple(g, u, Sign(u)); Multiple(g, v, 0);
      BezoutGcd(g, u, v, s, t);
      return;
    }
    var tu, uz := MakeOdd(Abs(u));
    var tv, vz := MakeOdd(Abs(v));
    var gz := if uz < vz then uz else vz;
    uz, vz := uz - gz, vz - gz;
    Pow2Add(uz, gz); Pow2Add(vz, gz);
    Associate(tu, Pow2(uz), Pow2(gz)); Associate(tv, Pow2(vz), Pow2(gz));
    if LimbSize(tu) < LimbSize(tv) {
      g, t, s := OrderedGcdExt(v, u, tv, tu, vz, uz, gz);
    } else {
      g, s, t := OrderedGcdExt(u, v, tu, tv, uz, vz, gz);
    }
  }

  /** mpz_invert: finds the inverse exactly when there is one (and the modulus is not 0, 1 or -1). */
  method Invert(u: int, m: int) returns (invertible: bool, r: int)
    ensures invertible <==> u != 0 && Abs(m) > 1 && IsGcd(1, u, m)
    ensures invertible ==> 0 < r < Abs(m) && Divides(m, u * r - 1)
  {
    r := 0;
    if u == 0 || Abs(m) <= 1 { return false, r; }
    var g, s, t := ExtendedGcd(u, m);
    invertible := g == 1;
    if IsGcd(1, u, m) { GcdUnique(g, 1, u, m); }
    if invertible {
      InverseInRange(u, m, s, t);
      r := s;
      if r < 0 {
        r := if m >= 0 then r + m else r - m;
      }
      InverseCongruence(u, m, s, t, r);
    }
  }

  lemma InverseInRange(u: int, m: int, s: int, t: int)
    requires u != 0 && Abs(m) > 1 && 1 == s * u + t * m
    requires 2 * Abs(s) <= Abs(m) || 2 * Abs(t) <= Abs(u)
    ensures s != 0 && Abs(s) < Abs(m)
  {
    if s == 0 { NotUnit(t, m); }
    if 2 * Abs(s) > Abs(m) { SwappedBound(u, m, s, t); }
  }

  lemma NotUnit(t: int, m: int)
    requires Abs(m) > 1
    ensures t * m != 1
  {
    if t * m == 1 { AbsProduct(t, m); PositiveFactor(Abs(m), Abs(t), 1); }
  }

  lemma AbsProduct(a: int, b: int)
    ensures Abs(a * b) == Abs(a) * Abs(b)
  {
  }

  lemma SwappedBound(u: int, m: int, s: int, t: int)
    requires u != 0 && Abs(m) > 1 && 1 == s * u + t * m && 2 * Abs(t) <= Abs(u)
    ensures Abs(s) < Abs(m)
  {
    AbsProduct(s, u); AbsProduct(t, m);
    Swapped(Abs(u), Abs(m), Abs(s), Abs(t));
  }

  lemma Swapped(u: int, m: int, s: int, t: int)
    requires 0 < u && 1 < m && 0 <= t && s * u <= 1 + t * m && 2 * t <= u
    ensures s < m
  {
    if u >= 2 {
      assert (2 * s) * u <= 2 + m * u by {
        MulMono(2 * t, u, m);
        Associate(2, t, m); Associate(2, s, u);
      }
      assert (2 * s) * u < (m + 2) * u by { Distribute(u, m, 2, 0, 0); }
      MulCancel(2 * s, m + 2, u);
    }
  }

  lemma InverseCongruence(u: int, m: int, s: int, t: int, r: int)
    requires 1 == s * u + t * m && (r == s || r == s + m || r == s - m)
    ensures Divides(m, u * r - 1)
  {
    var k := if r == s then 0 else if r == s + m then 1 else -1;
    Distribute(u, s, k * m, 0, 0);
    Associate(u, k, m);
    Distribute(m, u * k, 0, 0, t);
    Multiple(m, u * r - 1, u * k - t);
  }
}
