/** Binary gcd: of two limbs, of an integer and a limb, and of two integers. */
module Gcd {
  import opened Arith
  import opened Bits
  import opened Divisibility
  import opened Limb
  import opened Mpz
  import opened GcdExt
  import opened Scan

  lemma SelfGcd(g: int, u: int)
    requires 0 <= u && IsGcd(g, u, u)
    ensures g == u
  {
    Multiple(u, u, 1);
    GcdUnique(g, u, u, u);
  }

  lemma GcdWithZero(u: int)
    requires 0 <= u
    ensures IsGcd(u, u, 0) && IsGcd(u, 0, u)
  {
    Multiple(u, u, 1);
    Multiple(u, 0, 0);
  }

  lemma GcdSwap(g: int, u: int, v: int)
    requires IsGcd(g, u, v)
    ensures IsGcd(g, v, u)
  {
  }

  lemma SubtractGcd(g: int, u: int, v: int)
    requires IsGcd(g, u, v)
    ensures IsGcd(g, u - v, v)
  {
    SubtractDivisors(u, v);
    MoveGcd(g, u, v, u - v, v);
  }

  lemma MoveGcd(g: int, u: int, v: int, a: int, b: int)
    requires SameDivisors(u, v, a, b) && IsGcd(g, u, v)
    ensures IsGcd(g, a, b)
  {
    assert Divides(g, u) && Divides(g, v);
  }

  lemma HalveGcd(g: int, u: int, v: int)
    requires IsGcd(g, u, v) && v % 2 == 1 && u % 2 == 0
    ensures IsGcd(g, u / 2, v)
  {
    HalveDivisors(u, v);
    MoveGcd(g, u, v, u / 2, v);
  }

  lemma ShiftGcd(g: int, u: int, v: int, k: nat)
    requires v % 2 == 1
    ensures IsGcd(g, u * Pow2(k), v) <==> IsGcd(g, u, v)
  {
    ShiftDivisors(u, v, k);
    if IsGcd(g, u, v) { SameGcd(g, u * Pow2(k), v, u, v); }
    if IsGcd(g, u * Pow2(k), v) { MoveGcd(g, u * Pow2(k), v, u, v); }
  }

  lemma ModGcd(g: int, u: int, v: int)
    requires 0 < v && IsGcd(g, u % v, v)
    ensures IsGcd(g, u, v)
  {
    ModDivisors(u, v);
    SameGcd(g, u, v, u % v, v);
  }

  lemma ModDivisors(u: int, v: int)
    requires 0 < v
    ensures SameDivisors(u, v, u % v, v)
  {
    var q := u / v;
    forall c ensures Divides(c, u) && Divides(c, v) <==> Divides(c, u % v) && Divides(c, v) {
      if Divides(c, u) && Divides(c, v) { DividesCombination(c, u, v, 1, -q); }
      if Divides(c, u % v) && Divides(c, v) { DividesCombination(c, u % v, v, 1, q); }
    }
  }

  /** The trailing zeros of u | v are those that u and v share. */
  lemma {:induction false} CommonZeros(u: int, v: int, w: int)
    requires 0 <= u && 0 <= v && 0 < w == Bitwise(OR, u, v)
    ensures var p := Pow2(TrailingZeros(w));
            u == u / p * p && v == v / p * p && ((u / p) % 2 == 1 || (v / p) % 2 == 1)
    decreases w
  {
    BitwiseHalves(OR, u, v);
    if w % 2 == 1 {
      assert Pow2(0) == 1;
    } else {
      assert u % 2 == 0 && v % 2 == 0;
      CommonZeros(u / 2, v / 2, w / 2);
      var k := TrailingZeros(w);
      assert TrailingZeros(w / 2) == k - 1;
      HalvedZeros(u, k); HalvedZeros(v, k);
    }
  }

  lemma HalvedZeros(u: int, k: nat)
    requires 0 < k && u % 2 == 0 && u / 2 == (u / 2) / Pow2(k - 1) * Pow2(k - 1)
    ensures u / Pow2(k) == (u / 2) / Pow2(k - 1) && u == u / Pow2(k) * Pow2(k)
  {
    var q := (u / 2) / Pow2(k - 1);
    Associate(q, 2, Pow2(k - 1));
    DivModUnique(u, Pow2(k), q, 0);
  }

  /** The inner do-while: halve until odd. */
  method HalveOut(u0: Limb, v: Limb, ghost g: int) returns (u: Limb)
    requires 0 < u0 && u0 % 2 == 0 && v % 2 == 1 && IsGcd(g, u0, v)
    ensures 0 < u < u0 && u % 2 == 1 && IsGcd(g, u, v)
  {
    u := u0 / 2;
    HalveGcd(g, u0, v);
    while u % 2 == 0
      invariant 0 < u < u0 && IsGcd(g, u, v)
      decreases u
    {
      HalveGcd(g, u, v);
      u := u / 2;
    }
  }

  lemma OddDifference(u: int, v: int)
    requires u % 2 == 1 && v % 2 == 1
    ensures (u - v) % 2 == 0 && (v - u) % 2 == 0
  {
  }

  /** The two loops of mpn_gcd_11, once u is odd. */
  method OddLimbs(u0: Limb, v0: Limb, ghost g: int) returns (u: Limb)
    requires u0 % 2 == 1 && 0 < v0 && IsGcd(g, u0, v0)
    ensures u == g
  {
    u := u0;
    var v: Limb := v0;
    while v % 2 == 0
      invariant 0 < v && IsGcd(g, u, v)
      decreases v
    {
      GcdSwap(g, u, v);
      HalveGcd(g, v, u);
      v := v / 2;
      GcdSwap(g, v, u);
    }
    while u != v
      invariant u % 2 == 1 && v % 2 == 1 && IsGcd(g, u, v)
      decreases u + v
    {
      GcdSwap(g, u, v);
      OddDifference(u, v);
      if u > v {
        SubtractGcd(g, u, v);
        u := HalveOut(u - v, v, g);
      } else {
        SubtractGcd(g, v, u);
        v := HalveOut(v - u, u, g);
        GcdSwap(g, v, u);
      }
    }
    SelfGcd(g, u);
  }

  /** mpn_gcd_11. */
  method Gcd11(u0: Limb, v0: Limb) returns (g: Limb)
    requires u0 > 0 || v0 > 0
    ensures IsGcd(g, u0, v0)
  {
    GcdWithZero(u0); GcdWithZero(v0);
    if u0 == 0 { return v0; }
    if v0 == 0 { return u0; }
    OrPositive(u0, v0);
    var shift := Ctz(Bitwise(OR, u0, v0));
    CommonZeros(u0, v0, Bitwise(OR, u0, v0));
    var u, v := Shr(u0, shift), Shr(v0, shift);
    ghost var d, s, t := Bezout(u, v);
    ScaleGcd(d, u, v, Pow2(shift));
    DividesBound(d * Pow2(shift), u0);
    if u % 2 == 0 {
      u, v := v, u;
      GcdSwap(d, v, u);
    }
    u := OddLimbs(u, v, d);
    g := u * Pow2(shift);
  }

  lemma OrPositive(u: Limb, v: Limb)
    requires 0 < u && 0 < v
    ensures 0 < Bitwise(OR, u, v) < B
  {
    Pow2Values();
    BitwiseBound(OR, 64, u, v);
    OrAbove(u, v);
  }

  lemma {:induction false} OrAbove(u: int, v: int)
    requires 0 <= u && 0 <= v
    ensures u <= Bitwise(OR, u, v)
    decreases u + v
  {
    if u > 0 || v > 0 {
      OrAbove(u / 2, v / 2);
      BitwiseHalves(OR, u, v);
    }
  }

  /** mpz_gcd_ui: the gcd that is stored, and the value that is returned. */
  method GcdUi(n: int, v: Limb) returns (g: int, r: Limb)
    ensures IsGcd(g, Abs(n), v)
    ensures r == if v == 0 then 0 else g
  {
    if v == 0 {
      GcdWithZero(Abs(n));
      return Abs(n), v;
    }
    r := v;
    GcdWithZero(v);
    if n != 0 {
      var rem: Limb := Abs(n) % v;
      r := Gcd11(rem, v);
      ModGcd(r, Abs(n), v);
    }
    g := r;
  }

  /** mpz_gcd's loop, for tu nonzero and tv odd. */
  method GcdLoop(u: int, v: int, ghost d: int) returns (g: int)
    requires 0 < u && 0 < v && v % 2 == 1 && IsGcd(d, u, v)
    ensures g == d
  {
    var tu, tv := u, v;
    while true
      invariant 0 < tu && 0 < tv && tv % 2 == 1 && IsGcd(d, tu, tv)
      decreases tu + tv
    {
      var x := tu;
      var shift;
      tu, shift := GcdExt.MakeOdd(x);
      ShiftGcd(d, tu, tv, shift);
      if tu == tv {
        SelfGcd(d, tu);
        return tu;
      }
      GcdSwap(d, tu, tv);
      if tu < tv {
        tu, tv := tv, tu;
      }
      if LimbSize(tv) == 1 {
        g := LastLimb(tu, tv);
        GcdUnique(d, g, tu, tv);
        return;
      }
      SubtractGcd(d, tu, tv);
      tu := tu - tv;
    }
  }

  /** The end of the loop when one limb is left of tv. */
  method LastLimb(tu: int, tv: int) returns (g: int)
    requires 0 < tu && 0 < tv && LimbSize(tv) == 1
    ensures IsGcd(g, tu, tv)
  {
    assert tv / B == 0;
    var vl: Limb := tv;
    var ul: Limb := tu % vl;
    g := Gcd11(ul, vl);
    ModGcd(g, tu, tv);
  }

  /** mpz_gcd. */
  method GcdOf(u: int, v: int) returns (g: int)
    ensures IsGcd(g, Abs(u), Abs(v))
  {
    GcdWithZero(Abs(u)); GcdWithZero(Abs(v));
    if u == 0 { return Abs(v); }
    if v == 0 { return Abs(u); }
    var tu, uz := GcdExt.MakeOdd(Abs(u));
    var tv, vz := GcdExt.MakeOdd(Abs(v));
    var gz := if uz < vz then uz else vz;
    if LimbSize(tu) < LimbSize(tv) {
      tu, tv := tv, tu;
      uz, vz := vz, uz;
    }
    var r := tu % tv;
    if r == 0 {
      g := tv;
      GcdWithZero(tv);
    } else {
      ghost var d, s, t := Bezout(r, tv);
      g := GcdLoop(r, tv, d);
    }
    ModGcd(g, tu, tv);
    CommonTwos(g, tu, tv, uz, vz, gz);
    g := g * Pow2(gz);
  }

  lemma CommonTwos(g: int, tu: nat, tv: nat, uz: nat, vz: nat, gz: nat)
    requires IsGcd(g, tu, tv) && tu % 2 == 1 && tv % 2 == 1 && gz == (if uz < vz then uz else vz)
    ensures IsGcd(g * Pow2(gz), tu * Pow2(uz), tv * Pow2(vz))
    ensures IsGcd(g * Pow2(gz), tv * Pow2(vz), tu * Pow2(uz))
  {
    GcdSwap(g, tu, tv);
    var x, a := ShiftTo(tu, uz, gz);
    var y, b := ShiftTo(tv, vz, gz);
    ShiftGcd(g, tu, tv, uz - gz); ShiftGcd(g, tv, tu, vz - gz);
    if uz == gz { GcdSwap(g, y, x); }
    ScaleGcd(g, x, y, Pow2(gz));
    GcdSwap(g * Pow2(gz), a, b);
  }

  lemma ShiftTo(t: nat, z: nat, gz: nat) returns (x: nat, a: int)
    requires gz <= z
    ensures x == t * Pow2(z - gz) && a == t * Pow2(z) == x * Pow2(gz) && (z == gz ==> x == t)
  {
    Pow2Add(z - gz, gz);
    Associate(t, Pow2(z - gz), Pow2(gz));
    MulBounds(0, t, 0, Pow2(z - gz));
    x, a := t * Pow2(z - gz), t * Pow2(z);
  }
}
