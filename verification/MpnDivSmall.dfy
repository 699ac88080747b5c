/** Division of a limb array by one or two limbs through a precomputed inverse. */
module MpnDivSmall {
  import opened Arith
  import opened Bits
  import opened Limb
  import opened Reciprocal
  import opened Inverse
  import opened Mpn
  import opened MpnShift

  /** struct gmp_div_inverse: normalisation shift, normalised top divisor limbs, and their inverse. */
  datatype DivInverse = DivInverse(shift: nat, d1: Limb, d0: Limb, di: Limb)

  /** inv was prepared for the one-limb divisor d. */
  ghost predicate Inverts1(inv: DivInverse, d: int) {
    && inv.shift < 64 && HIGHBIT <= inv.d1 && d * Pow2(inv.shift) == inv.d1
    && IsInverse1(B, inv.d1, inv.di)
  }

  /** inv was prepared for the two-limb divisor d. */
  ghost predicate Inverts2(inv: DivInverse, d: int) {
    && inv.shift < 64 && HIGHBIT <= inv.d1 && d * Pow2(inv.shift) == inv.d1 * B + inv.d0
    && IsInverse(B, inv.d1 * B + inv.d0, inv.di)
  }

  /** The three-by-two inverse of (u1, 0) is the two-by-one inverse of u1. */
  lemma InverseOfLimb(u1: Limb, m: Limb)
    requires 0 < u1 && IsInverse(B, u1 * B, m)
    ensures IsInverse1(B, u1, m)
  {
    var x := B * B - (B + m) * u1;
    assert B * B * B - (B + m) * (u1 * B) == B * x by { Associate(B + m, u1, B); }
  }

  /** mpn_div_qr_1_invert. */
  method DivQr1Invert(d: Limb) returns (inv: DivInverse)
    requires 0 < d
    ensures Inverts1(inv, d)
  {
    var shift := Clz(d);
    var d1 := Shl(d, shift);
    var di := Invert3by2(d1, 0);
    InverseOfLimb(d1, di);
    inv := DivInverse(shift, d1, 0, di);
  }

  /** One more quotient limb, from the top: t holds the dividend limbs, qs the quotient limbs so far. */
  /** The limbs from i on, with x above them, are divided: quotient limbs qs and remainder r. */
  ghost predicate Divided(t: seq<Limb>, i: nat, x: int, qs: seq<Limb>, d: int, r: int)
    requires i <= |t|
  {
    Value(t[i..]) + x * BPow(|t| - i) == Value(qs) * d + r
  }

  lemma {:induction false} QuotientStart(t: seq<Limb>, x: int, d: int)
    ensures Divided(t, |t|, x, [], d, x)
  {
    assert t[|t|..] == [];
  }

  lemma {:induction false} QuotientEnd(t: seq<Limb>, x: int, qs: seq<Limb>, d: int, r: int)
    requires Divided(t, 0, x, qs, d, r)
    ensures Value(t) + x * BPow(|t|) == Value(qs) * d + r
  {
    assert t[0..] == t;
  }

  lemma {:induction false} QuotientStep(t: seq<Limb>, i: nat, x: int, qs: seq<Limb>, d: int, r: int, q: Limb, r': int)
    requires i < |t| && Divided(t, i + 1, x, qs, d, r)
    requires r * B + t[i] == q * d + r'
    ensures Divided(t, i, x, [q] + qs, d, r')
  {
    assert t[i..][1..] == t[i + 1..] && ([q] + qs)[1..] == qs;
    ValueCons(t[i..]); ValueCons([q] + qs);
    assert BPow(|t| - i) == B * BPow(|t| - i - 1);
    Associate(x, B, BPow(|t| - i - 1));
    Distribute(d, q, B * Value(qs), 0, 0);
    Associate(B, Value(qs), d);
  }

  /** Undoing the normalisation: quotient kept, remainder shifted back. */
  lemma Unshift(n: int, d: int, p: int, q: int, r: int)
    requires 0 < p && 0 <= r < d * p && n * p == q * (d * p) + r
    ensures r % p == 0 && 0 <= r / p < d && n == q * d + r / p
    ensures n / d == q && n % d == r / p
  {
    var s := n - q * d;
    assert r == s * p by {
      Associate(q, d, p);
      Distribute(p, n, 0, 0, q * d);
    }
    DivModUnique(r, p, s, 0);
    if s < 0 { MulMono(s, -1, p); }
    MulCancel(s, d, p);
    DivModUnique(n, d, q, s);
  }

  /** The dividend shifted left by inv.shift: a fresh copy when there is something to shift, np itself otherwise. */
  method ShiftDividend(np: array<Limb>, nn: nat, shift: nat) returns (tp: array<Limb>, r: Limb)
    requires 1 <= nn <= np.Length && shift < 64
    ensures (shift == 0 && tp == np) || fresh(tp)
    ensures nn <= tp.Length && r < Pow2(shift)
    ensures Val(tp, 0, nn) + r * BPow(nn) == Val(np, 0, nn) * Pow2(shift)
  {
    if shift > 0 {
      tp := new Limb[nn];
      r := Lshift(tp, 0, np, 0, nn, shift);
    } else {
      tp, r := np, 0;
    }
  }

  /** mpn_div_qr_1_preinv: divides nn limbs by the limb d that inv was prepared for; qp may be np itself. */
  method DivQr1Preinv(qp: array?<Limb>, np: array<Limb>, nn: nat, inv: DivInverse, ghost d: int) returns (r: Limb)
    requires 1 <= nn <= np.Length && (qp != null ==> nn <= qp.Length) && Inverts1(inv, d)
    modifies if qp == null then {} else {qp}
    ensures 0 < d && r == old(Val(np, 0, nn)) % d
    ensures qp != null ==> Val(qp, 0, nn) == old(Val(np, 0, nn)) / d
    ensures qp != null ==> SameOutside(qp, old(qp[..]), 0, nn)
  {
    hide Value, BPow, Pow2, Divided;
    ghost var p, n := Pow2(inv.shift), Val(np, 0, nn);
    var tp;
    tp, r := ShiftDividend(np, nn, inv.shift);
    ghost var t: seq<Limb>, x := tp[0..nn], r;
    PartBelow(p, inv.d1, d, x);
    QuotientStart(t, x, inv.d1);
    ghost var qs: seq<Limb> := [];
    var i := nn;
    while i > 0
      invariant 0 <= i <= nn && r < inv.d1 && |qs| == nn - i
      invariant tp[0..i] == t[..i]
      invariant Divided(t, i, x, qs, inv.d1, r)
      invariant qp != null ==> qp[i..nn] == qs && SameOutside(qp, old(qp[..]), i, nn - i)
    {
      i := i - 1;
      ghost var r0 := r;
      assert tp[i] == t[i];
      var q;
      q, r := Udiv2by1(r, tp[i], inv.d1, inv.di);
      QuotientStep(t, i, x, qs, inv.d1, r0, q, r);
      if qp != null { qp[i] := q; }
      qs := [q] + qs;
    }
    QuotientEnd(t, x, qs, inv.d1, r);
    Unshift(n, d, p, Value(qs), r);
    ShrBound(r, p);
    r := Shr(r, inv.shift);
  }

  lemma PartBelow(p: int, d1: int, d: int, x: int)
    requires 0 < p && d * p == d1 && 0 < d1 && x < p
    ensures 0 < d && x < d1
  {
    if d <= 0 { MulMono(d, 0, p); }
    MulMono(1, d, p);
  }

  /** The normalisation of the top two divisor limbs, with d2 the limb below them (0 when there is none). */
  method NormalizeTop(d1: Limb, d0: Limb, d2: Limb, shift: nat) returns (e1: Limb, e0: Limb)
    requires shift < 64 && d1 * Pow2(shift) < B
    ensures shift == 0 ==> e1 == d1 && e0 == d0
    ensures shift > 0 ==> e1 * B + e0 == (d1 * B + d0) * Pow2(shift) + Shr(d2, 64 - shift)
    ensures e1 >= d1 * Pow2(shift)
  {
    e1, e0 := d1, d0;
    if shift > 0 {
      var h, e2;
      e1, h := ShiftUp(Shl(d1, shift), d1, d0, shift);
      e0, e2 := ShiftUp(h, d0, d2, shift);
      ShiftSplit(d2, shift);
      NormalizeSum(d1, d0, d2, Pow2(shift), e1, h, e0, e2, Shr(d2, 64 - shift));
    }
  }

  lemma NormalizeSum(d1: Limb, d0: Limb, d2: Limb, p: int, e1: int, h: int, e0: int, e2: int, t: int)
    requires 0 < p && d1 * p < B && 0 <= h < B
    requires e1 * B + h == Wrap(d1 * p) * B + d0 * p
    requires e0 * B + e2 == h * B + d2 * p && d2 * p == t * B + e2
    ensures e1 * B + e0 == (d1 * B + d0) * p + t && e1 >= d1 * p
  {
    assert 0 <= d1 * p && 0 <= d0 * p by { MulBounds(0, d1, 0, p); MulBounds(0, d0, 0, p); }
    Distribute(p, d1 * B, d0, 0, 0);
    Associate(d1, B, p);
  }

  /** mpn_div_qr_2_invert. */
  method DivQr2Invert(d1: Limb, d0: Limb) returns (inv: DivInverse)
    requires 0 < d1
    ensures Inverts2(inv, d1 * B + d0)
  {
    var shift := Clz(d1);
    var e1, e0 := NormalizeTop(d1, d0, 0, shift);
    assert Shr(0, 64 - shift) == 0 by { ShrBound(0, Pow2(64 - shift)); }
    var di := Invert3by2(e1, e0);
    inv := DivInverse(shift, e1, e0, di);
    assert Pow2(0) == 1;
  }

  lemma {:induction false} TopTwo(t: seq<Limb>, x: int, d: int)
    requires |t| >= 2
    ensures Divided(t, |t| - 1, x, [], d, x * B + t[|t| - 1])
  {
    ValueCons(t[|t| - 1..]);
    assert t[|t| - 1..][1..] == [] && BPow(0) == 1;
  }

  /** mpn_div_qr_2_preinv: divides nn >= 2 limbs by two limbs; the remainder goes to rp, which may be np. */
  method DivQr2Preinv(qp: array?<Limb>, rp: array<Limb>, np: array<Limb>, nn: nat, inv: DivInverse, ghost d: int)
    requires 2 <= nn <= np.Length && 2 <= rp.Length && Inverts2(inv, d)
    requires qp != null ==> nn - 1 <= qp.Length && qp != np && qp != rp
    modifies rp, if qp == null then {} else {qp}
    ensures 0 < d && Val(rp, 0, 2) == old(Val(np, 0, nn)) % d
    ensures qp != null ==> Val(qp, 0, nn - 1) == old(Val(np, 0, nn)) / d
    ensures qp != null ==> SameOutside(qp, old(qp[..]), 0, nn - 1)
    ensures SameOutside(rp, old(rp[..]), 0, 2)
  {
    hide Value, BPow, Pow2, Divided;
    ghost var p, n, e := Pow2(inv.shift), Val(np, 0, nn), inv.d1 * B + inv.d0;
    var tp, r1: Limb := ShiftDividend(np, nn, inv.shift);
    var r0: Limb := tp[nn - 1];
    ghost var t: seq<Limb>, x := tp[0..nn], r1;
    assert x < inv.d1 by { Pow2Values(); Pow2Mono(inv.shift, 63); }
    assert 0 < d by { if d <= 0 { MulMono(d, 0, p); } }
    TopTwo(t, x, e);
    ghost var qs: seq<Limb> := [];
    var i := nn - 1;
    while i > 0
      invariant 0 <= i <= nn - 1 && r1 * B + r0 < e && |qs| == nn - 1 - i
      invariant rp[..] == old(rp[..])
      invariant tp[0..nn] == t
      invariant Divided(t, i, x, qs, e, r1 * B + r0)
      invariant qp != null ==> qp[i..nn - 1] == qs && SameOutside(qp, old(qp[..]), i, nn - 1 - i)
    {
      i := i - 1;
      ghost var r := r1 * B + r0;
      assert tp[i] == t[i];
      var q;
      q, r1, r0 := Udiv3by2(r1, r0, tp[i], inv.d1, inv.d0, inv.di);
      QuotientStep(t, i, x, qs, e, r, q, r1 * B + r0);
      if qp != null { qp[i] := q; }
      qs := [q] + qs;
    }
    QuotientEnd(t, x, qs, e, r1 * B + r0);
    Unshift(n, d, p, Value(qs), r1 * B + r0);
    r1, r0 := UnshiftPair(r1, r0, inv.shift);
    rp[1] := r1;
    rp[0] := r0;
    assert rp[0..2] == [r0, r1];
    PairValue(r0, r1);
  }

  lemma {:induction false} PairValue(lo: Limb, hi: Limb)
    ensures Value([lo, hi]) == hi * B + lo
  {
    ValueCons([lo, hi]);
    ValueCons([hi]);
    assert [lo, hi][1..] == [hi] && [hi][1..] == [];
  }

  /** Shifting a two-limb remainder back. */
  method UnshiftPair(r1: Limb, r0: Limb, shift: nat) returns (s1: Limb, s0: Limb)
    requires shift < 64 && (r1 * B + r0) % Pow2(shift) == 0
    ensures s1 * B + s0 == (r1 * B + r0) / Pow2(shift)
  {
    s1, s0 := r1, r0;
    if shift > 0 {
      PairQuotient(r1, r0, shift);
      ShiftJoin(r1, r0, 64 - shift);
      assert Shl(r0, 64 - shift) == 0;
      s0 := Bitwise(OR, Shr(r0, shift), Shl(r1, 64 - shift));
      s1 := Shr(r1, shift);
    }
  }

  lemma PairQuotient(r1: Limb, r0: Limb, shift: nat)
    requires 1 <= shift < 64 && (r1 * B + r0) % Pow2(shift) == 0
    ensures Shr(r1, shift) * B + Shl(r1, 64 - shift) + Shr(r0, shift) == (r1 * B + r0) / Pow2(shift)
    ensures Shl(r0, 64 - shift) == 0
  {
    var p: int, t: int := Pow2(shift), Pow2(64 - shift);
    Pow2Complement(shift);
    PairDivMod(r1, r0, p, t);
    assert r1 * t == Shr(r1, shift) * B + Shl(r1, 64 - shift) by { ShiftSplit(r1, 64 - shift); }
    assert Shl(r0, 64 - shift) == 0 by {
      ShiftSplit(r0, 64 - shift);
      assert Shl(r0, 64 - shift) == (r0 % p) * t;
    }
  }

  lemma PairDivMod(r1: int, r0: int, p: int, t: int)
    requires 0 < p && t * p == B
    ensures (r1 * B + r0) / p == r1 * t + r0 / p && (r1 * B + r0) % p == r0 % p
  {
    assert r1 * B + r0 == (r1 * t + r0 / p) * p + r0 % p by {
      Associate(r1, t, p);
      Distribute(p, r1 * t, r0 / p, 0, 0);
    }
    DivModUnique(r1 * B + r0, p, r1 * t + r0 / p, r0 % p);
  }
}
