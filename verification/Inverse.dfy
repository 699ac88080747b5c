/**
 mpn_invert_3by2: the reciprocal floor((B^3 - 1) / (B u1 + u0)) - B of a normalised pair of
 limbs, built from half-limb divisions, in the three phases of the source.
 */
module Inverse {
  import opened Arith
  import opened Bits
  import opened Limb
  import opened Reciprocal

  const LOW_MASK: int := HALF - 1

  /** Phase one, dividing by the top half of u1: a half-limb inverse of u1 and its remainder. */
  method HalfInverse(u1: Limb) returns (qh: int, r: Limb)
    requires HIGHBIT <= u1
    ensures 0 <= qh < HALF && r < u1
    ensures (HALF + qh) * u1 + r == HALF * HALF * HALF - 1
  {
    var ul, uh := u1 % HALF, u1 / HALF;
    qh := (B - 1 - u1) / uh;
    ghost var r0 := (B - 1 - u1) % uh;
    assert B - 1 - u1 == qh * uh + r0;
    HalfQuotientFits(B - 1 - u1, uh, qh, r0);
    ShiftWithMask(r0);
    r := Bitwise(OR, Wrap((B - 1 - u1 - qh * uh) * HALF), LOW_MASK);
    HalfProduct(qh, ul);
    var p: Limb := qh * ul;
    HalfIdentity(u1, uh, ul, qh, r0);
    HalfPositive(u1, qh, r, p);
    ghost var q: int, w: int := qh, 0 + r - p;
    qh, r := AdjustHalf(u1, qh, r, p);
    Compensates(HALF + q, w, HALF + qh, r, u1);
  }

  /** The at most two decrements that bring the remainder r - p back into range. */
  method AdjustHalf(u1: Limb, q: int, w: Limb, p: Limb) returns (qh: int, r: Limb)
    requires HIGHBIT <= u1 && w - p < u1 && 0 <= q < HALF
    requires w < p ==> q >= 1
    requires p - w > u1 ==> q >= 2
    ensures 0 <= qh < HALF && r < u1
    ensures SameMultiple(q, w - p, qh, r, u1)
  {
    qh, r := q, w;
    if r < p {
      qh := qh - 1;
      r := Wrap(r + u1);
      if r >= u1 {
        if r < p {
          qh := qh - 1;
          r := Wrap(r + u1);
        }
      }
    }
    r := Wrap(r - p);
  }

  lemma HalfQuotientFits(x: int, uh: int, q: int, r: int)
    requires 0 <= x < HIGHBIT && HALF <= 2 * uh && x == q * uh + r && 0 <= r < uh
    ensures 0 <= q < HALF
  {
    if q < 0 { MulMono(q, -1, uh); }
    if HALF <= q { MulMono(HALF, q, uh); }
  }

  /** Filling the low half of a shifted half limb with ones. */
  lemma ShiftWithMask(x: int)
    requires 0 <= x < HALF
    ensures Bitwise(OR, Wrap(x * HALF), LOW_MASK) == x * HALF + LOW_MASK
  {
    Pow2Values();
    OrIsSum(x, 32, LOW_MASK);
  }

  lemma HalfIdentity(u1: int, uh: int, ul: int, q: int, r0: int)
    requires u1 == uh * HALF + ul && B - 1 - u1 == q * uh + r0
    ensures (HALF + q) * u1 + (r0 * HALF + LOW_MASK - q * ul) == HALF * HALF * HALF - 1
  {
    assert q * u1 == (q * uh) * HALF + q * ul;
  }

  /** An overestimate of the half quotient can be decremented as often as the code does. */
  lemma HalfPositive(u1: int, q: int, r: int, p: int)
    requires HIGHBIT <= u1 < B && 0 <= q
    requires (HALF + q) * u1 + (r - p) == HALF * HALF * HALF - 1
    ensures r < p ==> q >= 1
    ensures p - r > u1 ==> q >= 2
  {
    Distribute(u1, HALF, q, 0, 0);
    if q == 0 { assert q * u1 == 0; }
    if q == 1 { assert q * u1 == u1; }
  }

  /** Phase two, a three-by-two division on half limbs: the two-by-one inverse of u1 and its remainder. */
  method LimbInverse(u1: Limb, qh: int, rh: Limb) returns (m: Limb, r: Limb)
    requires HIGHBIT <= u1 && 0 <= qh < HALF && rh < u1
    requires (HALF + qh) * u1 + rh == HALF * HALF * HALF - 1
    ensures r < u1 && (B + m) * u1 + r == B * B - 1
  {
    ghost var n2, n1 := rh / HALF, rh % HALF;
    assert Divisible(HALF, u1, qh, n2, n1, LOW_MASK);
    EstimateFits(HALF, u1, qh, n2, n1, LOW_MASK);
    LowEstimate(qh, rh);
    var p: Limb := Wrap((rh / HALF) * qh + rh);
    var ql := p / HALF + 1;
    r := Wrap(Wrap(rh * HALF) + LOW_MASK - ql * u1);
    ghost var q1, q0 := p / HALF, p % HALF;
    ghost var s := LowRemainder(u1, qh, rh, q1, q0, r);
    m, r := AdjustLow(u1, qh, p, ql, r, s);
    Compensates(B + qh * HALF + (q1 + 1), s, B + m, r, u1);
  }

  lemma LowEstimate(qh: int, rh: int)
    ensures (rh / HALF) * qh + rh == (HALF + qh) * (rh / HALF) + rh % HALF
  {
    Distribute(rh / HALF, HALF, qh, 0, 0);
  }

  lemma LowRemainder(u1: Limb, qh: int, rh: Limb, q1: int, q0: int, w: int) returns (r: int)
    requires HIGHBIT <= u1 && Divisible(HALF, u1, qh, rh / HALF, rh % HALF, LOW_MASK)
    requires (HALF + qh) * u1 + rh == HALF * HALF * HALF - 1
    requires IsEstimate(HALF, qh, rh / HALF, rh % HALF, q1, q0)
    requires w == Wrap(Wrap(rh * HALF) + LOW_MASK - (q1 + 1) * u1)
    ensures (B + qh * HALF + (q1 + 1)) * u1 + r == B * B - 1
    ensures w < q0 * HALF ==> w == r
    ensures w >= q0 * HALF ==> 0 <= r + u1 < B && (w == r || w == r + B)
    ensures 0 <= r ==> qh * HALF + q1 + 1 < B
    ensures u1 <= r ==> qh * HALF + q1 + 2 < B
  {
    r := rh * HALF + LOW_MASK - (q1 + 1) * u1;
    EstimateWindow(HALF, u1, qh, rh / HALF, rh % HALF, LOW_MASK, q1, q0);
    assert w == Wrap(r) by { ModAdd(r, -((rh * HALF) / B), B); }
    Correction(HALF, u1, q0, r, w);
    assert (B + qh * HALF + (q1 + 1)) * u1 + r == B * B - 1 by {
      Distribute(u1, HALF, qh, 0, 0);
      Distribute(u1, B, qh * HALF, q1 + 1, 0);
      Associate(qh, HALF, u1);
    }
    LowFits(u1, qh * HALF + q1 + 1, r);
  }

  lemma LowFits(u1: int, m: int, r: int)
    requires HIGHBIT <= u1 < B && (B + m) * u1 + r == B * B - 1
    ensures 0 <= r ==> m < B
    ensures u1 <= r ==> m + 1 < B
  {
    Distribute(u1, B, m, 0, 0);
    QuotientFits(B * B - 1 - B * u1, u1, m, r);
  }

  method AdjustLow(u1: Limb, qh: int, p: Limb, ql0: int, w: Limb, ghost s: int) returns (m: Limb, r: Limb)
    requires HIGHBIT <= u1 && 0 <= qh < HALF && ql0 == p / HALF + 1
    requires w < (p % HALF) * HALF ==> w == s
    requires w >= (p % HALF) * HALF ==> 0 <= s + u1 < B && (w == s || w == s + B)
    requires 0 <= s ==> qh * HALF + ql0 < B
    requires u1 <= s ==> qh * HALF + ql0 + 1 < B
    ensures r < u1 && SameMultiple(qh * HALF + ql0, s, m, r, u1)
  {
    var ql := ql0;
    assert Wrap(p * HALF) == (p % HALF) * HALF;
    r := w;
    if r >= Wrap(p * HALF) {
      ql := ql - 1;
      r := Wrap(r + u1);
    }
    m := Wrap(qh * HALF + ql);
    if r >= u1 {
      m := Wrap(m + 1);
      r := r - u1;
    }
  }

  /** Phase three, when the low limb is non-zero: from the two-by-one to the three-by-two inverse. */
  method ExtendInverse(u1: Limb, u0: Limb, m0: Limb, r0: Limb) returns (m: Limb)
    requires HIGHBIT <= u1 && 0 < u0 && r0 < u1 && (B + m0) * u1 + r0 == B * B - 1
    ensures IsInverse(B, u1 * B + u0, m)
  {
    var r;
    m, r := SubtractLow(u1, u0, m0, r0);
    var th, tl := UmulPpmm(u0, m);
    ghost var g, d := B * (B - r) - 1 - (th * B + tl), u1 * B + u0;
    ghost var m1: int := m;
    GapAfterSubtract(u1, u0, m0, r0, m, B - r);
    assert g == Gap(d, m);
    r := Wrap(r + th);
    if r < th {
      NotExact(u1, u0, m1 - 1);
      GapStep(d, m1);
      GapStep(d, m1 - 1);
      m := DecrementLow(u1, u0, m, r, tl, g);
    }
  }

  /** B^3 - 1 minus the multiple (B + m) of d; m is the inverse of d when this lies in [0, d). */
  ghost function Gap(d: int, m: int): int { B * B * B - 1 - (B + m) * d }

  lemma GapStep(d: int, m: int)
    ensures Gap(d, m - 1) == Gap(d, m) + d
  {
    Distribute(d, B, m, 0, 1);
  }

  lemma GapAtZero(u1: Limb, u0: Limb)
    ensures Gap(u1 * B + u0, 0) >= 0
  {
  }

  /** Accounting for -u0 times B: at most two decrements; the remainder is kept negated modulo B. */
  method SubtractLow(u1: Limb, u0: Limb, m0: Limb, r0: Limb) returns (m: Limb, r: Limb)
    requires HIGHBIT <= u1 && 0 < u0 && r0 < u1 && (B + m0) * u1 + r0 == B * B - 1
    ensures B - u1 <= r && B - r == r0 + 1 - u0 + (m0 - m) * u1
  {
    DecrementsAvailable(u1, u0, m0, r0);
    m, r := m0, B - 1 - r0;
    r := Wrap(r + u0);
    if r < u0 {
      m := m - 1;
      if r >= u1 {
        m := m - 1;
        r := r - u1;
      }
      r := Wrap(r - u1);
    }
  }

  lemma DecrementsAvailable(u1: Limb, u0: Limb, m: Limb, r: Limb)
    requires (B + m) * u1 + r == B * B - 1
    ensures u0 >= r + 1 ==> m >= 1
    ensures u0 >= r + 1 + u1 ==> m >= 2
  {
    Distribute(u1, B, m, 0, 0);
    if m == 0 { assert m * u1 == 0; }
    if m == 1 { assert m * u1 == u1; }
  }

  lemma GapAfterSubtract(u1: int, u0: int, m0: int, r0: int, m: int, s: int)
    requires (B + m0) * u1 + r0 == B * B - 1
    requires s == r0 + 1 - u0 + (m0 - m) * u1
    ensures Gap(u1 * B + u0, m) == B * s - 1 - m * u0
  {
    Distribute(u1, B, m0, 0, 0);
    Distribute(u1, m0, 0, 0, m);
    assert (B + m) * (u1 * B + u0) == B * (B * u1) + B * (m * u1) + B * u0 + m * u0;
  }

  /** The inverse never divides exactly: a divisor with a non-zero low limb is no power of two. */
  lemma NotExact(u1: Limb, u0: Limb, m: int)
    requires HIGHBIT <= u1 && 0 < u0
    ensures Gap(u1 * B + u0, m) != -1
  {
    var d := u1 * B + u0;
    if Gap(d, m) == -1 {
      assert (B + m) * d == B * B * B;
      assert B + m > 0 by { if B + m <= 0 { MulMono(B + m, 0, d); } }
      Pow2Values();
      Pow2Add(64, 64); Pow2Add(128, 64); Pow2Add(63, 64);
      var k := FactorOfPow2(d, B + m, 192);
      if k <= 127 { Pow2Mono(k, 127); } else { Pow2Mono(128, k); }
      assert false;
    }
  }

  /** The last one or two decrements, decided by comparing the negated remainder with the divisor. */
  method DecrementLow(u1: Limb, u0: Limb, m0: Limb, r: Limb, tl: Limb, ghost g: int) returns (m: Limb)
    requires HIGHBIT <= u1 && 0 < u0 && r + 2 <= B
    requires g == Gap(u1 * B + u0, m0) == -(r * B) - 1 - tl
    requires Gap(u1 * B + u0, m0 - 1) == g + u1 * B + u0 != -1
    requires Gap(u1 * B + u0, m0 - 2) == g + 2 * (u1 * B + u0)
    ensures 0 <= Gap(u1 * B + u0, m) < u1 * B + u0
  {
    GapAtZero(u1, u0);
    m := m0 - 1;
    if r > u1 || (r == u1 && tl > u0) {
      m := m - 1;
    }
  }

  /** mpn_invert_3by2. */
  method Invert3by2(u1: Limb, u0: Limb) returns (m: Limb)
    requires HIGHBIT <= u1
    ensures IsInverse(B, u1 * B + u0, m)
    ensures m == (B * B * B - 1) / (u1 * B + u0) - B
  {
    var qh, r := HalfInverse(u1);
    m, r := LimbInverse(u1, qh, r);
    if u0 > 0 {
      m := ExtendInverse(u1, u0, m, r);
    } else {
      GapAfterSubtract(u1, u0, m, r, m, r + 1);
    }
    DivModUnique(B * B * B - 1, u1 * B + u0, B + m, Gap(u1 * B + u0, m));
  }
}
