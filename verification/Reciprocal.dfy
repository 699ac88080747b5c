/**
 Division of two or three digits through a precomputed reciprocal, and the computation of
 that reciprocal. The bounds behind the quotient estimates hold in every base `b`: the
 code uses them with whole limbs and again, inside the reciprocal itself, with half limbs.
 */
module Reciprocal {
  import opened Arith
  import opened Limb

  function Max(x: int, y: int): (m: int)
    ensures m >= x && m >= y && (m == x || m == y)
  {
    if x >= y then x else y
  }

  /** v is the base-b reciprocal floor((b^3 - 1) / d) - b of the two-digit number d. */
  ghost predicate IsInverse(b: int, d: int, v: int) {
    0 <= b * b * b - 1 - (b + v) * d < d
  }

  /** q1 * b + q0 is the raw quotient estimate for the three-digit number (n2, n1, _). */
  ghost predicate IsEstimate(b: int, v: int, n2: int, n1: int, q1: int, q0: int) {
    && 0 <= q0 < b
    && q1 * b + q0 == (b + v) * n2 + n1
  }

  /** A two-digit divisor with its top bit set, its reciprocal, and a dividend smaller than b * d. */
  ghost predicate Divisible(b: int, d: int, v: int, n2: int, n1: int, n0: int) {
    && 2 <= b && b * b <= 2 * d && d < b * b
    && IsInverse(b, d, v)
    && 0 <= n2 && 0 <= n1 < b && 0 <= n0 < b
    && n2 * b + n1 < d
  }

  /** How far the estimate is off, scaled by the base. */
  lemma ScaledRemainder(b: int, d: int, v: int, n2: int, n1: int, n0: int, q1: int, q0: int)
    requires IsEstimate(b, v, n2, n1, q1, q0)
    ensures b * (n2 * b * b + n1 * b + n0 - (q1 + 1) * d)
         == n2 * (b * b * b - (b + v) * d) + n1 * (b * b - d) + n0 * b + q0 * d - b * d
  {
    Distribute(d, q1 * b, q0, 0, 0);
    Distribute(d, (b + v) * n2, n1, 0, 0);
    ScaledAlgebra(b, d, v, n2, n1, n0, q1, q0);
  }

  lemma ScaledAlgebra(b: int, d: int, v: int, n2: int, n1: int, n0: int, q1: int, q0: int)
    requires q1 * b * d + q0 * d == (b + v) * n2 * d + n1 * d
    ensures b * (n2 * b * b + n1 * b + n0 - (q1 + 1) * d)
         == n2 * (b * b * b - (b + v) * d) + n1 * (b * b - d) + n0 * b + q0 * d - b * d
  {
    var y, z := (q1 + 1) * d, (b + v) * d;
    assert b * y == q1 * b * d + b * d by { TimesNext(b, q1, d); }
    assert b * (n2 * b * b + n1 * b + n0 - y) == n2 * (b * b * b) + n1 * (b * b) + n0 * b - b * y by {
      TimesDigits(b, n2, n1, n0, y);
    }
    assert n2 * (b * b * b - z) == n2 * (b * b * b) - n2 * z by { TimesDifference(n2, b * b * b, z); }
    assert n1 * (b * b - d) == n1 * (b * b) - n1 * d by { TimesDifference(n1, b * b, d); }
    assert n2 * z == (b + v) * n2 * d by { Rotate(n2, b + v, d); }
  }

  lemma TimesNext(b: int, q: int, d: int)
    ensures b * ((q + 1) * d) == q * b * d + b * d
  {
  }

  lemma TimesDigits(b: int, n2: int, n1: int, n0: int, y: int)
    ensures b * (n2 * b * b + n1 * b + n0 - y) == n2 * (b * b * b) + n1 * (b * b) + n0 * b - b * y
  {
  }

  lemma TimesDifference(n: int, x: int, y: int)
    ensures n * (x - y) == n * x - n * y
  {
  }

  lemma Rotate(n: int, x: int, d: int)
    ensures n * (x * d) == x * n * d
  {
  }

  lemma InverseGap(b: int, d: int, v: int) returns (k: int)
    requires 2 <= b && 0 < d < b * b && IsInverse(b, d, v)
    ensures k == b * b * b - (b + v) * d
    ensures 1 <= k <= d && 0 <= v && k <= b * (b * b - d)
  {
    k := b * b * b - (b + v) * d;
    assert 0 <= v by {
      assert (b - 1) * d < (b + v) * d by { MulMono(d, b * b - 1, b); }
      MulCancel(b - 1, b + v, d);
    }
    assert 0 <= v * d by { MulMono(0, v, d); }
    assert k == b * (b * b - d) - v * d;
  }

  /** The top part of the scaled remainder stays below the square of the complement of d. */
  lemma TopBound(b: int, d: int, k: int, n2: int, n1: int, n0: int)
    requires 2 <= b && b <= d < b * b
    requires 1 <= k <= d && k <= b * (b * b - d)
    requires 0 <= n2 && 0 <= n1 < b && 0 <= n0 < b && n2 * b + n1 < d
    ensures b * (n2 * k + n1 * (b * b - d) + n0 * b - b * d) < (b * b - d) * (b * b - d)
  {
    var e := b * b - d;
    var x, y, z := b * n2 * k, b * n1 * e, n0 * (b * b);
    assert x + y <= (d - b) * d + b * (b - 1) * e by { TopPart(b, d, e, k, n2, n1); }
    assert z <= (b - 1) * (b * b) by { MulMono(n0, b - 1, b * b); }
    TopSum(b, d, e);
    Distribute(b, n2 * k, n1 * e, n0 * b, b * d);
    Associate(b, n2, k); Associate(b, n1, e); Associate(n0, b, b); Associate(b, b, d);
  }

  lemma TopSum(b: int, d: int, e: int)
    requires e == b * b - d && 2 <= b
    ensures (d - b) * d + b * (b - 1) * e + (b - 1) * (b * b) - b * b * d < e * e
  {
    assert (d - b) * d + b * (b - 1) * e + (b - 1) * (b * b) - b * b * d == e * e - b * b;
    MulMono(2, b, b);
  }

  lemma TopPart(b: int, d: int, e: int, k: int, n2: int, n1: int)
    requires 0 <= b <= d && 0 <= n1 < b && 0 <= n2 && n2 * b + n1 < d
    requires 0 <= k <= d && k <= b * e
    ensures b * n2 * k + b * n1 * e <= (d - b) * d + b * (b - 1) * e
  {
    var j, f := b - 1 - n1, b * e;
    assert (n2 * b) * k <= (d - b + j) * k by { MulMono(n2 * b, d - b + j, k); }
    assert (d - b) * k <= (d - b) * d by { MulMono(k, d, d - b); }
    assert j * k <= j * f by { MulMono(k, f, j); }
    assert (d - b + j) * k == (d - b) * k + j * k;
    assert b * n1 * e == b * (b - 1) * e - j * f by { Complement(b, e, n1); }
    assert b * n2 * k == (n2 * b) * k;
  }

  lemma Complement(b: int, e: int, n: int)
    ensures b * n * e == b * (b - 1) * e - (b - 1 - n) * (b * e)
  {
  }

  /** Möller and Granlund: the remainder left by the estimate lies in one window of length b^2. */
  lemma EstimateWindow(b: int, d: int, v: int, n2: int, n1: int, n0: int, q1: int, q0: int)
    requires Divisible(b, d, v, n2, n1, n0) && IsEstimate(b, v, n2, n1, q1, q0)
    ensures var r := n2 * b * b + n1 * b + n0 - (q1 + 1) * d;
            Max(b * b - d, q0 * b) - b * b <= r < Max(b * b - d, q0 * b)
  {
    var r := n2 * b * b + n1 * b + n0 - (q1 + 1) * d;
    var k := InverseGap(b, d, v);
    ScaledRemainder(b, d, v, n2, n1, n0, q1, q0);
    WindowLow(b, d, k, n2, n1, n0, q0, r);
    MulMono(2, b, b);
    TopBound(b, d, k, n2, n1, n0);
    WindowHigh(b, d, k, n2, n1, n0, q0, r);
  }

  lemma WindowLow(b: int, d: int, k: int, n2: int, n1: int, n0: int, q0: int, r: int)
    requires 2 <= b && 0 < d < b * b && 0 <= q0 < b && 1 <= k
    requires 0 <= n2 && 0 <= n1 && 0 <= n0
    requires b * r == n2 * k + n1 * (b * b - d) + n0 * b + q0 * d - b * d
    ensures -d <= r && q0 * b - b * b <= r
  {
    assert b * r >= q0 * d - b * d by {
      MulBounds(0, n2, 0, k); MulBounds(0, n1, 0, b * b - d); MulBounds(0, n0, 0, b);
    }
    LowByDivisor(b, d, q0, r);
    LowBySquare(b, d, q0, r);
  }

  lemma LowByDivisor(b: int, d: int, q0: int, r: int)
    requires 0 < b && 0 < d && 0 <= q0 && b * r >= q0 * d - b * d
    ensures -d <= r
  {
    assert 0 <= q0 * d by { MulBounds(0, q0, 0, d); }
    assert (-d - 1) * b < r * b;
    MulCancel(-d - 1, r, b);
  }

  lemma LowBySquare(b: int, d: int, q0: int, r: int)
    requires 0 < b && d < b * b && 0 <= q0 < b && b * r >= q0 * d - b * d
    ensures q0 * b - b * b <= r
  {
    var s := q0 * b - b * b - 1;
    assert (b - q0) * d <= (b - q0) * (b * b) by { MulMono(d, b * b, b - q0); }
    assert s * b == -((b - q0) * (b * b)) - b;
    assert s * b < r * b;
    MulCancel(s, r, b);
  }

  lemma WindowHigh(b: int, d: int, k: int, n2: int, n1: int, n0: int, q0: int, r: int)
    requires 2 <= b && 0 < d < b * b && 0 <= q0 < b
    requires b * r == n2 * k + n1 * (b * b - d) + n0 * b + q0 * d - b * d
    requires b * (n2 * k + n1 * (b * b - d) + n0 * b - b * d) < (b * b - d) * (b * b - d)
    ensures r < Max(b * b - d, q0 * b)
  {
    var x, e := n2 * k + n1 * (b * b - d) + n0 * b - b * d, b * b - d;
    assert b * r == x + q0 * d;
    assert r * (b * b) == b * x + (q0 * b) * d by {
      Distribute(b, x, q0 * d, 0, 0); Associate(b, b, r); Associate(b, q0, d);
    }
    WeightedMean(b * b, d, e, q0 * b, r * (b * b));
    MulCancel(r, Max(e, q0 * b), b * b);
  }

  lemma WeightedMean(s: int, d: int, e: int, f: int, y: int)
    requires 0 < d && 0 < e && s == d + e
    requires y < e * e + f * d
    ensures y < Max(e, f) * s
  {
    var c := Max(e, f);
    assert e * e <= c * e by { MulMono(e, c, e); }
    assert f * d <= c * d by { MulMono(f, c, d); }
    assert c * s == c * d + c * e;
  }

  /** The raw estimate itself fits in two digits. */
  lemma EstimateFits(b: int, d: int, v: int, n2: int, n1: int, n0: int)
    requires Divisible(b, d, v, n2, n1, n0)
    ensures 0 <= v && 0 <= (b + v) * n2 + n1 < b * b
  {
    var k := InverseGap(b, d, v);
    MulBounds(0, b + v, 0, n2);
    ProductFits(b, d, b + v, n2, n1);
    MulCancel((b + v) * n2 + n1, b * b, b);
  }

  lemma ProductFits(b: int, d: int, w: int, n2: int, n1: int)
    requires 0 < b <= w && 0 <= n1 && 0 <= n2 && n2 * b + n1 < d
    requires w * d < b * b * b
    ensures (w * n2 + n1) * b < (b * b) * b
  {
    assert (n2 * b) * w <= (d - 1 - n1) * w by { MulMono(n2 * b, d - 1 - n1, w); }
    assert (d - 1 - n1) * w <= w * d - b * n1 by {
      Distribute(w, d, 0, -1, n1);
      MulMono(b, w, n1);
    }
    Distribute(b, w * n2, n1, 0, 0);
    Associate(n2, b, w);
  }

  /**
   What the two correction steps of a three-by-two division rely on: `w` is the remainder
   `r` of the estimate modulo b^2, and `low` the low digit of the estimate.
   */
  lemma Correction(b: int, d: int, low: int, r: int, w: int)
    requires 0 < b && b * b <= 2 * d && d < b * b
    requires Max(b * b - d, low * b) - b * b <= r < Max(b * b - d, low * b)
    requires low * b < b * b
    requires 0 <= w < b * b && (w == r || w == r + b * b)
    ensures w < low * b ==> w == r
    ensures w >= low * b ==> 0 <= r + d < b * b && (w + d == r + d || w + d == r + d + b * b)
  {
  }

  /** The low two limbs of (n1, n0) - (q + 1) * (d1, d0). */
  method PartialRemainder(n1: Limb, n0: Limb, d1: Limb, d0: Limb, q: Limb) returns (r1: Limb, r0: Limb)
    ensures r1 * B + r0 == Wrap2(n1 * B + n0 - (q + 1) * (d1 * B + d0))
  {
    ghost var x := n1 - d1 * q;
    r1 := Wrap(n1 - d1 * q);
    ghost var s := r1;
    r1, r0 := SubDdmmss(r1, n0, d1, d0);
    ghost var y := s * B + n0 - d1 * B - d0;
    var t1, t0 := UmulPpmm(d0, q);
    ghost var z := r1 * B + r0 - t1 * B - t0;
    assert z == Wrap2(y) - d0 * q;
    r1, r0 := SubDdmmss(r1, r0, t1, t0);
    Congruent(n1, n0, d1, d0, q, x / B, s, y / (B * B), z);
  }

  lemma Congruent(n1: int, n0: int, d1: int, d0: int, q: int, kx: int, s: int, ky: int, z: int)
    requires n1 - d1 * q == kx * B + s
    requires z == s * B + n0 - d1 * B - d0 - ky * (B * B) - d0 * q
    ensures Wrap2(z) == Wrap2(n1 * B + n0 - (q + 1) * (d1 * B + d0))
  {
    var t := n1 * B + n0 - (q + 1) * (d1 * B + d0);
    assert z == t + (-kx - ky) * (B * B);
    ModAdd(t, -kx - ky, B * B);
  }

  /** The quotient estimate of a three-by-two division; it cannot overflow two limbs. */
  method Estimate(n2: Limb, n1: Limb, dinv: Limb) returns (q: Limb, q0: Limb)
    requires (B + dinv) * n2 + n1 < B * B
    ensures IsEstimate(B, dinv, n2, n1, q, q0)
  {
    q, q0 := UmulPpmm(n2, dinv);
    assert 0 <= q * B + q0 + n2 * B + n1 == (B + dinv) * n2 + n1;
    q, q0 := AddSsaaaa(q, q0, n2, n1);
  }

  /** A quotient estimate that leaves a non-negative remainder is no larger than a limb. */
  lemma QuotientFits(n: int, d: int, q: int, r: int)
    requires n == q * d + r && 0 < d && n < B * d
    ensures 0 <= r ==> q < B
    ensures d <= r ==> q + 1 < B
  {
    if 0 <= r { MulCancel(q, B, d); }
    if d <= r {
      Distribute(d, 1, q, 0, 0);
      MulCancel(1 + q, B, d);
    }
  }

  lemma DividendBound(n2: int, n1: int, n0: int, d: int)
    requires n2 * B + n1 < d && n0 < B
    ensures n2 * B * B + n1 * B + n0 < B * d
  {
  }

  /** (q', r') comes from (q, r) by moving at most two multiples of d from the quotient to the remainder or one back. */
  ghost predicate SameMultiple(q: int, r: int, q': int, r': int, d: int) {
    || (q' == q && r' == r)
    || (q' == q + 1 && r' == r - d)
    || (q' == q - 1 && r' == r + d)
    || (q' == q - 2 && r' == r + 2 * d)
  }

  lemma Compensates(q: int, r: int, q': int, r': int, d: int)
    requires SameMultiple(q, r, q', r', d)
    ensures q' * d + r' == q * d + r
  {
    Distribute(d, q, 1, 0, 0);
    Distribute(d, q, 0, 0, 1);
    Distribute(d, q, 0, 0, 2);
  }

  /** The two conditional corrections, given the remainder r that the incremented estimate leaves. */
  method Adjust(q1: Limb, q0: Limb, w1: Limb, w0: Limb, d1: Limb, d0: Limb, ghost r: int)
    returns (q: Limb, r1: Limb, r0: Limb)
    requires HIGHBIT <= d1
    requires w1 * B + w0 < q0 * B ==> w1 * B + w0 == r
    requires w1 * B + w0 >= q0 * B ==>
               && 0 <= r + d1 * B + d0 < B * B
               && (w1 * B + w0 == r || w1 * B + w0 == r + B * B)
    requires 0 <= r ==> q1 + 1 < B
    requires d1 * B + d0 <= r ==> q1 + 2 < B
    ensures 0 <= r1 * B + r0 < d1 * B + d0
    ensures SameMultiple(q1 + 1, r, q, r1 * B + r0, d1 * B + d0)
  {
    q := Wrap(q1 + 1);
    var mask: Limb := if w1 >= q0 then B - 1 else 0;
    q := Wrap(q + mask);
    r1, r0 := AddSsaaaa(w1, w0, if mask == 0 then 0 else d1, if mask == 0 then 0 else d0);
    if r1 >= d1 {
      if r1 > d1 || r0 >= d0 {
        q := Wrap(q + 1);
        r1, r0 := SubDdmmss(r1, r0, d1, d0);
      }
    }
  }

  /** gmp_udiv_qr_3by2: exact quotient and remainder of three limbs by two. */
  method Udiv3by2(n2: Limb, n1: Limb, n0: Limb, d1: Limb, d0: Limb, dinv: Limb)
    returns (q: Limb, r1: Limb, r0: Limb)
    requires HIGHBIT <= d1 && IsInverse(B, d1 * B + d0, dinv)
    requires n2 * B + n1 < d1 * B + d0
    ensures n2 * B * B + n1 * B + n0 == q * (d1 * B + d0) + r1 * B + r0
    ensures r1 * B + r0 < d1 * B + d0
  {
    ghost var d := d1 * B + d0;
    EstimateFits(B, d, dinv, n2, n1, n0);
    var q1, q0 := Estimate(n2, n1, dinv);
    var w1, w0 := PartialRemainder(n1, n0, d1, d0, q1);
    ghost var r := RemainderOfEstimate(n2, n1, n0, d, dinv, q1, q0, w1 * B + w0);
    q, r1, r0 := Adjust(q1, q0, w1, w0, d1, d0, r);
    ghost var e: int := q1;
    Compensates(e + 1, r, q, r1 * B + r0, d);
  }

  lemma RemainderOfEstimate(n2: Limb, n1: Limb, n0: Limb, d: int, v: int, q1: int, q0: int, w: int) returns (r: int)
    requires Divisible(B, d, v, n2, n1, n0) && IsEstimate(B, v, n2, n1, q1, q0)
    requires w == Wrap2(n1 * B + n0 - (q1 + 1) * d)
    ensures n2 * B * B + n1 * B + n0 == (q1 + 1) * d + r
    ensures w < q0 * B ==> w == r
    ensures w >= q0 * B ==> 0 <= r + d < B * B && (w == r || w == r + B * B)
    ensures 0 <= r ==> q1 + 1 < B
    ensures d <= r ==> q1 + 2 < B
  {
    var n := n2 * B * B + n1 * B + n0;
    r := n - (q1 + 1) * d;
    assert w == Wrap2(r) by { ModAdd(n1 * B + n0 - (q1 + 1) * d, n2, B * B); }
    EstimateWindow(B, d, v, n2, n1, n0, q1, q0);
    Correction(B, d, q0, r, w);
    DividendBound(n2, n1, n0, d);
    QuotientFits(n, d, q1 + 1, r);
  }

  // ---- two limbs by one ----

  /** v is the base-b reciprocal floor((b^2 - 1) / d) - b of the one-digit number d. */
  ghost predicate IsInverse1(b: int, d: int, v: int) {
    0 <= b * b - 1 - (b + v) * d < d
  }

  lemma ScaledRemainder1(b: int, d: int, v: int, nh: int, nl: int, q1: int, q0: int)
    requires IsEstimate(b, v, nh, nl, q1, q0)
    ensures b * (nh * b + nl - (q1 + 1) * d) == nh * (b * b - (b + v) * d) + nl * (b - d) + q0 * d - b * d
  {
    calc {
      b * (q1 * d);
      (q1 * b + q0) * d - q0 * d;
      ((b + v) * nh + nl) * d - q0 * d;
      nh * ((b + v) * d) + nl * d - q0 * d;
    }
  }

  lemma EstimateWindow1(b: int, d: int, v: int, nh: int, nl: int, q1: int, q0: int)
    requires 2 <= b <= 2 * d && d < b && IsInverse1(b, d, v)
    requires 0 <= nh < d && 0 <= nl < b && IsEstimate(b, v, nh, nl, q1, q0)
    ensures var r := nh * b + nl - (q1 + 1) * d;
            -d <= r && q0 - b < r < Max(b - d, q0)
  {
    var r, k := nh * b + nl - (q1 + 1) * d, b * b - (b + v) * d;
    ScaledRemainder1(b, d, v, nh, nl, q1, q0);
    MulBounds(nh, d - 1, k, d);
    MulBounds(nl, b - 1, b - d, b - d);
    LowByDivisor(b, d, q0, r);
    Window1Low(b, d, q0, r);
    Window1High(b, d, q0, r, nh * k, nl * (b - d));
  }

  lemma Window1Low(b: int, d: int, q0: int, r: int)
    requires 0 < d < b && 0 <= q0 < b && b * r >= q0 * d - b * d
    ensures q0 - b < r
  {
    assert 0 < (b - q0) * (b - d) by { MulBounds(1, b - q0, 1, b - d); }
    assert (q0 - b) * b == q0 * d - b * d - (b - q0) * (b - d);
    MulCancel(q0 - b, r, b);
  }

  lemma Window1High(b: int, d: int, q0: int, r: int, x: int, y: int)
    requires 0 < d < b && b * r == x + y + q0 * d - b * d
    requires x <= (d - 1) * d && y <= (b - 1) * (b - d)
    ensures r < Max(b - d, q0)
  {
    assert (d - 1) * d + (b - 1) * (b - d) - b * d == (b - d) * (b - d) - b;
    WeightedMean(b, d, b - d, q0, r * b);
    MulCancel(r, Max(b - d, q0), b);
  }

  /** The estimate of a two-by-one division cannot overflow, except for its final increment. */
  lemma EstimateFits1(d: Limb, v: Limb, nh: Limb, nl: Limb)
    requires HIGHBIT <= d && IsInverse1(B, d, v) && nh < d
    ensures (B + v) * nh + nl < B * B
  {
    MulMono(nh, d - 1, B + v);
    Distribute(B + v, d, 0, 0, 1);
  }

  lemma RemainderOfEstimate1(nh: Limb, nl: Limb, d: Limb, v: Limb, q1: int, q0: int, w: int) returns (r: int)
    requires HIGHBIT <= d && IsInverse1(B, d, v) && nh < d && IsEstimate(B, v, nh, nl, q1, q0)
    requires w == Wrap(nl - (q1 + 1) * d)
    ensures nh * B + nl == (q1 + 1) * d + r
    ensures w <= q0 ==> w == r
    ensures w > q0 ==> 0 <= r + d < B && (w == r || w == r + B)
    ensures 0 <= r ==> q1 + 1 < B
    ensures d <= r ==> q1 + 2 < B
  {
    r := nh * B + nl - (q1 + 1) * d;
    assert w == Wrap(r) by { ModAdd(nl - (q1 + 1) * d, nh, B); }
    EstimateWindow1(B, d, v, nh, nl, q1, q0);
    QuotientFits(nh * B + nl, d, q1 + 1, r);
  }

  lemma WrapFactor(x: int, q: int, d: int)
    ensures Wrap(x - Wrap(q) * d) == Wrap(x - q * d)
  {
    CongruentFactor(x, q, d, q / B, Wrap(q));
  }

  lemma CongruentFactor(x: int, q: int, d: int, k: int, w: int)
    requires q == k * B + w
    ensures Wrap(x - w * d) == Wrap(x - q * d)
  {
    Distribute(d, k * B, w, 0, 0);
    Associate(k, B, d);
    WrapShift(x - w * d, x - q * d, k * d);
  }

  lemma WrapShift(a: int, b: int, t: int)
    requires a == b + t * B
    ensures Wrap(a) == Wrap(b)
  {
    ModAdd(b, t, B);
  }

  /** gmp_udiv_qrnnd_preinv: exact quotient and remainder of two limbs by one. */
  method Udiv2by1(nh: Limb, nl: Limb, d: Limb, di: Limb) returns (q: Limb, r: Limb)
    requires HIGHBIT <= d && IsInverse1(B, d, di) && nh < d
    ensures nh * B + nl == q * d + r && r < d
  {
    EstimateFits1(d, di, nh, nl);
    var qh, ql, q1 := Estimate1(nh, nl, di);
    r := Wrap(nl - qh * d);
    WrapFactor(nl, q1 + 1, d);
    ghost var s := RemainderOfEstimate1(nh, nl, d, di, q1, ql, r);
    q, r := Adjust1(q1, qh, ql, r, d, s);
    Compensates(q1 + 1, s, q, r, d);
  }

  /** The first two lines of gmp_udiv_qrnnd_preinv: the estimated quotient, already incremented, and its fraction. */
  method Estimate1(nh: Limb, nl: Limb, di: Limb) returns (qh: Limb, ql: Limb, ghost q1: int)
    requires (B + di) * nh + nl < B * B && nh + 1 < B
    ensures 0 <= q1 < B && IsEstimate(B, di, nh, nl, q1, ql) && qh == Wrap(q1 + 1)
  {
    qh, ql := UmulPpmm(nh, di);
    ghost var t := qh * B + ql + nh * B + nl;
    assert t == (B + di) * nh + nl by { Distribute(nh, B, di, 0, 0); }
    q1 := t / B;
    qh, ql := AddSsaaaa(qh, ql, nh + 1, nl);
    IncrementedTop(t, qh, ql);
  }

  lemma IncrementedTop(t: int, qh: Limb, ql: Limb)
    requires 0 <= t < B * B && qh * B + ql == Wrap2(t + B)
    ensures ql == t % B && qh == Wrap(t / B + 1) && 0 <= t / B < B
  {
    var h, l := t / B, t % B;
    if h + 1 < B {
      DivModUnique(t + B, B * B, 0, t + B);
    } else {
      DivModUnique(t + B, B * B, 1, t + B - B * B);
    }
  }

  method Adjust1(ghost q1: int, qh: Limb, ql: Limb, w: Limb, d: Limb, ghost s: int) returns (q: Limb, r: Limb)
    requires HIGHBIT <= d && 0 <= q1 < B && qh == Wrap(q1 + 1)
    requires w <= ql ==> w == s
    requires w > ql ==> 0 <= s + d < B && (w == s || w == s + B)
    requires 0 <= s ==> q1 + 1 < B
    requires d <= s ==> q1 + 2 < B
    ensures r < d && SameMultiple(q1 + 1, s, q, r, d)
  {
    q, r := qh, w;
    var mask: Limb := if r > ql then B - 1 else 0;
    q := Wrap(q + mask);
    r := Wrap(r + if mask == 0 then 0 else d);
    if r >= d {
      r := r - d;
      q := Wrap(q + 1);
    }
  }
}
