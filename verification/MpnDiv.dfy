/** Schoolbook division (Knuth, TAOCP volume 2, section 4.3.1, Algorithm D) with a three-by-two inverse. */
module MpnDiv {
  import opened Arith
  import opened Limb
  import opened Reciprocal
  import opened Inverse
  import opened Mpn
  import opened MpnShift
  import opened MpnDivSmall

  lemma {:induction false} TopLimb(a: array<Limb>, lo: nat, n: nat)
    requires 1 <= n && lo + n <= a.Length
    ensures Val(a, lo, n) == a[lo + n - 1] * BPow(n - 1) + Val(a, lo, n - 1)
    ensures 0 <= Val(a, lo, n - 1) < BPow(n - 1)
  {
    assert a[lo..lo + n] == a[lo..lo + n - 1] + [a[lo + n - 1]];
    ValueSnoc(a[lo..lo + n - 1], a[lo + n - 1]);
    ValueBound(a[lo..lo + n - 1]);
  }

  lemma {:induction false} TopPair(a: array<Limb>, lo: nat, n: nat)
    requires 2 <= n && lo + n <= a.Length
    ensures Val(a, lo, n) == (a[lo + n - 1] * B + a[lo + n - 2]) * BPow(n - 2) + Val(a, lo, n - 2)
    ensures 0 <= Val(a, lo, n - 2) < BPow(n - 2) && BPow(n - 1) == B * BPow(n - 2)
  {
    TopLimb(a, lo, n);
    TopLimb(a, lo, n - 1);
    PairScale(a[lo + n - 1], a[lo + n - 2], BPow(n - 2));
  }

  lemma PairScale(x: int, y: int, p: int)
    ensures (x * B + y) * p == x * (B * p) + y * p
  {
  }

  lemma {:induction false} LowLimb(a: array<Limb>, lo: nat, n: nat)
    requires 1 <= n && lo + n <= a.Length
    ensures Val(a, lo, n) == a[lo] + B * Val(a, lo + 1, n - 1)
  {
    assert a[lo..lo + n][1..] == a[lo + 1..lo + n];
    ValueCons(a[lo..lo + n]);
  }

  /** The window n1, np[i..i + dn) of the dividend is smaller than B times the divisor. */
  lemma {:induction false} WindowBound(np: array<Limb>, i: nat, n1: Limb, dn: nat, d: int)
    requires 1 <= dn && i + dn <= np.Length
    requires n1 * BPow(dn - 1) + Val(np, i + 1, dn - 1) < d
    ensures n1 * BPow(dn) + Val(np, i, dn) < B * d
  {
    LowLimb(np, i, dn);
    assert BPow(dn) == B * BPow(dn - 1);
    Associate(n1, B, BPow(dn - 1));
  }

  /** Two limbs at the top, with the rest below p, compare like the whole numbers. */
  lemma TopCompare(p: int, n: int, l: int, d: int, dl: int)
    requires 0 < p && 0 <= l && dl < p && n * (B * p) + l < B * (d * p + dl)
    ensures n <= d
  {
    assert n * (B * p) < (d + 1) * (B * p) by {
      Distribute(B * p, d, 1, 0, 0);
      Associate(d, B, p);
    }
    MulCancel(n, d + 1, B * p);
  }

  /** When the top limbs of window and divisor agree, the quotient limb is B - 1. */
  lemma MaxQuotient(p: int, e: int, l: int, dl: int, w: int, d: int)
    requires 0 < p && 0 <= dl < p && 0 <= l < B * p && B <= e
    requires d == e * p + dl && w == e * (B * p) + l && w < B * d
    ensures 0 <= w - (B - 1) * d < d
  {
    assert B * p <= e * p by { MulMono(B, e, p); }
    Associate(e, B, p);
  }

  /** Two numbers below m that differ by a multiple of m are equal. */
  lemma EqualBelow(x: int, y: int, k: int, m: int)
    requires 0 <= x < m && 0 <= y < m && x == y + k * m
    ensures x == y && k == 0
  {
    if k >= 1 { MulMono(1, k, m); }
    if k <= -1 { MulMono(k, -1, m); }
    assert k == 0;
    assert k * m == 0;
  }

  /** Subtracting q * d in place leaves the true difference when that fits. */
  lemma SubtractFits(v: int, v': int, d: int, q: int, cl: int, n1: int, m: int)
    requires v' == v - d * q + cl * m && 0 <= v' < m
    requires 0 <= n1 * m + v - q * d < m
    ensures v' == n1 * m + v - q * d
  {
    assert d * q == q * d;
    Distribute(m, cl, 0, 0, n1);
    EqualBelow(v', n1 * m + v - q * d, cl - n1, m);
  }

  /** The step of mpn_div_qr_pi1 for n1 == d1 and n0 == d0. */
  method StepMax(np: array<Limb>, i: nat, n1: Limb, dp: array<Limb>, dn: nat) returns (q: Limb, n1': Limb)
    requires 2 < dn <= dp.Length && i + dn <= np.Length && np != dp && HIGHBIT <= dp[dn - 1]
    requires n1 == dp[dn - 1] && np[i + dn - 1] == dp[dn - 2]
    requires n1 * BPow(dn) + Val(np, i, dn) < B * Val(dp, 0, dn)
    modifies np
    ensures n1 * BPow(dn) + old(Val(np, i, dn)) == q * Val(dp, 0, dn) + (n1' * BPow(dn - 1) + Val(np, i, dn - 1))
    ensures n1' * BPow(dn - 1) + Val(np, i, dn - 1) < Val(dp, 0, dn)
    ensures SameOutside(np, old(np[..]), i, dn)
  {
    ghost var d, v := Val(dp, 0, dn), Val(np, i, dn);
    MaxQuotientHere(np, i, n1, dp, dn);
    q := B - 1;
    var cl := Submul1(np, i, dp, 0, dn, q);
    ValueBound(np[i..i + dn]); ValueBound(dp[0..dn]);
    SubtractFits(v, Val(np, i, dn), d, q, cl, n1, BPow(dn));
    n1' := np[i + dn - 1];
    TopLimb(np, i, dn);
  }

  lemma {:induction false} MaxQuotientHere(np: array<Limb>, i: nat, n1: Limb, dp: array<Limb>, dn: nat)
    requires 2 < dn <= dp.Length && i + dn <= np.Length && HIGHBIT <= dp[dn - 1]
    requires n1 == dp[dn - 1] && np[i + dn - 1] == dp[dn - 2]
    requires n1 * BPow(dn) + Val(np, i, dn) < B * Val(dp, 0, dn)
    ensures 0 <= n1 * BPow(dn) + Val(np, i, dn) - (B - 1) * Val(dp, 0, dn) < Val(dp, 0, dn)
  {
    var p, e := BPow(dn - 2), n1 * B + np[i + dn - 1];
    assert BPow(dn - 1) == B * p && BPow(dn) == B * (B * p);
    hide Value, BPow;
    TopPair(dp, 0, dn);
    TopLimb(np, i, dn);
    PairScale(n1, np[i + dn - 1], B * p);
    MaxQuotient(p, e, Val(np, i, dn - 1), Val(dp, 0, dn - 2), n1 * BPow(dn) + Val(np, i, dn), Val(dp, 0, dn));
  }

  /** The two top limbs minus the borrow of the lower limbs, with the final borrow. */
  method BorrowTop(n1: Limb, n0: Limb, cy: Limb) returns (m1: Limb, m0: Limb, borrow: Limb)
    ensures borrow <= 1 && m1 * B + m0 == n1 * B + n0 - cy + borrow * (B * B)
  {
    var cy1 := if n0 < cy then 1 else 0;
    m0 := Wrap(n0 - cy);
    borrow := if n1 < cy1 then 1 else 0;
    m1 := Wrap(n1 - cy1);
  }

  /** What the limbs hold after multiply-and-subtract: the true difference, plus B^dn after a borrow. */
  lemma DifferenceHeld(p: int, e: int, dl: int, q: int, t: int, s: int, l: int, cy: int, l': int, x: int, borrow: int)
    requires t == q * e + s && l' == l - dl * q + cy * p && x == s - cy + borrow * (B * B)
    ensures x * p + l' == t * p + l - q * (e * p + dl) + borrow * (B * B * p)
  {
    Distribute(p, s, borrow * (B * B), 0, cy);
    Distribute(p, q * e, s, 0, 0);
    Distribute(q, e * p, dl, 0, 0);
    Associate(q, e, p);
    Associate(borrow, B * B, p);
  }

  /** Without a borrow the estimate is exact. */
  lemma EstimateExact(p: int, e: int, dl: int, s: int, l': int, x: int)
    requires 0 <= x <= s < e && 0 <= l' < p && 0 <= dl
    ensures 0 <= x * p + l' < e * p + dl
  {
    MulMono(0, x, p);
    MulMono(x, e - 1, p);
    Distribute(p, e, 0, 0, 1);
  }

  /** After a borrow the estimate is exactly one too large. */
  lemma EstimateOneHigh(p: int, e: int, dl: int, q: int, t: int, s: int, l: int, l': int, x: int)
    requires 0 < p && 0 <= q < B && 0 <= s && 0 <= l && 0 <= dl < p && B <= e
    requires t == q * e + s && 0 <= x < B * B && 0 <= l' < p
    requires x * p + l' == t * p + l - q * (e * p + dl) + B * B * p
    ensures 0 < q && 0 <= t * p + l - (q - 1) * (e * p + dl) < e * p + dl
  {
    var w, d := t * p + l, e * p + dl;
    assert x * p + l' < B * B * p by {
      MulMono(x, B * B - 1, p);
    }
    assert w < q * d;
    assert w >= q * (e * p) by {
      Distribute(p, q * e, s, 0, 0);
      Associate(q, e, p);
      MulMono(0, s, p);
    }
    assert q * dl <= B * p by { MulBounds(q, B, dl, p); }
    assert B * p <= e * p by { MulMono(B, e, p); }
    Distribute(q, e * p, dl, 0, 0);
    Distribute(d, q, 0, 0, 1);
  }

  /** Adding the divisor back once, in place; the carry out of the top cancels the borrow. */
  method AddBack(np: array<Limb>, i: nat, n1: Limb, dp: array<Limb>, dn: nat, ghost r: int) returns (n1': Limb)
    requires 2 < dn <= dp.Length && i + dn <= np.Length && np != dp
    requires n1 * BPow(dn - 1) + Val(np, i, dn - 1) + Val(dp, 0, dn) == r + BPow(dn) && 0 <= r < Val(dp, 0, dn)
    modifies np
    ensures n1' * BPow(dn - 1) + Val(np, i, dn - 1) == r
    ensures SameOutside(np, old(np[..]), i, dn - 1)
  {
    ghost var y, p := Val(np, i, dn - 1), BPow(dn - 1);
    TopLimb(dp, 0, dn);
    var d1 := dp[dn - 1];
    var c := AddN(np, i, np, i, dp, 0, dn - 1);
    n1' := Wrap(n1 + d1 + c);
    ghost var k := (n1 + d1 + c) / B;
    ValueBound(np[i..i + dn - 1]); ValueBound(dp[0..dn]);
    assert BPow(dn) == B * p;
    CarryCancels(n1, d1, c, n1', k, p, y, Val(dp, 0, dn - 1), Val(np, i, dn - 1), r);
  }

  lemma CarryCancels(n1: int, d1: int, c: int, n1': int, k: int, p: int, y: int, dl: int, y': int, r: int)
    requires 0 < p && 0 <= n1' < B && n1 + d1 + c == k * B + n1'
    requires y' == y + dl - c * p && 0 <= y' < p
    requires n1 * p + y + (d1 * p + dl) == r + B * p && 0 <= r < B * p
    ensures n1' * p + y' == r
  {
    Distribute(p, n1, d1, c, 0);
    Distribute(p, k * B, n1', 0, 0);
    Associate(k, B, p);
    assert 0 <= n1' * p + y' < B * p by { MulBounds(n1', B - 1, p, p); }
    Distribute(B * p, 1, 0, 0, k);
    EqualBelow(n1' * p + y', r, 1 - k, B * p);
  }

  /** Estimates a quotient limb and subtracts that multiple of the divisor in place. */
  method SubtractEstimate(np: array<Limb>, i: nat, n1: Limb, dp: array<Limb>, dn: nat, dinv: Limb, ghost d: int)
    returns (q: Limb, n1': Limb, borrow: Limb)
    requires 2 < dn <= dp.Length && i + dn <= np.Length && np != dp && HIGHBIT <= dp[dn - 1]
    requires IsInverse(B, dp[dn - 1] * B + dp[dn - 2], dinv) && d == Val(dp, 0, dn)
    requires n1 * B + np[i + dn - 1] < dp[dn - 1] * B + dp[dn - 2]
    modifies np
    ensures borrow <= 1
    ensures n1' * BPow(dn - 1) + Val(np, i, dn - 1)
         == n1 * BPow(dn) + old(Val(np, i, dn)) - q * d + borrow * BPow(dn)
    ensures borrow == 0 ==> 0 <= n1 * BPow(dn) + old(Val(np, i, dn)) - q * d < d
    ensures borrow == 1 ==> 0 < q && 0 <= n1 * BPow(dn) + old(Val(np, i, dn)) - (q - 1) * d < d
    ensures SameOutside(np, old(np[..]), i, dn)
  {
    hide Value, BPow, Pow2;
    var d1, d0, n0 := dp[dn - 1], dp[dn - 2], np[i + dn - 1];
    ghost var p, e, dl, l := BPow(dn - 2), d1 * B + d0, Val(dp, 0, dn - 2), Val(np, i, dn - 2);
    ghost var t := n1 * B * B + n0 * B + np[i + dn - 2];
    WindowValue(np, i, n1, dn);
    TopPair(dp, 0, dn);
    var m0, cy;
    q, n1', m0 := Udiv3by2(n1, n0, np[i + dn - 2], d1, d0, dinv);
    ghost var s := n1' * B + m0;
    cy := Submul1(np, i, dp, 0, dn - 2, q);
    ghost var low: seq<Limb> := np[i..i + dn - 2];
    ValueBound(low);
    n1', m0, borrow := BorrowTop(n1', m0, cy);
    np[i + dn - 2] := m0;
    assert np[i..i + dn - 2] == low;
    HeldValue(np, i, n1', dn);
    Estimated(p, e, dl, q, t, s, l, cy, Value(low), n1' * B + m0, borrow);
  }

  lemma Estimated(p: int, e: int, dl: int, q: int, t: int, s: int, l: int, cy: int, l': int, x: int, borrow: int)
    requires 0 < p && 0 <= q < B && 0 <= s < e && 0 <= l && 0 <= dl < p && B <= e && 0 <= cy && 0 <= borrow <= 1
    requires t == q * e + s && l' == l - dl * q + cy * p && x == s - cy + borrow * (B * B)
    requires 0 <= x < B * B && 0 <= l' < p
    ensures x * p + l' == t * p + l - q * (e * p + dl) + borrow * (B * B * p)
    ensures borrow == 0 ==> 0 <= t * p + l - q * (e * p + dl) < e * p + dl
    ensures borrow == 1 ==> 0 < q && 0 <= t * p + l - (q - 1) * (e * p + dl) < e * p + dl
  {
    DifferenceHeld(p, e, dl, q, t, s, l, cy, l', x, borrow);
    if borrow == 0 {
      EstimateExact(p, e, dl, s, l', x);
    } else {
      EstimateOneHigh(p, e, dl, q, t, s, l, l', x);
    }
  }

  /** The step of mpn_div_qr_pi1 through the three-by-two estimate. */
  method StepEstimate(np: array<Limb>, i: nat, n1: Limb, dp: array<Limb>, dn: nat, dinv: Limb)
    returns (q: Limb, n1': Limb)
    requires 2 < dn <= dp.Length && i + dn <= np.Length && np != dp && HIGHBIT <= dp[dn - 1]
    requires IsInverse(B, dp[dn - 1] * B + dp[dn - 2], dinv)
    requires n1 * B + np[i + dn - 1] < dp[dn - 1] * B + dp[dn - 2]
    modifies np
    ensures n1 * BPow(dn) + old(Val(np, i, dn)) == q * Val(dp, 0, dn) + (n1' * BPow(dn - 1) + Val(np, i, dn - 1))
    ensures n1' * BPow(dn - 1) + Val(np, i, dn - 1) < Val(dp, 0, dn)
    ensures SameOutside(np, old(np[..]), i, dn)
  {
    ghost var d, w := Val(dp, 0, dn), n1 * BPow(dn) + Val(np, i, dn);
    var cy;
    q, n1', cy := SubtractEstimate(np, i, n1, dp, dn, dinv, d);
    if cy != 0 {
      Distribute(d, q, 0, 0, 1);
      n1' := AddBack(np, i, n1', dp, dn, w - (q - 1) * d);
      q := q - 1;
    }
  }

  lemma {:induction false} WindowValue(np: array<Limb>, i: nat, n1: Limb, dn: nat)
    requires 2 < dn && i + dn <= np.Length
    ensures n1 * BPow(dn) + Val(np, i, dn)
         == (n1 * B * B + np[i + dn - 1] * B + np[i + dn - 2]) * BPow(dn - 2) + Val(np, i, dn - 2)
    ensures BPow(dn) == B * B * BPow(dn - 2) && 0 <= Val(np, i, dn - 2) < BPow(dn - 2)
  {
    TopPair(np, i, dn);
    var p := BPow(dn - 2);
    assert BPow(dn) == B * (B * p);
    Distribute(p, n1 * B * B, np[i + dn - 1] * B + np[i + dn - 2], 0, 0);
    Associate(n1, B * B, p);
  }

  lemma {:induction false} HeldValue(np: array<Limb>, i: nat, n1: Limb, dn: nat)
    requires 2 < dn && i + dn <= np.Length
    ensures n1 * BPow(dn - 1) + Val(np, i, dn - 1)
         == (n1 * B + np[i + dn - 2]) * BPow(dn - 2) + Val(np, i, dn - 2)
  {
    TopLimb(np, i, dn - 1);
    PairScale(n1, np[i + dn - 2], BPow(dn - 2));
  }

  /** One quotient limb: the body of the loop of mpn_div_qr_pi1. */
  method DivStep(np: array<Limb>, i: nat, n1: Limb, dp: array<Limb>, dn: nat, dinv: Limb) returns (q: Limb, n1': Limb)
    requires 2 < dn <= dp.Length && i + dn <= np.Length && np != dp && HIGHBIT <= dp[dn - 1]
    requires IsInverse(B, dp[dn - 1] * B + dp[dn - 2], dinv)
    requires n1 * BPow(dn - 1) + Val(np, i + 1, dn - 1) < Val(dp, 0, dn)
    modifies np
    ensures n1 * BPow(dn) + old(Val(np, i, dn)) == q * Val(dp, 0, dn) + (n1' * BPow(dn - 1) + Val(np, i, dn - 1))
    ensures n1' * BPow(dn - 1) + Val(np, i, dn - 1) < Val(dp, 0, dn)
    ensures SameOutside(np, old(np[..]), i, dn)
  {
    WindowBound(np, i, n1, dn, Val(dp, 0, dn));
    TopLimbsOrdered(np, i, n1, dp, dn);
    if n1 == dp[dn - 1] && np[i + dn - 1] == dp[dn - 2] {
      q, n1' := StepMax(np, i, n1, dp, dn);
    } else {
      q, n1' := StepEstimate(np, i, n1, dp, dn, dinv);
    }
  }

  lemma {:induction false} TopLimbsOrdered(np: array<Limb>, i: nat, n1: Limb, dp: array<Limb>, dn: nat)
    requires 2 < dn <= dp.Length && i + dn <= np.Length
    requires n1 * BPow(dn) + Val(np, i, dn) < B * Val(dp, 0, dn)
    ensures n1 * B + np[i + dn - 1] <= dp[dn - 1] * B + dp[dn - 2]
  {
    var p := BPow(dn - 2);
    TopPair(dp, 0, dn);
    TopLimb(np, i, dn);
    assert BPow(dn) == B * (B * p);
    PairScale(n1, np[i + dn - 1], B * p);
    TopCompare(p, n1 * B + np[i + dn - 1], Val(np, i, dn - 1), dp[dn - 1] * B + dp[dn - 2], Val(dp, 0, dn - 2));
  }

  /** The long division of n has reached limb i of s: quotient limbs qs and partial remainder r so far. */
  ghost predicate Reached(n: int, s: seq<Limb>, i: nat, qs: seq<Limb>, d: int, r: int)
    requires i <= |s|
  {
    n == Value(qs) * d * BPow(i) + r * BPow(i) + Value(s[..i])
  }

  lemma {:induction false} LongDivisionEnd(n: int, s: seq<Limb>, qs: seq<Limb>, d: int, r: int)
    requires Reached(n, s, 0, qs, d, r)
    ensures n == Value(qs) * d + r
  {
    assert s[..0] == [];
  }

  lemma {:induction false} LongDivisionBegin(n: int, s: seq<Limb>, d: int, r: int)
    requires n == r * BPow(|s|) + Value(s)
    ensures Reached(n, s, |s|, [], d, r)
  {
    assert s[..|s|] == s;
  }

  /** Shifting the division identity down by one limb. */
  lemma {:induction false} LongDivisionStep(n: int, s: seq<Limb>, i: nat, qs: seq<Limb>, d: int, r: int, q: Limb,
                                            r': int)
    requires i < |s| && Reached(n, s, i + 1, qs, d, r)
    requires r * B + s[i] == q * d + r'
    ensures Reached(n, s, i, [q] + qs, d, r')
  {
    var p, v := BPow(i), Value(qs);
    ValueTake(s, i);
    assert ([q] + qs)[1..] == qs;
    ValueCons([q] + qs);
    assert BPow(i + 1) == B * p;
    LongDivisionAlgebra(p, v, d, r, s[i], q, r');
  }

  lemma LongDivisionAlgebra(p: int, v: int, d: int, r: int, x: int, q: int, r': int)
    requires r * B + x == q * d + r'
    ensures v * d * (B * p) + r * (B * p) + x * p == (q + B * v) * d * p + r' * p
  {
    Distribute(p, r * B, x, 0, 0);
    Distribute(p, q * d, r', 0, 0);
    Associate(r, B, p);
    Distribute(d, q, B * v, 0, 0);
    Distribute(p, q * d, (B * v) * d, 0, 0);
    assert (B * v) * d * p == v * d * (B * p);
  }

  /** The loop of mpn_div_qr_pi1, for a dividend n whose top part r is already below the divisor d. */
  method LongDivide(qp: array?<Limb>, np: array<Limb>, k: nat, nh: Limb, dp: array<Limb>, dn: nat, dinv: Limb,
                    ghost d: int, ghost n: int)
    returns (n1: Limb, ghost qs: seq<Limb>)
    requires 2 < dn <= dp.Length && k + dn - 1 <= np.Length && np != dp && HIGHBIT <= dp[dn - 1]
    requires qp != null ==> qp != np && qp != dp && k <= qp.Length
    requires IsInverse(B, dp[dn - 1] * B + dp[dn - 2], dinv) && d == Val(dp, 0, dn)
    requires nh * BPow(dn - 1) + Val(np, k, dn - 1) < d
    requires n == (nh * BPow(dn - 1) + Val(np, k, dn - 1)) * BPow(k) + Value(np[0..k])
    modifies np, if qp == null then {} else {qp}
    ensures n == Value(qs) * d + (n1 * BPow(dn - 1) + Val(np, 0, dn - 1))
    ensures n1 * BPow(dn - 1) + Val(np, 0, dn - 1) < d
    ensures SameOutside(np, old(np[..]), 0, k + dn - 1)
    ensures qp != null ==> qp[0..k] == qs && SameOutside(qp, old(qp[..]), 0, k)
  {
    hide Value, BPow, Pow2, Reached;
    ghost var s: seq<Limb>, r := np[0..k], nh * BPow(dn - 1) + Val(np, k, dn - 1);
    var i := k;
    n1, qs := nh, [];
    LongDivisionBegin(n, s, d, r);
    while i > 0
      invariant 0 <= i <= k && |qs| == k - i
      invariant np[0..i] == s[..i] && SameOutside(np, old(np[..]), i, k + dn - 1 - i)
      invariant r == n1 * BPow(dn - 1) + Val(np, i, dn - 1) < d
      invariant Reached(n, s, i, qs, d, r)
      invariant qp != null ==> qp[i..k] == qs && SameOutside(qp, old(qp[..]), i, k - i)
    {
      i := i - 1;
      assert np[i] == s[i];
      WindowDigit(np, i, n1, dn);
      var q;
      q, n1 := DivStep(np, i, n1, dp, dn, dinv);
      ghost var r' := n1 * BPow(dn - 1) + Val(np, i, dn - 1);
      LongDivisionStep(n, s, i, qs, d, r, q, r');
      StoreQuotient(qp, i, q, k, qs);
      qs, r := [q] + qs, r';
    }
    LongDivisionEnd(n, s, qs, d, r);
  }

  /** mpn_div_qr_pi1: long division by a normalised divisor of more than two limbs. */
  method DivQrPi1(qp: array?<Limb>, np: array<Limb>, nn: nat, nh: Limb, dp: array<Limb>, dn: nat, dinv: Limb)
    requires 2 < dn <= nn <= np.Length && dn <= dp.Length && np != dp && HIGHBIT <= dp[dn - 1]
    requires qp != null ==> qp != np && qp != dp && nn - dn + 1 <= qp.Length
    requires IsInverse(B, dp[dn - 1] * B + dp[dn - 2], dinv)
    requires nh * BPow(dn - 1) + Val(np, nn - dn + 1, dn - 1) < Val(dp, 0, dn)
    modifies np, if qp == null then {} else {qp}
    ensures 0 < Val(dp, 0, dn)
    ensures Val(np, 0, dn) == (nh * BPow(nn) + old(Val(np, 0, nn))) % Val(dp, 0, dn)
    ensures qp != null ==> Val(qp, 0, nn - dn + 1) == (nh * BPow(nn) + old(Val(np, 0, nn))) / Val(dp, 0, dn)
    ensures SameOutside(np, old(np[..]), 0, nn)
    ensures qp != null ==> SameOutside(qp, old(qp[..]), 0, nn - dn + 1)
  {
    ghost var d, n := Val(dp, 0, dn), nh * BPow(nn) + Val(np, 0, nn);
    LongDivisionStart(np, nn, nh, dn);
    var n1; ghost var qs;
    n1, qs := LongDivide(qp, np, nn - dn + 1, nh, dp, dn, dinv, d, n);
    ghost var low: seq<Limb> := np[0..dn - 1];
    np[dn - 1] := n1;
    assert np[0..dn - 1] == low;
    TopLimb(np, 0, dn);
    DivModUnique(n, d, Value(qs), Val(np, 0, dn));
  }

  /** qp[i] = q, where there is a quotient to store. */
  method StoreQuotient(qp: array?<Limb>, i: nat, q: Limb, ghost k: nat, ghost qs: seq<Limb>)
    requires qp != null ==> i < k <= qp.Length && qp[i + 1..k] == qs
    modifies if qp == null then {} else {qp}
    ensures qp != null ==> qp[i..k] == [q] + qs && SameOutside(qp, old(qp[..]), i, 1)
  {
    if qp != null { qp[i] := q; }
  }

  lemma {:induction false} WindowDigit(np: array<Limb>, i: nat, n1: Limb, dn: nat)
    requires 1 <= dn && i + dn <= np.Length
    ensures n1 * BPow(dn) + Val(np, i, dn) == (n1 * BPow(dn - 1) + Val(np, i + 1, dn - 1)) * B + np[i]
  {
    LowLimb(np, i, dn);
    Associate(n1, B, BPow(dn - 1));
  }

  lemma {:induction false} LongDivisionStart(np: array<Limb>, nn: nat, n1: Limb, dn: nat)
    requires 1 <= dn <= nn <= np.Length
    ensures n1 * BPow(nn) + Val(np, 0, nn)
         == (n1 * BPow(dn - 1) + Val(np, nn - dn + 1, dn - 1)) * BPow(nn - dn + 1) + Value(np[0..nn - dn + 1])
  {
    var k := nn - dn + 1;
    ValCut(np, 0, nn, k);
    assert BPow(nn) == BPow(dn - 1) * BPow(k) by { BPowAdd(dn - 1, k); }
    StartAlgebra(n1, BPow(dn - 1), BPow(k), Val(np, k, dn - 1));
  }

  lemma StartAlgebra(n1: int, p: int, q: int, v: int)
    ensures n1 * (p * q) + q * v == (n1 * p + v) * q
  {
  }

  // ---- the entry points ----

  /** inv was prepared for the divisor d of dn limbs. */
  ghost predicate Prepared(inv: DivInverse, d: int, dn: nat) {
    if dn == 1 then Inverts1(inv, d)
    else if dn == 2 then Inverts2(inv, d)
    else
      && dn > 2 && inv.shift < 64 && HIGHBIT <= inv.d1 && IsInverse(B, inv.d1 * B + inv.d0, inv.di)
      && TopDigits(inv.d1 * B + inv.d0, BPow(dn - 2), d * Pow2(inv.shift))
  }

  /** e is what remains of x above its digits below p. */
  ghost predicate TopDigits(e: int, p: int, x: int) {
    e * p <= x < (e + 1) * p
  }

  lemma TopDigitsUnique(e: int, f: int, p: int, l: int, x: int)
    requires 0 < p && TopDigits(e, p, x) && x == f * p + l && 0 <= l < p
    ensures e == f
  {
    assert f * p < (e + 1) * p && e * p < (f + 1) * p by { Distribute(p, f, 1, 0, 0); }
    MulCancel(f, e + 1, p);
    MulCancel(e, f + 1, p);
  }

  /** For more than two limbs: dp holds the normalised divisor, and inv has its top limbs. */
  ghost predicate Normalized(inv: DivInverse, d: int, dp: array<Limb>, dn: nat)
    reads dp
  {
    && 2 < dn <= dp.Length
    && Val(dp, 0, dn) == d * Pow2(inv.shift)
    && inv.d1 == dp[dn - 1] && inv.d0 == dp[dn - 2]
  }

  /** The shifted dividend starts below the normalised divisor. */
  lemma {:induction false} StartsBelow(np: array<Limb>, lo: nat, nh: Limb, dp: array<Limb>, dn: nat, shift: nat)
    requires 2 < dn <= dp.Length && lo + dn - 1 <= np.Length && HIGHBIT <= dp[dn - 1]
    requires shift < 64 && nh < Pow2(shift)
    ensures nh * BPow(dn - 1) + Val(np, lo, dn - 1) < Val(dp, 0, dn)
  {
    hide Value, BPow;
    Pow2Values();
    Pow2Mono(shift, 63);
    TopLimb(dp, 0, dn);
    ValueBound(np[lo..lo + dn - 1]);
    DigitOrder(BPow(dn - 1), Val(np, lo, dn - 1), nh, dp[dn - 1]);
  }

  /** mpn_div_qr_preinv: quotient to qp (unless null), remainder to the low dn limbs of np. */
  method DivQrPreinv(qp: array?<Limb>, np: array<Limb>, nn: nat, dp: array<Limb>, dn: nat, inv: DivInverse,
                     ghost d: int)
    requires 1 <= dn <= nn <= np.Length && Prepared(inv, d, dn)
    requires dn > 2 ==> np != dp && Normalized(inv, d, dp, dn)
    requires qp != null ==> qp != np && nn - dn + 1 <= qp.Length && (dn > 2 ==> qp != dp)
    modifies np, if qp == null then {} else {qp}
    ensures 0 < d && Val(np, 0, dn) == old(Val(np, 0, nn)) % d
    ensures qp != null ==> Val(qp, 0, nn - dn + 1) == old(Val(np, 0, nn)) / d
    ensures SameOutside(np, old(np[..]), 0, nn)
    ensures qp != null ==> SameOutside(qp, old(qp[..]), 0, nn - dn + 1)
  {
    if dn == 1 {
      var r := DivQr1Preinv(qp, np, nn, inv, d);
      np[0] := r;
      assert np[0..1] == [r];
      ValueCons([r]);
    } else if dn == 2 {
      DivQr2Preinv(qp, np, np, nn, inv, d);
    } else {
      DivQrLarge(qp, np, nn, dp, dn, inv, d);
    }
  }

  /** The case of more than two limbs: shift, divide, shift back. */
  method DivQrLarge(qp: array?<Limb>, np: array<Limb>, nn: nat, dp: array<Limb>, dn: nat, inv: DivInverse, ghost d: int)
    requires 2 < dn <= nn <= np.Length && Prepared(inv, d, dn) && Normalized(inv, d, dp, dn) && np != dp
    requires qp != null ==> qp != np && qp != dp && nn - dn + 1 <= qp.Length
    modifies np, if qp == null then {} else {qp}
    ensures 0 < d && Val(np, 0, dn) == old(Val(np, 0, nn)) % d
    ensures qp != null ==> Val(qp, 0, nn - dn + 1) == old(Val(np, 0, nn)) / d
    ensures SameOutside(np, old(np[..]), 0, nn)
    ensures qp != null ==> SameOutside(qp, old(qp[..]), 0, nn - dn + 1)
  {
    assert Pow2(0) == 1;
    hide Value, BPow, Pow2;
    ghost var n, p, e := Val(np, 0, nn), Pow2(inv.shift), Val(dp, 0, dn);
    var nh: Limb := 0;
    if inv.shift > 0 {
      nh := Lshift(np, 0, np, 0, nn, inv.shift);
    }
    StartsBelow(np, nn - dn + 1, nh, dp, dn, inv.shift);
    DivQrPi1(qp, np, nn, nh, dp, dn, inv.di);
    ShiftedDivision(n, d, p);
    if inv.shift > 0 {
      var carry := Rshift(np, 0, np, 0, dn, inv.shift);
      RemainderShifted(n % d, inv.shift, carry, Val(np, 0, dn));
      assert carry == 0;
    }
  }

  /** Scaling dividend and divisor keeps the quotient and scales the remainder. */
  lemma ShiftedDivision(n: int, d: int, p: int)
    requires 0 < p && 0 < d * p
    ensures 0 < d && (n * p) / (d * p) == n / d && (n * p) % (d * p) == (n % d) * p
  {
    if d <= 0 { MulMono(d, 0, p); }
    var q, r := n / d, n % d;
    assert n * p == q * (d * p) + r * p by {
      assert n == q * d + r;
      Distribute(p, q * d, r, 0, 0);
      Associate(q, d, p);
    }
    MulMono(r, d - 1, p);
    Distribute(p, d, 0, 0, 1);
    DivModUnique(n * p, d * p, q, r * p);
  }

  lemma RemainderShifted(r: int, shift: nat, carry: Limb, v: int)
    requires 1 <= shift < 64 && carry + B * v == (r * Pow2(shift)) * Pow2(64 - shift)
    ensures carry == 0 && v == r
  {
    Pow2Complement(shift);
    Associate(r, Pow2(shift), Pow2(64 - shift));
  }

  /** mpn_div_qr_invert: prepares the inverse of a divisor with non-zero top limb. */
  method DivQrInvert(dp: array<Limb>, dn: nat) returns (inv: DivInverse)
    requires 1 <= dn <= dp.Length && 0 < dp[dn - 1]
    ensures Prepared(inv, Val(dp, 0, dn), dn)
  {
    if dn == 1 {
      inv := DivQr1Invert(dp[0]);
      assert dp[0..1] == [dp[0]];
      ValueCons(dp[0..1]);
    } else if dn == 2 {
      inv := DivQr2Invert(dp[1], dp[0]);
      assert dp[0..2] == [dp[0], dp[1]];
      PairValue(dp[0], dp[1]);
    } else {
      var shift := Clz(dp[dn - 1]);
      var d1, d0 := NormalizeTop(dp[dn - 1], dp[dn - 2], dp[dn - 3], shift);
      var di := Invert3by2(d1, d0);
      inv := DivInverse(shift, d1, d0, di);
      if shift == 0 { TopUnshifted(dp, dn); } else { TopShifted(dp, dn, shift, d1 * B + d0); }
    }
  }

  lemma {:induction false} TopUnshifted(dp: array<Limb>, dn: nat)
    requires 2 < dn <= dp.Length
    ensures TopDigits(dp[dn - 1] * B + dp[dn - 2], BPow(dn - 2), Val(dp, 0, dn) * Pow2(0))
  {
    TopPair(dp, 0, dn);
    Distribute(BPow(dn - 2), dp[dn - 1] * B + dp[dn - 2], 1, 0, 0);
    assert Pow2(0) == 1;
  }

  lemma {:induction false} TopShifted(dp: array<Limb>, dn: nat, shift: nat, e: int)
    requires 2 < dn <= dp.Length && 1 <= shift < 64
    requires e == (dp[dn - 1] * B + dp[dn - 2]) * Pow2(shift) + Shr(dp[dn - 3], 64 - shift)
    ensures TopDigits(e, BPow(dn - 2), Val(dp, 0, dn) * Pow2(shift))
  {
    assert BPow(dn - 2) == B * BPow(dn - 3);
    hide Value, BPow, Pow2, TopDigits;
    var f, d2, p := dp[dn - 1] * B + dp[dn - 2], dp[dn - 3], BPow(dn - 3);
    TopPair(dp, 0, dn);
    TopLimb(dp, 0, dn - 2);
    ShiftSplit(d2, shift);
    Pow2Complement(shift);
    TopShiftWhole(f, d2, Val(dp, 0, dn - 3), p, Pow2(shift), Pow2(64 - shift), Shr(d2, 64 - shift),
                  d2 % Pow2(64 - shift),
                  e, BPow(dn - 2), Val(dp, 0, dn));
  }

  lemma TopShiftWhole(f: int, d2: int, l: int, p: int, s: int, t: int, hi: int, lo: int, e: int, q: int, v: int)
    requires 0 < p && 0 < s && s * t == B && 0 <= l < p && 0 <= lo < t
    requires d2 * s == hi * B + lo * s && e == f * s + hi && q == B * p && v == f * q + (d2 * p + l)
    ensures TopDigits(e, q, v * s)
  {
    TopShiftAlgebra(f, d2, l, p, s, t, hi, lo);
  }

  lemma TopShiftAlgebra(f: int, d2: int, l: int, p: int, s: int, t: int, hi: int, lo: int)
    requires 0 < p && 0 < s && s * t == B && 0 <= l < p && 0 <= lo < t
    requires d2 * s == hi * B + lo * s
    ensures TopDigits(f * s + hi, B * p, (f * (B * p) + (d2 * p + l)) * s)
  {
    var y := lo * s * p + l * s;
    TopShiftIdentity(f, d2, l, p, s, hi, lo);
    TopShiftRest(l, p, s, t, lo);
    Distribute(B * p, f * s + hi, 1, 0, 0);
  }

  lemma TopShiftIdentity(f: int, d2: int, l: int, p: int, s: int, hi: int, lo: int)
    requires d2 * s == hi * B + lo * s
    ensures (f * (B * p) + (d2 * p + l)) * s == (f * s + hi) * (B * p) + (lo * s * p + l * s)
  {
    Distribute(s, f * (B * p), d2 * p, l, 0);
    Distribute(B * p, f * s, hi, 0, 0);
    Distribute(p, hi * B, lo * s, 0, 0);
    Associate(f, s, B * p);
    Associate(d2, p, s);
    Associate(hi, B, p);
  }

  lemma TopShiftRest(l: int, p: int, s: int, t: int, lo: int)
    requires 0 < p && 0 < s && s * t == B && 0 <= l < p && 0 <= lo < t
    ensures 0 <= lo * s * p + l * s < B * p
  {
    assert 0 <= lo * s <= B - s by { MulBounds(lo, t - 1, s, s); Distribute(s, t, 0, 0, 1); }
    assert 0 <= lo * s * p <= B * p - s * p by { MulBounds(lo * s, B - s, p, p); Distribute(p, B, 0, 0, s); }
    assert 0 <= l * s <= s * p - s by { MulBounds(l, p - 1, s, s); Distribute(s, p, 0, 0, 1); }
  }

  /** mpn_div_qr: exact division of nn >= dn >= 1 limbs by dn limbs with non-zero top limb. */
  method DivQr(qp: array?<Limb>, np: array<Limb>, nn: nat, dp: array<Limb>, dn: nat)
    requires 1 <= dn <= nn <= np.Length && dn <= dp.Length && 0 < dp[dn - 1] && np != dp
    requires qp != null ==> qp != np && qp != dp && nn - dn + 1 <= qp.Length
    modifies np, if qp == null then {} else {qp}
    ensures 0 < Val(dp, 0, dn) && Val(np, 0, dn) == old(Val(np, 0, nn)) % Val(dp, 0, dn)
    ensures qp != null ==> Val(qp, 0, nn - dn + 1) == old(Val(np, 0, nn)) / Val(dp, 0, dn)
    ensures SameOutside(np, old(np[..]), 0, nn)
    ensures qp != null ==> SameOutside(qp, old(qp[..]), 0, nn - dn + 1)
  {
    var inv := DivQrInvert(dp, dn);
    ghost var d := Val(dp, 0, dn);
    var tp := dp;
    if dn > 2 {
      tp := NormalizeDivisor(dp, dn, inv);
    }
    DivQrPreinv(qp, np, nn, tp, dn, inv, d);
  }

  /** The divisor shifted left by inv.shift, as a copy if there is anything to shift. */
  method NormalizeDivisor(dp: array<Limb>, dn: nat, inv: DivInverse) returns (tp: array<Limb>)
    requires 2 < dn <= dp.Length && Prepared(inv, Val(dp, 0, dn), dn)
    ensures tp == dp || fresh(tp)
    ensures Normalized(inv, Val(dp, 0, dn), tp, dn)
  {
    tp := dp;
    ghost var x := Val(dp, 0, dn) * Pow2(inv.shift);
    if inv.shift > 0 {
      tp := new Limb[dn];
      var carry := Lshift(tp, 0, dp, 0, dn, inv.shift);
      NoCarry(inv, x, dn, carry, Val(tp, 0, dn));
      assert carry == 0;
    } else {
      assert Pow2(0) == 1;
    }
    TopPair(tp, 0, dn);
    TopDigitsUnique(inv.d1 * B + inv.d0, tp[dn - 1] * B + tp[dn - 2], BPow(dn - 2), Val(tp, 0, dn - 2), x);
  }

  lemma {:induction false} NoCarry(inv: DivInverse, x: int, dn: nat, carry: int, v: int)
    requires 2 < dn && TopDigits(inv.d1 * B + inv.d0, BPow(dn - 2), x)
    requires 0 <= v && 0 <= carry && v + carry * BPow(dn) == x
    ensures carry == 0
  {
    var p := BPow(dn - 2);
    assert BPow(dn) == B * (B * p);
    assert (inv.d1 * B + inv.d0 + 1) * p <= (B * B) * p by { MulMono(inv.d1 * B + inv.d0 + 1, B * B, p); }
    if carry >= 1 { MulMono(1, carry, BPow(dn)); }
  }

  /** An inverse prepared for d serves, with shift 0, for the normalised d. */
  lemma WithoutShift(inv: DivInverse, d: int, dn: nat)
    requires Prepared(inv, d, dn)
    ensures Prepared(inv.(shift := 0), d * Pow2(inv.shift), dn)
  {
    assert Pow2(0) == 1;
  }

  /** The set-up of mpz_powm: the modulus is normalised once; its inverse serves without the shift, and with it. */
  method NormalizeOnce(mp: array<Limb>, mn: nat) returns (shift: nat, tp: array<Limb>, inv: DivInverse)
    requires 1 <= mn <= mp.Length && 0 < mp[mn - 1]
    ensures tp == mp || fresh(tp)
    ensures inv.shift == 0 && mn <= tp.Length && Val(tp, 0, mn) == Val(mp, 0, mn) * Pow2(shift)
    ensures Prepared(inv, Val(tp, 0, mn), mn) && (mn > 2 ==> Normalized(inv, Val(tp, 0, mn), tp, mn))
    ensures Prepared(inv.(shift := shift), Val(mp, 0, mn), mn)
    ensures mn > 2 ==> Normalized(inv.(shift := shift), Val(mp, 0, mn), tp, mn)
  {
    var minv := DivQrInvert(mp, mn);
    shift := minv.shift;
    ghost var d := Val(mp, 0, mn);
    WithoutShift(minv, d, mn);
    inv := minv.(shift := 0);
    tp := ShiftModulus(mp, mn, minv);
    assert Pow2(0) == 1;
  }

  method ShiftModulus(mp: array<Limb>, mn: nat, inv: DivInverse) returns (tp: array<Limb>)
    requires 1 <= mn <= mp.Length && Prepared(inv, Val(mp, 0, mn), mn)
    ensures tp == mp || fresh(tp)
    ensures mn <= tp.Length && Val(tp, 0, mn) == Val(mp, 0, mn) * Pow2(inv.shift)
    ensures mn > 2 ==> Normalized(inv, Val(mp, 0, mn), tp, mn)
  {
    if mn > 2 {
      tp := NormalizeDivisor(mp, mn, inv);
    } else {
      tp := mp;
      if inv.shift > 0 {
        tp := new Limb[mn];
        var carry := Lshift(tp, 0, mp, 0, mn, inv.shift);
        SmallNoCarry(inv, Val(mp, 0, mn), mn, carry, Val(tp, 0, mn));
        assert carry == 0;
      } else {
        assert Pow2(0) == 1;
      }
    }
  }

  lemma SmallNoCarry(inv: DivInverse, d: int, dn: nat, carry: int, v: int)
    requires 1 <= dn <= 2 && Prepared(inv, d, dn) && 0 <= v && 0 <= carry && v + carry * BPow(dn) == d * Pow2(inv.shift)
    ensures carry == 0
  {
    assert BPow(0) == 1 && BPow(1) == B * BPow(0) && BPow(2) == B * BPow(1);
    if carry >= 1 { MulMono(1, carry, BPow(dn)); }
  }

  /** A reduction of mpz_powm: the remainder by the normalised modulus. */
  method ReduceOnce(np: array<Limb>, nn: nat, tp: array<Limb>, mn: nat, inv: DivInverse)
    requires 1 <= mn <= nn <= np.Length && mn <= tp.Length && np != tp && inv.shift == 0
    requires Prepared(inv, Val(tp, 0, mn), mn) && (mn > 2 ==> Normalized(inv, Val(tp, 0, mn), tp, mn))
    modifies np
    ensures 0 < Val(tp, 0, mn) && Val(np, 0, mn) == old(Val(np, 0, nn)) % Val(tp, 0, mn)
    ensures SameOutside(np, old(np[..]), 0, nn)
  {
    DivQrPreinv(null, np, nn, tp, mn, inv, Val(tp, 0, mn));
  }
}
