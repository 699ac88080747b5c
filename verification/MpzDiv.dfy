/** Division of integers with the three rounding modes of mini-gmp. */
module MpzDiv {
  import opened Arith
  import opened Limb
  import opened Mpn
  import opened MpnShift
  import opened MpnDiv
  import opened LimbLogic
  import opened Mpz

  datatype Mode = FLOOR | CEIL | TRUNC

  /** q and r are quotient and remainder of n by d, rounded as the mode says. */
  ghost predicate Rounded(mode: Mode, n: int, d: int, q: int, r: int) {
    && n == q * d + r && Abs(r) < Abs(d)
    && match mode
       case FLOOR => r != 0 ==> (r < 0) == (d < 0)
       case CEIL => r != 0 ==> (r < 0) != (d < 0)
       case TRUNC => r != 0 ==> (r < 0) == (n < 0)
  }

  /** The mode determines quotient and remainder. */
  lemma RoundedUnique(mode: Mode, n: int, d: int, q: int, r: int, q': int, r': int)
    requires d != 0 && Rounded(mode, n, d, q, r) && Rounded(mode, n, d, q', r')
    ensures q == q' && r == r'
  {
    assert (q - q') * d == r' - r by { Distribute(d, q, 0, 0, q'); }
    assert Abs(r' - r) < Abs(d);
    SmallMultiple(q - q', d);
  }

  lemma SmallMultiple(k: int, d: int)
    requires d != 0 && Abs(k * d) < Abs(d)
    ensures k == 0 && k * d == 0
  {
    if k * d != 0 { FarFromZero(k, d); }
  }

  /** In every mode q is the quotient n / d rounded as the name says: down, up, or toward zero. */
  lemma RoundedBounds(mode: Mode, n: int, d: int, q: int, r: int)
    requires d != 0 && Rounded(mode, n, d, q, r)
    ensures mode == FLOOR && d > 0 ==> q * d <= n < (q + 1) * d
    ensures mode == FLOOR && d < 0 ==> (q + 1) * d < n <= q * d
    ensures mode == CEIL && d > 0 ==> (q - 1) * d < n <= q * d
    ensures mode == CEIL && d < 0 ==> q * d <= n < (q - 1) * d
    ensures mode == TRUNC ==> Abs(q * d) <= Abs(n) && Abs(n) < Abs(q * d) + Abs(d)
  {
    Distribute(d, q, 1, 0, 0);
    Distribute(d, q, 0, 0, 1);
    if mode == TRUNC { TruncatedTowardZero(n, d, q, r); }
  }

  lemma TruncatedTowardZero(n: int, d: int, q: int, r: int)
    requires d != 0 && n == q * d + r && Abs(r) < Abs(d) && (r != 0 ==> (r < 0) == (n < 0))
    ensures Abs(q * d) <= Abs(n) && Abs(n) < Abs(q * d) + Abs(d)
  {
    if n >= 0 && q * d < 0 { FarFromZero(q, d); }
    if n < 0 && q * d > 0 { FarFromZero(q, d); }
  }

  lemma FarFromZero(q: int, d: int)
    requires q * d != 0
    ensures Abs(q * d) >= Abs(d)
  {
    if q >= 1 && d > 0 { MulMono(1, q, d); }
    if q >= 1 && d < 0 { MulMono(1, q, -d); Associate(-1, q, d); }
    if q <= -1 && d > 0 { MulMono(q, -1, d); }
    if q <= -1 && d < 0 { MulMono(q, -1, -d); Associate(-1, q, d); }
  }

  /** Signs put back after dividing magnitudes: truncation. */
  lemma SignedTruncation(nneg: bool, a: nat, dneg: bool, b: nat, q: nat, r: nat)
    requires 0 < b && q == a / b && r == a % b
    ensures Rounded(TRUNC, Signed(nneg, a), Signed(dneg, b), Signed(nneg != dneg, q), Signed(nneg, r))
  {
    assert a == q * b + r;
    SignRules(q, b);
  }

  lemma SignRules(q: int, b: int)
    ensures (-q) * b == -(q * b) && q * (-b) == -(q * b) && (-q) * (-b) == q * b
  {
  }

  /** One step away from truncation. */
  lemma AdjustDown(n: int, d: int, q: int, r: int)
    requires Rounded(TRUNC, n, d, q, r) && d != 0 && r != 0 && (n < 0) != (d < 0)
    ensures Rounded(FLOOR, n, d, q - 1, r + d)
  {
    Distribute(d, q, 0, 0, 1);
  }

  lemma AdjustUp(n: int, d: int, q: int, r: int)
    requires Rounded(TRUNC, n, d, q, r) && d != 0 && r != 0 && (n < 0) == (d < 0)
    ensures Rounded(CEIL, n, d, q + 1, r - d)
  {
    Distribute(d, q, 1, 0, 0);
  }

  /** When truncation already rounds the way the mode asks. */
  lemma NoAdjust(mode: Mode, n: int, d: int, q: int, r: int)
    requires Rounded(TRUNC, n, d, q, r) && d != 0
    requires r == 0 || (mode == FLOOR && (n < 0) == (d < 0)) || (mode == CEIL && (n < 0) != (d < 0)) || mode == TRUNC
    ensures Rounded(mode, n, d, q, r)
  {
  }

  /** The quotient of nn limbs by dn limbs needs nn - dn + 1 limbs, or one less. */
  lemma {:induction false} QuotientTop(n: seq<Limb>, d: seq<Limb>, q: seq<Limb>)
    requires 1 <= |d| <= |n| && n[|n| - 1] != 0 && |q| == |n| - |d| + 1
    requires 0 < Value(d) && Value(q) == Value(n) / Value(d)
    ensures |q| > 1 && q[|q| - 1] == 0 ==> q[|q| - 2] != 0
  {
    var k := |q| - 1;
    if k > 0 && q[k] == 0 && q[k - 1] == 0 {
      assert q == q[..k] + [0] && q[..k] == q[..k - 1] + [0];
      ValueSnoc(q[..k], 0);
      ValueSnoc(q[..k - 1], 0);
      ValueBound(q[..k - 1]);
      ValueTop(n);
      ValueBound(d);
      BPowAdd(k - 1, |d|);
      QuotientLarge(Value(n), Value(d), Value(q), BPow(k - 1), BPow(|d|));
    }
  }

  lemma QuotientLarge(n: int, d: int, q: int, p: int, e: int)
    requires 0 < d < e && 0 < p && q == n / d && p * e <= n
    ensures p <= q
  {
    assert n < (q + 1) * d by { Distribute(d, q, 1, 0, 0); }
    assert p * d <= p * e by { MulBounds(p, p, d, e); }
    MulCancel(p, q + 1, d);
  }

  /** The magnitude part of mpz_div_qr, for a dividend with enough limbs: truncated quotient and remainder. */
  method DivMagnitudes(n: Mpz, d: Mpz) returns (q: Mpz, r: Mpz)
    requires n.Valid() && d.Valid() && 1 <= Abs(d.size) <= Abs(n.size)
    ensures fresh(q) && fresh(q.d) && fresh(r) && fresh(r.d) && q.d != r.d && q != r
    ensures q.Valid() && r.Valid() && Rounded(TRUNC, n.Int(), d.Int(), q.Int(), r.Int())
  {
    var nn, dn := Abs(n.size), Abs(d.size);
    var qp, qn, rp, rn := DivLimbs(n.d, nn, d.d, dn);
    SignedTruncation(n.size < 0, Val(n.d, 0, nn), d.size < 0, Val(d.d, 0, dn), Val(qp, 0, qn), Val(rp, 0, rn));
    q := new Mpz.Of(qp, qn, (n.size < 0) != (d.size < 0));
    r := new Mpz.Of(rp, rn, n.size < 0);
  }

  method DivLimbs(np: array<Limb>, nn: nat, dp: array<Limb>, dn: nat)
    returns (qp: array<Limb>, qn: int, rp: array<Limb>, rn: int)
    requires 1 <= dn <= nn <= np.Length && dn <= dp.Length && np[nn - 1] != 0 && dp[dn - 1] != 0
    ensures fresh(qp) && fresh(rp) && qp != rp
    ensures 0 <= qn <= qp.Length && (qn > 0 ==> qp[qn - 1] != 0)
    ensures 0 <= rn <= rp.Length && (rn > 0 ==> rp[rn - 1] != 0)
    ensures 0 < Val(dp, 0, dn) && Val(qp, 0, qn) == Val(np, 0, nn) / Val(dp, 0, dn)
    ensures Val(rp, 0, rn) == Val(np, 0, nn) % Val(dp, 0, dn)
  {
    rp, qp := new Limb[nn], new Limb[nn - dn + 1];
    forall i | 0 <= i < nn { rp[i] := np[i]; }
    assert rp[0..nn] == np[0..nn];
    DivQr(qp, rp, nn, dp, dn);
    qn := nn - dn + 1;
    QuotientTop(np[0..nn], dp[0..dn], qp[0..qn]);
    qn := DropTop(qp, qn);
    rn := NormalizedSize(rp, dn);
  }

  /** qn -= (qp[qn-1] == 0). */
  method DropTop(qp: array<Limb>, qn: int) returns (n: int)
    requires 1 <= qn <= qp.Length && (qn > 1 && qp[qn - 1] == 0 ==> qp[qn - 2] != 0)
    ensures 0 <= n <= qn && (n > 0 ==> qp[n - 1] != 0) && Val(qp, 0, n) == Val(qp, 0, qn)
  {
    n := qn;
    if qp[qn - 1] == 0 {
      assert qp[0..qn] == qp[0..qn - 1] + [0];
      ValueSnoc(qp[0..qn - 1], 0);
      n := qn - 1;
    }
  }

  /** Distinct objects do not share limbs. */
  ghost predicate Apart(x: Mpz, y: Mpz)
    reads x, y
  {
    x != y ==> x.d != y.d
  }

  /** Away from zero: does the mode round the truncated quotient of a non-multiple up, down, or not at all? */
  function Step(mode: Mode, qneg: bool): (k: int) {
    if mode == FLOOR && qneg then -1 else if mode == CEIL && !qneg then 1 else 0
  }

  lemma StepRounds(mode: Mode, n: int, d: int, q: int, r: int)
    requires d != 0 && Rounded(TRUNC, n, d, q, r)
    ensures r == 0 ==> Rounded(mode, n, d, q, r)
    ensures r != 0 ==>
              var k := Step(mode, (n < 0) != (d < 0));
              Rounded(mode, n, d, q + k, if k == 0 then r else if k == 1 then r - d else r + d)
  {
    if r == 0 || Step(mode, (n < 0) != (d < 0)) == 0 {
      NoAdjust(mode, n, d, q, r);
    } else if mode == FLOOR {
      AdjustDown(n, d, q, r);
    } else {
      AdjustUp(n, d, q, r);
    }
  }

  /** The remainder of the branch of mpz_div_qr for fewer dividend than divisor limbs; r may be n or d. */
  method ShortRemainder(r: Mpz, n: Mpz, d: Mpz, k: int)
    requires n.Valid() && d.Valid() && r.Valid() && Apart(r, n) && Apart(r, d) && -1 <= k <= 1
    modifies r, r.d
    ensures r.Valid() && (r.d == old(r.d) || fresh(r.d))
    ensures r.Int() == if k == 0 then old(n.Int())
                       else if k == 1 then old(n.Int()) - old(d.Int())
                       else old(n.Int()) + old(d.Int())
  {
    if k == 1 {
      r.Minus(n, d);
    } else if k == -1 {
      r.Plus(n, d);
    } else {
      r.Set(n);
    }
  }

  /** The branch of mpz_div_qr for fewer dividend than divisor limbs; q and r may be null, n or d. */
  method DivShort(q: Mpz?, r: Mpz?, n: Mpz, d: Mpz, mode: Mode) returns (ghost qv: int, ghost rv: int)
    requires n.Valid() && d.Valid() && 0 < Abs(n.size) < Abs(d.size) && Results(q, r, n, d)
    modifies Objects(q), Objects(r)
    ensures Holds(q, qv) && Holds(r, rv) && rv != 0 && Rounded(mode, old(n.Int()), old(d.Int()), qv, rv)
  {
    ghost var x, y := n.Int(), d.Int();
    ShorterIsSmaller(n, d);
    StepRounds(mode, x, y, 0, x);
    var k := Step(mode, (n.size < 0) != (d.size < 0));
    qv, rv := k, if k == 0 then x else if k == 1 then x - y else x + y;
    if r != null {
      ShortRemainder(r, n, d, k);
    }
    SetQuotient(q, r, k, rv);
  }

  method SetQuotient(q: Mpz?, ghost r: Mpz?, k: int, ghost rv: int)
    requires -1 <= k <= 1 && (q != null ==> q.Valid()) && (q != null && r != null ==> q != r && q.d != r.d) &&
             Holds(r, rv)
    modifies Objects(q)
    ensures Holds(q, k) && Holds(r, rv)
  {
    if q != null {
      q.SetSmall(k);
    }
  }

  lemma {:induction false} ShorterIsSmaller(n: Mpz, d: Mpz)
    requires n.Valid() && d.Valid() && 0 < Abs(n.size) < Abs(d.size)
    ensures n.Int() != 0 && d.Int() != 0 && Rounded(TRUNC, n.Int(), d.Int(), 0, n.Int())
    ensures (n.Int() < 0) == (n.size < 0) && (d.Int() < 0) == (d.size < 0)
  {
    ValueTop(n.d[0..Abs(n.size)]);
    LengthOrder(n.d[0..Abs(n.size)], d.d[0..Abs(d.size)]);
  }

  /** Quotient and remainder as fresh objects, for at least as many dividend as divisor limbs. */
  method DivTemporaries(n: Mpz, d: Mpz, mode: Mode) returns (tq: Mpz, tr: Mpz, nonzero: bool)
    requires n.Valid() && d.Valid() && 1 <= Abs(d.size) <= Abs(n.size)
    ensures fresh(tq) && fresh(tq.d) && fresh(tr) && fresh(tr.d) && tq != tr && tq.d != tr.d
    ensures tq.Valid() && tr.Valid() && (nonzero <==> tr.Int() != 0)
    ensures Rounded(mode, n.Int(), d.Int(), tq.Int(), tr.Int())
  {
    SignOfInt(n); SignOfInt(d);
    ghost var x, y := n.Int(), d.Int();
    tq, tr := DivMagnitudes(n, d);
    nonzero := AdjustRounding(tq, tr, d, mode, (n.size < 0) != (d.size < 0), x);
  }

  /** From truncation to the wanted mode. */
  method AdjustRounding(tq: Mpz, tr: Mpz, d: Mpz, mode: Mode, qneg: bool, ghost x: int) returns (nonzero: bool)
    requires tq.Valid() && tr.Valid() && d.Valid() && tq != tr && tq != d && tr != d
    requires tq.d != tr.d && tq.d != d.d && tr.d != d.d
    requires d.Int() != 0 && qneg == ((x < 0) != (d.Int() < 0)) && Rounded(TRUNC, x, d.Int(), tq.Int(), tr.Int())
    modifies tq, tq.d, tr, tr.d
    ensures tq.Valid() && (tq.d == old(tq.d) || fresh(tq.d))
    ensures tr.Valid() && (tr.d == old(tr.d) || fresh(tr.d)) && tq.d != tr.d
    ensures (nonzero <==> tr.Int() != 0) && Rounded(mode, x, d.Int(), tq.Int(), tr.Int())
  {
    StepRounds(mode, x, d.Int(), tq.Int(), tr.Int());
    SignOfInt(tr);
    nonzero := tr.size != 0;
    var k := Step(mode, qneg);
    if nonzero && k != 0 {
      StepAway(tq, tr, d, k);
    }
  }

  /** mpz_swap with a temporary that is dropped afterwards. */
  method Take(x: Mpz, t: Mpz)
    requires t.Valid()
    modifies x
    ensures x.Valid() && x.Int() == old(t.Int()) && x.d == old(t.d)
  {
    x.size, x.d := t.size, t.d;
  }

  /** The branch of mpz_div_qr for at least as many dividend as divisor limbs; q and r may be null, n or d. */
  method DivLong(q: Mpz?, r: Mpz?, n: Mpz, d: Mpz, mode: Mode) returns (nonzero: bool, ghost qv: int, ghost rv: int)
    requires n.Valid() && d.Valid() && 1 <= Abs(d.size) <= Abs(n.size) && Results(q, r, n, d)
    modifies Objects(q), Objects(r)
    ensures Holds(q, qv) && Holds(r, rv) && (nonzero <==> rv != 0) && Rounded(mode, old(n.Int()), old(d.Int()), qv, rv)
  {
    var tq, tr;
    tq, tr, nonzero := DivTemporaries(n, d, mode);
    qv, rv := tq.Int(), tr.Int();
    if q != null {
      Take(q, tq);
    }
    if r != null {
      Take(r, tr);
    }
  }

  /** Moves one multiple of d between quotient and remainder. */
  method StepAway(tq: Mpz, tr: Mpz, d: Mpz, k: int)
    requires tq.Valid() && tr.Valid() && d.Valid() && tq != tr && tq != d && tr != d
    requires tq.d != tr.d && tq.d != d.d && tr.d != d.d && (k == 1 || k == -1)
    modifies tq, tq.d, tr, tr.d
    ensures tq.Valid() && tq.Int() == old(tq.Int()) + k && (tq.d == old(tq.d) || fresh(tq.d))
    ensures tr.Valid() && tr.Int() == (if k == 1 then old(tr.Int()) - d.Int() else old(tr.Int()) + d.Int())
    ensures tr.d == old(tr.d) || fresh(tr.d)
    ensures tq.d != tr.d
  {
    if k == -1 {
      tq.MinusUi(tq, 1);
      tr.Plus(tr, d);
    } else {
      tq.PlusUi(tq, 1);
      tr.Minus(tr, d);
    }
  }

  lemma {:induction false} SignOfInt(x: Mpz)
    requires x.Valid()
    ensures (x.Int() < 0) == (x.size < 0) && (x.Int() == 0) == (x.size == 0)
  {
    if x.size != 0 { ValueTop(x.d[0..Abs(x.size)]); }
  }

  /** What may be passed for the results: null, or objects apart; the remainder also from the operands. */
  ghost predicate Results(q: Mpz?, r: Mpz?, n: Mpz, d: Mpz)
    reads if q == null then {} else {q, q.d}, if r == null then {} else {r, r.d}, n, d
  {
    && (q != null ==> q.Valid())
    && (r != null ==> r.Valid() && Apart(r, n) && Apart(r, d))
    && (q != null && r != null ==> q != r && q.d != r.d)
  }

  /** The object, if there is one, holds the value. */
  ghost predicate Holds(x: Mpz?, v: int)
    reads if x == null then {} else {x, x.d}
  {
    x != null ==> x.Valid() && x.Int() == v
  }

  ghost function Objects(x: Mpz?): (objects: set<object>)
    reads if x == null then {} else {x}
  {
    if x == null then {} else var y: Mpz := x; {y, y.d}
  }

  /** mpz_div_qr; a zero divisor is refused and nothing changes. A null q or r is not wanted. */
  method DivQuoRem(q: Mpz?, r: Mpz?, n: Mpz, d: Mpz, mode: Mode)
    returns (ok: bool, nonzero: bool, ghost qv: int, ghost rv: int)
    requires n.Valid() && d.Valid() && Results(q, r, n, d)
    modifies Objects(q), Objects(r)
    ensures ok <==> old(d.Int()) != 0
    ensures ok ==> Holds(q, qv) && Holds(r, rv) && (nonzero <==> rv != 0)
    ensures ok ==> Rounded(mode, old(n.Int()), old(d.Int()), qv, rv)
    ensures !ok && q != null ==> q.Valid() && q.Int() == old(q.Int())
    ensures !ok && r != null ==> r.Valid() && r.Int() == old(r.Int())
  {
    SignOfInt(d); SignOfInt(n);
    ok, nonzero, qv, rv := d.size != 0, false, 0, 0;
    if ok {
      if n.size == 0 {
        if q != null {
          q.size := 0;
        }
        if r != null {
          r.size := 0;
        }
      } else if Abs(n.size) < Abs(d.size) {
        qv, rv := DivShort(q, r, n, d, mode);
        nonzero := true;
      } else {
        nonzero, qv, rv := DivLong(q, r, n, d, mode);
      }
    }
  }

  /** mpz_mod: the remainder in [0, |d|), which is the Euclidean remainder. */
  method Mod(r: Mpz, n: Mpz, d: Mpz) returns (ok: bool)
    requires n.Valid() && d.Valid() && r.Valid() && Apart(r, n) && Apart(r, d)
    modifies r, r.d
    ensures ok <==> old(d.Int()) != 0
    ensures ok ==> r.Valid() && r.Int() == old(n.Int()) % old(d.Int())
  {
    ghost var x, y := n.Int(), d.Int();
    SignOfInt(d);
    ghost var qv, rv;
    var nonzero;
    ok, nonzero, qv, rv := DivQuoRem(null, r, n, d, if d.size >= 0 then FLOOR else CEIL);
    if ok { EuclideanRemainder(x, y, qv, rv); }
  }

  lemma EuclideanRemainder(n: int, d: int, q: int, r: int)
    requires d != 0 && n == q * d + r && 0 <= r < Abs(d)
    ensures n % d == r
  {
    var q', r' := n / d, n % d;
    assert (q - q') * d == r' - r by { Distribute(d, q, 0, 0, q'); }
    SmallMultiple(q - q', d);
  }
}
