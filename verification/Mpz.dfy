/** Integers as sign and limb count plus a limb array: the mpz_t objects of mini-gmp, updated in place. */
module Mpz {
  import opened Arith
  import opened Bits
  import opened Limb
  import opened Mpn
  import opened MpnShift
  import opened LimbLogic

  function Abs(x: int): (a: nat) { if x < 0 then -x else x }

  class Mpz {
    /** Number of limbs in use, negated for a negative number. */
    var size: int
    /** The limbs; its length is the allocation. */
    var d: array<Limb>

    ghost predicate Valid()
      reads this, d
    {
      Abs(size) <= d.Length && (size != 0 ==> d[Abs(size) - 1] != 0)
    }

    /** The integer that the object holds. */
    ghost function Int(): (x: int)
      requires Valid()
      reads this, d
    {
      Signed(size < 0, Val(d, 0, Abs(size)))
    }

    constructor ()
      ensures Valid() && Int() == 0 && fresh(d)
    {
      size := 0;
      d := new Limb[0];
    }

    /** An object over n limbs of p, without leading zero limbs. */
    constructor Of(p: array<Limb>, n: int, neg: bool)
      requires 0 <= n <= p.Length && (n > 0 ==> p[n - 1] != 0)
      ensures d == p && Valid() && Int() == Signed(neg, Val(p, 0, n))
    {
      size := if neg then -n else n;
      d := p;
    }

    /** MPZ_REALLOC: room for n limbs, contents kept. */
    method Realloc(n: nat)
      requires Valid()
      modifies this`d
      ensures d == old(d) || fresh(d)
      ensures n <= d.Length && old(d.Length) <= d.Length
      ensures d[..old(d.Length)] == old(d[..]) && Valid() && Int() == old(Int())
    {
      hide Value;
      ghost var s: seq<Limb> := d[0..Abs(size)];
      if n > d.Length {
        var e := new Limb[n];
        forall i | 0 <= i < d.Length { e[i] := d[i]; }
        d := e;
        assert d[0..Abs(size)] == s;
      }
    }

    /** mpz_set. */
    method Set(x: Mpz)
      requires Valid() && x.Valid() && (x != this ==> x.d != d)
      modifies this, d
      ensures Valid() && Int() == old(x.Int())
      ensures d == old(d) || fresh(d)
    {
      if this != x {
        var n := Abs(x.size);
        Realloc(n);
        forall i | 0 <= i < n { d[i] := x.d[i]; }
        size := x.size;
        assert d[0..n] == old(x.d[0..n]);
      }
    }

    /** mpz_and, mpz_ior and mpz_xor: r may be u, v or both. */
    method Logic(op: Op, u: Mpz, v: Mpz)
      requires Valid() && u.Valid() && v.Valid()
      requires (u != this ==> u.d != d) && (v != this ==> v.d != d)
      modifies this, d
      ensures Valid() && Int() == Bitwise(op, old(u.Int()), old(v.Int()))
      ensures d == old(d) || fresh(d)
    {
      Commutes(op, u.Int(), v.Int());
      if Abs(u.size) < Abs(v.size) {
        LogicOrdered(op, v, u);
      } else {
        LogicOrdered(op, u, v);
      }
    }

    method LogicOrdered(op: Op, u: Mpz, v: Mpz)
      requires Valid() && u.Valid() && v.Valid() && Abs(v.size) <= Abs(u.size)
      requires (u != this ==> u.d != d) && (v != this ==> v.d != d)
      modifies this, d
      ensures Valid() && Int() == Bitwise(op, old(u.Int()), old(v.Int()))
      ensures d == old(d) || fresh(d)
    {
      if v.size == 0 {
        LogicZero(op, u, v);
      } else {
        LogicNonzero(op, u, v);
      }
    }

    /** The branch for two nonzero operands. */
    method LogicNonzero(op: Op, u: Mpz, v: Mpz)
      requires Valid() && u.Valid() && v.Valid() && 0 < Abs(v.size) <= Abs(u.size)
      requires (u != this ==> u.d != d) && (v != this ==> v.d != d)
      modifies this, d
      ensures Valid() && Int() == Bitwise(op, old(u.Int()), old(v.Int()))
      ensures d == old(d) || fresh(d)
    {
      hide Value, BPow, Bitwise, ResultSign, ResultLimbs;
      var un, vn := Abs(u.size), Abs(v.size);
      var uneg, vneg := u.size < 0, v.size < 0;
      var rneg := ResultSign(op, uneg, vneg);
      Realloc(ResultLimbs(op, un, vn, vneg) + if rneg then 1 else 0);
      var n: int := LogicLimbs(op, d, u.d, un, uneg, v.d, vn, vneg);
      size := if rneg then -n else n;
      AtStart(d, 0, [], []);
    }

    /** The branch of the three functions for a zero operand. */
    method LogicZero(op: Op, u: Mpz, v: Mpz)
      requires Valid() && u.Valid() && v.Valid() && v.size == 0 && (u != this ==> u.d != d)
      modifies this, d
      ensures Valid() && Int() == Bitwise(op, old(u.Int()), old(v.Int()))
      ensures d == old(d) || fresh(d)
    {
      ghost var x := u.Int();
      AndConstants(x);
      OrZero(x);
      XorZero(x);
      if op == AND {
        size := 0;
      } else {
        Set(u);
      }
    }
  
    /** mpz_abs_add: stores |a| + |b| and returns its limb count. */
    method AbsAdd(a: Mpz, b: Mpz) returns (n: nat)
      requires Valid() && a.Valid() && b.Valid()
      requires (a != this ==> a.d != d) && (b != this ==> b.d != d)
      modifies this`d, d
      ensures d == old(d) || fresh(d)
      ensures n <= d.Length && (n > 0 ==> d[n - 1] != 0)
      ensures Val(d, 0, n) == old(Abs(a.Int())) + old(Abs(b.Int()))
    {
      hide Value, BPow, Bitwise;
      if Abs(a.size) < Abs(b.size) {
        n := AbsAddOrdered(b, a);
      } else {
        n := AbsAddOrdered(a, b);
      }
    }

    method AbsAddOrdered(a: Mpz, b: Mpz) returns (n: nat)
      requires Valid() && a.Valid() && b.Valid() && Abs(b.size) <= Abs(a.size)
      requires (a != this ==> a.d != d) && (b != this ==> b.d != d)
      modifies this`d, d
      ensures d == old(d) || fresh(d)
      ensures n <= d.Length && (n > 0 ==> d[n - 1] != 0)
      ensures Val(d, 0, n) == old(Abs(a.Int())) + old(Abs(b.Int()))
    {
      hide Value, BPow, Bitwise;
      var an, bn := Abs(a.size), Abs(b.size);
      Realloc(an + 1);
      n := SumLimbs(d, a.d, an, b.d, bn);
    }

    /** mpz_abs_sub: stores the difference of |a| and |b| and returns its limb count, negated when |a| < |b|. */
    method AbsSub(a: Mpz, b: Mpz) returns (n: int)
      requires Valid() && a.Valid() && b.Valid()
      requires (a != this ==> a.d != d) && (b != this ==> b.d != d)
      modifies this`d, d
      ensures d == old(d) || fresh(d)
      ensures Abs(n) <= d.Length && (n != 0 ==> d[Abs(n) - 1] != 0)
      ensures Signed(n < 0, Val(d, 0, Abs(n))) == old(Abs(a.Int())) - old(Abs(b.Int()))
    {
      hide Value, BPow, Bitwise;
      var cmp := Cmp4(a.d, Abs(a.size), b.d, Abs(b.size));
      if cmp > 0 {
        n := AbsSubOrdered(a, b);
      } else if cmp < 0 {
        n := AbsSubOrdered(b, a);
        n := -n;
      } else {
        n := 0;
        AtStart(d, 0, [], []);
      }
    }

    method AbsSubOrdered(a: Mpz, b: Mpz) returns (n: int)
      requires Valid() && a.Valid() && b.Valid() && Abs(a.Int()) > Abs(b.Int())
      requires (a != this ==> a.d != d) && (b != this ==> b.d != d)
      modifies this`d, d
      ensures d == old(d) || fresh(d)
      ensures 0 < n <= d.Length && d[n - 1] != 0
      ensures Val(d, 0, n) == old(Abs(a.Int())) - old(Abs(b.Int()))
    {
      hide Value, BPow, Bitwise;
      var an, bn := Abs(a.size), Abs(b.size);
      ghost var s: seq<Limb>, t: seq<Limb> := a.d[0..an], b.d[0..bn];
      if an < bn { LengthOrder(s, t); }
      Realloc(an);
      assert a.d[0..an] == s;
      assert b.d[0..bn] == t;
      n := DifferenceLimbs(d, a.d, an, b.d, bn);
    }

    /** mpz_add. */
    method Plus(a: Mpz, b: Mpz)
      requires Valid() && a.Valid() && b.Valid()
      requires (a != this ==> a.d != d) && (b != this ==> b.d != d)
      modifies this, d
      ensures d == old(d) || fresh(d)
      ensures Valid() && Int() == old(a.Int()) + old(b.Int())
    {
      hide Value, BPow, Bitwise;
      var same, aneg := (a.size < 0) == (b.size < 0), a.size < 0;
      var rn: int;
      if same {
        rn := AbsAdd(a, b);
      } else {
        rn := AbsSub(a, b);
      }
      size := if aneg then -rn else rn;
      AtStart(d, 0, [], []);
    }

    /** mpz_sub. */
    method Minus(a: Mpz, b: Mpz)
      requires Valid() && a.Valid() && b.Valid()
      requires (a != this ==> a.d != d) && (b != this ==> b.d != d)
      modifies this, d
      ensures d == old(d) || fresh(d)
      ensures Valid() && Int() == old(a.Int()) - old(b.Int())
    {
      hide Value, BPow, Bitwise;
      var same, aneg := (a.size < 0) == (b.size < 0), a.size < 0;
      var rn: int;
      if same {
        rn := AbsSub(a, b);
      } else {
        rn := AbsAdd(a, b);
      }
      size := if aneg then -rn else rn;
      AtStart(d, 0, [], []);
    }
  
    /** mpz_set_ui and, for negative x, mpz_set_si. */
    method SetSmall(x: int)
      requires Valid() && Abs(x) < B
      modifies this, d
      ensures d == old(d) || fresh(d)
      ensures Valid() && Int() == x
    {
      if x == 0 {
        size := 0;
      } else {
        Realloc(1);
        d[0] := Abs(x);
        size := if x < 0 then -1 else 1;
        assert d[0..1] == [d[0]];
        ValueCons(d[0..1]);
      }
    }

    /** mpz_abs_add_ui. */
    method AbsAddUi(a: Mpz, b: Limb) returns (n: nat)
      requires Valid() && a.Valid() && (a != this ==> a.d != d)
      modifies this`d, d
      ensures d == old(d) || fresh(d)
      ensures n <= d.Length && (n > 0 ==> d[n - 1] != 0)
      ensures Val(d, 0, n) == old(Abs(a.Int())) + b
    {
      var an := Abs(a.size);
      ghost var s: seq<Limb> := a.d[0..an];
      assert an > 0 ==> s[an - 1] != 0;
      Realloc(an + 1);
      assert a.d[0..an] == s;
      n := SumLimb(d, a.d, an, b);
    }

    /** mpz_abs_sub_ui: a negative result is the limb count -1 of the opposite difference. */
    method AbsSubUi(a: Mpz, b: Limb) returns (n: int)
      requires Valid() && a.Valid() && (a != this ==> a.d != d)
      modifies this`d, d
      ensures d == old(d) || fresh(d)
      ensures Abs(n) <= d.Length && (n != 0 ==> d[Abs(n) - 1] != 0)
      ensures Signed(n < 0, Val(d, 0, Abs(n))) == old(Abs(a.Int())) - b
    {
      var an := Abs(a.size);
      ghost var s: seq<Limb> := a.d[0..an];
      assert an > 0 ==> s[an - 1] != 0;
      Realloc(if an == 0 then 1 else an);
      assert a.d[0..an] == s;
      n := DifferenceLimb(d, a.d, an, b);
    }

    /** mpz_add_ui. */
    method PlusUi(a: Mpz, b: Limb)
      requires Valid() && a.Valid() && (a != this ==> a.d != d)
      modifies this, d
      ensures d == old(d) || fresh(d)
      ensures Valid() && Int() == old(a.Int()) + b
    {
      hide Value, BPow, Bitwise;
      var n: int;
      if a.size >= 0 {
        n := AbsAddUi(a, b);
      } else {
        n := AbsSubUi(a, b);
        n := -n;
      }
      size := n;
      AtStart(d, 0, [], []);
    }

    /** mpz_sub_ui. */
    method MinusUi(a: Mpz, b: Limb)
      requires Valid() && a.Valid() && (a != this ==> a.d != d)
      modifies this, d
      ensures d == old(d) || fresh(d)
      ensures Valid() && Int() == old(a.Int()) - b
    {
      hide Value, BPow, Bitwise;
      var n: int;
      if a.size < 0 {
        n := AbsAddUi(a, b);
        n := -n;
      } else {
        n := AbsSubUi(a, b);
      }
      size := n;
      AtStart(d, 0, [], []);
    }
  }

  method SumLimb(rp: array<Limb>, ap: array<Limb>, an: nat, b: Limb) returns (n: nat)
    requires an <= ap.Length && an < rp.Length && (an > 0 ==> ap[an - 1] != 0)
    modifies rp
    ensures n <= rp.Length && (n > 0 ==> rp[n - 1] != 0)
    ensures Val(rp, 0, n) == old(Val(ap, 0, an)) + b
  {
    if an == 0 {
      rp[0] := b;
      assert rp[0..1] == [b];
      ValueCons([b]);
      n := if b > 0 then 1 else 0;
    } else {
      ghost var s: seq<Limb> := ap[0..an];
      var cy := Add1(rp, 0, ap, 0, an, b);
      ghost var sum: seq<Limb> := rp[0..an];
      StoreNext(rp, 0, an, cy, sum);
      ValueCons([b]);
      TopOfSum(s, [b], sum, cy);
      n := an + cy;
      assert rp[0..n] == (sum + [cy])[..n];
    }
  }

  method DifferenceLimb(rp: array<Limb>, ap: array<Limb>, an: nat, b: Limb) returns (n: int)
    requires an <= ap.Length && 0 < rp.Length && an <= rp.Length && (an > 0 ==> ap[an - 1] != 0)
    modifies rp
    ensures Abs(n) <= rp.Length && (n != 0 ==> rp[Abs(n) - 1] != 0)
    ensures Signed(n < 0, Val(rp, 0, Abs(n))) == old(Val(ap, 0, an)) - b
  {
    if an == 0 {
      rp[0] := b;
      assert rp[0..1] == [b];
      ValueCons([b]);
      n := if b > 0 then -1 else 0;
    } else if an == 1 && ap[0] < b {
      assert ap[0..1] == [ap[0]];
      ValueCons(ap[0..1]);
      rp[0] := b - ap[0];
      assert rp[0..1] == [rp[0]];
      ValueCons(rp[0..1]);
      n := -1;
    } else {
      AtLeastLimb(ap[0..an], b);
      ValueBound(ap[0..an]);
      var cy := Sub1(rp, 0, ap, 0, an, b);
      ValueBound(rp[0..an]);
      MulCancel(cy, 1, BPow(an));
      n := NormalizedSize(rp, an);
    }
  }

  lemma {:induction false} AtLeastLimb(s: seq<Limb>, b: Limb)
    requires s != [] && s[|s| - 1] != 0 && !(|s| == 1 && s[0] < b)
    ensures Value(s) >= b
  {
    if |s| == 1 {
      ValueCons(s);
    } else {
      ValueTop(s);
      BPowMono(1, |s| - 1);
      assert BPow(1) == B * BPow(0);
    }
  }

  /** Sum of two limb arrays, the longer one first; the result has no leading zero limb. */
  method SumLimbs(rp: array<Limb>, ap: array<Limb>, an: nat, bp: array<Limb>, bn: nat) returns (n: nat)
    requires bn <= an <= ap.Length && bn <= bp.Length && an < rp.Length && (an > 0 ==> ap[an - 1] != 0)
    modifies rp
    ensures n <= rp.Length && (n > 0 ==> rp[n - 1] != 0)
    ensures Val(rp, 0, n) == old(Val(ap, 0, an)) + old(Val(bp, 0, bn))
  {
    ghost var s: seq<Limb>, t: seq<Limb> := ap[0..an], bp[0..bn];
    var cy := Add(rp, ap, an, bp, bn);
    ghost var sum: seq<Limb> := rp[0..an];
    StoreNext(rp, 0, an, cy, sum);
    TopOfSum(s, t, sum, cy);
    n := an + cy;
    assert rp[0..n] == (sum + [cy])[..n];
  }

  /** Difference of two limb arrays, the larger number first; the result has no leading zero limb. */
  method DifferenceLimbs(rp: array<Limb>, ap: array<Limb>, an: nat, bp: array<Limb>, bn: nat) returns (n: nat)
    requires bn <= an <= ap.Length && bn <= bp.Length && an <= rp.Length
    requires Val(ap, 0, an) > Val(bp, 0, bn)
    modifies rp
    ensures 0 < n <= rp.Length && rp[n - 1] != 0
    ensures Val(rp, 0, n) == old(Val(ap, 0, an)) - old(Val(bp, 0, bn))
  {
    ValueBound(ap[0..an]);
    var cy := Sub(rp, ap, an, bp, bn);
    ValueBound(rp[0..an]);
    MulCancel(cy, 1, BPow(an));
    n := NormalizedSize(rp, an);
  }

  /** The top limb of a sum of normalised numbers, carry included, is not zero. */
  lemma {:induction false} TopOfSum(s: seq<Limb>, t: seq<Limb>, sum: seq<Limb>, cy: Limb)
    requires |t| <= |s| == |sum| && (|s| > 0 ==> s[|s| - 1] != 0) && cy <= 1
    requires Value(sum) == Value(s) + Value(t) - cy * BPow(|s|)
    ensures Value((sum + [cy])[..|s| + cy]) == Value(s) + Value(t)
    ensures |s| + cy > 0 ==> (sum + [cy])[|s| + cy - 1] != 0
  {
    ValueSnoc(sum, cy);
    var n := |s|;
    if cy == 1 {
      assert (sum + [cy])[..n + 1] == sum + [cy];
    } else {
      assert (sum + [cy])[..n] == sum;
      if n > 0 && sum[n - 1] == 0 {
        ValueTop(s);
        assert sum == sum[..n - 1] + [0];
        ValueSnoc(sum[..n - 1], 0);
        ValueBound(sum[..n - 1]);
      }
    }
  }
}
