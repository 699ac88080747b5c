/** Division by a power of two through limb and bit shifts; it agrees with general division. */
module MpzDiv2exp {
  import opened Arith
  import opened Bits
  import opened Limb
  import opened Mpn
  import opened MpnShift
  import opened LimbLogic
  import opened Mpz
  import opened MpzDiv

  // ---- masks and powers of two ----

  /** x & (2^k - 1). */
  lemma {:induction false} AndMask(x: int, k: nat)
    requires 0 <= x
    ensures Bitwise(AND, x, Pow2(k) - 1) == x % Pow2(k)
  {
    hide Bitwise, Pow2;
    var h, l := x / Pow2(k), x % Pow2(k);
    SplitsMeaning(x, k, h, l);
    SplitsMeaning(Pow2(k) - 1, k, 0, Pow2(k) - 1);
    BitwiseSplit(AND, k, x, h, l, Pow2(k) - 1, 0, Pow2(k) - 1);
    SplitsMeaning(Bitwise(AND, x, Pow2(k) - 1), k, Bitwise(AND, h, 0), Bitwise(AND, l, Pow2(k) - 1));
    AndConstants(h);
    AndOnes(l, k);
  }

  lemma {:induction false} AndOnes(l: int, k: nat)
    requires 0 <= l < Pow2(k)
    ensures Bitwise(AND, l, Pow2(k) - 1) == l
    decreases k
  {
    if k > 0 {
      AndOnes(l / 2, k - 1);
      BitwiseHalves(AND, l, Pow2(k) - 1);
      SameHalves(l, Bitwise(AND, l, Pow2(k) - 1));
    }
  }

  /** 2^bits as whole limbs and a rest. */
  lemma {:induction false} Pow2Limbs(bits: nat)
    ensures Pow2(bits) == BPow(bits / 64) * Pow2(bits % 64)
  {
    BPowIsPow2(bits / 64);
    Pow2Add(64 * (bits / 64), bits % 64);
  }

  /** Quotient and remainder by p * t, in two steps. */
  lemma DivModTwice(a: int, p: int, t: int)
    requires 0 < p && 0 < t
    ensures 0 < p * t && a / (p * t) == (a / p) / t && a % (p * t) == a % p + p * ((a / p) % t)
  {
    DivDiv(a, p, t);
    var h, l := a / p, a % p;
    var q, m := h / t, h % t;
    assert a == q * (p * t) + (l + p * m) by {
      assert a == p * h + l;
      Distribute(p, t * q, m, 0, 0);
      Associate(p, t, q);
    }
    assert 0 <= l + p * m < p * t by { MulBounds(m, t - 1, p, p); Distribute(p, t, 0, 0, 1); }
    DivModUnique(a, p * t, q, l + p * m);
  }

  /** The part of a limb sequence from limb c on, and the part below. */
  lemma {:induction false} LimbParts(s: seq<Limb>, c: nat)
    requires c <= |s|
    ensures Value(s) / BPow(c) == Value(s[c..]) && Value(s) % BPow(c) == Value(s[..c])
  {
    ValueCut(s, c);
    ValueBound(s[..c]);
    DivModUnique(Value(s), BPow(c), Value(s[c..]), Value(s[..c]));
  }

  lemma {:induction false} LowBits(s: seq<Limb>, k: nat)
    requires s != [] && k < 64
    ensures Value(s) % Pow2(k) == s[0] % Pow2(k)
  {
    ValueCons(s);
    Pow2Complement(k);
    var t, v := Pow2(64 - k), Value(s[1..]);
    assert B * v == (t * v) * Pow2(k) by { Associate(t, v, Pow2(k)); Associate(Pow2(k), t, v); }
    ModAdd(s[0], t * v, Pow2(k));
  }

  // ---- quotient ----

  /** Are any bits below place bits set? */
  method AnyBitBelow(up: array<Limb>, un: nat, bits: nat) returns (b: bool)
    requires 1 <= un <= up.Length && up[un - 1] != 0
    ensures b <==> Val(up, 0, un) % Pow2(bits) != 0
  {
    var c, k := bits / 64, bits % 64;
    ghost var s: seq<Limb> := up[0..un];
    Pow2Limbs(bits);
    if un <= c {
      BelowPower(s, c, k);
      return true;
    }
    LimbParts(s, c);
    DivModTwice(Value(s), BPow(c), Pow2(k));
    LowBits(s[c..], k);
    AndMask(s[c], k);
    var zero := ZeroP(up, c);
    assert up[0..c] == s[..c];
    b := !zero || Bitwise(AND, up[c], Pow2(k) - 1) != 0;
    RemainderParts(Value(s[..c]), BPow(c), s[c] % Pow2(k));
  }

  lemma RemainderParts(l: int, p: int, m: int)
    requires 0 <= l && 0 < p && 0 <= m
    ensures l + p * m == 0 <==> l == 0 && m == 0
  {
    MulBounds(0, p, 0, m);
    if m > 0 { MulMono(1, m, p); }
  }

  lemma {:induction false} BelowPower(s: seq<Limb>, c: nat, k: nat)
    requires 1 <= |s| <= c && s[|s| - 1] != 0
    ensures Value(s) % (BPow(c) * Pow2(k)) != 0 && Value(s) / (BPow(c) * Pow2(k)) == 0
  {
    ValueTop(s);
    ValueBound(s);
    BPowMono(|s|, c);
    MulMono(1, Pow2(k), BPow(c));
    DivModUnique(Value(s), BPow(c) * Pow2(k), 0, Value(s));
  }

  /** mpn_zero_p. */
  method ZeroP(xp: array<Limb>, n: nat) returns (z: bool)
    requires n <= xp.Length
    ensures z <==> Val(xp, 0, n) == 0
  {
    var k := NormalizedSize(xp, n);
    if k > 0 { ValueTop(xp[0..k]); }
    z := k == 0;
  }

  /** A number of at least B^(n - 2) in n limbs has at most one leading zero limb. */
  lemma {:induction false} OneLeadingZero(s: seq<Limb>)
    requires |s| >= 1 && (|s| >= 2 ==> BPow(|s| - 2) <= Value(s))
    ensures |s| > 1 && s[|s| - 1] == 0 ==> s[|s| - 2] != 0
  {
    var n := |s|;
    if n > 1 && s[n - 1] == 0 && s[n - 2] == 0 {
      assert s == s[..n - 1] + [0] && s[..n - 1] == s[..n - 2] + [0];
      ValueSnoc(s[..n - 1], 0);
      ValueSnoc(s[..n - 2], 0);
      ValueBound(s[..n - 2]);
    }
  }

  /** The limbs of the shifted magnitude. */
  method ShiftMagnitude(q: Mpz, u: Mpz, bits: nat) returns (qn: int)
    requires q.Valid() && u.Valid() && u.size != 0 && Apart(q, u)
    modifies q`d, q.d
    ensures q.d == old(q.d) || fresh(q.d)
    ensures 0 <= qn <= q.d.Length && (qn > 0 ==> q.d[qn - 1] != 0)
    ensures Val(q.d, 0, qn) == old(Val(u.d, 0, Abs(u.size))) / Pow2(bits)
  {
    var c, k, un := bits / 64, bits % 64, Abs(u.size);
    ghost var s: seq<Limb> := u.d[0..un];
    Pow2Limbs(bits);
    qn := un - c;
    if qn <= 0 {
      BelowPower(s, c, k);
      qn := 0;
    } else {
      LimbParts(s, c);
      DivDiv(Value(s), BPow(c), Pow2(k));
      q.Realloc(qn);
      assert u.d[c..un] == s[c..];
      assert s[c..][qn - 1] != 0;
      qn := ShiftLimbs(q.d, u.d, c, qn, k);
    }
  }

  method ShiftLimbs(qp: array<Limb>, up: array<Limb>, c: nat, n: nat, k: nat) returns (qn: int)
    requires 1 <= n <= qp.Length && c + n <= up.Length && up[c + n - 1] != 0 && k < 64
    modifies qp
    ensures 0 <= qn <= qp.Length && (qn > 0 ==> qp[qn - 1] != 0)
    ensures Val(qp, 0, qn) == old(Val(up, c, n)) / Pow2(k)
  {
    ghost var s: seq<Limb> := up[c..c + n];
    if k != 0 {
      var ret := Rshift(qp, 0, up, c, n, k);
      ShiftQuotient(Value(s), k, ret, Val(qp, 0, n));
      QuotientSize(s, k, qp[0..n]);
      OneLeadingZero(qp[0..n]);
      qn := DropTop(qp, n);
    } else {
      CopyLimbs(qp, up, c, n);
      assert qp[0..n] == s;
      qn := n;
      assert Pow2(0) == 1;
    }
  }

  /** mpn_copyi. */
  method CopyLimbs(qp: array<Limb>, up: array<Limb>, c: nat, n: nat)
    requires n <= qp.Length && c + n <= up.Length
    modifies qp
    ensures qp[0..n] == old(up[c..c + n])
    ensures SameOutside(qp, old(qp[..]), 0, n)
  {
    ghost var s: seq<Limb> := up[c..c + n];
    var i := 0;
    while i < n
      invariant 0 <= i <= n
      invariant qp[0..i] == s[..i]
      invariant SameOutside(qp, old(qp[..]), 0, i)
    {
      assert up[c + i] == s[i];
      StoreNext(qp, 0, i, up[c + i], s[..i]);
      i := i + 1;
      assert s[..i] == s[..i - 1] + [s[i - 1]];
    }
  }

  lemma ShiftQuotient(v: int, k: nat, ret: Limb, q: int)
    requires 1 <= k < 64 && ret + B * q == v * Pow2(64 - k)
    ensures v / Pow2(k) == q
  {
    var p, t := Pow2(k), Pow2(64 - k);
    Pow2Complement(k);
    var r := v - q * p;
    assert r * t == ret by {
      Distribute(t, v, 0, 0, q * p);
      Associate(q, p, t);
    }
    assert 0 <= r < p by {
      if r < 0 { MulMono(r, -1, t); }
      MulCancel(r, p, t);
    }
    DivModUnique(v, p, q, r);
  }

  lemma {:induction false} QuotientSize(s: seq<Limb>, k: nat, q: seq<Limb>)
    requires |s| == |q| >= 1 && s[|s| - 1] != 0 && k < 64 && Value(q) == Value(s) / Pow2(k)
    ensures |q| >= 2 ==> BPow(|q| - 2) <= Value(q)
  {
    if |q| >= 2 {
      ValueTop(s);
      assert Pow2(k) < B by { Pow2Values(); Pow2Mono(k, 63); }
      QuotientLarge(Value(s), Pow2(k), Value(q), BPow(|q| - 2), B);
    }
  }

  /** Magnitude arithmetic of rounding by a power of two. */
  lemma RoundMagnitude(mode: Mode, neg: bool, a: nat, t: nat)
    requires 0 < t && 0 < a
    ensures var away := mode == (if neg then FLOOR else CEIL);
            var q := Signed(neg, a / t + if away && a % t != 0 then 1 else 0);
            Rounded(mode, Signed(neg, a), t, q, Signed(neg, a) - q * t)
  {
    SignedTruncation(neg, a, false, t, a / t, a % t);
    StepRounds(mode, Signed(neg, a), t, Signed(neg, a / t), Signed(neg, a % t));
  }

  /** mpz_div_q_2exp; q may be u. */
  method DivQ2exp(q: Mpz, u: Mpz, bits: nat, mode: Mode)
    requires q.Valid() && u.Valid() && Apart(q, u)
    modifies q, q.d
    ensures q.Valid()
    ensures Rounded(mode, old(u.Int()), Pow2(bits), q.Int(), old(u.Int()) - q.Int() * Pow2(bits))
  {
    var un := u.size;
    if un == 0 {
      q.size := 0;
      return;
    }
    ghost var a := Val(u.d, 0, Abs(un));
    assert a > 0 by { SignOfInt(u); }
    RoundMagnitude(mode, un < 0, a, Pow2(bits));
    ghost var x := u.Int();
    var adjust := false;
    if mode == (if un > 0 then CEIL else FLOOR) {
      adjust := AnyBitBelow(u.d, Abs(un), bits);
    }
    var qn := ShiftMagnitude(q, u, bits);
    FinishQuotient(q, qn, adjust, un < 0);
  }

  /** Size, adjustment by one and sign of a quotient whose magnitude limbs are in place. */
  method FinishQuotient(q: Mpz, qn: int, adjust: bool, neg: bool)
    requires 0 <= qn <= q.d.Length && (qn > 0 ==> q.d[qn - 1] != 0)
    modifies q, q.d
    ensures q.Valid() && q.Int() == Signed(neg, old(Val(q.d, 0, qn)) + if adjust then 1 else 0)
  {
    q.size := qn;
    if adjust {
      q.PlusUi(q, 1);
    }
    SignOfInt(q);
    if neg {
      q.size := -q.size;
    }
  }
}
