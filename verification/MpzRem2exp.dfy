/** The remainder of a division by a power of two, by masking and negating limbs. */
module MpzRem2exp {
  import opened Arith
  import opened Bits
  import opened Limb
  import opened Mpn
  import opened MpnShift
  import opened MpnNeg
  import opened LimbLogic
  import opened Mpz
  import opened MpzDiv
  import opened MpzDiv2exp

  /** Number of limbs that bits bits take, and the bits used of the top one. */
  function LimbsOf(bits: nat): (n: nat) { (bits + 63) / 64 }

  function TopBits(bits: nat): (k: int) { bits + 64 - 64 * LimbsOf(bits) }

  lemma {:induction false} PowerInLimbs(bits: nat)
    requires bits > 0
    ensures 1 <= LimbsOf(bits) && 1 <= TopBits(bits) <= 64
    ensures Pow2(bits) == BPow(LimbsOf(bits) - 1) * Pow2(TopBits(bits))
  {
    BPowIsPow2(LimbsOf(bits) - 1);
    Pow2Add(64 * (LimbsOf(bits) - 1), TopBits(bits));
  }

  /** GMP_LIMB_MAX >> (64 - k): a word of k ones. */
  method OnesMask(k: nat) returns (mask: Limb)
    requires 1 <= k <= 64
    ensures mask == Pow2(k) - 1
  {
    mask := Shr(B - 1, 64 - k);
    Pow2Complement(k);
    HighPart(B, Pow2(k), Pow2(64 - k));
  }

  lemma HighPart(b: int, p: int, t: int)
    requires p * t == b && 0 < t
    ensures (b - 1) / t == p - 1
  {
    Distribute(t, p, 0, 0, 1);
    DivModUnique(b - 1, t, p - 1, t - 1);
  }

  /** Masking the top limb reduces modulo BPow(n) * 2^k. */
  lemma {:induction false} MaskTop(s: seq<Limb>, n: nat, k: nat, low: Limb)
    requires |s| == n + 1 && low == s[n] % Pow2(k)
    ensures Value(s[..n] + [low]) == Value(s) % (BPow(n) * Pow2(k))
  {
    assert Value(s[n..]) == s[n] by { assert s[n..] == [] + [s[n]]; ValueSnoc([], s[n]); }
    LimbParts(s, n);
    DivModTwice(Value(s), BPow(n), Pow2(k));
    ValueSnoc(s[..n], low);
    Commute(low, BPow(n));
  }

  lemma ModAtMost(x: nat, m: nat)
    requires 0 < m
    ensures 0 <= x % m <= x
  {
    assert x == (x / m) * m + x % m;
    MulBounds(0, x / m, 0, m);
  }

  /** rp[n - 1] &= mask. */
  method MaskLimb(rp: array<Limb>, n: nat, ghost k: nat, mask: Limb)
    requires 1 <= n <= rp.Length && k <= 64 && mask == Pow2(k) - 1
    modifies rp
    ensures Val(rp, 0, n) == old(Val(rp, 0, n)) % (BPow(n - 1) * Pow2(k))
  {
    ghost var s: seq<Limb>, x: Limb := rp[0..n], rp[n - 1];
    AndMask(x, k);
    ModAtMost(x, Pow2(k));
    var low: Limb := Bitwise(AND, rp[n - 1], mask);
    assert s[n - 1] == x;
    MaskTop(s, n - 1, k, low);
    rp[n - 1] := low;
    assert rp[0..n] == s[..n - 1] + [low];
  }

  /** A number below the power of two, rounded away: fill up with ones above its two's complement. */
  method NegateAndExtend(rp: array<Limb>, up: array<Limb>, un: nat, rn: nat, ghost k: nat, mask: Limb)
    requires 1 <= un < rn <= rp.Length && un <= up.Length && up[un - 1] != 0
    requires k <= 64 && mask == Pow2(k) - 1
    modifies rp
    ensures Val(rp, 0, rn) == BPow(rn - 1) * Pow2(k) - old(Val(up, 0, un))
  {
    ghost var u := Val(up, 0, un);
    assert u > 0 by { ValueTop(up[0..un]); }
    var nonzero := Neg(rp, up, un);
    FillOnes(rp, un, rn - 1, u);
    ghost var done: seq<Limb> := rp[0..rn - 1];
    StoreNext(rp, 0, rn - 1, mask, done);
    ValueSnoc(done, mask);
    OnesOnTop(BPow(rn - 1), Pow2(k), mask, u);
  }

  lemma OnesOnTop(p: int, t: int, m: int, u: int)
    requires m == t - 1
    ensures p - u + m * p == p * t - u
  {
    Distribute(p, t, 0, 0, 1);
  }

  method FillOnes(rp: array<Limb>, lo: nat, hi: nat, ghost u: int)
    requires lo <= hi <= rp.Length && Val(rp, 0, lo) == BPow(lo) - u
    modifies rp
    ensures Val(rp, 0, hi) == BPow(hi) - u
  {
    var i := lo;
    while i < hi
      invariant lo <= i <= hi
      invariant Val(rp, 0, i) == BPow(i) - u
    {
      ghost var done: seq<Limb> := rp[0..i];
      StoreNext(rp, 0, i, B - 1, done);
      ValueSnoc(done, B - 1);
      Distribute(BPow(i), B, 0, 0, 1);
      i := i + 1;
    }
  }

  lemma PartialLimb(rn: nat, k: nat)
    requires 1 <= rn && k <= 64
    ensures Pow2(64 - k) * (BPow(rn - 1) * Pow2(k)) == BPow(rn) && 0 < BPow(rn - 1) * Pow2(k)
  {
    Pow2Complement(k);
    Associate(BPow(rn - 1), Pow2(k), Pow2(64 - k));
    MulBounds(1, BPow(rn - 1), 1, Pow2(k));
  }

  /** A number with at least as many limbs: keep the low bits, or what is missing to the power. */
  method ReduceLimbs(rp: array<Limb>, up: array<Limb>, rn: nat, ghost k: nat, mask: Limb, away: bool)
    requires 1 <= rn <= rp.Length && rn <= up.Length && k <= 64 && mask == Pow2(k) - 1
    modifies rp
    ensures var t, l := BPow(rn - 1) * Pow2(k), old(Val(up, 0, rn)) % (BPow(rn - 1) * Pow2(k));
            Val(rp, 0, rn) == if away && l != 0 then t - l else l
  {
    ghost var t, v := BPow(rn - 1) * Pow2(k), Val(up, 0, rn);
    CopyLimbs(rp, up, 0, rn);
    MaskLimb(rp, rn, k, mask);
    if away {
      ghost var l := Val(rp, 0, rn);
      var nonzero := Neg(rp, rp, rn);
      ghost var w := Val(rp, 0, rn);
      MaskLimb(rp, rn, k, mask);
      PartialLimb(rn, k);
      NegatedLow(l, t, Pow2(64 - k), BPow(rn), w);
    }
  }

  /** The two's complement of a number below t in more bits, taken modulo t. */
  lemma NegatedLow(l: int, t: int, c: int, b: int, w: int)
    requires 0 <= l < t && c * t == b && w == if l == 0 then 0 else b - l
    ensures w % t == if l == 0 then 0 else t - l
  {
    Distribute(t, c, 0, 0, 1);
    if l == 0 {
      DivModUnique(w, t, 0, 0);
    } else {
      DivModUnique(w, t, c - 1, t - l);
    }
  }

  /** The remainder that goes with the rounded quotient, as sign and magnitude. */
  lemma RoundRemainder(mode: Mode, neg: bool, a: nat, t: nat) returns (q: int)
    requires 0 < t && 0 < a
    ensures var away := mode == (if neg then FLOOR else CEIL);
            var r := Signed(neg != away, if away && a % t != 0 then t - a % t else a % t);
            Rounded(mode, Signed(neg, a), t, q, r)
  {
    q := RoundDigits(mode, neg, a, a / t, a % t, t);
  }

  lemma RoundDigits(mode: Mode, neg: bool, a: nat, k: nat, l: nat, t: nat) returns (q: int)
    requires 0 < a == k * t + l && l < t
    ensures var away := mode == (if neg then FLOOR else CEIL);
            Rounded(mode, Signed(neg, a), t, q, Signed(neg != away, if away && l != 0 then t - l else l))
  {
    var away := mode == (if neg then FLOOR else CEIL);
    var m := k + if away && l != 0 then 1 else 0;
    q := Signed(neg, m);
    SignRules(m, t);
    Distribute(t, k, 1, 0, 0);
  }

  /** mpz_div_r_2exp; r may be u. The ghost result is the quotient that goes with the remainder. */
  method DivR2exp(r: Mpz, u: Mpz, bits: nat, mode: Mode) returns (ghost qv: int)
    requires r.Valid() && u.Valid() && Apart(r, u)
    modifies r, r.d
    ensures r.Valid()
    ensures Rounded(mode, old(u.Int()), Pow2(bits), qv, r.Int())
  {
    var us := u.size;
    if us == 0 || bits == 0 {
      qv := u.Int();
      r.size := 0;
      return;
    }
    ghost var a := Val(u.d, 0, Abs(us));
    assert a > 0 by { SignOfInt(u); }
    qv := RoundRemainder(mode, us < 0, a, Pow2(bits));
    StoreRemainder(r, u, bits, mode == (if us > 0 then CEIL else FLOOR));
  }

  method StoreRemainder(r: Mpz, u: Mpz, bits: nat, away: bool)
    requires r.Valid() && u.Valid() && Apart(r, u) && u.size != 0 && bits > 0
    modifies r, r.d
    ensures r.Valid()
    ensures var t, l := Pow2(bits), old(Val(u.d, 0, Abs(u.size))) % Pow2(bits);
            r.Int() == Signed(old(u.size < 0) != away, if away && l != 0 then t - l else l)
  {
    hide Value, BPow, Pow2;
    var us, un := u.size, Abs(u.size);
    r.Realloc(LimbsOf(bits));
    var n: int := RemainderLimbs(r.d, u.d, un, bits, away);
    r.size := if (us < 0) != away then -n else n;
    AtStart(r.d, 0, [], []);
  }

  method RemainderLimbs(rp: array<Limb>, up: array<Limb>, un: nat, bits: nat, away: bool) returns (rn: nat)
    requires bits > 0 && LimbsOf(bits) <= rp.Length && 1 <= un <= up.Length && up[un - 1] != 0
    modifies rp
    ensures rn <= rp.Length && (rn > 0 ==> rp[rn - 1] != 0)
    ensures var t, l := Pow2(bits), old(Val(up, 0, un)) % Pow2(bits);
            Val(rp, 0, rn) == if away && l != 0 then t - l else l
  {
    PowerInLimbs(bits);
    rn := LimbsOf(bits);
    ghost var k := TopBits(bits);
    var mask := OnesMask(64 - (rn * 64 - bits));
    ghost var s: seq<Limb> := up[0..un];
    if rn > un {
      SmallRemainder(s, rn, k);
      if away {
        NegateAndExtend(rp, up, un, rn, k, mask);
      } else {
        CopyLimbs(rp, up, 0, un);
        rn := un;
      }
    } else {
      LowLimbsOnly(s, rn, k);
      assert up[0..rn] == s[..rn];
      ReduceLimbs(rp, up, rn, k, mask, away);
    }
    rn := NormalizedSize(rp, rn);
  }

  lemma {:induction false} SmallRemainder(s: seq<Limb>, rn: nat, k: nat)
    requires 1 <= |s| < rn && s[|s| - 1] != 0
    ensures 0 < Value(s) && Value(s) % (BPow(rn - 1) * Pow2(k)) == Value(s)
  {
    ValueTop(s);
    ValueBound(s);
    BPowMono(|s|, rn - 1);
    MulMono(1, Pow2(k), BPow(rn - 1));
    DivModUnique(Value(s), BPow(rn - 1) * Pow2(k), 0, Value(s));
  }

  lemma {:induction false} LowLimbsOnly(s: seq<Limb>, rn: nat, k: nat)
    requires 1 <= rn <= |s| && k <= 64
    ensures Value(s) % (BPow(rn - 1) * Pow2(k)) == Value(s[..rn]) % (BPow(rn - 1) * Pow2(k))
  {
    ValueCut(s, rn);
    PartialLimb(rn, k);
    DropMultiple(Value(s[..rn]), Value(s[rn..]), BPow(rn - 1) * Pow2(k), Pow2(64 - k), BPow(rn));
  }

  lemma DropMultiple(x: int, y: int, t: int, c: int, b: int)
    requires 0 < t && c * t == b
    ensures (x + b * y) % t == x % t
  {
    Associate(t, c, y);
    ModAdd(x, c * y, t);
  }
}
