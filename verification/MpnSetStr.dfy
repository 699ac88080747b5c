/** From digits to limb arrays: placing bits, and Horner's rule over blocks of digits. */
module MpnSetStr {
  import opened Arith
  import opened Bits
  import opened Limb
  import opened Mpn
  import opened MpnShift
  import opened LimbLogic
  import opened Power
  import opened Numeral
  import opened MpnGetStr
  import opened MpnStrBits

  // ---- power-of-two bases ----

  /** The bits written so far: all of rn limbs, or shift bits of the last one. */
  function Position(rn: int, shift: int): int { if shift == 0 then 64 * rn else 64 * (rn - 1) + shift }

  ghost predicate BitState(rp: array<Limb>, rn: nat, shift: nat)
    reads rp
  {
    rn <= rp.Length && shift < 64 && (shift > 0 ==> rn >= 1 && rp[rn - 1] < Pow2(shift))
  }

  /** A digit that starts a new limb. */
  method StartLimb(rp: array<Limb>, rn: nat, d: Byte, bits: nat)
    requires rn < rp.Length && 1 <= bits <= 8 && d < Pow2(bits)
    modifies rp
    ensures BitState(rp, rn + 1, bits) && Val(rp, 0, rn + 1) == old(Val(rp, 0, rn)) + d * BPow(rn)
  {
    ghost var done: seq<Limb> := rp[0..rn];
    StoreNext(rp, 0, rn, d, done);
    ValueSnoc(done, d);
  }

  /** The limb with a digit or-ed in above place k. */
  lemma OrDigit(x: Limb, d: Byte, k: nat)
    requires 1 <= k < 64 && x < Pow2(k)
    ensures Bitwise(OR, x, Shl(d, k)) == x + Shl(d, k) < B
    ensures d * Pow2(k) == Shr(d, 64 - k) * B + Shl(d, k)
  {
    ShiftSplit(d, k);
    OrIsSum(d % Pow2(64 - k), k, x);
    Pow2Complement(k);
    SumBelow(d % Pow2(64 - k), Pow2(64 - k), x, Pow2(k));
  }

  lemma SumBelow(m: int, c: int, x: int, p: int)
    requires 0 <= m < c && 0 <= x < p
    ensures m * p + x < p * c
  {
    MulMono(m + 1, c, p);
    Distribute(p, m, 1, 0, 0);
  }

  /** The bits of a digit beyond the end of a limb. */
  lemma DigitOverflow(d: Byte, k: nat, bits: nat)
    requires 1 <= k < 64 && 1 <= bits <= 8 && d < Pow2(bits)
    ensures k + bits <= 64 ==> Shr(d, 64 - k) == 0 && d * Pow2(k) < B
    ensures k + bits < 64 ==> d * Pow2(k) + Pow2(k) <= Pow2(k + bits)
    ensures k + bits >= 64 ==> Shr(d, 64 - k) < Pow2(k + bits - 64)
  {
    if k + bits <= 64 {
      Pow2Mono(bits, 64 - k);
      DivModUnique(d, Pow2(64 - k), 0, d);
      Pow2Complement(k);
      ScaledDigit(d, Pow2(64 - k), Pow2(k));
      Pow2Add(k, bits);
      ScaledDigit(d, Pow2(bits), Pow2(k));
    }
    if k + bits >= 64 {
      Pow2Add(k + bits - 64, 64 - k);
      QuotientBelow(d, Pow2(64 - k), Pow2(k + bits - 64));
    }
  }

  lemma ScaledDigit(d: int, h: int, p: int)
    requires d < h && 0 < p
    ensures d * p + p <= p * h && d * p < p * h
  {
    MulMono(d + 1, h, p);
    Distribute(p, d, 1, 0, 0);
  }

  lemma QuotientBelow(d: int, t: int, p: int)
    requires 0 <= d < p * t && 0 < t
    ensures d / t < p
  {
    MulCancel(d / t, p, t);
  }

  /** rp[rn - 1] |= d << shift. */
  method OrIntoLast(rp: array<Limb>, rn: nat, shift: nat, d: Byte)
    requires 1 <= rn && 1 <= shift && BitState(rp, rn, shift)
    modifies rp
    ensures Val(rp, 0, rn) == old(Val(rp, 0, rn)) + Shl(d, shift) * BPow(rn - 1)
    ensures rp[rn - 1] == old(rp[rn - 1]) + Shl(d, shift)
  {
    ghost var s: seq<Limb>, low: seq<Limb> := rp[0..rn], rp[0..rn - 1];
    var x: Limb := rp[rn - 1];
    OrDigit(x, d, shift);
    assert s == low + [x];
    ValueSnoc(low, x);
    var y: Limb := Bitwise(OR, x, Shl(d, shift));
    StoreNext(rp, 0, rn - 1, y, low);
    ValueSnoc(low, y);
    SplitWeight(y, x, Shl(d, shift), BPow(rn - 1));
  }

  lemma SplitWeight(y: int, x: int, z: int, p: int)
    requires y == x + z
    ensures y * p == x * p + z * p
  {
    Distribute(p, x, z, 0, 0);
  }

  /** One round of the loop of mpn_set_str_bits: the digit gets the weight of the current position. */
  method PlaceDigit(rp: array<Limb>, rn0: nat, shift0: nat, d: Byte, bits: nat) returns (rn: nat, shift: nat)
    requires BitState(rp, rn0, shift0) && 1 <= bits <= 8 && d < Pow2(bits)
    requires Position(rn0, shift0) + bits <= 64 * rp.Length
    modifies rp
    ensures BitState(rp, rn, shift) && Position(rn, shift) == Position(rn0, shift0) + bits
    ensures 0 <= Position(rn0, shift0)
    ensures Val(rp, 0, rn) == old(Val(rp, 0, rn0)) + d * Pow2(Position(rn0, shift0))
  {
    rn, shift := rn0, shift0;
    if shift == 0 {
      BPowIsPow2(rn);
      StartLimb(rp, rn, d, bits);
      rn := rn + 1;
      shift := shift + bits;
    } else {
      rn, shift := ExtendLimb(rp, rn, shift, d, bits);
      PlaceWeight(rn0, shift0, d);
    }
  }

  lemma PlaceWeight(rn: nat, k: nat, d: int)
    requires 1 <= rn && 1 <= k < 64
    ensures d * Pow2(64 * (rn - 1) + k) == (d * Pow2(k)) * BPow(rn - 1)
  {
    BPowIsPow2(rn - 1);
    Pow2Add(64 * (rn - 1), k);
    WeightAlgebra(d, BPow(rn - 1), Pow2(k));
  }

  lemma WeightAlgebra(d: int, b: int, p: int)
    ensures d * (b * p) == (d * p) * b
  {
  }

  /** A digit that continues the last limb, and may run over into the next one. */
  method ExtendLimb(rp: array<Limb>, rn0: nat, shift0: nat, d: Byte, bits: nat) returns (rn: nat, shift: nat)
    requires BitState(rp, rn0, shift0) && 1 <= shift0 && 1 <= bits <= 8 && d < Pow2(bits)
    requires 64 * (rn0 - 1) + shift0 + bits <= 64 * rp.Length
    modifies rp
    ensures BitState(rp, rn, shift) && Position(rn, shift) == 64 * (rn0 - 1) + shift0 + bits
    ensures Val(rp, 0, rn) == old(Val(rp, 0, rn0)) + (d * Pow2(shift0)) * BPow(rn0 - 1)
  {
    rn, shift := rn0, shift0;
    DigitOverflow(d, shift, bits);
    OrDigit(rp[rn - 1], d, shift);
    ghost var p, v := BPow(rn - 1), Val(rp, 0, rn);
    OrIntoLast(rp, rn, shift, d);
    shift := shift + bits;
    if shift >= 64 {
      shift := shift - 64;
      if shift > 0 {
        ghost var done: seq<Limb> := rp[0..rn];
        StoreNext(rp, 0, rn, Shr(d, bits - shift), done);
        ValueSnoc(done, Shr(d, bits - shift));
        OverflowWeight(d * Pow2(shift0), Shr(d, bits - shift), Shl(d, shift0), p);
        rn := rn + 1;
      }
    }
  }

  lemma OverflowWeight(x: int, hi: int, lo: int, p: int)
    requires x == hi * B + lo
    ensures x * p == lo * p + hi * (B * p)
  {
    Distribute(p, hi * B, lo, 0, 0);
    Associate(hi, B, p);
  }

  /** mpn_set_str_bits. */
  method SetStrBits(rp: array<Limb>, sp: seq<Byte>, bits: nat) returns (rn: nat)
    requires 1 <= bits <= 8 && DigitsBelow(sp, Pow2(bits)) && |sp| * bits <= 64 * rp.Length
    modifies rp
    ensures rn <= rp.Length && (rn > 0 ==> rp[rn - 1] != 0)
    ensures Val(rp, 0, rn) == Number(sp, Pow2(bits))
  {
    ghost var b := Pow2(bits);
    var j, shift: nat := |sp|, 0;
    rn := 0;
    while j > 0
      invariant 0 <= j <= |sp| && BitState(rp, rn, shift) && Position(rn, shift) == (|sp| - j) * bits
      invariant Val(rp, 0, rn) == Number(sp[j..], b)
    {
      j := j - 1;
      ghost var c := |sp| - j - 1;
      assert sp[j..] == [sp[j]] + sp[j + 1..];
      NumberCons(sp[j], sp[j + 1..], b);
      PowOfPow2(bits, c);
      RoomForDigit(c, bits, |sp|);
      rn, shift := PlaceDigit(rp, rn, shift, sp[j], bits);
    }
    assert sp[0..] == sp;
    rn := NormalizedSize(rp, rn);
  }

  lemma RoomForDigit(c: nat, bits: nat, n: nat)
    requires c < n
    ensures (c + 1) * bits == c * bits + bits <= n * bits
  {
    Distribute(bits, c, 1, 0, 0);
    MulMono(c + 1, n, bits);
  }

  // ---- other bases ----

  lemma {:induction false} NumberAppend(s: seq<int>, t: seq<int>, b: int)
    ensures Number(s + t, b) == Number(s, b) * Pow(b, |t|) + Number(t, b)
    decreases |t|
  {
    if t == [] {
      assert s + t == s;
    } else {
      var n := |t| - 1;
      NumberAppend(s, t[..n], b);
      assert s + t == (s + t[..n]) + [t[n]] && t == t[..n] + [t[n]];
      AppendDigit(s, t[..n], t[n], b);
    }
  }

  lemma {:induction false} AppendDigit(s: seq<int>, t: seq<int>, d: int, b: int)
    requires Number(s + t, b) == Number(s, b) * Pow(b, |t|) + Number(t, b)
    ensures Number((s + t) + [d], b) == Number(s, b) * Pow(b, |t| + 1) + Number(t + [d], b)
  {
    NumberSnoc(s + t, d, b);
    NumberSnoc(t, d, b);
    ConsStep(Number(s, b), b, Pow(b, |t|), Number(t, b), Number(s + t, b));
  }

  /** The number made of k digits from place j on fits in a limb. */
  method ReadChunk(sp: seq<Byte>, j: nat, k: nat, b: Limb, ghost exp: nat) returns (w: Limb)
    requires 2 <= b && 1 <= k <= exp && j + k <= |sp| && Pow(b, exp) < B && DigitsBelow(sp, b)
    ensures w == Number(sp[j..j + k], b) && w < Pow(b, k)
  {
    w := sp[j];
    assert sp[j..j + 1] == [] + [sp[j]];
    NumberSnoc([], sp[j], b);
    var i := 1;
    while i < k
      invariant 1 <= i <= k && w == Number(sp[j..j + i], b)
    {
      assert sp[j..j + i + 1] == sp[j..j + i] + [sp[j + i]];
      NumberSnoc(sp[j..j + i], sp[j + i], b);
      ChunkFits(sp[j..j + i + 1], b, exp);
      w := w * b + sp[j + i];
      i := i + 1;
    }
    NumberBound(sp[j..j + k], b);
  }

  lemma {:induction false} ChunkFits(ds: seq<int>, b: int, exp: nat)
    requires 2 <= b && |ds| <= exp && DigitsBelow(ds, b)
    ensures 0 <= Number(ds, b) < Pow(b, exp)
  {
    NumberBound(ds, b);
    PowRises(b, |ds|, exp);
  }

  /** The number times bb plus w, in place. */
  method MulAdd(rp: array<Limb>, rn: nat, bb: Limb, w: Limb) returns (cy: Limb)
    requires 1 <= rn <= rp.Length && w < bb
    modifies rp
    ensures Val(rp, 0, rn) == old(Val(rp, 0, rn)) * bb + w - cy * BPow(rn)
    ensures SameOutside(rp, old(rp[..]), 0, rn)
  {
    ghost var v := Val(rp, 0, rn);
    ValueBound(rp[0..rn]);
    cy := Mul1(rp, 0, rp, 0, rn, bb);
    var c2: int := Add1(rp, 0, rp, 0, rn, w);
    ghost var c: int := cy;
    SplitWeight(c + c2, c, c2, BPow(rn));
    CarryFits(v, bb, w, BPow(rn), Val(rp, 0, rn), c + c2);
    cy := cy + c2;
  }

  /** The same, with one more limb when there is a carry. */
  method MulAddChunk(rp: array<Limb>, rn0: nat, bb: Limb, w: Limb) returns (rn: nat)
    requires 1 <= rn0 < rp.Length && w < bb && (rn0 > 1 ==> rp[rn0 - 1] != 0)
    modifies rp
    ensures rn0 <= rn <= rn0 + 1 && (rn > 1 ==> rp[rn - 1] != 0)
    ensures Val(rp, 0, rn) == old(Val(rp, 0, rn0)) * bb + w
  {
    rn := rn0;
    ghost var v := Val(rp, 0, rn);
    if rn > 1 { ValueTop(rp[0..rn]); }
    var cy := MulAdd(rp, rn, bb, w);
    ghost var done: seq<Limb> := rp[0..rn];
    if cy > 0 {
      StoreNext(rp, 0, rn, cy, done);
      ValueSnoc(done, cy);
      rn := rn + 1;
    } else if rn > 1 {
      StillBig(done, v, bb, w);
    }
  }

  lemma CarryFits(v: int, bb: int, w: int, p: int, r: int, cy: int)
    requires 0 <= v < p && 0 <= w < bb && 0 <= r && r == v * bb + w - cy * p
    ensures cy < bb
  {
    MulMono(v + 1, p, bb);
    Distribute(bb, v, 1, 0, 0);
    MulCancel(cy, bb, p);
  }

  lemma {:induction false} StillBig(s: seq<Limb>, v: int, bb: int, w: int)
    requires |s| >= 2 && BPow(|s| - 1) <= v && 0 <= w < bb && Value(s) == v * bb + w
    ensures s[|s| - 1] != 0
  {
    MulMono(1, bb, v);
    if s[|s| - 1] == 0 {
      var n := |s| - 1;
      assert s == s[..n] + [0];
      ValueSnoc(s[..n], 0);
      ValueBound(s[..n]);
    }
  }

  /** mpn_set_str_other: the top limb is nonzero, unless a single limb holds zero. */
  method SetStrOther(rp: array<Limb>, sp: seq<Byte>, b: Limb, exp: nat, bb: Limb) returns (rn: nat)
    requires 2 <= b && 1 <= exp && bb == Pow(b, exp) && sp != [] && DigitsBelow(sp, b)
    requires |sp| <= rp.Length * exp
    modifies rp
    ensures 1 <= rn <= rp.Length && (rn > 1 ==> rp[rn - 1] != 0)
    ensures Val(rp, 0, rn) == Number(sp, b)
  {
    var k := 1 + (|sp| - 1) % exp;
    FirstChunk(|sp|, exp, k, rp.Length);
    rp[0] := ReadChunk(sp, 0, k, b, exp);
    assert rp[0..1] == [] + [rp[0]] && sp[0..k] == sp[..k];
    ValueSnoc([], rp[0]);
    var j := k;
    ghost var m := 0;
    rn := 1;
    while j < |sp|
      invariant 0 <= m && k <= j == k + m * exp <= |sp| && (|sp| - j) % exp == 0
      invariant 1 <= rn <= m + 1 && rn <= rp.Length && (rn > 1 ==> rp[rn - 1] != 0)
      invariant Val(rp, 0, rn) == Number(sp[..j], b)
    {
      NextChunk(|sp|, exp, k, m, j, rp.Length);
      rn := NextBlock(rp, rn, sp, j, b, exp, bb);
      j, m := j + exp, m + 1;
    }
    assert sp[..j] == sp;
  }

  method NextBlock(rp: array<Limb>, rn0: nat, sp: seq<Byte>, j: nat, b: Limb, exp: nat, bb: Limb) returns (rn: nat)
    requires 2 <= b && 1 <= exp && bb == Pow(b, exp) && j + exp <= |sp| && DigitsBelow(sp, b)
    requires 1 <= rn0 < rp.Length && (rn0 > 1 ==> rp[rn0 - 1] != 0) && Val(rp, 0, rn0) == Number(sp[..j], b)
    modifies rp
    ensures rn0 <= rn <= rn0 + 1 && (rn > 1 ==> rp[rn - 1] != 0) && Val(rp, 0, rn) == Number(sp[..j + exp], b)
  {
    var w := ReadChunk(sp, j, exp, b, exp);
    assert sp[..j + exp] == sp[..j] + sp[j..j + exp];
    NumberAppend(sp[..j], sp[j..j + exp], b);
    rn := MulAddChunk(rp, rn0, bb, w);
  }

  lemma FirstChunk(n: int, exp: int, k: int, len: int)
    requires 1 <= n && 1 <= exp && k == 1 + (n - 1) % exp && n <= len * exp && 0 <= len
    ensures 1 <= k <= n && k <= exp && (n - k) % exp == 0 && 1 <= len
  {
    var q := (n - 1) / exp;
    assert n - k == q * exp;
    if q < 0 { MulMono(q, -1, exp); }
    MulBounds(0, q, 0, exp);
    DivModUnique(n - k, exp, q, 0);
  }

  lemma NextChunk(n: int, exp: int, k: int, m: int, j: int, len: int)
    requires 1 <= exp && 1 <= k && 0 <= m && j == k + m * exp && j < n && (n - j) % exp == 0 && n <= len * exp
    ensures j + exp <= n && (n - (j + exp)) % exp == 0 && j + exp == k + (m + 1) * exp && m + 1 < len
  {
    var q := (n - j) / exp;
    assert n - j == q * exp;
    if q <= 0 { MulMono(q, 0, exp); }
    MulMono(1, q, exp);
    Distribute(exp, q, 0, 0, 1);
    DivModUnique(n - (j + exp), exp, q - 1, 0);
    Distribute(exp, m, 1, 0, 0);
    MulCancel(m + 1, len, exp);
  }
}
