/** From limb arrays to digits: the bit-slicing path and the big-base division path. */
module MpnGetStr {
  import opened Arith
  import opened Limb
  import opened Reciprocal
  import opened Mpn
  import opened MpnShift
  import opened MpnDivSmall
  import opened MpzDiv
  import opened MpzDiv2exp
  import opened Power
  import opened Numeral

  /** mpn_base_power_of_two_p: the number of bits per digit, or 0. */
  method BasePowerOfTwo(b: int) returns (bits: nat)
    requires 2 <= b <= 256
    ensures bits <= 8 && (bits > 0 ==> b == Pow2(bits))
  {
    assert Pow2(1) == 2 && Pow2(2) == 4 && Pow2(3) == 8 && Pow2(4) == 16;
    assert Pow2(5) == 32 && Pow2(6) == 64 && Pow2(7) == 128 && Pow2(8) == 256;
    bits := match b
      case 2 => 1
      case 4 => 2
      case 8 => 3
      case 16 => 4
      case 32 => 5
      case 64 => 6
      case 128 => 7
      case 256 => 8
      case _ => 0;
  }

  /** mpn_get_base_info: the largest power of the base that fits in a limb. */
  method BaseInfo(b: Limb) returns (exp: nat, bb: Limb)
    requires 2 <= b
    ensures 1 <= exp && bb == Pow(b, exp) && B <= bb * b
  {
    var m := (B - 1) / b;
    assert m * b <= B - 1 < (m + 1) * b by { Distribute(b, m, 1, 0, 0); }
    bb, exp := b, 1;
    assert Pow(b, 1) == b * Pow(b, 0);
    while bb <= m
      invariant 1 <= exp && bb == Pow(b, exp)
      decreases B - bb
    {
      MulMono(bb, m, b);
      MulMono(2, b, bb);
      bb := bb * b;
      exp := exp + 1;
    }
    MulMono(m + 1, bb, b);
  }

  /** One digit off a limb, through the inverse of the base. */
  method DivDigit(w: Limb, inv: DivInverse, ghost b: int) returns (q: Limb, r: Limb)
    requires Inverts1(inv, b) && 1 <= inv.shift
    ensures 0 < b && q == w / b && r == w % b
  {
    ghost var p := Pow2(inv.shift);
    ShiftSplit(w, inv.shift);
    var h, l := Shr(w, 64 - inv.shift), Shl(w, inv.shift);
    PartBelow(p, inv.d1, b, h);
    q, r := Udiv2by1(h, l, inv.d1, inv.di);
    Unshift(w, b, p, q, r);
    r := Shr(r, inv.shift);
  }

  /** All of a[..] except the n bytes from offset lo on is as in s. */
  ghost predicate BytesOutside(a: array<Byte>, s: seq<Byte>, lo: nat, n: nat)
    requires |s| == a.Length
    reads a
  {
    forall j :: 0 <= j < a.Length && !(lo <= j < lo + n) ==> a[j] == s[j]
  }

  /** sp[i++] = x, after the bytes in done. */
  method PutByte(sp: array<Byte>, so: nat, i: nat, x: Byte, ghost done: seq<int>)
    requires so + i < sp.Length && sp[so..so + i] == done
    modifies sp
    ensures sp[so..so + i + 1] == done + [x]
    ensures BytesOutside(sp, old(sp[..]), so + i, 1)
  {
    sp[so + i] := x;
  }

  lemma {:induction false} LowSnoc(ds: seq<int>, d: int, b: int)
    ensures LowFirst(ds + [d], b) == LowFirst(ds, b) + Pow(b, |ds|) * d
  {
    LowAppend(ds, [d], b);
    assert [d][1..] == [];
    assert LowFirst([d], b) == d + b * LowFirst([], b);
  }

  /** One more digit of n, where w is what is left of it. */
  lemma {:induction false} LowDigit(n: int, ds: seq<int>, w: int, b: int)
    requires 0 < b && n == LowFirst(ds, b) + Pow(b, |ds|) * w
    ensures n == LowFirst(ds + [w % b], b) + Pow(b, |ds| + 1) * (w / b)
  {
    LowSnoc(ds, w % b, b);
    DigitAlgebra(Pow(b, |ds|), b, w / b, w % b, w);
  }

  lemma DigitAlgebra(p: int, b: int, q: int, r: int, w: int)
    requires w == q * b + r
    ensures p * w == p * r + (b * p) * q
  {
    Distribute(p, q * b, r, 0, 0);
    Associate(p, q, b);
  }

  /** A number that fits in k + 1 digits has a quotient that fits in k. */
  lemma QuotientFits(w: int, b: int, k: nat)
    requires 2 <= b && 0 < w < Pow(b, k)
    ensures 1 <= k && 0 <= w / b < Pow(b, k - 1) && w / b < w
  {
    assert Pow(b, 0) == 1;
    var q := w / b;
    if q < 0 { MulMono(q, -1, b); }
    MulCancel(q, Pow(b, k - 1), b);
    MulMono(2, b, q);
  }

  /** mpn_limb_get_str: the digits of a limb, lowest first, with no zero on top. */
  method LimbGetStr(sp: array<Byte>, so: nat, w0: Limb, inv: DivInverse, ghost b: int, ghost room: nat)
    returns (i: nat)
    requires 2 <= b <= 256 && Inverts1(inv, b) && 1 <= inv.shift
    requires w0 < Pow(b, room) && so + room <= sp.Length
    modifies sp
    ensures i <= room && LowFirst(sp[so..so + i], b) == w0 && DigitsBelow(sp[so..so + i], b)
    ensures w0 > 0 ==> i > 0 && sp[so + i - 1] != 0
    ensures BytesOutside(sp, old(sp[..]), so, i)
  {
    var w := w0;
    i := 0;
    while w > 0
      invariant i <= room && 0 <= w < B && w < Pow(b, room - i)
      invariant w0 == LowFirst(sp[so..so + i], b) + Pow(b, i) * w && DigitsBelow(sp[so..so + i], b)
      invariant i > 0 && w == 0 ==> sp[so + i - 1] != 0
      invariant i == 0 ==> w == w0
      invariant BytesOutside(sp, old(sp[..]), so, i)
      decreases w
    {
      ghost var done: seq<int>, v := sp[so..so + i], w;
      QuotientFits(w, b, room - i);
      var r;
      w, r := DivDigit(w, inv, b);
      PutByte(sp, so, i, r, done);
      LowDigit(w0, done, v, b);
      i := i + 1;
    }
  }

  // ---- the big-base path ----

  /** One division by the big base: the remainder, and the quotient in place without its top zero limb. */
  method DivideBlock(up: array<Limb>, un: nat, inv: DivInverse, ghost bb: int) returns (w: Limb, n: nat)
    requires 2 <= un <= up.Length && up[un - 1] != 0 && Inverts1(inv, bb) && 2 <= bb < B
    modifies up
    ensures 0 < bb && w == old(Val(up, 0, un)) % bb
    ensures 1 <= n <= un && up[n - 1] != 0 && Val(up, 0, n) == old(Val(up, 0, un)) / bb
    ensures 0 < Val(up, 0, n) < old(Val(up, 0, un))
  {
    ghost var s: seq<Limb> := up[0..un];
    ValueTop(s);
    w := DivQr1Preinv(up, up, un, inv, bb);
    BigQuotient(Value(s), bb, Val(up, 0, un), BPow(un - 2));
    OneLeadingZero(up[0..un]);
    var k := DropTop(up, un);
    n := k;
  }

  lemma BigQuotient(v: int, bb: int, q: int, p: int)
    requires 2 <= bb < B && 0 < p && B * p <= v && q == v / bb
    ensures p <= q < v
  {
    QuotientLarge(v, bb, q, p, B);
    MulMono(1, p, B);
    QuotientSmaller(v, bb);
  }

  /** A block of exactly exp digits, lowest first, padded with zeros. */
  method PutBlock(sp: array<Byte>, at: nat, w: Limb, inv: DivInverse, exp: nat, ghost b: int)
    requires 2 <= b <= 256 && Inverts1(inv, b) && 1 <= inv.shift
    requires w < Pow(b, exp) && at + exp <= sp.Length
    modifies sp
    ensures LowFirst(sp[at..at + exp], b) == w && DigitsBelow(sp[at..at + exp], b)
    ensures BytesOutside(sp, old(sp[..]), at, exp)
  {
    var done := LimbGetStr(sp, at, w, inv, b, exp);
    while done < exp
      invariant done <= exp
      invariant LowFirst(sp[at..at + done], b) == w && DigitsBelow(sp[at..at + done], b)
      invariant BytesOutside(sp, old(sp[..]), at, exp)
    {
      ghost var ds: seq<int> := sp[at..at + done];
      PutByte(sp, at, done, 0, ds);
      LowSnoc(ds, 0, b);
      done := done + 1;
    }
  }

  /** The digits done so far and the number still to be converted make up u. */
  ghost predicate Converts(u: int, ds: seq<int>, v: int, b: int) {
    u == LowFirst(ds, b) + Pow(b, |ds|) * v && DigitsBelow(ds, b)
  }

  lemma {:induction false} ConvertBlock(u: int, ds: seq<int>, v: int, b: int, block: seq<int>, bb: int)
    requires Converts(u, ds, v, b) && DigitsBelow(block, b) && bb == Pow(b, |block|) && 0 < bb
    requires LowFirst(block, b) == v % bb
    ensures Converts(u, ds + block, v / bb, b)
  {
    LowAppend(ds, block, b);
    PowAdd(b, |ds|, |block|);
    DigitAlgebra(Pow(b, |ds|), bb, v / bb, v % bb, v);
  }

  /** What is still to be converted fits in the room that is left. */
  lemma {:induction false} RoomLeft(u: int, ds: seq<int>, v: int, b: int, room: nat)
    requires 2 <= b && Converts(u, ds, v, b) && 0 < v && u < Pow(b, room)
    ensures |ds| < room && v < Pow(b, room - |ds|)
  {
    hide Pow, LowFirst;
    LowNonneg(ds, b);
    var p := Pow(b, |ds|);
    MulMono(1, v, p);
    PowOrder(b, |ds|, room);
    PowAdd(b, |ds|, room - |ds|);
    MulCancel(v, Pow(b, room - |ds|), p);
  }

  lemma {:induction false} LowNonneg(ds: seq<int>, b: int)
    requires 0 <= b && DigitsBelow(ds, b)
    ensures 0 <= LowFirst(ds, b)
    decreases |ds|
  {
    if ds != [] {
      LowNonneg(ds[1..], b);
      MulBounds(0, b, 0, LowFirst(ds[1..], b));
    }
  }

  lemma {:induction false} PowRises(b: int, i: nat, j: nat)
    requires 1 <= b && i <= j
    ensures Pow(b, i) <= Pow(b, j)
    decreases j
  {
    if i < j {
      PowRises(b, i, j - 1);
      MulMono(1, b, Pow(b, j - 1));
    }
  }

  lemma {:induction false} PowOrder(b: int, i: nat, j: nat)
    requires 1 <= b && Pow(b, i) < Pow(b, j)
    ensures i < j
  {
    if j <= i { PowRises(b, j, i); }
  }

  /** One padded block after the digits so far. */
  method AppendBlock(sp: array<Byte>, so: nat, sn0: nat, w: Limb, inv: DivInverse, exp: nat, ghost u: int, ghost v: int,
                     ghost b: int, ghost bb: int, ghost room: nat)
    returns (sn: nat)
    requires 2 <= b <= 256 && Inverts1(inv, b) && 1 <= inv.shift && 2 <= bb == Pow(b, exp)
    requires so + room <= sp.Length && sn0 <= room && u < Pow(b, room)
    requires Converts(u, sp[so..so + sn0], v, b) && 0 < v / bb && 0 < v && w == v % bb
    modifies sp
    ensures sn <= room && Converts(u, sp[so..so + sn], v / bb, b)
    ensures sp[..so] == old(sp[..so])
  {
    ghost var ds: seq<int> := sp[so..so + sn0];
    BlockFits(u, ds, v, b, bb, exp, room);
    PutBlock(sp, so + sn0, w, inv, exp, b);
    ghost var block: seq<int> := sp[so + sn0..so + sn0 + exp];
    sn := sn0 + exp;
    assert sp[so..so + sn] == ds + block by { assert sp[so..so + sn0] == ds; }
    ConvertBlock(u, ds, v, b, block, bb);
  }

  /** The loop of mpn_get_str_other that strips one block at a time; one limb is left. */
  method StripBlocks(sp: array<Byte>, so: nat, inv: DivInverse, bbinv: DivInverse, exp: nat, up: array<Limb>, un0: nat,
                     ghost b: int, ghost bb: int, ghost room: nat)
    returns (sn: nat)
    requires 2 <= b <= 256 && Inverts1(inv, b) && 1 <= inv.shift && 1 <= exp
    requires 2 <= bb == Pow(b, exp) < B && Inverts1(bbinv, bb)
    requires 1 <= un0 <= up.Length && up[un0 - 1] != 0
    requires Val(up, 0, un0) < Pow(b, room) && so + room <= sp.Length
    modifies sp, up
    ensures sn < room && up[0] != 0 && Converts(old(Val(up, 0, un0)), sp[so..so + sn], up[0], b)
    ensures sp[..so] == old(sp[..so])
  {
    ghost var u := Val(up, 0, un0);
    var un := un0;
    sn := 0;
    ValueTop(up[0..un]);
    while un > 1
      invariant 1 <= un <= un0 && up[un - 1] != 0 && 0 < Val(up, 0, un)
      invariant sn <= room && Converts(u, sp[so..so + sn], Val(up, 0, un), b)
      invariant sp[..so] == old(sp[..so])
      decreases Val(up, 0, un)
    {
      ghost var v := Val(up, 0, un);
      var w;
      w, un := DivideBlock(up, un, bbinv, bb);
      sn := AppendBlock(sp, so, sn, w, inv, exp, u, v, b, bb, room);
    }
    RoomLeft(u, sp[so..so + sn], Val(up, 0, un), b, room);
    assert up[0..1] == [] + [up[0]];
    ValueSnoc([], up[0]);
  }

  lemma {:induction false} BlockFits(u: int, ds: seq<int>, v: int, b: int, bb: int, exp: nat, room: nat)
    requires 2 <= b && Converts(u, ds, v, b) && 0 < v && u < Pow(b, room) && 0 < bb == Pow(b, exp) && 0 < v / bb
    ensures |ds| + exp <= room
  {
    RoomLeft(u, ds, v, b, room);
    assert bb <= v by { if v < bb { DivModUnique(v, bb, 0, v); } }
    PowOrder(b, exp, room - |ds|);
  }

  /** The in-place reversal at the end. */
  method ReverseBytes(sp: array<Byte>, so: nat, sn: nat)
    requires so + sn <= sp.Length
    modifies sp
    ensures Reversed(old(sp[so..so + sn]), sp[so..so + sn])
    ensures sp[..so] == old(sp[..so])
  {
    hide HalfReversed;
    ghost var s: seq<Byte> := sp[..];
    ReverseStart(s, so, sn);
    var i := 0;
    while 2 * i + 1 < sn
      invariant 0 <= 2 * i <= sn + 1 && HalfReversed(s, sp[..], so, sn, i)
    {
      ghost var t: seq<Byte> := sp[..];
      SwapBytes(sp, so + i, so + sn - i - 1);
      ReverseStep(s, t, sp[..], so, sn, i);
      i := i + 1;
    }
    ReverseEnd(s, sp[..], so, sn, i);
    assert sp[so..so + sn] == sp[..][so..so + sn] && sp[..so] == sp[..][..so];
  }

  /** Of the sn bytes from so on, the i outermost ones on either side have changed places; all others are as before. */
  ghost predicate HalfReversed(s: seq<Byte>, t: seq<Byte>, so: nat, sn: nat, i: nat)
    requires so + sn <= |s|
  {
    && |t| == |s|
    && (forall j :: so <= j < so + sn && (j < so + i || so + sn - i <= j) ==> t[j] == s[2 * so + sn - 1 - j])
    && (forall j :: 0 <= j < |s| && !(so <= j < so + sn && (j < so + i || so + sn - i <= j)) ==> t[j] == s[j])
  }

  lemma ReverseStart(s: seq<Byte>, so: nat, sn: nat)
    requires so + sn <= |s|
    ensures HalfReversed(s, s, so, sn, 0)
  {
  }

  lemma ReverseStep(s: seq<Byte>, t: seq<Byte>, t': seq<Byte>, so: nat, sn: nat, i: nat)
    requires so + sn <= |s| && HalfReversed(s, t, so, sn, i) && 2 * i + 1 < sn
    requires t' == t[so + i := t[so + sn - i - 1]][so + sn - i - 1 := t[so + i]]
    ensures HalfReversed(s, t', so, sn, i + 1)
  {
  }

  lemma ReverseEnd(s: seq<Byte>, t: seq<Byte>, so: nat, sn: nat, i: nat)
    requires so + sn <= |s| && HalfReversed(s, t, so, sn, i) && sn <= 2 * i + 1 <= sn + 2
    ensures Reversed(s[so..so + sn], t[so..so + sn]) && t[..so] == s[..so]
  {
    var s', t' := s[so..so + sn], t[so..so + sn];
    forall k | 0 <= k < |t'| ensures t'[k] == s'[|s'| - 1 - k] {
      assert t'[k] == t[so + k];
    }
  }

  method SwapBytes(sp: array<Byte>, i: nat, j: nat)
    requires i < j < sp.Length
    modifies sp
    ensures sp[..] == old(sp[..])[i := old(sp[j])][j := old(sp[i])]
  {
    var t: Byte := sp[i];
    sp[i] := sp[j];
    sp[j] := t;
  }

  /** The digits of the last limb, after the blocks. */
  method LastDigits(sp: array<Byte>, so: nat, sn0: nat, w: Limb, inv: DivInverse, ghost u: int, ghost b: int,
                    ghost room: nat)
    returns (sn: nat)
    requires 2 <= b <= 256 && Inverts1(inv, b) && 1 <= inv.shift && 0 < w
    requires sn0 < room && so + room <= sp.Length && u < Pow(b, room) && Converts(u, sp[so..so + sn0], w, b)
    modifies sp
    ensures 0 < sn <= room && LowFirst(sp[so..so + sn], b) == u && DigitsBelow(sp[so..so + sn], b)
    ensures sp[so + sn - 1] != 0
    ensures sp[..so] == old(sp[..so])
  {
    hide Pow, LowFirst;
    ghost var ds: seq<int> := sp[so..so + sn0];
    RoomLeft(u, ds, w, b, room);
    var more := LimbGetStr(sp, so + sn0, w, inv, b, room - sn0);
    ghost var top: seq<int> := sp[so + sn0..so + sn0 + more];
    LowAppend(ds, top, b);
    assert sp[so..so + sn0 + more] == ds + top;
    sn := sn0 + more;
  }

  /** mpn_get_str_other, for a base that is not a power of two. */
  method GetStrOther(sp: array<Byte>, so: nat, base: int, exp: nat, bb: Limb, up: array<Limb>, un: nat, ghost room: nat)
    returns (sn: nat)
    requires 2 <= base <= 256 && 1 <= exp && bb == Pow(base, exp)
    requires 1 <= un <= up.Length && up[un - 1] != 0
    requires Val(up, 0, un) < Pow(base, room) && so + room <= sp.Length
    modifies sp, up
    ensures sn <= room && IsNumeral(sp[so..so + sn], old(Val(up, 0, un)), base)
    ensures sp[..so] == old(sp[..so])
  {
    ghost var u := Val(up, 0, un);
    var inv := DivQr1Invert(base);
    SmallShift(inv, base);
    var bbinv := DivQr1Invert(bb);
    PowAtLeast(base, exp);
    sn := StripBlocks(sp, so, inv, bbinv, exp, up, un, base, bb, room);
    sn := LastDigits(sp, so, sn, up[0], inv, u, base, room);
    HighestFirst(sp, so, sn, u, base);
  }

  method HighestFirst(sp: array<Byte>, so: nat, sn: nat, ghost u: int, ghost b: int)
    requires 0 < sn && so + sn <= sp.Length
    requires LowFirst(sp[so..so + sn], b) == u && DigitsBelow(sp[so..so + sn], b) && sp[so + sn - 1] != 0
    modifies sp
    ensures IsNumeral(sp[so..so + sn], u, b)
    ensures sp[..so] == old(sp[..so])
  {
    ghost var all: seq<int> := sp[so..so + sn];
    ReverseBytes(sp, so, sn);
    NumberOfReversed(all, sp[so..so + sn], b);
  }

  lemma PowAtLeast(b: int, e: nat)
    requires 2 <= b && 1 <= e
    ensures b <= Pow(b, e)
  {
    assert Pow(b, 1) == b * Pow(b, 0);
    PowRises(b, 1, e);
  }

  lemma SmallShift(inv: DivInverse, b: int)
    requires Inverts1(inv, b) && b <= 256
    ensures 1 <= inv.shift
  {
    assert Pow2(0) == 1;
  }
}
