/** Digits of a power-of-two base are slices of the bits of a limb array. */
module MpnStrBits {
  import opened Arith
  import opened Bits
  import opened Limb
  import opened Mpn
  import opened LimbLogic
  import opened MpzDiv2exp
  import opened MpzRem2exp
  import opened Power
  import opened Numeral
  import opened MpnGetStr

  // ---- bit positions ----

  /** mpn_limb_size_in_base_2. */
  method LimbBits(u: Limb) returns (n: nat)
    requires 0 < u
    ensures 1 <= n <= 64 && Pow2(n - 1) <= u < Pow2(n)
  {
    var shift := Clz(u);
    n := 64 - shift;
    Pow2Complement(shift);
    Unscale(u, Pow2(shift), Pow2(n), Pow2(n - 1), B);
  }

  lemma Unscale(u: int, t: int, p: int, h: int, b: int)
    requires 0 < t && p == 2 * h && t * p == b && b <= 2 * (u * t) && u * t < b
    ensures h <= u < p
  {
    MulCancel(u, p, t);
    Associate(t, 2, h);
    if u < h { MulMono(u + 1, h, t); Distribute(t, u, 1, 0, 0); }
  }

  /** The number of bits of a normalised limb array. */
  method BitCount(up: array<Limb>, un: nat) returns (n: nat)
    requires 1 <= un <= up.Length && up[un - 1] != 0
    ensures 1 <= n <= 64 * un && Pow2(n - 1) <= Val(up, 0, un) < Pow2(n)
  {
    var top := LimbBits(up[un - 1]);
    n := 64 * (un - 1) + top;
    ghost var s: seq<Limb> := up[0..un];
    ValueTake(s, un - 1);
    assert s[..un] == s;
    ValueBound(s[..un - 1]);
    BPowIsPow2(un - 1);
    Pow2Add(64 * (un - 1), top - 1); Pow2Add(64 * (un - 1), top);
    TopBits(Value(s[..un - 1]), BPow(un - 1), s[un - 1], Pow2(top - 1), Pow2(top));
  }

  lemma TopBits(l: int, p: int, x: int, lo: int, hi: int)
    requires 0 <= l < p && lo <= x < hi
    ensures p * lo <= l + x * p < p * hi
  {
    MulMono(lo, x, p);
    MulMono(x + 1, hi, p);
    Distribute(p, x, 1, 0, 0);
  }

  /** The bits from place 64 i + k on are those of the limbs from i on, from place k on. */
  lemma {:induction false} FromPlace(s: seq<Limb>, i: nat, k: nat)
    requires i <= |s|
    ensures Value(s) / Pow2(64 * i + k) == Value(s[i..]) / Pow2(k)
  {
    BPowIsPow2(i);
    Pow2Add(64 * i, k);
    DivDiv(Value(s), BPow(i), Pow2(k));
    LimbParts(s, i);
  }

  /** Shifting a limb right brings in the bits above it. */
  lemma ShiftIn(w: Limb, x: int, k: nat)
    requires k <= 64
    ensures (w + B * x) / Pow2(k) == w / Pow2(k) + Pow2(64 - k) * x
  {
    Pow2Complement(k);
    AddedMultiple(w, x, Pow2(k), Pow2(64 - k), B);
  }

  lemma AddedMultiple(w: int, x: int, p: int, c: int, b: int)
    requires 0 < p && p * c == b
    ensures (w + b * x) / p == w / p + c * x
  {
    var q, r := w / p, w % p;
    Associate(p, c, x);
    Distribute(p, q, c * x, 0, 0);
    DivModUnique(w + b * x, p, q + c * x, r);
  }

  /** A multiple of a higher power of two does not change the low bits. */
  lemma DropHigh(y: int, x: int, j: nat, k: nat)
    requires j <= k
    ensures (y + Pow2(k) * x) % Pow2(j) == y % Pow2(j)
  {
    Pow2Add(k - j, j);
    DropMultiple(y, x, Pow2(j), Pow2(k - j), Pow2(k));
  }

  /** A digit inside one limb. */
  lemma OnePiece(w: Limb, x: int, k: nat, bits: nat)
    requires k + bits <= 64
    ensures ((w + B * x) / Pow2(k)) % Pow2(bits) == (w / Pow2(k)) % Pow2(bits)
  {
    ShiftIn(w, x, k);
    DropHigh(w / Pow2(k), x, bits, 64 - k);
  }

  /** A digit across two limbs. */
  lemma TwoPieces(w: Limb, w': Limb, x: int, k: nat, bits: nat)
    requires k < 64 && bits <= 8
    ensures ((w + B * (w' + B * x)) / Pow2(k)) % Pow2(bits) == (w / Pow2(k) + w' * Pow2(64 - k)) % Pow2(bits)
  {
    ShiftIn(w, w' + B * x, k);
    var y, p := w / Pow2(k), Pow2(64 - k);
    assert p * (w' + B * x) == w' * p + Pow2(64 - k + 64) * x by {
      Pow2Values();
      Pow2Add(64 - k, 64);
      PiecesAlgebra(p, w', B, x);
    }
    DropHigh(y + w' * p, x, bits, 64 - k + 64);
  }

  lemma PiecesAlgebra(p: int, w: int, b: int, x: int)
    ensures p * (w + b * x) == w * p + (p * b) * x
  {
  }

  /** Truncation to a byte keeps the digit. */
  lemma ByteTruncation(x: int, bits: nat)
    requires 0 <= x && bits <= 8
    ensures (x % 256) % Pow2(bits) == x % Pow2(bits)
  {
    assert Pow2(8) == 256;
    DropHigh(x % 256, x / 256, bits, 8);
  }

  // ---- get ----

  /** digit |= w << c, on bytes: w fills up a digit whose low c bits are there. */
  method JoinByte(digit: Byte, w: Limb, c: nat, ghost bits: nat) returns (d: Byte)
    requires c <= 8 && digit < Pow2(c) && bits <= 8
    ensures d % Pow2(bits) == (digit + w * Pow2(c)) % Pow2(bits)
  {
    JoinIsSum(digit, w, c);
    var x := Bitwise(OR, digit, Shl(w, c));
    d := x % 256;
    ByteTruncation(x, bits);
    WrappedLow(digit, w * Pow2(c), bits);
  }

  lemma JoinIsSum(digit: Byte, w: Limb, c: nat)
    requires c <= 8 && digit < Pow2(c)
    ensures Bitwise(OR, digit, Shl(w, c)) == digit + Shl(w, c)
  {
    if c == 0 {
      assert Pow2(0) == 1;
      OrZero(Shl(w, c));
      Commutes(OR, digit, Shl(w, c));
    } else {
      ShiftSplit(w, c);
      OrIsSum(w % Pow2(64 - c), c, digit);
    }
  }

  lemma WrappedLow(digit: int, y: int, bits: nat)
    requires bits <= 8
    ensures (digit + Wrap(y)) % Pow2(bits) == (digit + y) % Pow2(bits)
  {
    LowOfWrapped(digit, y, y / B, y % B, bits);
  }

  lemma LowOfWrapped(digit: int, y: int, q: int, r: int, bits: nat)
    requires bits <= 8 && y == B * q + r
    ensures (digit + r) % Pow2(bits) == (digit + y) % Pow2(bits)
  {
    Pow2Values();
    DropHigh(digit + r, q, bits, 64);
  }

  /** One round of the loop of mpn_get_str_bits: a digit and the next position. */
  method NextDigit(up: array<Limb>, un: nat, i0: nat, shift0: nat, bits: nat, mask: Byte)
    returns (d: Byte, i: nat, shift: nat)
    requires i0 < un <= up.Length && shift0 < 64 && 1 <= bits <= 8 && mask == Pow2(bits) - 1
    ensures d == (Val(up, i0, un - i0) / Pow2(shift0)) % Pow2(bits)
    ensures if i < un then 64 * i + shift == 64 * i0 + shift0 + bits && shift < 64
            else 64 * un <= 64 * i0 + shift0 + bits
  {
    ghost var s: seq<Limb> := up[i0..un];
    i, shift := i0, shift0 + bits;
    var digit: Byte := Shr(up[i0], shift0) % 256;
    ByteTruncation(Shr(up[i0], shift0), bits);
    if shift >= 64 {
      i := i + 1;
      if i < un {
        shift := shift - 64;
        digit := SecondPiece(digit, up[i], bits - shift, shift0, bits, s);
      } else {
        OnePieceOrLast(s, shift0, bits);
      }
    } else {
      OnePieceOrLast(s, shift0, bits);
    }
    AndMask(digit, bits);
    ModBelow(digit, Pow2(bits));
    d := Bitwise(AND, digit, mask);
  }

  method SecondPiece(digit: Byte, w: Limb, c: nat, ghost k: nat, ghost bits: nat, ghost s: seq<Limb>) returns (d: Byte)
    requires |s| >= 2 && w == s[1] && k < 64 && bits <= 8 && 64 <= k + bits && c == 64 - k
    requires digit == Shr(s[0], k) % 256
    ensures d % Pow2(bits) == (Value(s) / Pow2(k)) % Pow2(bits)
  {
    assert s[1..][1..] == s[2..];
    ValueCons(s); ValueCons(s[1..]);
    HighSlice(s[0], k, bits);
    TwoPieces(s[0], s[1], Value(s[2..]), k, bits);
    d := JoinByte(digit, w, c, bits);
  }

  lemma ModBelow(x: int, m: int)
    requires 0 <= x && 0 < m
    ensures 0 <= x % m <= x
  {
    ShrBound(x, m);
    MulBounds(0, x / m, 0, m);
  }

  lemma {:induction false} OnePieceOrLast(s: seq<Limb>, k: nat, bits: nat)
    requires s != [] && k < 64 && (k + bits <= 64 || |s| == 1)
    ensures (Value(s) / Pow2(k)) % Pow2(bits) == (s[0] / Pow2(k)) % Pow2(bits)
  {
    ValueCons(s);
    if k + bits <= 64 { OnePiece(s[0], Value(s[1..]), k, bits); } else { assert Value(s[1..]) == 0; }
  }

  /** What is left of a limb above place k > 56 fits in a byte. */
  lemma HighSlice(w: Limb, k: nat, bits: nat)
    requires k < 64 && bits <= 8 && 64 <= k + bits
    ensures w / Pow2(k) < Pow2(64 - k) <= 256
  {
    Pow2Complement(k);
    MulCancel(w / Pow2(k), Pow2(64 - k), Pow2(k));
    assert Pow2(8) == 256;
    Pow2Mono(64 - k, 8);
  }

  /** Digit c of the number, read at place 64 i + shift. */
  method SliceAt(up: array<Limb>, un: nat, i0: nat, shift0: nat, bits: nat, mask: Byte, ghost c: nat)
    returns (d: Byte, i: nat, shift: nat)
    requires i0 < un <= up.Length && shift0 < 64 && 1 <= bits <= 8 && mask == Pow2(bits) - 1
    requires 64 * i0 + shift0 == c * bits
    ensures d == (Val(up, 0, un) / Pow(Pow2(bits), c)) % Pow2(bits)
    ensures if i < un then 64 * i + shift == (c + 1) * bits && shift < 64 else 64 * un <= (c + 1) * bits
  {
    assert Val(up, 0, un) / Pow(Pow2(bits), c) == Val(up, i0, un - i0) / Pow2(shift0) by {
      FromPlace(up[0..un], i0, shift0);
      assert up[0..un][i0..] == up[i0..un];
      PowOfPow2(bits, c);
    }
    d, i, shift := NextDigit(up, un, i0, shift0, bits, mask);
    assert (c + 1) * bits == c * bits + bits by { Distribute(bits, c, 1, 0, 0); }
  }

  method PutSlice(sp: array<Byte>, so: nat, j: nat, sn: nat, d: Byte, ghost u: int, ghost bits: nat)
    requires so + sn <= sp.Length && j < sn && Slices(u, bits, sp[so + j + 1..so + sn])
    requires d == (u / Pow(Pow2(bits), sn - j - 1)) % Pow2(bits)
    modifies sp
    ensures Slices(u, bits, sp[so + j..so + sn]) && sp[..so] == old(sp[..so])
  {
    ghost var done: seq<int> := sp[so + j + 1..so + sn];
    SliceStep(u, bits, done, d);
    sp[so + j] := d;
    assert sp[so + j..so + sn] == [d] + done;
  }

  /** mpn_get_str_bits. */
  method GetStrBits(sp: array<Byte>, so: nat, bits: nat, up: array<Limb>, un: nat, ghost room: nat) returns (sn: nat)
    requires 1 <= bits <= 8 && 1 <= un <= up.Length && up[un - 1] != 0
    requires Val(up, 0, un) < Pow(Pow2(bits), room) && so + room <= sp.Length
    modifies sp
    ensures sn <= room && IsNumeral(sp[so..so + sn], Val(up, 0, un), Pow2(bits))
    ensures sp[..so] == old(sp[..so])
  {
    hide Slices, Pow, Value;
    ghost var u, b := Val(up, 0, un), Pow2(bits);
    SlicesNone(u, bits);
    var n := BitCount(up, un);
    sn := (n + bits - 1) / bits;
    DigitCount(u, n, bits, sn);
    PowOrder(b, sn - 1, room);
    var mask := ByteMask(bits);
    var i: nat, j: nat, shift: nat := 0, sn, 0;
    assert sp[so + sn..so + sn] == [];
    while j > 0
      invariant 0 <= j <= sn && (j > 0 ==> i < un && shift < 64 && 64 * i + shift == (sn - j) * bits)
      invariant Slices(u, bits, sp[so + j..so + sn]) && sp[..so] == old(sp[..so])
    {
      var d;
      NotYetDone(sn - j, bits, sn, n);
      d, i, shift := SliceAt(up, un, i, shift, bits, mask, sn - j);
      j := j - 1;
      PutSlice(sp, so, j, sn, d, u, bits);
    }
    SlicesWhole(u, bits, sp[so..so + sn], n);
  }

  method ByteMask(bits: nat) returns (mask: Byte)
    requires bits <= 8
    ensures mask == Pow2(bits) - 1
  {
    assert Pow2(8) == 256;
    Pow2Mono(bits, 8);
    mask := Pow2(bits) - 1;
  }

  /** ds are the lowest |ds| digits of u. */
  ghost predicate Slices(u: int, bits: nat, ds: seq<int>) {
    DigitsBelow(ds, Pow2(bits)) && Number(ds, Pow2(bits)) == u % Pow(Pow2(bits), |ds|)
  }

  lemma {:induction false} SlicesNone(u: int, bits: nat)
    ensures Slices(u, bits, [])
  {
  }

  lemma {:induction false} PowOfPow2(bits: nat, c: nat)
    ensures 0 <= c * bits && Pow(Pow2(bits), c) == Pow2(c * bits)
  {
    PowMul(2, bits, c);
    PowOfTwo(bits);
    PowOfTwo(bits * c);
  }

  lemma {:induction false} SliceStep(u: int, bits: nat, ds: seq<int>, d: int)
    requires Slices(u, bits, ds) && d == (u / Pow(Pow2(bits), |ds|)) % Pow2(bits)
    ensures Slices(u, bits, [d] + ds)
  {
    NumberCons(d, ds, Pow2(bits));
    SliceAlgebra(u, Pow(Pow2(bits), |ds|), Pow2(bits), d, Pow(Pow2(bits), |ds| + 1));
  }

  lemma SliceAlgebra(u: int, p: int, b: int, d: int, t: int)
    requires 0 < p && 0 < b && d == (u / p) % b && t == p * b
    ensures 0 < t && d * p + u % p == u % t
  {
    DivModTwice(u, p, b);
  }

  /** The digit count of a number of n bits. */
  lemma DigitCount(u: int, n: nat, bits: nat, sn: nat)
    requires 1 <= n && 1 <= bits && sn == (n + bits - 1) / bits && Pow2(n - 1) <= u < Pow2(n)
    ensures 1 <= sn && Pow(Pow2(bits), sn - 1) <= u < Pow(Pow2(bits), sn)
    ensures n <= sn * bits < n + bits
  {
    CeilingBounds(n, bits, sn);
    CountBetween(u, n, bits, sn, sn * bits, (sn - 1) * bits);
  }

  lemma CountBetween(u: int, n: nat, bits: nat, sn: nat, hi: int, lo: int)
    requires 1 <= n && 1 <= sn && hi == sn * bits && lo == (sn - 1) * bits && lo + bits < n + bits && n <= hi
    requires Pow2(n - 1) <= u < Pow2(n)
    ensures Pow(Pow2(bits), sn - 1) <= u < Pow(Pow2(bits), sn)
  {
    PowOfPow2(bits, sn); PowOfPow2(bits, sn - 1);
    Pow2Mono(n, hi);
    Pow2Mono(lo, n - 1);
  }

  lemma CeilingBounds(n: int, k: int, c: int)
    requires 1 <= n && 1 <= k && c == (n + k - 1) / k
    ensures 1 <= c && n <= c * k < n + k && (c - 1) * k + k < n + k
  {
    if c <= 0 { MulMono(c, 0, k); }
  }

  lemma NotYetDone(c: nat, bits: nat, sn: nat, n: nat)
    requires c < sn && sn * bits < n + bits
    ensures c + 1 < sn ==> (c + 1) * bits < n
  {
    if c + 1 < sn {
      MulMono(c + 2, sn, bits);
      Distribute(bits, c, 2, 0, 0);
      Distribute(bits, c, 1, 0, 0);
    }
  }

  lemma {:induction false} SlicesWhole(u: int, bits: nat, ds: seq<int>, n: nat)
    requires Slices(u, bits, ds) && 0 < |ds| && Pow(Pow2(bits), |ds| - 1) <= u < Pow(Pow2(bits), |ds|)
    ensures IsNumeral(ds, u, Pow2(bits))
  {
    var b := Pow2(bits);
    DivModUnique(u, Pow(b, |ds|), 0, u);
    if ds[0] == 0 {
      assert ds == [0] + ds[1..];
      NumberCons(0, ds[1..], b);
      NumberBound(ds[1..], b);
    }
  }
}
