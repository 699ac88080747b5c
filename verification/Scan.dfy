/** Trailing zero bits: of a limb, of a limb array, and of an integer object. */
module Scan {
  import opened Arith
  import opened Bits
  import opened Divisibility
  import opened Limb
  import opened LimbLogic
  import opened Mpn
  import opened Mpz
  import opened MpzDiv
  import opened MpzDiv2exp

  lemma {:induction false} ZerosUnique(x: int, q: int, k: nat)
    requires 0 < x && x == q * Pow2(k) && q % 2 == 1
    ensures TrailingZeros(x) == k
    decreases k
  {
    hide TrailingZeros, Pow2;
    PowSteps(k);
    if k == 0 {
      assert q * Pow2(k) == q * 1;
      OddZeros(x);
    } else {
      HalfOfProduct(x, q, Pow2(k - 1));
      HalfZeros(x);
      ZerosUnique(x / 2, q, k - 1);
    }
  }

  lemma {:induction false} PowSteps(k: nat)
    ensures if k == 0 then Pow2(k) == 1 else Pow2(k) == 2 * Pow2(k - 1)
  {
  }

  lemma {:induction false} OddZeros(x: int)
    requires 0 < x && x % 2 == 1
    ensures TrailingZeros(x) == 0
  {
  }

  lemma HalfOfProduct(x: int, q: int, p: int)
    requires x == q * (2 * p)
    ensures x % 2 == 0 && x / 2 == q * p
  {
    Associate(q, 2, p);
  }

  lemma {:induction false} HalfZeros(x: int)
    requires 0 < x && x % 2 == 0
    ensures TrailingZeros(x) == TrailingZeros(x / 2) + 1
  {
  }

  lemma {:induction false} AndComplement(h: int, j: nat)
    requires 0 <= h < Pow2(j)
    ensures Bitwise(AND, h, Pow2(j) - 1 - h) == 0
    decreases j
  {
    if j > 0 {
      AndComplement(h / 2, j - 1);
      BitwiseHalves(AND, h, Pow2(j) - 1 - h);
      assert (Pow2(j) - 1 - h) / 2 == Pow2(j - 1) - 1 - h / 2;
    }
  }

  /** x & -x is the lowest bit that is set. */
  lemma {:induction false} LowestBit(x: int, j: nat)
    requires 0 < x < Pow2(j)
    ensures Bitwise(AND, x, Pow2(j) - x) == Pow2(TrailingZeros(x))
    decreases j
  {
    var r := Bitwise(AND, x, Pow2(j) - x);
    BitwiseHalves(AND, x, Pow2(j) - x);
    if x % 2 == 1 {
      AndComplement(x / 2, j - 1);
      assert (Pow2(j) - x) / 2 == Pow2(j - 1) - 1 - x / 2;
      assert r % 2 == 1 && r / 2 == 0;
    } else {
      LowestBit(x / 2, j - 1);
      assert (Pow2(j) - x) / 2 == Pow2(j - 1) - x / 2;
      assert r % 2 == 0 && r / 2 == Pow2(TrailingZeros(x / 2));
    }
  }

  lemma ExponentFits(t: nat, c: nat)
    requires HIGHBIT <= Pow2(t) * Pow2(c) < B
    ensures t + c == 63
  {
    Pow2Add(t, c);
    TopBit(t + c);
  }

  lemma TopBit(e: nat)
    requires HIGHBIT <= Pow2(e) < B
    ensures e == 63
  {
    Pow2Values();
    if e < 63 { Pow2Mono(e + 1, 63); }
    if e > 63 { Pow2Mono(64, e); }
  }

  /** gmp_ctz. */
  method Ctz(x: Limb) returns (count: nat)
    requires 0 < x
    ensures count == TrailingZeros(x) < 64
  {
    Pow2Values();
    LowestBit(x, 64);
    BitwiseBound(AND, 64, x, B - x);
    var c := Clz(Bitwise(AND, x, B - x));
    ExponentFits(TrailingZeros(x), c);
    count := 63 - c;
  }

  lemma {:induction false} ZerosOfLow(x: Limb, v: int)
    requires 0 < x && 0 <= v
    ensures TrailingZeros(x + B * v) == TrailingZeros(x) < 64
  {
    hide TrailingZeros, Pow2;
    var k := TrailingZeros(x);
    var q := x / Pow2(k);
    ZerosBelow(x, k, q);
    Pow2Complement(k);
    EvenPower(64 - k);
    ZerosOfSum(x, q, k, Pow2(64 - k), v);
  }

  lemma EvenPower(j: nat)
    requires j > 0
    ensures Pow2(j) % 2 == 0
  {
    assert Pow2(j) == 2 * Pow2(j - 1);
  }

  lemma {:induction false} ZerosOfSum(x: int, q: int, k: nat, c: int, v: int)
    requires 0 < x && 0 <= v && x == q * Pow2(k) && q % 2 == 1 && B == Pow2(k) * c && c % 2 == 0
    ensures TrailingZeros(x + B * v) == k
  {
    ScaledSum(x, q, Pow2(k), c, B, v);
    OddProduct(c, v);
    EvenAdded(q, c * v);
    ZerosUnique(x + B * v, q + c * v, k);
  }

  lemma EvenAdded(q: int, y: int)
    requires q % 2 == 1 && y % 2 == 0
    ensures (q + y) % 2 == 1
  {
  }

  lemma ScaledSum(x: int, q: int, p: int, c: int, b: int, v: int)
    requires x == q * p && b == p * c
    ensures x + b * v == (q + c * v) * p
  {
    Associate(p, c, v);
    Distribute(p, q, c * v, 0, 0);
  }

  lemma ZerosBelow(x: Limb, k: nat, q: int)
    requires 0 < x && x == q * Pow2(k)
    ensures k < 64
  {
    if k >= 64 {
      Pow2Values();
      Pow2Mono(64, k);
      if q >= 1 { MulMono(1, q, Pow2(k)); }
      if q <= 0 { MulMono(q, 0, Pow2(k)); }
    }
  }

  lemma {:induction false} ZerosOfHigh(v: int)
    requires 0 < v
    ensures TrailingZeros(B * v) == 64 + TrailingZeros(v)
  {
    var k := TrailingZeros(v);
    var q := v / Pow2(k);
    Pow2Values();
    Pow2Add(64, k);
    Associate(q, Pow2(64), Pow2(k));
    Associate(Pow2(64), q, Pow2(k));
    ZerosUnique(B * v, q, 64 + k);
  }

  /** The limb at place j of the scan that starts with `limb` at place i: a limb of up, complemented for ux = B - 1. */
  function Scanned(limb: Limb, i: nat, up: array<Limb>, ux: Limb, j: nat): (w: Limb)
    requires i <= j && (j > i ==> j < up.Length)
    reads up
  {
    if j == i then limb else if ux == 0 then up[j] else B - 1 - up[j]
  }

  /** The first nonzero limb of the scan is at place k. */
  ghost predicate FirstNonzero(limb: Limb, i: nat, up: array<Limb>, ux: Limb, k: nat)
    requires i <= k && (k > i ==> k < up.Length)
    reads up
  {
    Scanned(limb, i, up, ux, k) != 0 && forall j :: i <= j < k ==> Scanned(limb, i, up, ux, j) == 0
  }

  ghost predicate AllZero(limb: Limb, i: nat, up: array<Limb>, ux: Limb, n: nat)
    requires i < n <= up.Length
    reads up
  {
    forall j :: i <= j < n ==> Scanned(limb, i, up, ux, j) == 0
  }

  /**
   mpn_common_scan: the place of the lowest set bit from limb i on, where the bits of up are complemented for
   ux = B - 1. With un > i the scan ends at un; with un <= i, as its callers use it, some limb must be nonzero.
   */
  method CommonScan(limb0: Limb, i0: nat, up: array<Limb>, un: nat, ux: Limb) returns (shift: nat, ghost k: nat)
    requires ux == 0 || ux == B - 1
    requires i0 < un ==> un <= up.Length
    requires un <= i0 ==> limb0 != 0 || exists k :: i0 < k < up.Length && Scanned(limb0, i0, up, ux, k) != 0
    ensures if i0 < un && k == un then AllZero(limb0, i0, up, ux, un) && shift == if ux == 0 then B - 1 else un * 64
            else
              && i0 <= k && (k > i0 ==> k < up.Length) && (i0 < un ==> k < un) && FirstNonzero(limb0, i0, up, ux, k)
              && shift == 64 * k + TrailingZeros(Scanned(limb0, i0, up, ux, k))
  {
    hide Bitwise, TrailingZeros;
    var limb, i := limb0, i0;
    ghost var w := i0;
    if un <= i0 && limb0 == 0 { w :| i0 < w < up.Length && Scanned(limb0, i0, up, ux, w) != 0; }
    while limb == 0
      invariant un <= i0 ==> i <= w && (w > i0 ==> w < up.Length) && Scanned(limb0, i0, up, ux, w) != 0
      invariant i0 <= i && (i > i0 ==> i < up.Length) && (i0 < un ==> i < un)
      invariant limb == Scanned(limb0, i0, up, ux, i) && forall j :: i0 <= j < i ==> Scanned(limb0, i0, up, ux, j) == 0
      decreases if i0 < un then un - i else up.Length - i, limb == 0
    {
      i := i + 1;
      if i == un {
        return if ux == 0 then B - 1 else un * 64, un;
      }
      XorMask(up[i], ux != 0);
      limb := Bitwise(XOR, up[i], ux);
    }
    assert FirstNonzero(limb0, i0, up, ux, i);
    var cnt := Ctz(limb);
    shift, k := i * 64 + cnt, i;
  }

  /** Below the first nonzero limb there are only zero bits. */
  lemma {:induction false} ZerosToFirst(s: seq<Limb>, k: nat)
    requires k < |s| && s[k] != 0 && forall j :: 0 <= j < k ==> s[j] == 0
    ensures 0 < Value(s) && TrailingZeros(Value(s)) == 64 * k + TrailingZeros(s[k])
    decreases |s|
  {
    ValueCons(s);
    if k == 0 {
      ZerosOfLow(s[0], Value(s[1..]));
    } else {
      ZerosToFirst(s[1..], k - 1);
      ZerosOfHigh(Value(s[1..]));
    }
  }

  /** mpz_make_odd. */
  method MakeOdd(r: Mpz) returns (shift: nat)
    requires r.Valid() && r.size > 0
    modifies r, r.d
    ensures r.Valid() && old(r.Int()) == r.Int() * Pow2(shift) && r.Int() % 2 == 1
    ensures shift == TrailingZeros(old(Val(r.d, 0, r.size)))
  {
    shift := LowestOne(r.d, r.size);
    ghost var v := r.Int();
    DivQ2exp(r, r, shift, TRUNC);
    RoundedUnique(TRUNC, v, Pow2(shift), r.Int(), v - r.Int() * Pow2(shift), v / Pow2(shift), 0);
  }

  /** The scan of mpz_make_odd finds the lowest one bit of the number. */
  method LowestOne(up: array<Limb>, n: nat) returns (shift: nat)
    requires 1 <= n <= up.Length && up[n - 1] != 0
    ensures 0 < Val(up, 0, n) && shift == TrailingZeros(Val(up, 0, n))
  {
    hide TrailingZeros;
    assert Scanned(up[0], 0, up, 0, n - 1) == up[n - 1];
    ghost var k;
    shift, k := CommonScan(up[0], 0, up, 0, 0);
    FirstBelow(up, n, k);
    ZerosToFirst(up[0..n], k);
  }

  lemma {:induction false} FirstBelow(up: array<Limb>, n: nat, k: nat)
    requires 1 <= n <= up.Length && up[n - 1] != 0 && k < up.Length && FirstNonzero(up[0], 0, up, 0, k)
    ensures k < n && up[k] != 0 && Scanned(up[0], 0, up, 0, k) == up[k] && forall j :: 0 <= j < k ==> up[j] == 0
  {
    forall j | 0 <= j < k ensures up[j] == 0 { assert Scanned(up[0], 0, up, 0, j) == 0; }
  }
}
