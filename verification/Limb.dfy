/** Machine words ("limbs") of 64 bits and the word-level macros of mini-gmp. */
module Limb {
  import opened Arith

  const B: int := 0x1_0000_0000_0000_0000
  const HALF: int := 0x1_0000_0000
  const HIGHBIT: int := 0x8000_0000_0000_0000

  type Limb = x: int | 0 <= x < B

  /** Unsigned 64-bit arithmetic: the value modulo 2^64. */
  function Wrap(x: int): (w: Limb)
    ensures 0 <= x < B ==> w == x
    ensures B <= x < 2 * B ==> w == x - B
    ensures -B <= x < 0 ==> w == x + B
  {
    x % B
  }

  /** The same for a pair of limbs, high limb first: the value modulo 2^128. */
  function Wrap2(x: int): (w: int)
    ensures 0 <= w < B * B
    ensures 0 <= x < B * B ==> w == x
    ensures B * B <= x < 2 * B * B ==> w == x - B * B
    ensures -B * B <= x < 0 ==> w == x + B * B
  {
    x % (B * B)
  }

  /** gmp_add_ssaaaa: two-limb addition modulo B^2. */
  method AddSsaaaa(ah: Limb, al: Limb, bh: Limb, bl: Limb) returns (sh: Limb, sl: Limb)
    ensures sh * B + sl == Wrap2(ah * B + al + bh * B + bl)
  {
    var x := Wrap(al + bl);
    sh := Wrap(ah + bh + if x < al then 1 else 0);
    sl := x;
  }

  /** gmp_sub_ddmmss: two-limb subtraction modulo B^2. */
  method SubDdmmss(ah: Limb, al: Limb, bh: Limb, bl: Limb) returns (sh: Limb, sl: Limb)
    ensures sh * B + sl == Wrap2(ah * B + al - bh * B - bl)
  {
    var x := Wrap(al - bl);
    sh := Wrap(ah - bh - if al < bl then 1 else 0);
    sl := x;
  }

  lemma HalfProduct(x: int, y: int)
    requires 0 <= x < HALF && 0 <= y < HALF
    ensures 0 <= x * y <= (HALF - 1) * (HALF - 1)
  {
    MulBounds(x, HALF - 1, y, HALF - 1);
  }

  lemma SplitProduct(uh: int, ul: int, vh: int, vl: int)
    ensures (uh * HALF + ul) * (vh * HALF + vl)
         == (uh * vh) * B + (ul * vh + uh * vl) * HALF + ul * vl
  {
  }

  /** gmp_umul_ppmm: the full double-limb product, from four half-limb products. */
  method UmulPpmm(u: Limb, v: Limb) returns (w1: Limb, w0: Limb)
    ensures w1 * B + w0 == u * v
  {
    var ul, uh := u % HALF, u / HALF;
    var vl, vh := v % HALF, v / HALF;
    HalfProduct(ul, vl); HalfProduct(ul, vh); HalfProduct(uh, vl); HalfProduct(uh, vh);
    SplitProduct(uh, ul, vh, vl);
    w1, w0 := CombineProducts(ul * vl, ul * vh, uh * vl, uh * vh, u * v);
  }

  /** The carry handling of gmp_umul_ppmm, on the four half-limb products. */
  method CombineProducts(p0: Limb, p1: Limb, p2: Limb, p3: Limb, ghost product: int) returns (w1: Limb, w0: Limb)
    requires p0 <= (HALF - 1) * (HALF - 1) && p1 <= (HALF - 1) * (HALF - 1)
    requires p2 <= (HALF - 1) * (HALF - 1) && p3 <= (HALF - 1) * (HALF - 1)
    requires product == p3 * B + (p1 + p2) * HALF + p0 < B * B
    ensures w1 * B + w0 == product
  {
    var x1: Limb, x3: int := p1, p3;
    x1 := x1 + p0 / HALF;
    x1 := Wrap(x1 + p2);
    if x1 < p2 {
      x3 := x3 + HALF;
    }
    w1 := x3 + x1 / HALF;
    w0 := Wrap(x1 * HALF) + p0 % HALF;
  }

  // ---- one column of the carry loops ----

  /** The column step of mpn_add_n. */
  method AddColumn(a: Limb, b: Limb, cy: Limb) returns (r: Limb, cy': Limb)
    requires cy <= 1
    ensures cy' <= 1 && r + cy' * B == a + b + cy
  {
    r := Wrap(a + cy);
    cy' := if r < cy then 1 else 0;
    r := Wrap(r + b);
    cy' := cy' + if r < b then 1 else 0;
  }

  /** The column step of mpn_sub_n. */
  method SubColumn(a: Limb, b0: Limb, cy: Limb) returns (r: Limb, cy': Limb)
    requires cy <= 1
    ensures cy' <= 1 && r - cy' * B == a - b0 - cy
  {
    var b := Wrap(b0 + cy);
    cy' := if b < cy then 1 else 0;
    cy' := cy' + if a < b then 1 else 0;
    r := Wrap(a - b);
  }

  lemma ProductBound(u: Limb, v: Limb)
    ensures 0 <= u * v <= (B - 1) * (B - 1)
  {
    MulBounds(u, B - 1, v, B - 1);
  }

  /** The column step of mpn_mul_1. */
  method MulColumn(u: Limb, v: Limb, c: Limb) returns (lo: Limb, c': Limb)
    ensures lo + c' * B == u * v + c
  {
    ProductBound(u, v);
    var hi;
    hi, lo := UmulPpmm(u, v);
    lo := Wrap(lo + c);
    c' := (if lo < c then 1 else 0) + hi;
  }

  /** The column step of mpn_addmul_1. */
  method MulAddColumn(u: Limb, v: Limb, c: Limb, rl: Limb) returns (lo: Limb, c': Limb)
    ensures lo + c' * B == rl + u * v + c
  {
    ProductBound(u, v);
    lo, c' := MulColumn(u, v, c);
    lo := Wrap(rl + lo);
    c' := c' + if lo < rl then 1 else 0;
  }

  /** The column step of mpn_submul_1. */
  method MulSubColumn(u: Limb, v: Limb, c: Limb, rl: Limb) returns (lo: Limb, c': Limb)
    ensures lo - c' * B == rl - u * v - c
  {
    ProductBound(u, v);
    lo, c' := MulColumn(u, v, c);
    lo := Wrap(rl - lo);
    c' := c' + if lo > rl then 1 else 0;
  }

  // ---- shifts ----

  /** x << k on 64 bits. */
  function Shl(x: Limb, k: nat): (r: Limb) { Wrap(x * Pow2(k)) }

  /** x >> k. */
  function Shr(x: Limb, k: nat): (r: Limb)
    ensures r <= x
  {
    ShrBound(x, Pow2(k));
    x / Pow2(k)
  }

  lemma ShrBound(x: int, p: int)
    requires 0 <= x && 0 < p
    ensures 0 <= x / p <= x
  {
    MulMono(1, p, x / p);
  }

  lemma Pow2Complement(k: nat)
    requires k <= 64
    ensures Pow2(k) * Pow2(64 - k) == B
  {
    Pow2Values();
    Pow2Add(k, 64 - k);
  }

  /** A left shift splits into the part that stays and the part that the complementary right shift yields. */
  lemma ShiftSplit(x: Limb, k: nat)
    requires 1 <= k < 64
    ensures x * Pow2(k) == Shr(x, 64 - k) * B + Shl(x, k)
    ensures Shr(x, 64 - k) < Pow2(k)
    ensures Shl(x, k) == (x % Pow2(64 - k)) * Pow2(k)
  {
    var p, t := Pow2(k), Pow2(64 - k);
    Pow2Complement(k);
    var q, r := x / t, x % t;
    assert x * p == q * B + r * p by {
      assert x == q * t + r;
      Distribute(p, q * t, r, 0, 0);
      Associate(q, t, p);
    }
    assert 0 <= r * p < B by { MulBounds(r, t - 1, p, p); Distribute(p, t, 0, 0, 1); }
    DivModUnique(x * p, B, q, r * p);
    assert q * t <= x < p * t;
    MulCancel(q, p, t);
  }

  /** gmp_clz: the number of leading zero bits, eight at a time and then one at a time. */
  method Clz(x0: Limb) returns (c: nat)
    requires 0 < x0
    ensures c < 64 && HIGHBIT <= x0 * Pow2(c) < B
  {
    var x: int := x0;
    c := 0;
    while x < 0x100_0000_0000_0000
      invariant 0 < x < B && x == x0 * Pow2(c)
      decreases B - x
    {
      ShiftMore(x0, c, 8);
      x := x * 0x100;
      c := c + 8;
    }
    while x < HIGHBIT
      invariant 0 < x < B && x == x0 * Pow2(c)
      decreases B - x
    {
      ShiftMore(x0, c, 1);
      x := x * 2;
      c := c + 1;
    }
    if 64 <= c {
      Pow2Values();
      Pow2Mono(64, c);
      MulMono(1, x0, Pow2(c));
    }
  }

  lemma ShiftMore(x: int, c: nat, k: nat)
    ensures x * Pow2(c + k) == (x * Pow2(c)) * Pow2(k)
    ensures Pow2(8) == 0x100 && Pow2(1) == 2
  {
    Pow2Add(c, k);
    Associate(x, Pow2(c), Pow2(k));
    assert Pow2(8) == 0x100 by { assert Pow2(4) == 16; Pow2Add(4, 4); }
  }
}
