/** Modular exponentiation, over the integers that mpz_t objects hold. */
module Powm {
  import opened Arith
  import opened Limb
  import opened Mpn
  import opened MpnShift
  import opened LimbLogic
  import opened Mpz
  import opened Divisibility
  import opened Power
  import opened Congruence
  import opened GcdExt
  import opened Root
  import MpnDiv
  import MpnDivSmall

  lemma {:induction false} SizeBounds(x: int)
    requires 0 <= x
    ensures x < BPow(LimbSize(x)) && (0 < x ==> 0 < LimbSize(x) && BPow(LimbSize(x) - 1) <= x)
    decreases x
  {
    if x > 0 {
      assert x / B < x;
      SizeBounds(x / B);
      if x / B == 0 { assert LimbSize(x / B) == 0; }
    }
  }

  /** A multiple of m by a power of two that fills the limbs of m. */
  ghost predicate Normalizes(n: int, m: int, mn: nat) {
    1 <= mn && 0 < m && Divides(m, n) && BPow(mn - 1) <= m <= n < BPow(mn)
  }

  /** The normalizing shift: the leading zeros of the top limb. */
  method NormalizeModulus(m: int, mn: nat) returns (shift: nat, mp: int)
    requires 0 < m && mn == LimbSize(m)
    ensures mp == m * Pow2(shift) && Normalizes(mp, m, mn)
  {
    SizeBounds(m);
    var n := BitLength(m);
    BitsFit(m, n, mn);
    shift := 64 * mn - n;
    mp := m * Pow2(shift);
    Multiple(m, mp, Pow2(shift));
    BPowIsPow2(mn);
    Pow2Add(n, shift);
    ScaledBelow(m, Pow2(n), Pow2(shift), BPow(mn));
  }

  lemma ScaledBelow(m: int, p: int, q: int, r: int)
    requires 0 < m < p && 0 < q && p * q == r
    ensures m <= m * q < r
  {
    MulMono(1, q, m);
    MulMono(m + 1, p, q);
    Distribute(q, m, 1, 0, 0);
  }

  lemma BitsFit(m: int, n: nat, mn: nat)
    requires 1 <= n && Pow2(n - 1) <= m < BPow(mn)
    ensures n <= 64 * mn
  {
    BPowIsPow2(mn);
    if n > 64 * mn { Pow2Mono(64 * mn, n - 1); }
  }

  /** The limb of weight BPow(i). */
  function LimbAt(x: int, i: nat): (w: Limb)
    requires 0 <= x
  {
    (x / BPow(i)) % B
  }

  /** The reduction after a step: only when the number has more limbs than the modulus. */
  method Reduce(x: int, n: int, ghost m: int, mn: nat) returns (r: int)
    requires 0 <= x && Normalizes(n, m, mn)
    ensures 0 <= r && Congruent(r, x, m)
  {
    r := x;
    CongruentRefl(x, m);
    if LimbSize(x) > mn {
      r := x % n;
      CongruentMod(x, n, m);
    }
  }

  lemma {:induction false} SizeOfLimbs(s: seq<Limb>)
    requires s != [] ==> s[|s| - 1] != 0
    ensures LimbSize(Value(s)) == |s|
    decreases |s|
  {
    if s != [] {
      ValueCons(s);
      SizeOfLimbs(s[1..]);
      DivModUnique(Value(s), B, Value(s[1..]), s[0]);
      if |s| > 1 { ValueTop(s); } else { assert Value(s[1..]) == 0; }
    }
  }

  /** The same reduction on an object, in place; tp holds the normalised modulus, inv its inverse without the shift. */
  method ReduceObject(tr: Mpz, tp: array<Limb>, mn: nat, inv: MpnDivSmall.DivInverse)
    requires tr.Valid() && tr.size >= 0 && tr.d != tp && 1 <= mn <= tp.Length && inv.shift == 0
    requires MpnDiv.Prepared(inv, Val(tp, 0, mn), mn)
    requires mn > 2 ==> MpnDiv.Normalized(inv, Val(tp, 0, mn), tp, mn)
    modifies tr, tr.d
    ensures tr.Valid() && tr.size >= 0 && tr.d == old(tr.d)
    ensures var x := old(tr.Int());
            0 <= x && 0 < Val(tp, 0, mn) && tr.Int() == if LimbSize(x) > mn then x % Val(tp, 0, mn) else x
  {
    hide Value;
    SizeOfLimbs(tr.d[0..tr.size]);
    PreparedPositive(inv, tp, mn);
    if tr.size > mn {
      MpnDiv.ReduceOnce(tr.d, tr.size, tp, mn, inv);
      tr.size := NormalizedSize(tr.d, mn);
    }
  }

  lemma {:induction false} PreparedPositive(inv: MpnDivSmall.DivInverse, tp: array<Limb>, mn: nat)
    requires 1 <= mn <= tp.Length && inv.shift == 0 && MpnDiv.Prepared(inv, Val(tp, 0, mn), mn)
    ensures 0 < Val(tp, 0, mn)
  {
    assert Pow2(0) == 1;
    if mn > 2 { MulMono(1, inv.d1 * B + inv.d0, BPow(mn - 2)); }
  }

  lemma StaysCongruent(x: int, r: int, n: int, m: int, k: int, mn: nat)
    requires 0 <= x && 0 < n == m * k && r == if LimbSize(x) > mn then x % n else x
    ensures 0 <= r && Congruent(r, x, m)
  {
    hide LimbSize;
    Multiple(m, n, k);
    CongruentRefl(x, m);
    CongruentMod(x, n, m);
  }

  /** The set-up and one reduction: the object stays congruent modulo the original modulus. */
  method NormalizeAndReduce(tr: Mpz, mp: array<Limb>, mn: nat)
    requires tr.Valid() && tr.size >= 0 && tr.d != mp && 1 <= mn <= mp.Length && 0 < mp[mn - 1]
    modifies tr, tr.d
    ensures tr.Valid() && 0 <= tr.Int() && Congruent(tr.Int(), old(tr.Int()), Val(mp, 0, mn))
  {
    hide Value, Congruent, LimbSize, Pow2, MpnDiv.Prepared, MpnDiv.Normalized;
    ghost var x, m := tr.Int(), Val(mp, 0, mn);
    var shift, tp, inv := MpnDiv.NormalizeOnce(mp, mn);
    ghost var n := Val(tp, 0, mn);
    ReduceObject(tr, tp, mn, inv);
    StaysCongruent(x, tr.Int(), n, m, Pow2(shift), mn);
  }

  /** The reduced base for a nonnegative exponent; zero may come out as the modulus. */
  method ReduceBase(b: int, n: int, ghost m: int, mn: nat) returns (base: int)
    requires Normalizes(n, m, mn)
    ensures 0 <= base && Congruent(base, b, m)
  {
    base := Abs(b);
    SizeBounds(base);
    CongruentRefl(base, m);
    if LimbSize(base) >= mn {
      CongruentMod(base, n, m);
      base := base % n;
    } else {
      BPowMono(LimbSize(base), mn - 1);
    }
    if b < 0 {
      DividesCombination(m, base - Abs(b), n, -1, 1);
      base := n - base;
    }
  }

  /** One squaring, with a multiplication for a bit that is set. */
  method PowerBit(tr: int, base: int, one: bool, n: int, ghost m: int, mn: nat, ghost f: nat) returns (r: int)
    requires 0 <= tr && 0 <= base && Normalizes(n, m, mn) && Congruent(tr, Pow(base, f), m)
    ensures 0 <= r && Congruent(r, Pow(base, 2 * f + if one then 1 else 0), m)
  {
    ghost var p := Pow(base, f);
    PowBit(base, f, one);
    MulBounds(0, tr, 0, tr);
    CongruentMul(tr, tr, p, p, m);
    var x := tr * tr;
    if one {
      CongruentRefl(base, m);
      CongruentMul(x, base, p * p, base, m);
      MulBounds(0, x, 0, base);
      x := x * base;
    }
    r := Reduce(x, n, m, mn);
    CongruentTrans(r, x, if one then p * p * base else p * p, m);
  }

  /** The sixty-four squarings for one limb of the exponent, most significant bit first. */
  method PowerLimb(tr0: int, base: int, w: Limb, n: int, ghost m: int, mn: nat, ghost e: nat) returns (tr: int)
    requires 0 <= tr0 && 0 <= base && Normalizes(n, m, mn)
    requires Congruent(tr0, Pow(base, e), m)
    ensures 0 <= tr && Congruent(tr, Pow(base, e * B + w), m)
  {
    hide Pow, Congruent, Normalizes, Exponent, Pow2;
    tr := tr0;
    var bit := HIGHBIT;
    ghost var j := 63;
    ExponentStart(e, w);
    ghost var f := e;
    while bit > 0
      invariant -1 <= j <= 63 && 0 <= tr && 0 <= f
      invariant if j < 0 then bit == 0 && f == e * B + w else bit == Pow2(j) && f == Exponent(e, w, j + 1)
      invariant Congruent(tr, Pow(base, f), m)
      decreases j
    {
      ExponentBit(e, w, j);
      HalfPower(j);
      tr := PowerBit(tr, base, (w / bit) % 2 == 1, n, m, mn, f);
      f := 2 * f + if (w / bit) % 2 == 1 then 1 else 0;
      bit := bit / 2;
      j := j - 1;
    }
  }

  /** The part of the exponent e * B + w that is left after dropping the low j bits of w. */
  ghost function Exponent(e: nat, w: Limb, j: nat): int
    requires j <= 64
  {
    e * Pow2(64 - j) + w / Pow2(j)
  }

  lemma ExponentStart(e: nat, w: Limb)
    ensures Exponent(e, w, 64) == e && Pow2(63) == HIGHBIT
  {
    Pow2Values();
    assert Pow2(64) == B && w / B == 0 && Pow2(0) == 1;
  }

  lemma HalfPower(j: nat)
    ensures Pow2(j) / 2 == if j > 0 then Pow2(j - 1) else 0
  {
  }

  lemma ExponentBit(e: nat, w: Limb, j: nat)
    requires j <= 63
    ensures Exponent(e, w, j) == 2 * Exponent(e, w, j + 1) + if (w / Pow2(j)) % 2 == 1 then 1 else 0
    ensures Exponent(e, w, 0) == e * B + w
  {
    NextBit(w, Pow2(j));
    Associate(e, 2, Pow2(63 - j));
    Pow2Values();
    assert Pow2(0) == 1;
  }

  /** The loop over the limbs of the exponent, most significant first. */
  method PowerLoop(base: int, e: int, n: int, ghost m: int, mn: nat) returns (tr: int)
    requires 0 <= base && 0 <= e && Normalizes(n, m, mn)
    ensures 0 <= tr && Congruent(tr, Pow(base, e), m)
  {
    tr := 1;
    var en := LimbSize(e);
    SizeBounds(e);
    DivModUnique(e, BPow(en), 0, e);
    CongruentRefl(1, m);
    ghost var f := 0;
    while en > 0
      invariant 0 <= tr && 0 <= f == e / BPow(en)
      invariant Congruent(tr, Pow(base, f), m)
    {
      en := en - 1;
      NextLimb(e, en);
      tr := PowerLimb(tr, base, LimbAt(e, en), n, m, mn, f);
      f := f * B + LimbAt(e, en);
    }
    assert BPow(0) == 1;
  }

  lemma NextLimb(e: int, i: nat)
    requires 0 <= e
    ensures e / BPow(i) == (e / BPow(i + 1)) * B + LimbAt(e, i)
  {
    DivDiv(e, BPow(i), B);
  }

  /** mpz_powm: false stands for its two fatal errors. An exponent of zero gives 1 for every modulus. */
  method PowerMod(b: int, e: int, m: int) returns (ok: bool, r: int)
    ensures ok <==> m != 0 && (e < 0 ==> b != 0 && Abs(m) > 1 && IsGcd(1, b, m))
    ensures ok && e > 0 ==> r == Pow(b, e) % Abs(m)
    ensures ok && e < 0 ==> 0 <= r < Abs(m) && Congruent(r * Pow(b, -e), 1, m)
    ensures ok && e == 0 ==> r == 1
    ensures ok ==> (0 <= r < Abs(m) <==> e != 0 || Abs(m) != 1)
  {
    r := 0;
    var mn := LimbSize(Abs(m));
    if mn == 0 { return false, r; }
    if e == 0 { return true, 1; }
    ghost var a := Abs(m);
    var shift, mp := NormalizeModulus(Abs(m), mn);
    var base;
    if e < 0 {
      ok, base := Invert(b, m);
      if !ok { return; }
    } else {
      base := ReduceBase(b, mp, a, mn);
    }
    ok := true;
    var tr := PowerLoop(base, Abs(e), mp, a, mn);
    SizeBounds(tr);
    r := tr;
    CongruentRefl(tr, a);
    if LimbSize(tr) >= mn {
      DividesSelf(a);
      CongruentMod(tr, a, a);
      r := tr % Abs(m);
    } else {
      BPowMono(LimbSize(tr), mn - 1);
    }
    CongruentTrans(r, tr, Pow(base, Abs(e)), a);
    if e > 0 {
      CongruentPow(base, b, e, a);
      CongruentTrans(r, Pow(base, e), Pow(b, e), a);
      CongruentUnique(r, Pow(b, e), a);
    } else {
      InversePower(r, base, b, Abs(e), m);
    }
  }

  lemma InversePower(r: int, base: int, b: int, e: nat, m: int)
    requires m != 0 && Congruent(r, Pow(base, e), Abs(m)) && Divides(m, b * base - 1)
    ensures Congruent(r * Pow(b, e), 1, m)
  {
    UnitPower(b * base, e, m);
    PowProduct(b, base, e);
    OppositeDivisor(Abs(m), m, r - Pow(base, e));
    UnitProduct(r, Pow(b, e), Pow(base, e), m);
  }

  lemma UnitPower(x: int, e: nat, m: int)
    requires Congruent(x, 1, m)
    ensures Congruent(Pow(x, e), 1, m)
  {
    CongruentPow(x, 1, e, m);
    PowOne(e);
  }

  lemma UnitProduct(r: int, p: int, q: int, m: int)
    requires Congruent(p * q, 1, m) && Congruent(r, q, m)
    ensures Congruent(r * p, 1, m)
  {
    CongruentRefl(p, m);
    CongruentMul(r, p, q, p, m);
    CongruentTrans(r * p, p * q, 1, m);
  }

  lemma OppositeDivisor(c: int, d: int, x: int)
    requires Divides(c, x) && (d == c || d == -c)
    ensures Divides(d, x)
  {
    var k := Factor(c, x);
    Opposite(k, c);
    Multiple(d, x, if d == c then k else -k);
  }

  lemma {:induction false} PowProduct(x: int, y: int, e: nat)
    ensures Pow(x * y, e) == Pow(x, e) * Pow(y, e)
    decreases e
  {
    if e > 0 {
      PowProduct(x, y, e - 1);
      Interchange(x, y, Pow(x, e - 1), Pow(y, e - 1));
    }
  }

  lemma Interchange(x: int, y: int, p: int, q: int)
    ensures (x * y) * (p * q) == (x * p) * (y * q)
  {
  }

  /** With exponent zero and modulus one the result is not reduced. */
  method ZeroExponentCase() returns (r: int)
    ensures r == 1 && !(0 <= r < Abs(1))
  {
    var ok;
    ok, r := PowerMod(5, 0, 1);
  }

  /** mpz_powm_ui. */
  method PowerModUi(b: int, e: Limb, m: int) returns (ok: bool, r: int)
    ensures ok <==> m != 0
    ensures ok && e > 0 ==> r == Pow(b, e) % Abs(m)
    ensures ok && e == 0 ==> r == 1
  {
    ok, r := PowerMod(b, e, m);
  }
}
