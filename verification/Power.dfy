/** Integer powers, by repeated squaring. */
module Power {
  import opened Arith
  import opened Limb

  function Pow(b: int, e: nat): (p: int)
    ensures 0 < b ==> 0 < p
  {
    if e == 0 then 1 else
      var p := Pow(b, e - 1);
      if 0 < b then MulBounds(1, b, 1, p); b * p else b * p
  }

  lemma {:induction false} PowAdd(b: int, e: nat, f: nat)
    ensures Pow(b, e + f) == Pow(b, e) * Pow(b, f)
    decreases e
  {
    if e > 0 {
      PowAdd(b, e - 1, f);
      Associate(b, Pow(b, e - 1), Pow(b, f));
    }
  }

  lemma {:induction false} PowMul(b: int, e: nat, f: nat)
    ensures 0 <= e * f && Pow(b, e * f) == Pow(Pow(b, e), f)
    decreases f
  {
    MulBounds(0, e, 0, f);
    if f > 0 {
      PowMul(b, e, f - 1);
      Distribute(e, f, 0, 0, 1);
      MulBounds(0, e, 0, f - 1);
      PowAdd(b, e, e * (f - 1));
    }
  }

  lemma {:induction false} PowMono(a: int, b: int, e: nat)
    requires 0 <= a <= b
    ensures 0 <= Pow(a, e) <= Pow(b, e)
    decreases e
  {
    if e > 0 {
      PowMono(a, b, e - 1);
      MulBounds(a, b, Pow(a, e - 1), Pow(b, e - 1));
    }
  }

  lemma {:induction false} PowNegate(b: int, e: nat)
    ensures Pow(-b, e) == if e % 2 == 0 then Pow(b, e) else -Pow(b, e)
    decreases e
  {
    if e > 0 {
      PowNegate(b, e - 1);
      Opposite(b, Pow(b, e - 1));
    }
  }

  lemma Opposite(a: int, b: int)
    ensures (-a) * b == -(a * b) && (-a) * (-b) == a * b && a * (-b) == -(a * b)
  {
  }

  lemma {:induction false} PowOfTwo(e: nat)
    ensures Pow(2, e) == Pow2(e)
    decreases e
  {
    if e > 0 { PowOfTwo(e - 1); }
  }

  /** One more exponent bit. */
  lemma PowBit(b: int, e: nat, one: bool)
    ensures Pow(b, 2 * e + if one then 1 else 0) == if one then Pow(b, e) * Pow(b, e) * b else Pow(b, e) * Pow(b, e)
  {
    PowAdd(b, e, e);
    if one { assert Pow(b, 2 * e + 1) == b * Pow(b, 2 * e); }
  }

  /** The exponent w >> j, one bit longer than w >> (j + 1). */
  lemma NextBit(w: nat, bit: nat)
    requires 0 < bit
    ensures w / bit == 2 * (w / (2 * bit)) + if (w / bit) % 2 == 1 then 1 else 0
  {
    DivDiv(w, bit, 2);
  }

  /** mpz_pow_ui. */
  method PowUi(b: int, e: Limb) returns (r: int)
    ensures r == Pow(b, e)
  {
    r := 1;
    var bit := HIGHBIT;
    ghost var j := 63;
    Pow2Values();
    assert e / B == 0;
    while bit > 0
      invariant -1 <= j <= 63
      invariant if j < 0 then bit == 0 && r == Pow(b, e)
                else bit == Pow2(j) && 0 <= e / (2 * bit) && r == Pow(b, e / (2 * bit))
      decreases j
    {
      NextBit(e, bit);
      PowBit(b, e / (2 * bit), (e / bit) % 2 == 1);
      r := r * r;
      if (e / bit) % 2 == 1 {
        r := r * b;
      }
      if j == 0 { assert e / 1 == e; }
      bit := bit / 2;
      j := j - 1;
    }
  }
}
