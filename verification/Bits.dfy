/**
 Bitwise operations on all integers, read as infinite two's-complement bit strings: bit i
 of x is (x / 2^i) % 2, with Euclidean division, so that a negative number ends in ones.
 */
module Bits {
  import opened Arith

  datatype Op = AND | OR | XOR {
    predicate OnBools(a: bool, b: bool) {
      match this
      case AND => a && b
      case OR => a || b
      case XOR => a != b
    }

    function OnBits(a: int, b: int): (r: int)
      ensures r == 0 || r == 1
    {
      if OnBools(a == 1, b == 1) then 1 else 0
    }

    /** The operation on two sign words, each 0 or -1. */
    function OnSigns(x: int, y: int): (r: int)
      ensures r == 0 || r == -1
    {
      if OnBools(x == -1, y == -1) then -1 else 0
    }
  }

  ghost function Magnitude(x: int): nat { if x < 0 then -1 - x else x }

  /** The bitwise operation, defined bit by bit from the lowest one. */
  function Bitwise(op: Op, x: int, y: int): (r: int)
    decreases Magnitude(x) + Magnitude(y), op
  {
    if -1 <= x <= 0 && -1 <= y <= 0 then op.OnSigns(x, y)
    else 2 * Bitwise(op, x / 2, y / 2) + op.OnBits(x % 2, y % 2)
  }

  function Bit(x: int, i: nat): (b: int)
    ensures b == 0 || b == 1
    decreases i
  {
    if i == 0 then x % 2 else Bit(x / 2, i - 1)
  }

  lemma {:induction false} BitByDivision(x: int, i: nat)
    ensures Bit(x, i) == (x / Pow2(i)) % 2
    decreases i
  {
    if i > 0 {
      BitByDivision(x / 2, i - 1);
      DivDiv(x, 2, Pow2(i - 1));
    }
  }

  lemma {:induction false} BitwiseStep(op: Op, x: int, y: int)
    ensures Bitwise(op, x, y) == 2 * Bitwise(op, x / 2, y / 2) + op.OnBits(x % 2, y % 2)
  {
    if -1 <= x <= 0 && -1 <= y <= 0 {
      assert x / 2 == x && y / 2 == y && x % 2 == -x && y % 2 == -y;
    }
  }

  lemma {:induction false} BitwiseHalves(op: Op, x: int, y: int)
    ensures Bitwise(op, x, y) / 2 == Bitwise(op, x / 2, y / 2)
    ensures Bitwise(op, x, y) % 2 == op.OnBits(x % 2, y % 2)
  {
    BitwiseStep(op, x, y);
  }

  /** Every bit of the result is the operation on the two bits at that place. */
  lemma {:induction false} BitOfBitwise(op: Op, x: int, y: int, i: nat)
    ensures Bit(Bitwise(op, x, y), i) == op.OnBits(Bit(x, i), Bit(y, i))
    decreases i
  {
    if i == 0 {
      BitwiseHalves(op, x, y);
    } else {
      BitOfBitwise(op, x / 2, y / 2, i - 1);
      BitwiseHalves(op, x, y);
      assert Bit(Bitwise(op, x, y), i) == Bit(Bitwise(op, x / 2, y / 2), i - 1);
    }
  }

  /** An integer is determined by its bits. */
  lemma {:induction false} BitsDetermine(x: int, y: int)
    requires forall i: nat :: Bit(x, i) == Bit(y, i)
    ensures x == y
    decreases Magnitude(x) + Magnitude(y)
  {
    assert Bit(x, 0) == Bit(y, 0);
    if !(-1 <= x <= 0 && -1 <= y <= 0) {
      forall i: nat ensures Bit(x / 2, i) == Bit(y / 2, i) {
        assert Bit(x, i + 1) == Bit(y, i + 1);
      }
      BitsDetermine(x / 2, y / 2);
    }
  }

  /** x has high part h and low part l at place k. */
  ghost predicate Splits(x: int, k: nat, h: int, l: int)
    decreases k
  {
    if k == 0 then x == h && l == 0
    else x % 2 == l % 2 && Splits(x / 2, k - 1, h, l / 2)
  }

  lemma {:induction false} SplitsMeaning(x: int, k: nat, h: int, l: int)
    ensures Splits(x, k, h, l) <==> 0 <= l < Pow2(k) && x == h * Pow2(k) + l
    decreases k
  {
    if k > 0 {
      SplitsMeaning(x / 2, k - 1, h, l / 2);
      Associate(h, 2, Pow2(k - 1));
    }
  }

  /** A bitwise operation acts on the bits below place k and on those above it separately. */
  lemma {:induction false} BitwiseSplit(op: Op, k: nat, x: int, xh: int, xl: int, y: int, yh: int, yl: int)
    requires Splits(x, k, xh, xl) && Splits(y, k, yh, yl)
    ensures Splits(Bitwise(op, x, y), k, Bitwise(op, xh, yh), Bitwise(op, xl, yl))
    decreases k
  {
    if k == 0 {
      assert Bitwise(op, 0, 0) == 0;
    } else {
      BitwiseSplit(op, k - 1, x / 2, xh, xl / 2, y / 2, yh, yl / 2);
      BitwiseHalves(op, x, y);
      BitwiseHalves(op, xl, yl);
    }
  }

  lemma {:induction false} BitwiseBound(op: Op, k: nat, x: int, y: int)
    requires 0 <= x < Pow2(k) && 0 <= y < Pow2(k)
    ensures 0 <= Bitwise(op, x, y) < Pow2(k)
    decreases k
  {
    if k > 0 {
      BitwiseBound(op, k - 1, x / 2, y / 2);
      BitwiseHalves(op, x, y);
    }
  }

  lemma {:induction false} OrZero(x: int)
    ensures Bitwise(OR, x, 0) == x
    decreases Magnitude(x)
  {
    if x < -1 || 0 < x {
      OrZero(x / 2);
      BitwiseHalves(OR, x, 0);
      SameHalves(x, Bitwise(OR, x, 0));
    }
  }

  lemma {:induction false} Commutes(op: Op, x: int, y: int)
    ensures Bitwise(op, x, y) == Bitwise(op, y, x)
    decreases Magnitude(x) + Magnitude(y)
  {
    if !(-1 <= x <= 0 && -1 <= y <= 0) {
      Commutes(op, x / 2, y / 2);
      BitwiseHalves(op, x, y);
      BitwiseHalves(op, y, x);
      SameHalves(Bitwise(op, x, y), Bitwise(op, y, x));
    }
  }

  lemma {:induction false} SameHalves(x: int, y: int)
    requires x / 2 == y / 2 && x % 2 == y % 2
    ensures x == y
  {
  }

  /** Joining a shifted word with a word below the shift is addition. */
  lemma {:induction false} OrIsSum(h: int, k: nat, l: int)
    requires 0 <= l < Pow2(k)
    ensures Bitwise(OR, h * Pow2(k), l) == h * Pow2(k) + l
    ensures Bitwise(OR, l, h * Pow2(k)) == h * Pow2(k) + l
  {
    OrZero(h);
    OrZero(l);
    Commutes(OR, 0, l);
    Commutes(OR, h * Pow2(k), l);
    SplitsMeaning(h * Pow2(k), k, h, 0);
    SplitsMeaning(l, k, 0, l);
    BitwiseSplit(OR, k, h * Pow2(k), h, 0, l, 0, l);
    SplitsMeaning(Bitwise(OR, h * Pow2(k), l), k, h, l);
  }
}
