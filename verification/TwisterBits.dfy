/** What the generator computes, bit by bit: the twist and the tempering as exclusive ors of bits of their operands. */
module TwisterBits {
  import opened Arith
  import opened Bits
  import opened Limb
  import opened MersenneTwister

  // ---- bits of shifted and masked words ----

  lemma {:induction false} BitRight(x: Limb, k: nat, i: nat)
    ensures Bit(Right(x, k), i) == Bit(x, i + k)
    decreases k
  {
    if k > 0 { BitRight(x / 2, k - 1, i); }
  }

  /** Multiples of 2^n do not matter below place n. */
  lemma {:induction false} BitBelow(x: int, c: int, n: nat, i: nat)
    requires i < n
    ensures Bit(x + c * Pow2(n), i) == Bit(x, i)
    decreases i
  {
    var p := c * Pow2(n - 1);
    assert c * Pow2(n) == 2 * p by { Associate(c, 2, Pow2(n - 1)); }
    assert (x + 2 * p) % 2 == x % 2 && (x + 2 * p) / 2 == x / 2 + p;
    if i > 0 { BitBelow(x / 2, c, n - 1, i - 1); }
  }

  lemma {:induction false} BitWrap(x: int, i: nat)
    requires i < 64
    ensures Bit(Wrap(x), i) == Bit(x, i)
  {
    Pow2Values();
    hide Bit, Pow2;
    BitBelow(Wrap(x), x / B, 64, i);
    assert x == Wrap(x) + (x / B) * B;
  }

  lemma {:induction false} BitLeft(x: Limb, k: nat, i: nat)
    requires i < 64
    ensures Bit(Left(x, k), i) == if i < k then 0 else Bit(x, i - k)
    decreases k
  {
    if k > 0 {
      BitLeft(Wrap(2 * x), k - 1, i);
      if i >= k - 1 {
        BitWrap(2 * x, i - (k - 1));
        BitDouble(x, i - (k - 1));
      }
    }
  }

  /** A word has 64 bits. */
  lemma {:induction false} BitAbove(x: int, n: nat, i: nat)
    requires 0 <= x < Pow2(n) && n <= i
    ensures Bit(x, i) == 0
    decreases i
  {
    if n == 0 {
      if i > 0 { BitAbove(0, 0, i - 1); }
    } else {
      BitAbove(x / 2, n - 1, i - 1);
    }
  }

  lemma {:induction false} BitXor(x: Limb, y: Limb, i: nat)
    ensures Bit(Xor(x, y), i) == (Bit(x, i) + Bit(y, i)) % 2
  {
    BitOfBitwise(XOR, x, y, i);
  }

  lemma {:induction false} BitAnd(x: Limb, y: Limb, i: nat)
    ensures Bit(And(x, y), i) == Bit(x, i) * Bit(y, i)
  {
    BitOfBitwise(AND, x, y, i);
  }

  lemma {:induction false} BitOr(x: Limb, y: Limb, i: nat)
    ensures Bit(On(OR, x, y), i) == if Bit(x, i) == 1 || Bit(y, i) == 1 then 1 else 0
  {
    BitOfBitwise(OR, x, y, i);
  }

  lemma {:induction false} BitDouble(x: int, i: nat)
    ensures Bit(2 * x, i) == if i == 0 then 0 else Bit(x, i - 1)
  {
    assert (2 * x) % 2 == 0 && (2 * x) / 2 == x;
  }

  lemma {:induction false} BitShifted(h: int, k: nat, i: nat)
    ensures Bit(h * Pow2(k), i) == if i < k then 0 else Bit(h, i - k)
    decreases k
  {
    if k == 0 {
      assert h * Pow2(0) == h;
    } else {
      var x := h * Pow2(k - 1);
      assert h * Pow2(k) == 2 * x by { Associate(h, 2, Pow2(k - 1)); }
      hide Bit, Pow2;
      BitDouble(x, i);
      if i > 0 { BitShifted(h, k - 1, i - 1); }
    }
  }

  lemma {:induction false} BitOnes(n: nat, i: nat)
    ensures Bit(Pow2(n) - 1, i) == if i < n then 1 else 0
    decreases n
  {
    if n == 0 {
      BitAbove(0, 0, i);
    } else {
      var p := Pow2(n - 1);
      assert (2 * p - 1) % 2 == 1 && (2 * p - 1) / 2 == p - 1;
      if i > 0 { BitOnes(n - 1, i - 1); }
    }
  }

  lemma {:induction false} Masks(i: nat)
    requires i < 64
    ensures Bit(UM, i) == (if i < 31 then 0 else 1) && Bit(LM, i) == (if i < 31 then 1 else 0)
  {
    Pow2Values();
    assert Pow2(32) == 2 * Pow2(31) && Pow2(33) == 2 * Pow2(32);
    hide Bit, Pow2;
    BitShifted(0x1_FFFF_FFFF, 31, i);
    if i >= 31 { BitOnes(33, i - 31); }
    BitOnes(31, i);
  }

  // ---- the twist ----

  /** The word that is twisted: bit 31 and above from u, the bits below from l. */
  lemma {:induction false} JoinedBit(u: Limb, l: Limb, i: nat)
    requires i < 64
    ensures Bit(On(OR, And(u, UM), And(l, LM)), i) == if i < 31 then Bit(l, i) else Bit(u, i)
  {
    hide Bit, On;
    BitOr(And(u, UM), And(l, LM), i);
    BitAnd(u, UM, i);
    BitAnd(l, LM, i);
    Masks(i);
  }

  lemma {:induction false} LowBit(y: Limb)
    ensures And(y, 1) == Bit(y, 0)
  {
    BitwiseHalves(AND, y, 1);
    AndZero(y / 2);
  }

  lemma {:induction false} AndZero(x: int)
    ensures Bitwise(AND, x, 0) == 0
    decreases Magnitude(x)
  {
    if x < -1 || 0 < x {
      AndZero(x / 2);
      BitwiseHalves(AND, x, 0);
    }
  }

  lemma {:induction false} BitHigh(h: int, k: nat, l: int, i: nat)
    requires 0 <= l < Pow2(k)
    ensures Bit(h * Pow2(k) + l, i + k) == Bit(h, i)
    decreases k
  {
    if k == 0 {
      assert h * Pow2(0) == h;
    } else {
      var x := h * Pow2(k - 1);
      assert h * Pow2(k) == 2 * x by { Associate(h, 2, Pow2(k - 1)); }
      assert (2 * x + l) / 2 == x + l / 2;
      BitHigh(h, k - 1, l / 2, i);
    }
  }

  lemma {:induction false} JoinedAt(u: Limb, l: Limb, uh: int, ul: int, lh: int, ll: int, y: Limb, i: nat)
    requires u == uh * 0x8000_0000 + ul && l == lh * 0x8000_0000 + ll && Pow2(31) == 0x8000_0000
    requires 0 <= ul < 0x8000_0000 && 0 <= ll < 0x8000_0000 && y == On(OR, And(u, UM), And(l, LM))
    ensures Bit(y, i) == Bit(uh * 0x8000_0000 + ll, i)
  {
    hide Bit, On, And, Pow2;
    if i < 31 {
      JoinedBit(u, l, i);
      BitBelow(ll, uh, 31, i);
      BitBelow(ll, lh, 31, i);
    } else {
      BitHigh(uh, 31, ll, i - 31);
      BitHigh(uh, 31, ul, i - 31);
      if i < 64 { JoinedBit(u, l, i); } else { NoBit(y, i); NoBit(u, i); }
    }
  }

  /** The joined word in arithmetic: the part of u from 2^31 on and the part of l below it. */
  lemma {:induction false} JoinedWord(u: Limb, l: Limb, uh: int, ul: int, lh: int, ll: int)
    requires u == uh * 0x8000_0000 + ul && l == lh * 0x8000_0000 + ll
    requires 0 <= ul < 0x8000_0000 && 0 <= ll < 0x8000_0000
    ensures On(OR, And(u, UM), And(l, LM)) == uh * 0x8000_0000 + ll
  {
    var y, z := On(OR, And(u, UM), And(l, LM)), uh * 0x8000_0000 + ll;
    Pow2Values();
    assert Pow2(32) == 2 * Pow2(31);
    hide Bit, On, And, Pow2;
    forall i: nat ensures Bit(y, i) == Bit(z, i) { JoinedAt(u, l, uh, ul, lh, ll, y, i); }
    BitsDetermine(y, z);
  }

  /** Each bit of the twisted word: the next bit of the joined word, and that of the matrix row if the joined word is
      odd. */
  lemma {:induction false} TwistBits(u: Limb, l: Limb, i: nat)
    requires i < 64
    ensures Bit(Twist(u, l), i) ==
            ((if i < 30 then Bit(l, i + 1) else if i < 63 then Bit(u, i + 1) else 0)
             + Bit(l, 0) * Bit(0xB502_6F5A_A966_19E9, i)) % 2
  {
    var y := On(OR, And(u, UM), And(l, LM));
    hide Bit, On, And;
    JoinedBit(u, l, 0);
    LowBit(y);
    BitRight(y, 1, i);
    if i < 63 { JoinedBit(u, l, i + 1); } else { NoBit(y, 64); }
    BitXor(Right(y, 1), if And(y, 1) == 0 then 0 else MATRIX_A, i);
    NoBit(0, i);
  }

  lemma {:induction false} NoBit(x: Limb, i: nat)
    ensures i >= 64 || x == 0 ==> Bit(x, i) == 0
  {
    Pow2Values();
    if i >= 64 { BitAbove(x, 64, i); }
    if x == 0 { BitAbove(x, 0, i); }
  }

  // ---- the tempering ----

  /** Bit j after the first stage, which adds the bit 29 places up where the mask has a bit. */
  function First(x: Limb, j: nat): (b: int) { (Bit(x, j) + Bit(x, j + 29) * Bit(0x5555_5555_5555_5555, j)) % 2 }

  /** After the second one, which adds the bit 17 places down. */
  function Second(x: Limb, j: nat): (b: int) {
    (First(x, j) + if j < 17 then 0 else First(x, j - 17) * Bit(0x71D6_7FFF_EDA6_0000, j)) % 2
  }

  /** After the third one, which adds the bit 37 places down. */
  function Third(x: Limb, j: nat): (b: int) {
    (Second(x, j) + if j < 37 then 0 else Second(x, j - 37) * Bit(0xFFF7_EEE0_0000_0000, j)) % 2
  }

  /** Each bit of a tempered word as a sum modulo 2 of bits of the word; the last stage adds the bit 43 places up. */
  lemma {:induction false} TemperBits(x: Limb, i: nat)
    requires i < 64
    ensures Bit(Temper(x), i) == (Third(x, i) + if i < 21 then Third(x, i + 43) else 0) % 2
  {
    hide Bit, Xor, And, Right, Left, First, Second, Third;
    var w := Xor(x, And(Right(x, 29), 0x5555_5555_5555_5555));
    var v := Xor(w, And(Left(w, 17), 0x71D6_7FFF_EDA6_0000));
    var r := Xor(v, And(Left(v, 37), 0xFFF7_EEE0_0000_0000));
    assert Temper(x) == Xor(r, Right(r, 43));
    BitXor(r, Right(r, 43), i);
    BitRight(r, 43, i);
    ThirdBit(x, w, v, i);
    if i < 21 { ThirdBit(x, w, v, i + 43); } else { NoBit(r, i + 43); }
  }

  lemma {:induction false} SecondBit(x: Limb, w: Limb, j: nat)
    requires j < 64 && w == Xor(x, And(Right(x, 29), 0x5555_5555_5555_5555))
    ensures Bit(Xor(w, And(Left(w, 17), 0x71D6_7FFF_EDA6_0000)), j) == Second(x, j)
  {
    hide Bit, Xor, And, Right, Left;
    StageLeft(w, 17, 0x71D6_7FFF_EDA6_0000, j);
    StageRight(x, 29, 0x5555_5555_5555_5555, j);
    if j >= 17 { StageRight(x, 29, 0x5555_5555_5555_5555, j - 17); }
  }

  lemma {:induction false} ThirdBit(x: Limb, w: Limb, v: Limb, j: nat)
    requires j < 64 && w == Xor(x, And(Right(x, 29), 0x5555_5555_5555_5555))
    requires v == Xor(w, And(Left(w, 17), 0x71D6_7FFF_EDA6_0000))
    ensures Bit(Xor(v, And(Left(v, 37), 0xFFF7_EEE0_0000_0000)), j) == Third(x, j)
  {
    hide Bit, Xor, And, Right, Left, First, Second;
    StageLeft(v, 37, 0xFFF7_EEE0_0000_0000, j);
    SecondBit(x, w, j);
    if j >= 37 { SecondBit(x, w, j - 37); }
  }

  lemma {:induction false} StageRight(x: Limb, k: nat, mask: Limb, j: nat)
    ensures Bit(Xor(x, And(Right(x, k), mask)), j) == (Bit(x, j) + Bit(x, j + k) * Bit(mask, j)) % 2
  {
    hide Bit, Xor, And, Right;
    BitXor(x, And(Right(x, k), mask), j);
    BitAnd(Right(x, k), mask, j);
    BitRight(x, k, j);
  }

  lemma {:induction false} StageLeft(x: Limb, k: nat, mask: Limb, j: nat)
    requires j < 64
    ensures Bit(Xor(x, And(Left(x, k), mask)), j) ==
            (Bit(x, j) + if j < k then 0 else Bit(x, j - k) * Bit(mask, j)) % 2
  {
    hide Bit, Xor, And, Left;
    BitXor(x, And(Left(x, k), mask), j);
    BitAnd(Left(x, k), mask, j);
    BitLeft(x, k, j);
  }
}
