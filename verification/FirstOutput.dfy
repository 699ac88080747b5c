/** The first output for the default seed, as a number. */
module FirstOutput {
  import opened Arith
  import opened Bits
  import opened Limb
  import opened LimbLogic
  import opened MersenneTwister
  import opened TwisterBits
  import opened DefaultSeed

  // ---- bitwise operations on numbers, digit by digit ----

  /** The operation on two numbers below 4. */
  function Small(op: Op, a: int, b: int): (r: int) {
    match op
    case XOR => SmallXor(a, b)
    case AND => if a == 3 then b else if b == 3 then a else if a == b then a else 0
    case OR => 0
  }

  lemma {:induction false} SmallIs(op: Op, a: int, b: int)
    requires 0 <= a < 4 && 0 <= b < 4 && op != OR
    ensures Bitwise(op, a, b) == Small(op, a, b)
  {
    if op == XOR {
      SmallXorIs(a, b);
    } else {
      BitwiseStep(op, a, b);
      BitwiseStep(op, a / 2, b / 2);
      assert Bitwise(op, 0, 0) == 0;
    }
  }

  lemma {:induction false} TwoBits(op: Op, x: int, y: int, a: int, b: int)
    requires 0 <= a < 4 && 0 <= b < 4 && op != OR
    ensures Bitwise(op, 4 * x + a, 4 * y + b) == 4 * Bitwise(op, x, y) + Small(op, a, b)
  {
    assert Pow2(2) == 4;
    SmallIs(op, a, b);
    hide Bitwise, Small;
    SplitsMeaning(4 * x + a, 2, x, a);
    SplitsMeaning(4 * y + b, 2, y, b);
    BitwiseSplit(op, 2, 4 * x + a, x, a, 4 * y + b, y, b);
    SplitsMeaning(Bitwise(op, 4 * x + a, 4 * y + b), 2, Bitwise(op, x, y), Small(op, a, b));
  }

  /** One more hexadecimal digit of each operand: 4 a1 + a0 and 4 b1 + b0. */
  lemma {:induction false} Hex(op: Op, x: int, y: int, r: int, a1: int, a0: int, b1: int, b0: int)
    requires 0 <= a1 < 4 && 0 <= a0 < 4 && 0 <= b1 < 4 && 0 <= b0 < 4 && op != OR && Bitwise(op, x, y) == r
    ensures Bitwise(op, 16 * x + 4 * a1 + a0, 16 * y + 4 * b1 + b0)
         == 16 * r + 4 * Small(op, a1, b1) + Small(op, a0, b0)
  {
    hide Bitwise, Small;
    TwoBits(op, x, y, a1, b1);
    TwoBits(op, 4 * x + a1, 4 * y + b1, a0, b0);
  }

  /** Below place k the second operand has no bits. */
  lemma {:induction false} LowPart(op: Op, x: int, y: int, k: nat, p: int, l: int)
    requires op != OR && p == Pow2(k) && 0 <= l < p
    ensures Bitwise(op, x * p + l, y * p) == Bitwise(op, x, y) * p + if op == XOR then l else 0
  {
    XorZero(l);
    AndZero(l);
    hide Bitwise, Pow2;
    SplitsMeaning(x * p + l, k, x, l);
    SplitsMeaning(y * p, k, y, 0);
    BitwiseSplit(op, k, x * p + l, x, l, y * p, y, 0);
    SplitsMeaning(Bitwise(op, x * p + l, y * p), k, Bitwise(op, x, y), if op == XOR then l else 0);
  }

  lemma {:induction false} Powers()
    ensures Pow2(16) == 0x1_0000 && Pow2(17) == 0x2_0000 && Pow2(29) == 0x2000_0000
    ensures Pow2(36) == 0x10_0000_0000 && Pow2(37) == 0x20_0000_0000 && Pow2(43) == 0x800_0000_0000
  {
    Pow2Values();
    assert Pow2(16) == 0x1_0000 by { Pow2Add(8, 8); }
    assert Pow2(24) == 0x100_0000 by { Pow2Add(8, 16); }
    assert Pow2(29) == 0x2000_0000 by { Pow2Add(5, 24); }
    assert Pow2(36) == 0x10_0000_0000 by { Pow2Add(4, 32); }
    assert Pow2(43) == 0x800_0000_0000 by { Pow2Add(7, 36); }
  }

  lemma {:induction false} ShiftRight(x: Limb, k: nat, p: int, q: int, r: int)
    requires p == Pow2(k) && x == q * p + r && 0 <= r < p
    ensures Right(x, k) == q
  {
    RightIsShr(x, k);
    hide Pow2, Right;
    DivModUnique(x, p, q, r);
  }

  lemma {:induction false} ShiftLeft(x: Limb, k: nat, p: int, q: int, r: int)
    requires p == Pow2(k) && x * p == q * 0x1_0000_0000_0000_0000 + r && 0 <= r < 0x1_0000_0000_0000_0000
    ensures Left(x, k) == r
  {
    LeftIsShl(x, k);
    hide Pow2, Left;
    WrapIs(x * p, q, r);
  }

  // ---- the words ----

  lemma {:induction false} NewWord()
    ensures Bitwise(XOR, 0x245b1c66fa082bff, 0x8b5e9ef) == 0x245b1c66f2bdc210
  {
    hide Bitwise;
    XorZero(0x245b1c66);
    Hex(XOR, 0x245b1c66, 0x0, 0x245b1c66, 3, 3, 0, 0);
    Hex(XOR, 0x245b1c66f, 0x0, 0x245b1c66f, 2, 2, 2, 0);
    Hex(XOR, 0x245b1c66fa, 0x8, 0x245b1c66f2, 0, 0, 2, 3);
    Hex(XOR, 0x245b1c66fa0, 0x8b, 0x245b1c66f2b, 2, 0, 1, 1);
    Hex(XOR, 0x245b1c66fa08, 0x8b5, 0x245b1c66f2bd, 0, 2, 3, 2);
    Hex(XOR, 0x245b1c66fa082, 0x8b5e, 0x245b1c66f2bdc, 2, 3, 2, 1);
    Hex(XOR, 0x245b1c66fa082b, 0x8b5e9, 0x245b1c66f2bdc2, 3, 3, 3, 2);
    Hex(XOR, 0x245b1c66fa082bf, 0x8b5e9e, 0x245b1c66f2bdc21, 3, 3, 3, 3);
  }

  lemma {:induction false} Mask1()
    ensures Bitwise(AND, 0x122d8e337, 0x5555555555555555) == 0x100504115
  {
    hide Bitwise;
    AndZero(0x5555555);
    Commutes(AND, 0, 0x5555555);
    Hex(AND, 0x0, 0x5555555, 0x0, 0, 1, 1, 1);
    Hex(AND, 0x1, 0x55555555, 0x1, 0, 2, 1, 1);
    Hex(AND, 0x12, 0x555555555, 0x10, 0, 2, 1, 1);
    Hex(AND, 0x122, 0x5555555555, 0x100, 3, 1, 1, 1);
    Hex(AND, 0x122d, 0x55555555555, 0x1005, 2, 0, 1, 1);
    Hex(AND, 0x122d8, 0x555555555555, 0x10050, 3, 2, 1, 1);
    Hex(AND, 0x122d8e, 0x5555555555555, 0x100504, 0, 3, 1, 1);
    Hex(AND, 0x122d8e3, 0x55555555555555, 0x1005041, 0, 3, 1, 1);
    Hex(AND, 0x122d8e33, 0x555555555555555, 0x10050411, 1, 3, 1, 1);
  }

  lemma {:induction false} Stage1()
    ensures Bitwise(XOR, 0x245b1c66f2bdc210, 0x100504115) == 0x245b1c67f2ed8305
  {
    hide Bitwise;
    XorZero(0x245b1c6);
    Hex(XOR, 0x245b1c6, 0x0, 0x245b1c6, 1, 2, 0, 1);
    Hex(XOR, 0x245b1c66, 0x1, 0x245b1c67, 3, 3, 0, 0);
    Hex(XOR, 0x245b1c66f, 0x10, 0x245b1c67f, 0, 2, 0, 0);
    Hex(XOR, 0x245b1c66f2, 0x100, 0x245b1c67f2, 2, 3, 1, 1);
    Hex(XOR, 0x245b1c66f2b, 0x1005, 0x245b1c67f2e, 3, 1, 0, 0);
    Hex(XOR, 0x245b1c66f2bd, 0x10050, 0x245b1c67f2ed, 3, 0, 1, 0);
    Hex(XOR, 0x245b1c66f2bdc, 0x100504, 0x245b1c67f2ed8, 0, 2, 0, 1);
    Hex(XOR, 0x245b1c66f2bdc2, 0x1005041, 0x245b1c67f2ed83, 0, 1, 0, 1);
    Hex(XOR, 0x245b1c66f2bdc21, 0x10050411, 0x245b1c67f2ed830, 0, 0, 1, 1);
  }

  lemma {:induction false} Mask2()
    ensures Bitwise(AND, 0x38cfe5db060a0000, 0x71d67fffeda60000) == 0x30c665db04020000
  {
    Powers();
    hide Bitwise, Pow2;
    AndZero(0x0);
    Hex(AND, 0x0, 0x0, 0x0, 0, 3, 1, 3);
    Hex(AND, 0x3, 0x7, 0x3, 2, 0, 0, 1);
    Hex(AND, 0x38, 0x71, 0x30, 3, 0, 3, 1);
    Hex(AND, 0x38c, 0x71d, 0x30c, 3, 3, 1, 2);
    Hex(AND, 0x38cf, 0x71d6, 0x30c6, 3, 2, 1, 3);
    Hex(AND, 0x38cfe, 0x71d67, 0x30c66, 1, 1, 3, 3);
    Hex(AND, 0x38cfe5, 0x71d67f, 0x30c665, 3, 1, 3, 3);
    Hex(AND, 0x38cfe5d, 0x71d67ff, 0x30c665d, 2, 3, 3, 3);
    Hex(AND, 0x38cfe5db, 0x71d67fff, 0x30c665db, 0, 0, 3, 2);
    Hex(AND, 0x38cfe5db0, 0x71d67fffe, 0x30c665db0, 1, 2, 3, 1);
    Hex(AND, 0x38cfe5db06, 0x71d67fffed, 0x30c665db04, 0, 0, 2, 2);
    Hex(AND, 0x38cfe5db060, 0x71d67fffeda, 0x30c665db040, 2, 2, 1, 2);
    LowPart(AND, 0x38cfe5db060a, 0x71d67fffeda6, 16, 0x10000, 0x0);
  }

  lemma {:induction false} Stage2()
    ensures Bitwise(XOR, 0x245b1c67f2ed8305, 0x30c665db04020000) == 0x149d79bcf6ef8305
  {
    Powers();
    hide Bitwise, Pow2;
    XorZero(0x0);
    Hex(XOR, 0x0, 0x0, 0x0, 0, 2, 0, 3);
    Hex(XOR, 0x2, 0x3, 0x1, 1, 0, 0, 0);
    Hex(XOR, 0x24, 0x30, 0x14, 1, 1, 3, 0);
    Hex(XOR, 0x245, 0x30c, 0x149, 2, 3, 1, 2);
    Hex(XOR, 0x245b, 0x30c6, 0x149d, 0, 1, 1, 2);
    Hex(XOR, 0x245b1, 0x30c66, 0x149d7, 3, 0, 1, 1);
    Hex(XOR, 0x245b1c, 0x30c665, 0x149d79, 1, 2, 3, 1);
    Hex(XOR, 0x245b1c6, 0x30c665d, 0x149d79b, 1, 3, 2, 3);
    Hex(XOR, 0x245b1c67, 0x30c665db, 0x149d79bc, 3, 3, 0, 0);
    Hex(XOR, 0x245b1c67f, 0x30c665db0, 0x149d79bcf, 0, 2, 1, 0);
    Hex(XOR, 0x245b1c67f2, 0x30c665db04, 0x149d79bcf6, 3, 2, 0, 0);
    Hex(XOR, 0x245b1c67f2e, 0x30c665db040, 0x149d79bcf6e, 3, 1, 0, 2);
    LowPart(XOR, 0x245b1c67f2ed, 0x30c665db0402, 16, 0x10000, 0x8305);
  }

  lemma {:induction false} Mask3()
    ensures Bitwise(AND, 0xddf060a000000000, 0xfff7eee000000000) == 0xddf060a000000000
  {
    Powers();
    hide Bitwise, Pow2;
    AndZero(0x0);
    Hex(AND, 0x0, 0x0, 0x0, 3, 1, 3, 3);
    Hex(AND, 0xd, 0xf, 0xd, 3, 1, 3, 3);
    Hex(AND, 0xdd, 0xff, 0xdd, 3, 3, 3, 3);
    Hex(AND, 0xddf, 0xfff, 0xddf, 0, 0, 1, 3);
    Hex(AND, 0xddf0, 0xfff7, 0xddf0, 1, 2, 3, 2);
    Hex(AND, 0xddf06, 0xfff7e, 0xddf06, 0, 0, 3, 2);
    Hex(AND, 0xddf060, 0xfff7ee, 0xddf060, 2, 2, 3, 2);
    LowPart(AND, 0xddf060a, 0xfff7eee, 36, 0x1000000000, 0x0);
  }

  lemma {:induction false} Stage3()
    ensures Bitwise(XOR, 0x149d79bcf6ef8305, 0xddf060a000000000) == 0xc96d191cf6ef8305
  {
    Powers();
    hide Bitwise, Pow2;
    XorZero(0x0);
    Hex(XOR, 0x0, 0x0, 0x0, 0, 1, 3, 1);
    Hex(XOR, 0x1, 0xd, 0xc, 1, 0, 3, 1);
    Hex(XOR, 0x14, 0xdd, 0xc9, 2, 1, 3, 3);
    Hex(XOR, 0x149, 0xddf, 0xc96, 3, 1, 0, 0);
    Hex(XOR, 0x149d, 0xddf0, 0xc96d, 1, 3, 1, 2);
    Hex(XOR, 0x149d7, 0xddf06, 0xc96d1, 2, 1, 0, 0);
    Hex(XOR, 0x149d79, 0xddf060, 0xc96d19, 2, 3, 2, 2);
    LowPart(XOR, 0x149d79b, 0xddf060a, 36, 0x1000000000, 0xcf6ef8305);
  }

  lemma {:induction false} Stage4()
    ensures Bitwise(XOR, 0xc96d191cf6ef8305, 0x192da3) == 0xc96d191cf6f6aea6
  {
    hide Bitwise;
    XorZero(0xc96d191cf6);
    Hex(XOR, 0xc96d191cf6, 0x0, 0xc96d191cf6, 3, 2, 0, 1);
    Hex(XOR, 0xc96d191cf6e, 0x1, 0xc96d191cf6f, 3, 3, 2, 1);
    Hex(XOR, 0xc96d191cf6ef, 0x19, 0xc96d191cf6f6, 2, 0, 0, 2);
    Hex(XOR, 0xc96d191cf6ef8, 0x192, 0xc96d191cf6f6a, 0, 3, 3, 1);
    Hex(XOR, 0xc96d191cf6ef83, 0x192d, 0xc96d191cf6f6ae, 0, 0, 2, 2);
    Hex(XOR, 0xc96d191cf6ef830, 0x192da, 0xc96d191cf6f6aea, 1, 1, 0, 3);
  }

  lemma {:induction false} TemperedFirst()
    ensures Temper(0x245b1c66f2bdc210) == 0xc96d191cf6f6aea6
  {
    Powers();
    hide Bitwise, Right, Left, Pow2;
    ShiftRight(0x245b1c66f2bdc210, 29, 0x2000_0000, 0x122d8e337, 0x12bdc210);
    Mask1();
    Stage1();
    ShiftLeft(0x245b1c67f2ed8305, 17, 0x2_0000, 0x48b6, 0x38cfe5db060a0000);
    Mask2();
    Stage2();
    ShiftLeft(0x149d79bcf6ef8305, 37, 0x20_0000_0000, 0x293af379e, 0xddf060a000000000);
    Mask3();
    Stage3();
    ShiftRight(0xc96d191cf6ef8305, 43, 0x800_0000_0000, 0x192da3, 0x11cf6ef8305);
    Stage4();
  }

  /** Word 312 of the sequence, from words 0, 1 and 156 of the start vector. */
  lemma {:induction false} FirstNewWord()
    ensures Word(SeedVector(5489), 312) == 0x245b1c66f2bdc210
  {
    hide Bitwise, SeedWord, Right;
    SeedStart(5489);
    NextSeed(5489, 1, 1372, 1, 0, 1893, 13057201162865595358);
    Word156();
    TwistedFirst();
    NewWord();
    WordUnfold(SeedVector(5489));
  }

  lemma WordUnfold(v: seq<Limb>)
    requires |v| == NN
    ensures Word(v, 312) == Xor(v[156], Twist(v[0], v[1]))
  {
    hide Xor, Twist;
  }

  lemma {:induction false} TwistedFirst()
    ensures Twist(5489, 0xb5347f47116bd3de) == 0x8b5e9ef
  {
    hide Bitwise, Right, And;
    JoinedWord(5489, 0xb5347f47116bd3de, 0, 5489, 0x16a68fe8e, 0x116bd3de);
    LowBit(0x116bd3de);
    assert 0x116bd3de % 2 == 0;
    assert Pow2(1) == 2;
    ShiftRight(0x116bd3de, 1, 2, 0x8b5e9ef, 0);
    XorZero(0x8b5e9ef);
  }

  /** genrand64_int64 for the first time, without a seed. */
  method DefaultFirst() returns (r: Limb)
    ensures r == 14514284786278117030
  {
    var g := new Generator();
    r := g.Next();
    FirstNewWord();
    TemperedFirst();
    OneSequence(g.word, g.start, 312);
    assert TempersAt(g.temper, g.word(312));
  }
}
