/** The 64-bit Mersenne Twister: a block generator in place, against its recurrence. */
module MersenneTwister {
  import opened Arith
  import opened Bits
  import opened Limb

  const NN := 312
  const MM := 156
  const MATRIX_A: Limb := 0xB502_6F5A_A966_19E9
  const UM: Limb := 0xFFFF_FFFF_8000_0000
  const LM: Limb := 0x7FFF_FFFF
  const MULTIPLIER: Limb := 6364136223846793005
  const DEFAULT_SEED: Limb := 5489

  /** A bitwise operation on 64-bit words. */
  function On(op: Op, x: Limb, y: Limb): (r: Limb) {
    Pow2Values();
    BitwiseBound(op, 64, x, y);
    Bitwise(op, x, y)
  }

  function Xor(x: Limb, y: Limb): (r: Limb) { On(XOR, x, y) }

  function And(x: Limb, y: Limb): (r: Limb) { On(AND, x, y) }

  /** x >> k, one place at a time. */
  function Right(x: Limb, k: nat): (r: Limb)
    decreases k, x
  {
    if k == 0 then x else Right(x / 2, k - 1)
  }

  /** x << k on 64 bits, one place at a time. */
  function Left(x: Limb, k: nat): (r: Limb)
    decreases k, x
  {
    if k == 0 then x else Left(Wrap(2 * x), k - 1)
  }

  lemma {:induction false} RightIsShr(x: Limb, k: nat)
    ensures Right(x, k) == Shr(x, k)
    decreases k
  {
    if k > 0 {
      RightIsShr(x / 2, k - 1);
      DivDiv(x, 2, Pow2(k - 1));
    }
  }

  lemma {:induction false} LeftIsShl(x: Limb, k: nat)
    ensures Left(x, k) == Shl(x, k)
    decreases k
  {
    if k > 0 {
      LeftIsShl(Wrap(2 * x), k - 1);
      WrapOfProduct(2 * x, Pow2(k - 1));
      Associate(x, 2, Pow2(k - 1));
    }
  }

  lemma WrapOfProduct(y: int, p: int)
    ensures Wrap(Wrap(y) * p) == Wrap(y * p)
  {
    WrapAlgebra(y, y / B, Wrap(y), p, B);
    ModAdd(Wrap(y) * p, (y / B) * p, B);
  }

  lemma WrapAlgebra(y: int, q: int, r: int, p: int, b: int)
    requires y == q * b + r
    ensures y * p == r * p + (q * p) * b
  {
    Distribute(p, q * b, r, 0, 0);
    Associate(q, b, p); Associate(b, q, p);
  }

  // ---- the recurrence of section 26.5.3.2 of ISO C++11 ----

  /** The upper bits of one word and the lower bits of the next one, multiplied by the twist matrix. */
  function Twist(u: Limb, l: Limb): (x: Limb) {
    var y := On(OR, And(u, UM), And(l, LM));
    Xor(Right(y, 1), if And(y, 1) == 0 then 0 else MATRIX_A)
  }

  /** Word k of the sequence that starts with the words of v. */
  function Word(v: seq<Limb>, k: nat): (x: Limb)
    requires |v| == NN
  {
    if k < NN then v[k] else Xor(Word(v, k - NN + MM), Twist(Word(v, k - NN), Word(v, k - NN + 1)))
  }

  /** The recurrence at place k of a sequence w. */
  ghost predicate NextIs(w: nat -> Limb, k: nat) { w(k + NN) == Xor(w(k + MM), Twist(w(k), w(k + 1))) }

  /** w starts with v and obeys the recurrence everywhere. */
  ghost predicate Continues(w: nat -> Limb, v: seq<Limb>) {
    |v| == NN && (forall k: nat :: k < NN ==> StartsAt(w, v, k)) && forall k: nat :: NextIs(w, k)
  }

  ghost predicate StartsAt(w: nat -> Limb, v: seq<Limb>, k: nat)
    requires k < |v|
  {
    w(k) == v[k]
  }

  lemma {:induction false} WordContinues(v: seq<Limb>)
    requires |v| == NN
    ensures Continues((k: nat) => Word(v, k), v)
  {
    var w := (k: nat) => Word(v, k);
    forall k: nat ensures NextIs(w, k) { assert w(k + NN) == Word(v, k + NN); }
  }

  /** A sequence is determined by its start and the recurrence. */
  lemma {:induction false} OneSequence(w: nat -> Limb, v: seq<Limb>, k: nat)
    requires Continues(w, v)
    ensures w(k) == Word(v, k)
    decreases k
  {
    if k < NN {
      assert StartsAt(w, v, k);
    } else {
      var j := k - NN;
      assert NextIs(w, j);
      OneSequence(w, v, j);
      OneSequence(w, v, j + 1);
      OneSequence(w, v, j + MM);
    }
  }

  function Temper(x: Limb): (r: Limb) {
    var a := Xor(x, And(Right(x, 29), 0x5555_5555_5555_5555));
    var b := Xor(a, And(Left(a, 17), 0x71D6_7FFF_EDA6_0000));
    var c := Xor(b, And(Left(b, 37), 0xFFF7_EEE0_0000_0000));
    Xor(c, Right(c, 43))
  }

  /** f tempers. */
  ghost predicate Tempers(f: Limb -> Limb) { forall x: Limb :: TempersAt(f, x) }

  ghost predicate TempersAt(f: Limb -> Limb, x: Limb) { f(x) == Temper(x) }

  lemma {:induction false} TemperFunction() returns (f: Limb -> Limb)
    ensures Tempers(f)
  {
    f := (x: Limb) => Temper(x);
    forall x: Limb ensures TempersAt(f, x) {}
  }

  /** Word k of the start vector for a seed. */
  function SeedWord(seed: Limb, k: nat): (x: Limb) {
    if k == 0 then seed else
      var prev := SeedWord(seed, k - 1);
      Wrap(MULTIPLIER * Xor(prev, Right(prev, 62)) + k)
  }

  ghost function SeedVector(seed: Limb): (v: seq<Limb>)
    ensures |v| == NN
  {
    seq(NN, k requires 0 <= k < NN => SeedWord(seed, k))
  }

  /** f counts off the words of the start vector. */
  ghost predicate Seeds(f: nat -> Limb, seed: Limb) { forall k: nat :: SeedAt(f, seed, k) }

  ghost predicate SeedAt(f: nat -> Limb, seed: Limb, k: nat) { f(k) == SeedWord(seed, k) }

  lemma {:induction false} SeedFunction(seed: Limb) returns (f: nat -> Limb)
    ensures Seeds(f, seed)
  {
    f := (k: nat) => SeedWord(seed, k);
    forall k: nat ensures SeedAt(f, seed, k) {}
  }

  // ---- the generator ----

  class Generator {
    const mt: array<Limb>
    /** The next word to hand out; NN + 1 before seeding. */
    var mti: int
    /** The start vector, the sequence, the place of the current block in it, and the number of outputs so far. */
    ghost var start: seq<Limb>
    ghost var word: nat -> Limb
    ghost const temper: Limb -> Limb
    ghost var base: nat
    ghost var outputs: nat

    ghost predicate Valid()
      reads this, mt
    {
      && mt.Length == NN && 0 <= mti <= NN + 1 && Tempers(temper)
      && (mti <= NN ==> Seeded())
    }

    ghost predicate Seeded()
      reads this, mt
    {
      && mt.Length == NN && Continues(word, start)
      && (forall j :: 0 <= j < NN ==> mt[j] == word(base + j))
      && base + mti == NN + outputs
    }

    constructor ()
      ensures Valid() && mti == NN + 1 && outputs == 0 && fresh(mt)
    {
      mt := new Limb[NN];
      mti := NN + 1;
      outputs := 0;
      word := (k: nat) => 0;
      ghost var f := TemperFunction();
      temper := f;
    }

    /** One more word of the start vector. */
    method SeedNext(i: nat, ghost f: nat -> Limb, ghost seed: Limb)
      requires mt.Length == NN && 1 <= i < NN && Seeds(f, seed) && mt[i - 1] == f(i - 1)
      modifies mt
      ensures mt[i] == f(i) && forall j :: 0 <= j < NN && j != i ==> mt[j] == old(mt[j])
    {
      assert SeedAt(f, seed, i - 1) && SeedAt(f, seed, i);
      mt[i] := Wrap(MULTIPLIER * Xor(mt[i - 1], Right(mt[i - 1], 62)) + i);
    }

    /** init_genrand64. */
    method Init(seed: Limb)
      requires mt.Length == NN && Tempers(temper)
      modifies this, mt
      ensures Valid() && mti == NN && outputs == 0 && start == SeedVector(seed)
    {
      ghost var f := SeedFunction(seed);
      mt[0] := seed;
      assert SeedAt(f, seed, 0);
      mti := 1;
      while mti < NN
        invariant 1 <= mti <= NN
        invariant forall j :: 0 <= j < mti ==> mt[j] == f(j)
      {
        SeedNext(mti, f, seed);
        mti := mti + 1;
      }
      start := SeedVector(seed);
      word := StartSequence(f, seed);
      base, outputs := 0, 0;
    }

    /** The word after place k, stored over the word at place k: from the words at k, k + 1 and k + MM. */
    method NextWord(i: nat, succ: nat, ahead: nat, ghost k: nat)
      requires mt.Length == NN && i < NN && succ < NN && ahead < NN && Continues(word, start)
      requires mt[i] == word(k) && mt[succ] == word(k + 1) && mt[ahead] == word(k + MM)
      modifies mt
      ensures mt[i] == word(k + NN)
      ensures forall j :: 0 <= j < NN && j != i ==> mt[j] == old(mt[j])
    {
      assert NextIs(word, k);
      var x := On(OR, And(mt[i], UM), And(mt[succ], LM));
      mt[i] := Xor(mt[ahead], Xor(Right(x, 1), if And(x, 1) == 0 then 0 else MATRIX_A));
    }

    /** The loops over the block: every word is replaced by the one NN places on. */
    method OverwriteAll(ghost b: nat)
      requires mt.Length == NN && Continues(word, start)
      requires forall j :: 0 <= j < NN ==> mt[j] == word(b + j)
      modifies mt
      ensures forall j :: 0 <= j < NN ==> mt[j] == word(b + NN + j)
    {
      var i := 0;
      while i < NN - MM
        invariant 0 <= i <= NN - MM
        invariant forall j :: 0 <= j < i ==> mt[j] == word(b + NN + j)
        invariant forall j :: i <= j < NN ==> mt[j] == word(b + j)
      {
        NextWord(i, i + 1, i + MM, b + i);
        i := i + 1;
      }
      while i < NN - 1
        invariant NN - MM <= i <= NN - 1
        invariant forall j :: 0 <= j < i ==> mt[j] == word(b + NN + j)
        invariant forall j :: i <= j < NN ==> mt[j] == word(b + j)
      {
        NextWord(i, i + 1, i + (MM - NN), b + i);
        i := i + 1;
      }
      NextWord(NN - 1, 0, MM - 1, b + (NN - 1));
    }

    /** The next NN words at one time. */
    method NextBlock()
      requires Valid() && mti == NN
      modifies this`mti, this`base, mt
      ensures Valid() && mti == 0 && base == old(base) + NN
    {
      OverwriteAll(base);
      mti := 0;
      base := base + NN;
    }

    /** genrand64_int64: output n is the tempered word NN + n; without a seed the default one is taken. */
    method Next() returns (r: Limb)
      requires Valid()
      modifies this, mt
      ensures Valid() && mti <= NN
      ensures old(mti) <= NN ==> start == old(start) && word == old(word) && outputs == old(outputs) + 1
      ensures old(mti) == NN + 1 ==> start == SeedVector(DEFAULT_SEED) && outputs == 1
      ensures outputs >= 1 && r == temper(word(NN + outputs - 1))
    {
      if mti >= NN {
        if mti == NN + 1 {
          Init(DEFAULT_SEED);
        }
        NextBlock();
      }
      var x := mt[mti];
      mti := mti + 1;
      outputs := outputs + 1;
      r := TemperWord(x, temper);
    }
  }

  /** The sequence that goes on from a seeded start vector. */
  lemma {:induction false} StartSequence(f: nat -> Limb, seed: Limb) returns (w: nat -> Limb)
    requires Seeds(f, seed)
    ensures Continues(w, SeedVector(seed)) && forall k: nat :: k < NN ==> w(k) == f(k)
  {
    var v := SeedVector(seed);
    WordContinues(v);
    w := (k: nat) => Word(v, k);
    forall k: nat | k < NN ensures w(k) == f(k) { assert SeedAt(f, seed, k); }
  }

  method TemperWord(x0: Limb, ghost temper: Limb -> Limb) returns (x: Limb)
    requires Tempers(temper)
    ensures x == temper(x0)
  {
    assert TempersAt(temper, x0);
    x := x0;
    x := Xor(x, And(Right(x, 29), 0x5555_5555_5555_5555));
    x := Xor(x, And(Left(x, 17), 0x71D6_7FFF_EDA6_0000));
    x := Xor(x, And(Left(x, 37), 0xFFF7_EEE0_0000_0000));
    x := Xor(x, Right(x, 43));
  }

  /** For every seed and every n, the first n outputs are the tempered words from NN on. */
  method Outputs(seed: Limb, n: nat) returns (rs: seq<Limb>)
    ensures |rs| == n && forall k :: 0 <= k < n ==> rs[k] == Temper(Word(SeedVector(seed), NN + k))
  {
    var g := new Generator();
    g.Init(seed);
    ghost var w, v, temper := g.word, g.start, g.temper;
    rs := [];
    for i := 0 to n
      invariant g.Valid() && g.mti <= NN && g.start == v && g.word == w && g.temper == temper && g.outputs == i == |rs|
      invariant fresh(g) && fresh(g.mt)
      invariant forall k :: 0 <= k < i ==> rs[k] == temper(w(NN + k))
    {
      var r := g.Next();
      rs := rs + [r];
    }
    TemperedWords(rs, w, v, temper);
  }

  lemma {:induction false} TemperedWords(rs: seq<Limb>, w: nat -> Limb, v: seq<Limb>, temper: Limb -> Limb)
    requires Continues(w, v) && Tempers(temper) && forall k :: 0 <= k < |rs| ==> rs[k] == temper(w(NN + k))
    ensures forall k :: 0 <= k < |rs| ==> rs[k] == Temper(Word(v, NN + k))
  {
    forall k | 0 <= k < |rs| ensures rs[k] == Temper(Word(v, NN + k)) {
      OneSequence(w, v, NN + k);
      assert TempersAt(temper, w(NN + k));
    }
  }
}
