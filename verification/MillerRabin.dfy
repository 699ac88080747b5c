/** The strong probable prime test. */
module MillerRabin {
  import opened Arith
  import opened Mpz
  import opened Divisibility
  import opened Power
  import opened Congruence
  import opened Prime
  import opened Powm

  function Doubled(q: nat, i: nat): (e: nat)
  {
    MulBounds(0, q, 0, Pow2(i));
    q * Pow2(i)
  }

  ghost predicate MinusOneAt(n: int, a: int, q: nat, i: nat) {
    Congruent(Pow(a, Doubled(q, i)), -1, n)
  }

  /** n passes the strong test to base a, where n - 1 is q times 2^k. */
  ghost predicate StrongProbablePrime(n: int, a: int, q: nat, k: nat) {
    Congruent(Pow(a, q), 1, n) || exists i :: 0 <= i < k && MinusOneAt(n, a, q, i)
  }

  lemma PowerSquares(a: int, q: nat, i: nat)
    ensures Pow(a, Doubled(q, i + 1)) == Pow(a, Doubled(q, i)) * Pow(a, Doubled(q, i))
  {
    var e := Doubled(q, i);
    Associate(q, 2, Pow2(i));
    PowAdd(a, e, e);
  }

  lemma PowerStart(a: int, q: nat)
    ensures Pow(a, Doubled(q, 0)) == Pow(a, q)
  {
    assert Pow2(0) == 1;
  }

  /** Squaring the residue of one power gives the residue of the next. */
  lemma SquareResidue(n: int, a: int, q: nat, i: nat, y: int)
    requires Congruent(y, Pow(a, Doubled(q, i)), n)
    ensures Congruent(y * y, Pow(a, Doubled(q, i + 1)), n)
  {
    PowerSquares(a, q, i);
    var p := Pow(a, Doubled(q, i));
    CongruentMul(y, y, p, p, n);
  }

  /** Once a residue is 0 or 1 the later ones are the same, never -1. */
  lemma {:induction false} StuckResidue(n: int, a: int, q: nat, i: nat, j: nat, y: int)
    requires n > 2 && (y == 0 || y == 1) && Congruent(y, Pow(a, Doubled(q, i)), n) && i <= j
    ensures Congruent(y, Pow(a, Doubled(q, j)), n) && !MinusOneAt(n, a, q, j)
    decreases j
  {
    if i < j {
      StuckResidue(n, a, q, i, j - 1, y);
      SquareResidue(n, a, q, j - 1, y);
    }
    NotMinusOne(n, y, Pow(a, Doubled(q, j)));
  }

  lemma NotMinusOne(n: int, y: int, x: int)
    requires n > 2 && (y == 0 || y == 1) && Congruent(y, x, n)
    ensures !Congruent(x, -1, n)
  {
    if Congruent(x, -1, n) {
      CongruentTrans(y, x, -1, n);
      DividesBound(n, y + 1);
    }
  }

  /** A residue is n - 1 exactly when the power is -1. */
  lemma ResidueCases(n: int, x: int, y: int)
    requires n > 2 && y == x % n
    ensures Congruent(y, x, n) && (y == n - 1 <==> Congruent(x, -1, n)) && (y == 1 <==> Congruent(x, 1, n))
  {
    DividesSelf(n);
    CongruentMod(x, n, n);
    CongruentSym(y, x, n);
    if y == n - 1 {
      assert Congruent(n - 1, -1, n);
      CongruentTrans(x, y, -1, n);
    }
    if Congruent(x, -1, n) {
      CongruentTrans(y, x, -1, n);
      DividesBound(n, y + 1);
    }
    if Congruent(x, 1, n) {
      CongruentSym(x, 1, n);
      CongruentUnique(1, x, n);
    }
  }

  ghost predicate OneAt(n: int, a: int, q: nat, i: nat) {
    Congruent(Pow(a, Doubled(q, i)), 1, n)
  }

  /** Going back from one power to the one that it is the square of, a 1 comes only from a 1 or a -1. */
  ghost predicate OnlyTrivialRoots(n: int, a: int, q: nat, k: nat) {
    forall i: nat :: i < k && OneAt(n, a, q, i + 1) ==> OneAt(n, a, q, i) || MinusOneAt(n, a, q, i)
  }

  /** From a power that is 1, back to the first one or to a -1 on the way. */
  lemma {:induction false} RootChain(n: int, a: int, q: nat, k: nat)
    requires OneAt(n, a, q, k) && OnlyTrivialRoots(n, a, q, k)
    ensures StrongProbablePrime(n, a, q, k)
    decreases k
  {
    if k == 0 {
      PowerStart(a, q);
    } else {
      assert OneAt(n, a, q, (k - 1) + 1);
      if OneAt(n, a, q, k - 1) {
        RootChain(n, a, q, k - 1);
        if !Congruent(Pow(a, q), 1, n) {
          var i :| 0 <= i < k - 1 && MinusOneAt(n, a, q, i);
          assert 0 <= i < k && MinusOneAt(n, a, q, i);
        }
      }
    }
  }

  /** A 1 or a -1 is a 1 from the next place on. */
  lemma {:induction false} OneFromHere(n: int, a: int, q: nat, i: nat, j: nat)
    requires n > 2 && i <= j && (OneAt(n, a, q, i) || (i < j && MinusOneAt(n, a, q, i)))
    ensures OneAt(n, a, q, j) && !MinusOneAt(n, a, q, j)
  {
    var x := Pow(a, Doubled(q, i));
    if OneAt(n, a, q, i) {
      CongruentSym(x, 1, n);
      StuckResidue(n, a, q, i, j, 1);
    } else {
      CongruentSym(x, -1, n);
      SquareResidue(n, a, q, i, -1);
      StuckResidue(n, a, q, i + 1, j, 1);
    }
    CongruentSym(1, Pow(a, Doubled(q, j)), n);
  }

  /** Passing means that the last power is 1, and that no other square root of 1 was met on the way to it. */
  lemma {:induction false} StrongIsRoots(n: int, a: int, q: nat, k: nat)
    requires n > 2 && k > 0
    ensures StrongProbablePrime(n, a, q, k) <==> OneAt(n, a, q, k) && OnlyTrivialRoots(n, a, q, k)
  {
    hide Congruent;
    PowerStart(a, q);
    if OneAt(n, a, q, k) && OnlyTrivialRoots(n, a, q, k) { RootChain(n, a, q, k); }
    if Congruent(Pow(a, q), 1, n) {
      assert OneAt(n, a, q, 0);
      forall i: nat | i <= k ensures OneAt(n, a, q, i) { OneFromHere(n, a, q, 0, i); }
    } else if j :| 0 <= j < k && MinusOneAt(n, a, q, j) {
      OneFromHere(n, a, q, j, k);
      forall i: nat | i < k && OneAt(n, a, q, i + 1) ensures OneAt(n, a, q, i) || MinusOneAt(n, a, q, i) {
        if i < j { OneFromHere(n, a, q, i + 1, j); }
        if j < i { OneFromHere(n, a, q, j, i); }
      }
    }
  }

  ghost predicate ResidueRoots(n: int, a: int, q: nat, k: nat)
    requires n > 2
  {
    forall i: nat :: i < k && Pow(a, 2 * (q * Pow2(i))) % n == 1 ==> Pow(a, q * Pow2(i)) % n in {1, n - 1}
  }

  /** The same with residues. */
  lemma {:induction false} StrongMeaning(n: int, a: int, q: nat, k: nat)
    requires n > 2 && k > 0 && n - 1 == q * Pow2(k)
    ensures StrongProbablePrime(n, a, q, k) <==>
            Pow(a, n - 1) % n == 1 && ResidueRoots(n, a, q, k)
  {
    hide StrongProbablePrime, OneAt, MinusOneAt, Pow, Pow2;
    StrongIsRoots(n, a, q, k);
    ResidueAt(n, a, q, k);
    if OnlyTrivialRoots(n, a, q, k) {
      forall i: nat | i < k && Pow(a, 2 * (q * Pow2(i))) % n == 1 ensures Pow(a, q * Pow2(i)) % n in {1, n - 1} {
        ResidueAt(n, a, q, i);
        ResidueAt(n, a, q, i + 1);
        assert q * Pow2(i + 1) == 2 * (q * Pow2(i)) by { NextDouble(q, i); }
      }
    }
    if ResidueRoots(n, a, q, k) {
      forall i: nat | i < k && OneAt(n, a, q, i + 1) ensures OneAt(n, a, q, i) || MinusOneAt(n, a, q, i) {
        ResidueAt(n, a, q, i);
        ResidueAt(n, a, q, i + 1);
        assert q * Pow2(i + 1) == 2 * (q * Pow2(i)) by { NextDouble(q, i); }
      }
    }
  }

  lemma NextDouble(q: nat, i: nat)
    ensures q * Pow2(i + 1) == 2 * (q * Pow2(i))
  {
    Associate(q, 2, Pow2(i));
  }

  lemma ResidueAt(n: int, a: int, q: nat, i: nat)
    requires n > 2
    ensures OneAt(n, a, q, i) <==> Pow(a, q * Pow2(i)) % n == 1
    ensures MinusOneAt(n, a, q, i) <==> Pow(a, q * Pow2(i)) % n == n - 1
  {
    ResidueCases(n, Pow(a, Doubled(q, i)), Pow(a, Doubled(q, i)) % n);
  }

  lemma {:induction false} RootsWritten(m: int, a: int, q: nat, k: nat)
    requires m > 2
    ensures ResidueRoots(m, a, q, k) <==>
            forall i: nat :: i < k && Pow(a, 2 * (q * Pow2(i))) % m == 1 ==> Pow(a, q * Pow2(i)) % m in {1, m - 1}
  {
    hide Pow, Pow2;
    if !ResidueRoots(m, a, q, k) {
      var i: nat :| i < k && Pow(a, 2 * (q * Pow2(i))) % m == 1 && Pow(a, q * Pow2(i)) % m !in {1, m - 1};
      assert Pow(a, q * Pow2(i)) % m !in {1, m - 1};
    }
  }

  /** gmp_millerrabin: an exact decision of the strong test. If n - 1 is q 2^k, then a passes if and only if its power
      n - 1 is 1 modulo n, and whenever one of the squares on the way is 1 its root is 1 or -1. */
  method StrongTest(n: int, nm1: int, a: int, q: nat, k0: nat) returns (passes: bool)
    requires Abs(n) > 2 && nm1 == Abs(n) - 1 && k0 > 0 && q > 0
    ensures passes <==> StrongProbablePrime(Abs(n), a, q, k0)
    ensures var m := Abs(n);
            m - 1 == q * Pow2(k0) ==>
              (passes <==>
               && Pow(a, m - 1) % m == 1
               && forall i: nat ::
                    i < k0 && Pow(a, 2 * (q * Pow2(i))) % m == 1 ==> Pow(a, q * Pow2(i)) % m in {1, m - 1})
  {
    passes := Decide(n, nm1, a, q, k0);
    hide StrongProbablePrime, Pow, Pow2;
    if nm1 == q * Pow2(k0) {
      StrongMeaning(Abs(n), a, q, k0);
      RootsWritten(Abs(n), a, q, k0);
    }
  }

  method Decide(n: int, nm1: int, a: int, q: nat, k0: nat) returns (passes: bool)
    requires Abs(n) > 2 && nm1 == Abs(n) - 1 && k0 > 0 && q > 0
    ensures passes <==> StrongProbablePrime(Abs(n), a, q, k0)
  {
    ghost var m := Abs(n);
    var ok, y := PowerMod(a, q, n);
    PowerStart(a, q);
    ResidueCases(m, Pow(a, q), y);
    if y == 1 { return true; }
    if y == nm1 {
      assert MinusOneAt(m, a, q, 0);
      return true;
    }
    var k := k0;
    ghost var i := 0;
    k := k - 1;
    while k > 0
      invariant 0 <= k && k + i + 1 == k0
      invariant y == Pow(a, Doubled(q, i)) % m
      invariant !Congruent(Pow(a, q), 1, m)
      invariant forall j :: 0 <= j <= i ==> !MinusOneAt(m, a, q, j)
    {
      y := SquareMod(n, a, q, i, y);
      i := i + 1;
      ResidueCases(m, Pow(a, Doubled(q, i)), y);
      if y == nm1 {
        assert MinusOneAt(m, a, q, i);
        return true;
      }
      if y <= 1 {
        forall j | i <= j ensures !MinusOneAt(m, a, q, j) { StuckResidue(m, a, q, i, j, y); }
        return false;
      }
      k := k - 1;
    }
    return false;
  }

  method SquareMod(n: int, ghost a: int, ghost q: nat, ghost i: nat, y: int) returns (z: int)
    requires Abs(n) > 2 && y == Pow(a, Doubled(q, i)) % Abs(n)
    ensures z == Pow(a, Doubled(q, i + 1)) % Abs(n)
  {
    ghost var m := Abs(n);
    var ok;
    ok, z := PowerModUi(y, 2, n);
    assert Pow(y, 2) == y * (y * Pow(y, 0));
    ResidueCases(m, Pow(a, Doubled(q, i)), y);
    SquareResidue(m, a, q, i, y);
    ResidueCases(m, y * y, z);
    CongruentTrans(z, y * y, Pow(a, Doubled(q, i + 1)), m);
    CongruentUnique(z, Pow(a, Doubled(q, i + 1)), m);
  }

  lemma SquareRoots(n: int, x: int)
    requires IsPrime(n) && n > 2 && Congruent(x * x, 1, n)
    ensures Congruent(x, 1, n) || Congruent(x, -1, n)
  {
    var y := x % n;
    ResidueCases(n, x, y);
    CongruentMul(y, y, x, x, n);
    CongruentTrans(y * y, x * x, 1, n);
    if y == 0 {
      DividesCombination(n, 0 - 1, 0 - 1, -1, 0);
      DividesBound(n, 1);
    } else {
      RootsOfOne(n, y);
    }
  }

  /** A prime passes the test to every base that it does not divide. */
  lemma PrimesPass(n: int, a: nat, q: nat, k: nat)
    requires IsPrime(n) && n > 2 && !Divides(n, a) && n - 1 == q * Pow2(k)
    ensures StrongProbablePrime(n, a, q, k)
  {
    Fermat(n, a);
    forall i: nat | OneAt(n, a, q, i + 1) ensures OneAt(n, a, q, i) || MinusOneAt(n, a, q, i) {
      PowerSquares(a, q, i);
      SquareRoots(n, Pow(a, Doubled(q, i)));
    }
    RootChain(n, a, q, k);
  }
}
