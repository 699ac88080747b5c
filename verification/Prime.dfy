/** Primes: Euclid's lemma, Fermat's little theorem and square roots of one. */
module Prime {
  import opened Arith
  import opened Divisibility
  import opened Power
  import opened Congruence

  ghost predicate IsPrime(p: int) {
    1 < p && forall d :: 1 < d < p ==> !Divides(d, p)
  }

  /** A prime has no common factor with a number it does not divide. */
  lemma PrimeInverse(p: int, a: nat) returns (s: int, t: int)
    requires IsPrime(p) && !Divides(p, a)
    ensures s * a + t * p == 1
  {
    var g;
    g, s, t := Bezout(a, p);
    assert Divides(g, p) && Divides(g, a);
    DividesBound(g, p);
  }

  /** Euclid's lemma. */
  lemma Euclid(p: int, a: nat, b: int)
    requires IsPrime(p) && Divides(p, a * b)
    ensures Divides(p, a) || Divides(p, b)
  {
    if !Divides(p, a) {
      var s, t := PrimeInverse(p, a);
      DividesSelf(p);
      DividesCombination(p, a * b, p, s, b * t);
      EuclidAlgebra(a, b, p, s, t);
    }
  }

  lemma EuclidAlgebra(a: int, b: int, p: int, s: int, t: int)
    requires s * a + t * p == 1
    ensures s * (a * b) + (b * t) * p == b
  {
    Associate(s, a, b); Associate(b, t, p);
    Distribute(b, s * a, t * p, 0, 0);
    Associate(b, s, a);
  }

  // ---- binomial coefficients ----

  function Choose(n: nat, k: int): (c: nat) {
    if k < 0 then 0 else if k == 0 then 1 else if n == 0 then 0 else Choose(n - 1, k - 1) + Choose(n - 1, k)
  }

  lemma {:induction false} ChooseAbove(n: nat, k: int)
    requires n < k
    ensures Choose(n, k) == 0
    decreases n
  {
    if n > 0 { ChooseAbove(n - 1, k - 1); ChooseAbove(n - 1, k); }
  }

  lemma {:induction false} Absorption(n: nat, k: nat)
    requires 1 <= n && 1 <= k
    ensures k * Choose(n, k) == n * Choose(n - 1, k - 1)
    decreases n
  {
    if n == 1 {
      assert Choose(1, k) == Choose(0, k - 1) + Choose(0, k);
    } else if k == 1 {
      Absorption(n - 1, 1);
      assert Choose(n - 1, 0) == 1 && Choose(n - 2, 0) == 1;
    } else {
      Absorption(n - 1, k);
      Absorption(n - 1, k - 1);
      AbsorptionAlgebra(n, k, Choose(n - 1, k - 1), Choose(n - 1, k), Choose(n - 2, k - 2), Choose(n - 2, k - 1));
    }
  }

  lemma AbsorptionAlgebra(n: int, k: int, a: int, b: int, c: int, d: int)
    requires (k - 1) * a == (n - 1) * c && k * b == (n - 1) * d && a == c + d
    ensures k * (a + b) == n * a
  {
    Distribute(a, k, 0, 0, 1);
    Distribute(k, a, b, 0, 0);
    Distribute(n - 1, c, d, 0, 0);
    Distribute(a, n, 0, 0, 1);
  }

  /** A prime divides its inner binomial coefficients. */
  lemma PrimeDividesChoose(p: int, k: nat)
    requires IsPrime(p) && 1 <= k < p
    ensures Divides(p, Choose(p, k))
  {
    Absorption(p, k);
    Multiple(p, k * Choose(p, k), Choose(p - 1, k - 1));
    Euclid(p, k, Choose(p, k));
    if Divides(p, k) { DividesBound(p, k); }
  }

  /** The first m terms of (1 + a)^n. */
  function BinomialSum(n: nat, m: nat, a: int): (s: int)
    decreases m
  {
    if m == 0 then 0 else BinomialSum(n, m - 1, a) + Choose(n, m - 1) * Pow(a, m - 1)
  }

  lemma {:induction false} BinomialStep(n: nat, m: nat, a: int)
    requires 1 <= m
    ensures BinomialSum(n + 1, m, a) == BinomialSum(n, m, a) + a * BinomialSum(n, m - 1, a)
    decreases m
  {
    if m > 1 {
      BinomialStep(n, m - 1, a);
      BinomialAlgebra(a, BinomialSum(n, m - 2, a), Choose(n, m - 2), Choose(n, m - 1), Pow(a, m - 2));
    } else {
      assert BinomialSum(n, 0, a) == 0 && Choose(n, 0) == 1 && Choose(n + 1, 0) == 1;
    }
  }

  lemma BinomialAlgebra(a: int, s: int, c: int, d: int, p: int)
    ensures a * (s + c * p) == a * s + c * (a * p) && (c + d) * (a * p) == c * (a * p) + d * (a * p)
  {
  }

  lemma {:induction false} Binomial(n: nat, a: int)
    ensures BinomialSum(n, n + 1, a) == Pow(1 + a, n)
    decreases n
  {
    if n == 0 {
      assert BinomialSum(0, 1, a) == BinomialSum(0, 0, a) + Choose(0, 0) * Pow(a, 0);
    } else {
      ChooseAbove(n - 1, n);
      assert BinomialSum(n - 1, n + 1, a) == BinomialSum(n - 1, n, a) + 0 * Pow(a, n);
      assert Pow(1 + a, n) == (1 + a) * Pow(1 + a, n - 1);
      hide Pow, Choose, BinomialSum;
      BinomialStep(n - 1, n + 1, a);
      Binomial(n - 1, a);
      Distribute(Pow(1 + a, n - 1), 1, a, 0, 0);
    }
  }

  lemma {:induction false} InnerTermsVanish(p: int, m: nat, a: int)
    requires IsPrime(p) && 1 <= m <= p
    ensures Congruent(BinomialSum(p, m, a), 1, p)
    decreases m
  {
    if m == 1 {
      assert BinomialSum(p, 1, a) == BinomialSum(p, 0, a) + Choose(p, 0) * Pow(a, 0);
      CongruentRefl(1, p);
    } else {
      InnerTermsVanish(p, m - 1, a);
      PrimeDividesChoose(p, m - 1);
      DividesSelf(p);
      DividesCombination(p, Choose(p, m - 1), p, Pow(a, m - 1), 0);
      CongruentAdd(BinomialSum(p, m - 1, a), Choose(p, m - 1) * Pow(a, m - 1), 1, 0, p);
    }
  }

  /** (1 + a)^p is 1 + a^p modulo a prime p. */
  lemma PowerOfSum(p: int, a: int)
    requires IsPrime(p)
    ensures Congruent(Pow(1 + a, p), 1 + Pow(a, p), p)
  {
    Binomial(p, a);
    InnerTermsVanish(p, p, a);
    ChooseSelf(p);
    assert BinomialSum(p, p + 1, a) == BinomialSum(p, p, a) + 1 * Pow(a, p);
    CongruentRefl(Pow(a, p), p);
    CongruentAdd(BinomialSum(p, p, a), Pow(a, p), 1, Pow(a, p), p);
  }

  lemma {:induction false} ChooseSelf(n: nat)
    ensures Choose(n, n) == 1
    decreases n
  {
    if n > 0 { ChooseSelf(n - 1); ChooseAbove(n - 1, n); }
  }

  // ---- Fermat's little theorem ----

  lemma {:induction false} PowerOfPrime(p: int, a: nat)
    requires IsPrime(p)
    ensures Congruent(Pow(a, p), a, p)
    decreases a
  {
    if a == 0 {
      assert Pow(0, p) == 0;
      CongruentRefl(0, p);
    } else {
      PowerOfPrime(p, a - 1);
      PowerOfSum(p, a - 1);
      CongruentRefl(1, p);
      CongruentAdd(1, Pow(a - 1, p), 1, a - 1, p);
      CongruentTrans(Pow(a, p), 1 + Pow(a - 1, p), a, p);
    }
  }

  lemma Fermat(p: int, a: nat)
    requires IsPrime(p) && !Divides(p, a)
    ensures Congruent(Pow(a, p - 1), 1, p)
  {
    PowerOfPrime(p, a);
    var x := Pow(a, p - 1);
    Distribute(a, x, 0, 0, 1);
    assert Pow(a, p) == a * x;
    Euclid(p, a, x - 1);
  }

  /** Modulo a prime only 1 and -1 square to 1. */
  lemma RootsOfOne(p: int, y: int)
    requires IsPrime(p) && 1 <= y < p && Congruent(y * y, 1, p)
    ensures y == 1 || y == p - 1
  {
    SquareMinusOne(y);
    Euclid(p, y + 1, y - 1);
    if Divides(p, y + 1) {
      DividesBound(p, y + 1);
    } else if y > 1 {
      DividesBound(p, y - 1);
    }
  }

  lemma SquareMinusOne(y: int)
    ensures (y + 1) * (y - 1) == y * y - 1
  {
  }
}
