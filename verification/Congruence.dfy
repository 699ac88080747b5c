/** Congruence of integers modulo m. */
module Congruence {
  import opened Arith
  import opened Divisibility
  import opened Power

  ghost predicate Congruent(x: int, y: int, m: int) { Divides(m, x - y) }

  lemma CongruentRefl(x: int, m: int)
    ensures Congruent(x, x, m)
  {
    Multiple(m, x - x, 0);
  }

  lemma CongruentSym(x: int, y: int, m: int)
    requires Congruent(x, y, m)
    ensures Congruent(y, x, m)
  {
    DividesCombination(m, x - y, x - y, -1, 0);
  }

  lemma CongruentTrans(x: int, y: int, z: int, m: int)
    requires Congruent(x, y, m) && Congruent(y, z, m)
    ensures Congruent(x, z, m)
  {
    DividesCombination(m, x - y, y - z, 1, 1);
  }

  lemma CongruentAdd(x: int, y: int, x': int, y': int, m: int)
    requires Congruent(x, x', m) && Congruent(y, y', m)
    ensures Congruent(x + y, x' + y', m)
  {
    DividesCombination(m, x - x', y - y', 1, 1);
  }

  lemma CongruentMul(x: int, y: int, x': int, y': int, m: int)
    requires Congruent(x, x', m) && Congruent(y, y', m)
    ensures Congruent(x * y, x' * y', m)
  {
    DividesCombination(m, x - x', y - y', y, x');
    ProductDifference(x, y, x', y');
  }

  lemma ProductDifference(x: int, y: int, x': int, y': int)
    ensures y * (x - x') + x' * (y - y') == x * y - x' * y'
  {
  }

  lemma {:induction false} CongruentPow(x: int, y: int, e: nat, m: int)
    requires Congruent(x, y, m)
    ensures Congruent(Pow(x, e), Pow(y, e), m)
    decreases e
  {
    if e == 0 {
      CongruentRefl(1, m);
    } else {
      CongruentPow(x, y, e - 1, m);
      CongruentMul(x, Pow(x, e - 1), y, Pow(y, e - 1), m);
    }
  }

  /** Reducing by a multiple of m keeps the class modulo m. */
  lemma CongruentMod(x: int, n: int, m: int)
    requires 0 < n && Divides(m, n)
    ensures Congruent(x % n, x, m)
  {
    DividesCombination(m, n, n, -(x / n), 0);
    assert x % n - x == -(x / n) * n + 0 * n;
  }

  /** The class modulo m has one member from 0 to m - 1. */
  lemma CongruentUnique(r: int, x: int, m: int)
    requires 0 <= r < m && Congruent(r, x, m)
    ensures r == x % m
  {
    CongruentSym(r, x, m);
    var k := Factor(m, x - r);
    DivModUnique(x, m, k, r);
  }

  lemma DividesSelf(m: int)
    ensures Divides(m, m)
  {
    Multiple(m, m, 1);
  }
}
