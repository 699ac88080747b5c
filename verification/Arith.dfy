/** Elementary facts about products, quotients and powers of integers. */
module Arith {

  lemma MulMono(a: int, b: int, c: int)
    requires a <= b && 0 <= c
    ensures a * c <= b * c
  {
  }

  lemma MulBounds(a: int, b: int, c: int, d: int)
    requires 0 <= a <= b && 0 <= c <= d
    ensures 0 <= a * c <= b * d
  {
    MulMono(a, b, c);
    MulMono(c, d, b);
  }

  lemma MulCancel(a: int, b: int, c: int)
    requires 0 < c && a * c < b * c
    ensures a < b
  {
    if b <= a { MulMono(b, a, c); }
  }

  lemma Distribute(a: int, w: int, x: int, y: int, z: int)
    ensures a * (w + x + y - z) == a * w + a * x + a * y - a * z
  {
  }

  lemma Associate(a: int, b: int, c: int)
    ensures a * (b * c) == a * b * c == b * (a * c) == c * (a * b)
  {
  }

  /** Quotient and remainder are determined by the division identity. */
  lemma DivModUnique(x: int, d: int, q: int, r: int)
    requires 0 < d && 0 <= r < d && x == q * d + r
    ensures x / d == q && x % d == r
  {
    var q', r' := x / d, x % d;
    assert (q - q') * d == r' - r;
    if q' < q { MulMono(1, q - q', d); }
    if q < q' { MulMono(q - q', -1, d); }
  }

  lemma ModAdd(x: int, k: int, d: int)
    requires 0 < d
    ensures (x + k * d) % d == x % d
  {
    DivModUnique(x + k * d, d, x / d + k, x % d);
  }

  lemma DivDiv(x: int, a: int, b: int)
    requires 0 < a && 0 < b
    ensures 0 < a * b && x / (a * b) == (x / a) / b
  {
    var q, r := x / a, x % a;
    var p, s := q / b, q % b;
    assert x == p * (a * b) + (s * a + r) by {
      Distribute(a, p * b, s, 0, 0);
      Associate(a, p, b);
    }
    MulMono(s, b - 1, a);
    DivModUnique(x, a * b, p, s * a + r);
  }

  function Pow2(n: nat): (p: nat)
    ensures p > 0
  {
    if n == 0 then 1 else 2 * Pow2(n - 1)
  }

  lemma {:induction false} Pow2Add(a: nat, b: nat)
    ensures Pow2(a + b) == Pow2(a) * Pow2(b)
    decreases a
  {
    if a > 0 {
      Pow2Add(a - 1, b);
      Associate(2, Pow2(a - 1), Pow2(b));
    }
  }

  lemma {:induction false} Pow2Mono(a: nat, b: nat)
    requires a <= b
    ensures Pow2(a) <= Pow2(b)
    decreases b
  {
    if a < b { Pow2Mono(a, b - 1); }
  }

  lemma {:induction false} Pow2Values()
    ensures Pow2(8) == 0x100 && Pow2(32) == 0x1_0000_0000
    ensures Pow2(63) == 0x8000_0000_0000_0000 && Pow2(64) == 0x1_0000_0000_0000_0000
  {
    assert Pow2(8) == 0x100;
    assert Pow2(16) == 0x10000 by { Pow2Add(8, 8); }
    assert Pow2(32) == 0x1_0000_0000 by { Pow2Add(16, 16); }
    assert Pow2(64) == 0x1_0000_0000_0000_0000 by { Pow2Add(32, 32); }
    assert Pow2(64) == 2 * Pow2(63);
  }

  /** The factors of a power of two are powers of two. */
  lemma {:induction false} FactorOfPow2(x: nat, y: nat, n: nat) returns (k: nat)
    requires x * y == Pow2(n)
    ensures x == Pow2(k)
    decreases x + y
  {
    if x == 1 {
      k := 0;
    } else if x % 2 == 0 {
      PositiveFactors(x, y);
      Associate(2, x / 2, y);
      k := FactorOfPow2(x / 2, y, n - 1);
      k := k + 1;
    } else {
      PositiveFactors(x, y);
      OddTimes(x, y, Pow2(n - 1));
      Associate(2, x, y / 2);
      k := FactorOfPow2(x, y / 2, n - 1);
    }
  }

  lemma PositiveFactors(x: nat, y: nat)
    requires 0 < x * y
    ensures 0 < x && 0 < y && x <= x * y && y <= x * y
  {
    if x != 0 && y != 0 {
      MulMono(1, y, x);
      MulMono(1, x, y);
    }
  }

  lemma OddTimes(x: int, y: int, h: int)
    requires x % 2 == 1 && x * y == 2 * h
    ensures y % 2 == 0
  {
    var i := x / 2;
    Distribute(y, 2 * i, 1, 0, 0);
    Associate(2, i, y);
    assert y == 2 * (h - i * y);
  }
}
