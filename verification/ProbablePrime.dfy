/** The primality test: table, small factors, then strong tests to a fixed sequence of bases. */
module ProbablePrime {
  import opened Arith
  import opened Bits
  import opened Limb
  import opened Mpz
  import opened Divisibility
  import opened Prime
  import opened Gcd
  import opened GcdExt
  import opened Power
  import opened MillerRabin

  /** 3 * 5 * 7 * 11 * 13 * 17 * 19 * 23 * 29. */
  const PRIME_PRODUCT := 0xc0cfd797

  /** Bit (p + 1) / 2 is set for each odd prime p up to 61. */
  const PRIME_MASK := 0xc96996dc

  // ---- deciding primality of small numbers ----

  /** A number below b^2 without divisors below b is prime. */
  lemma NoSmallFactor(n: int, b: int)
    requires 1 < n < b * b && 1 < b && forall d :: 1 < d < b ==> !Divides(d, n)
    ensures IsPrime(n)
  {
    forall d | 1 < d < n ensures !Divides(d, n) {
      if Divides(d, n) {
        var k := Factor(d, n);
        CofactorRange(k, d, n);
        Multiple(k, n, d);
        assert b <= d && b <= k;
        MulBounds(b, k, b, d);
      }
    }
  }

  lemma CofactorRange(k: int, d: int, n: int)
    requires n == k * d && 1 < d < n
    ensures 1 < k
  {
    if k <= 1 { MulMono(k, 1, d); }
  }

  lemma ProperFactor(p: int, n: int)
    requires 1 < p < n && Divides(p, n)
    ensures !IsPrime(n)
  {
  }

  /** Odd numbers below 64: trial division by 3, 5 and 7 decides. */
  lemma SmallPrimes(n: int)
    requires 1 < n < 64 && n % 2 == 1
    ensures IsPrime(n) <==> TrialDivision(n)
  {
    DividesMod(3, n); DividesMod(5, n); DividesMod(7, n);
    if n % 3 == 0 && n != 3 {
      ProperFactor(3, n);
    } else if n % 5 == 0 && n != 5 {
      ProperFactor(5, n);
    } else if n % 7 == 0 && n != 7 {
      ProperFactor(7, n);
    } else {
      var b := if n < 9 then 3 else 8;
      forall d | 1 < d < b ensures !Divides(d, n) {
        if Divides(d, n) { OddDivisor(d, n); }
      }
      NoSmallFactor(n, b);
    }
  }

  function TableBit(n: int): (b: int)
    requires 0 <= n
  {
    (PRIME_MASK / Pow2(n / 2 + 1)) % 2
  }

  /** The table says exactly which odd numbers below 64 are prime. */
  lemma {:induction false} TableCorrect(n: int)
    requires 0 < n < 64 && n % 2 == 1
    ensures TableBit(n) == 1 <==> IsPrime(n)
  {
    if n > 1 { SmallPrimes(n); }
    MaskIsSieve();
    SieveBit(1, n);
    DivDiv(PRIME_MASK, 2, Pow2(n / 2));
  }

  predicate TrialDivision(n: int) {
    n != 1 && (n == 3 || n == 5 || n == 7 || (n % 3 != 0 && n % 5 != 0 && n % 7 != 0))
  }

  /** The table from the bit for n on, by trial division. */
  function Sieve(n: int): (m: int)
    ensures 0 <= m
    decreases 64 - n
  {
    if n >= 64 then 0 else (if TrialDivision(n) then 1 else 0) + 2 * Sieve(n + 2)
  }

  /** The mask is the sieve, shifted by one bit. */
  lemma {:induction false} MaskIsSieve()
    ensures 2 * Sieve(1) == PRIME_MASK
  {
    assert Sieve(63) == 0x0; assert Sieve(61) == 0x1; assert Sieve(59) == 0x3; assert Sieve(57) == 0x6;
    assert Sieve(55) == 0xc; assert Sieve(53) == 0x19; assert Sieve(51) == 0x32; assert Sieve(49) == 0x64;
    assert Sieve(47) == 0xc9; assert Sieve(45) == 0x192; assert Sieve(43) == 0x325; assert Sieve(41) == 0x64b;
    assert Sieve(39) == 0xc96; assert Sieve(37) == 0x192d; assert Sieve(35) == 0x325a;
    assert Sieve(33) == 0x64b4; assert Sieve(31) == 0xc969; assert Sieve(29) == 0x192d3;
    assert Sieve(27) == 0x325a6; assert Sieve(25) == 0x64b4c; assert Sieve(23) == 0xc9699;
    assert Sieve(21) == 0x192d32; assert Sieve(19) == 0x325a65; assert Sieve(17) == 0x64b4cb;
    assert Sieve(15) == 0xc96996; assert Sieve(13) == 0x192d32d; assert Sieve(11) == 0x325a65b;
    assert Sieve(9) == 0x64b4cb6; assert Sieve(7) == 0xc96996d; assert Sieve(5) == 0x192d32db;
    assert Sieve(3) == 0x325a65b7; assert Sieve(1) == 0x64b4cb6e;
  }

  lemma {:induction false} SieveBit(at: int, n: int)
    requires 0 < at <= n < 64 && n % 2 == 1 && at % 2 == 1
    ensures (Sieve(at) / Pow2((n - at) / 2)) % 2 == 1 <==> TrialDivision(n)
    decreases n - at
  {
    hide TrialDivision;
    if at == n {
      assert Pow2(0) == 1;
    } else {
      SieveBit(at + 2, n);
      var k := (n - at) / 2;
      DivDiv(Sieve(at), 2, Pow2(k - 1));
      assert Sieve(at) / 2 == Sieve(at + 2);
    }
  }

  lemma {:induction false} AndTwo(x: int)
    requires 0 <= x
    ensures Bitwise(AND, x, 2) == 2 * ((x / 2) % 2)
  {
    BitwiseHalves(AND, x, 2);
    BitwiseHalves(AND, x / 2, 1);
    AndZero(x / 2 / 2);
  }

  lemma {:induction false} AndZero(x: int)
    requires 0 <= x
    ensures Bitwise(AND, x, 0) == 0
    decreases x
  {
    if x > 0 { AndZero(x / 2); BitwiseHalves(AND, x, 0); }
  }

  /** The table lookup (PRIME_MASK >> (n >> 1)) & 2. */
  method Lookup(n: int) returns (r: int)
    requires 0 < n < 64 && n % 2 == 1
    ensures r == 2 || r == 0
    ensures r == 2 <==> IsPrime(n)
  {
    r := Bitwise(AND, Shr(PRIME_MASK, n / 2), 2);
    AndTwo(Shr(PRIME_MASK, n / 2));
    DivDiv(PRIME_MASK, Pow2(n / 2), 2);
    TableCorrect(n);
  }

  // ---- small factors through one gcd ----

  ghost predicate Listed(p: int) {
    p == 3 || p == 5 || p == 7 || p == 11 || p == 13 || p == 17 || p == 19 || p == 23 || p == 29
  }

  lemma ListedDivides(p: int)
    requires Listed(p)
    ensures Divides(p, PRIME_PRODUCT)
  {
    Multiple(p, PRIME_PRODUCT, PRIME_PRODUCT / p);
  }

  /** An odd number without a listed factor has no divisor from 2 to 30. */
  lemma NoListedFactor(n: int, d: int)
    requires n % 2 == 1 && IsGcd(1, n, PRIME_PRODUCT) && 1 < d < 31
    ensures !Divides(d, n)
  {
    if Divides(d, n) {
      OddDivisor(d, n);
      var p := if d % 3 == 0 then 3 else if d % 5 == 0 then 5 else d;
      assert Listed(p);
      Multiple(p, d, d / p);
      DividesTrans(p, d, n);
      ListedDivides(p);
      DividesBound(p, 1);
    }
  }

  /** A prime from 64 on has no common factor with the product. */
  lemma LargePrimeCoprime(n: int, g: int)
    requires IsPrime(n) && n >= 64 && IsGcd(g, n, PRIME_PRODUCT)
    ensures g == 1
  {
    DividesBound(g, n);
    if g == n { ProductFactor(n); }
  }

  lemma ProductFactor(n: int)
    requires IsPrime(n) && n >= 64
    ensures !Divides(n, PRIME_PRODUCT)
  {
    if Divides(n, PRIME_PRODUCT) {
      assert PRIME_PRODUCT == (3 * 5 * 7 * 11 * 13) * (17 * 19 * 23 * 29);
      Euclid(n, 3 * 5 * 7 * 11 * 13, 17 * 19 * 23 * 29);
      if Divides(n, 3 * 5 * 7 * 11 * 13) { FirstHalf(n); } else { SecondHalf(n); }
    }
  }

  lemma FirstHalf(n: int)
    requires IsPrime(n) && n >= 64
    ensures !Divides(n, 3 * 5 * 7 * 11 * 13)
  {
    if Divides(n, 3 * 5 * 7 * 11 * 13) {
      Euclid(n, 3 * 5, 7 * 11 * 13);
      TooSmall(n, 3 * 5);
      Euclid(n, 7, 11 * 13);
      TooSmall(n, 7);
      Euclid(n, 11, 13);
      TooSmall(n, 11); TooSmall(n, 13);
    }
  }

  lemma SecondHalf(n: int)
    requires IsPrime(n) && n >= 64
    ensures !Divides(n, 17 * 19 * 23 * 29)
  {
    if Divides(n, 17 * 19 * 23 * 29) {
      Euclid(n, 17, 19 * 23 * 29);
      TooSmall(n, 17);
      Euclid(n, 19, 23 * 29);
      TooSmall(n, 19);
      Euclid(n, 23, 29);
      TooSmall(n, 23); TooSmall(n, 29);
    }
  }

  lemma TooSmall(n: int, p: int)
    requires n >= 64 && 0 < p < 64
    ensures !Divides(n, p)
  {
    if Divides(n, p) { DividesBound(n, p); }
  }

  // ---- the test ----

  /** Euler's polynomial. */
  function Base(j: nat): (a: nat) { j * j + j + 41 }

  lemma BaseMono(i: nat, j: nat)
    requires i <= j
    ensures Base(i) <= Base(j)
  {
    MulBounds(i, j, i, j);
  }

  /** The bases that are tried: fewer than reps of them, and below n - 1. */
  ghost predicate Tried(n: int, reps: int, j: nat) { j < reps && Base(j) < n - 1 }

  /** n passes the strong test to every base that is tried. */
  ghost predicate PassesAll(n: int, reps: int, q: nat, k: nat) {
    forall j: nat :: Tried(n, reps, j) ==> StrongProbablePrime(n, Base(j), q, k)
  }

  lemma PrimePassesAll(n: int, reps: int, q: nat, k: nat)
    requires IsPrime(n) && n > 2 && n - 1 == q * Pow2(k)
    ensures PassesAll(n, reps, q, k)
  {
    forall j: nat | Tried(n, reps, j) ensures StrongProbablePrime(n, Base(j), q, k) {
      if Divides(n, Base(j)) { DividesBound(n, Base(j)); }
      PrimesPass(n, Base(j), q, k);
    }
  }

  /** What the tests say, written out. */
  lemma {:induction false} TestWritten(m: int, reps: int, q: nat, k: nat)
    requires m > 2 && k > 0 && m - 1 == q * Pow2(k)
    ensures PassesAll(m, reps, q, k) <==>
            forall j: nat :: j < reps && j * j + j + 41 < m - 1 ==>
              && Pow(j * j + j + 41, m - 1) % m == 1
              && forall i: nat :: i < k && Pow(j * j + j + 41, 2 * (q * Pow2(i))) % m == 1
                                  ==> Pow(j * j + j + 41, q * Pow2(i)) % m in {1, m - 1}
  {
    hide StrongProbablePrime, Pow, Pow2, ResidueRoots;
    if PassesAll(m, reps, q, k) {
      forall j: nat | j < reps && j * j + j + 41 < m - 1
        ensures Pow(j * j + j + 41, m - 1) % m == 1
        ensures forall i: nat :: i < k && Pow(j * j + j + 41, 2 * (q * Pow2(i))) % m == 1
                                 ==> Pow(j * j + j + 41, q * Pow2(i)) % m in {1, m - 1}
      {
        assert Tried(m, reps, j);
        StrongMeaning(m, Base(j), q, k);
        RootsWritten(m, Base(j), q, k);
      }
    } else {
      var j: nat :| Tried(m, reps, j) && !StrongProbablePrime(m, Base(j), q, k);
      StrongMeaning(m, Base(j), q, k);
      RootsWritten(m, Base(j), q, k);
      assert j < reps && j * j + j + 41 < m - 1;
    }
  }

  /** The loop over the bases, where |n| - 1 is q times 2^k. */
  method TestBases(n: int, reps: int, nm1: int, q: nat, k: nat) returns (isPrime: bool)
    requires Abs(n) >= 31 * 31 && nm1 == Abs(n) - 1 && q > 0 && k > 0
    ensures isPrime <==> PassesAll(Abs(n), reps, q, k)
  {
    ghost var m := Abs(n);
    var j := 0;
    isPrime := true;
    while isPrime && j < reps
      invariant 0 <= j
      invariant isPrime ==> forall i: nat :: i < j && Tried(m, reps, i) ==> StrongProbablePrime(m, Base(i), q, k)
      invariant !isPrime ==> exists i: nat :: Tried(m, reps, i) && !StrongProbablePrime(m, Base(i), q, k)
      decreases reps - j, isPrime
    {
      var y := Base(j);
      if y >= nm1 {
        EarlyBreak(j);
        assert j >= 30;
        forall i: nat | j <= i ensures !Tried(m, reps, i) { BaseMono(j, i); }
        break;
      }
      isPrime := StrongTest(n, nm1, y, q, k);
      assert Tried(m, reps, j) && (isPrime <==> StrongProbablePrime(m, Base(j), q, k));
      j := j + 1;
    }
  }

  /** The early stop can only happen from the thirtieth base on. */
  lemma EarlyBreak(j: nat)
    requires Base(j) >= 31 * 31 - 1
    ensures j >= 30
  {
    if j <= 29 { BaseMono(j, 29); }
  }

  lemma OddHalf(x: int, k: nat)
    requires 0 < x && x % 2 == 0 && k == TrailingZeros(x)
    ensures k > 0
  {
  }

  /** The powers of two split off. */
  method OddPart(x: int) returns (q: nat, k: nat)
    requires 0 < x && x % 2 == 0
    ensures x == q * Pow2(k) && q % 2 == 1 && q > 0 && k > 0
  {
    k := TrailingZeros(x);
    var p := Pow2(k);
    PositiveFactor(x / p, p, x);
    q := x / p;
    OddHalf(x, k);
  }

  /** The part for odd numbers that are not in the table. */
  method LargeOdd(n: int, reps: int) returns (r: int, ghost q: nat, ghost k: nat)
    requires n % 2 == 1 && Abs(n) >= 64
    ensures r == 0 || r == 1 || r == 2
    ensures IsPrime(Abs(n)) ==> r != 0
    ensures r == 2 ==> IsPrime(Abs(n))
    ensures Abs(n) < 31 * 31 ==> (r == 2 <==> IsPrime(Abs(n)))
    ensures Abs(n) - 1 == q * Pow2(k) && q % 2 == 1 && k > 0
    ensures Abs(n) >= 31 * 31 ==>
              (r == 1 <==> IsGcd(1, Abs(n), PRIME_PRODUCT) && PassesAll(Abs(n), reps, q, k))
  {
    hide Pow2, PassesAll;
    var nm1 := Abs(n) - 1;
    var odd, twos := OddPart(nm1);
    q, k := odd, twos;
    var g, d := GcdUi(n, PRIME_PRODUCT);
    if IsPrime(Abs(n)) { LargePrimeCoprime(Abs(n), g); }
    if IsGcd(1, Abs(n), PRIME_PRODUCT) { GcdUnique(1, g, Abs(n), PRIME_PRODUCT); }
    if d != 1 {
      r := 0;
      return;
    }
    if Abs(n) < 31 * 31 {
      forall e | 1 < e < 31 ensures !Divides(e, Abs(n)) { NoListedFactor(Abs(n), e); }
      NoSmallFactor(Abs(n), 31);
      r := 2;
      return;
    }
    var isPrime := TestBases(n, reps, nm1, odd, twos);
    if IsPrime(Abs(n)) { PrimePassesAll(Abs(n), reps, odd, twos); }
    r := if isPrime then 1 else 0;
  }

  /** mpz_probab_prime_p. Primes are never rejected, and 2 is sure. From 31 * 31 on 1 means that |n| is odd and has no
      factor below 31, and that to each of the first reps bases j^2 + j + 41 below |n| - 1 the power |n| - 1 is 1
      modulo |n| and no square root of 1 is met but 1 and -1; |n| - 1 is q 2^k with odd q. */
  method ProbabPrime(n: int, reps: int) returns (r: int, ghost q: nat, ghost k: nat)
    ensures r == 0 || r == 1 || r == 2
    ensures IsPrime(Abs(n)) ==> r != 0
    ensures r == 2 ==> IsPrime(Abs(n))
    ensures Abs(n) < 31 * 31 ==> (r == 2 <==> IsPrime(Abs(n)))
    ensures Abs(n) >= 31 * 31 && n % 2 == 1 ==> Abs(n) - 1 == q * Pow2(k) && q % 2 == 1
    ensures Abs(n) >= 31 * 31 ==>
              var m := Abs(n);
              (r == 1 <==>
               && n % 2 == 1 && IsGcd(1, m, 3 * 5 * 7 * 11 * 13 * 17 * 19 * 23 * 29)
               && forall j: nat :: j < reps && j * j + j + 41 < m - 1 ==>
                    && Pow(j * j + j + 41, m - 1) % m == 1
                    && forall i: nat :: i < k && Pow(j * j + j + 41, 2 * (q * Pow2(i))) % m == 1
                                        ==> Pow(j * j + j + 41, q * Pow2(i)) % m in {1, m - 1})
  {
    q, k := 0, 0;
    if n % 2 == 0 {
      EvenPrime(Abs(n));
      r := if Abs(n) == 2 then 2 else 0;
      return;
    }
    if Abs(n) < 64 {
      r := Lookup(Abs(n));
      return;
    }
    r, q, k := LargeOdd(n, reps);
    hide PassesAll, Pow, Pow2, IsPrime, IsGcd;
    TestWritten(Abs(n), reps, q, k);
  }

  lemma EvenPrime(n: int)
    requires 0 <= n && n % 2 == 0
    ensures IsPrime(n) <==> n == 2
  {
    Multiple(2, n, n / 2);
    if n > 2 { ProperFactor(2, n); }
  }
}
