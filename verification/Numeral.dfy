/** Positional notation: digit sequences and the numbers they stand for. */
module Numeral {
  import opened Arith
  import opened Power

  type Byte = x: int | 0 <= x < 256

  /** Most significant digit first. */
  function Number(ds: seq<int>, b: int): (n: int) {
    if |ds| == 0 then 0 else Number(ds[..|ds| - 1], b) * b + ds[|ds| - 1]
  }

  /** Least significant digit first. */
  function LowFirst(ds: seq<int>, b: int): (n: int) {
    if |ds| == 0 then 0 else ds[0] + b * LowFirst(ds[1..], b)
  }

  ghost predicate DigitsBelow(ds: seq<int>, b: int) {
    forall k :: 0 <= k < |ds| ==> 0 <= ds[k] < b
  }

  lemma {:induction false} NumberSnoc(ds: seq<int>, d: int, b: int)
    ensures Number(ds + [d], b) == Number(ds, b) * b + d
  {
    assert (ds + [d])[..|ds|] == ds;
  }

  lemma {:induction false} NumberCons(d: int, ds: seq<int>, b: int)
    ensures Number([d] + ds, b) == d * Pow(b, |ds|) + Number(ds, b)
    decreases |ds|
  {
    if ds == [] {
      assert [d] + ds == [] + [d];
      NumberSnoc([], d, b);
      assert Pow(b, 0) == 1;
    } else {
      var n := |ds| - 1;
      NumberCons(d, ds[..n], b);
      NumberConsSnoc(d, ds[..n], ds[n], b);
      assert ds == ds[..n] + [ds[n]] && [d] + ds == [d] + ds[..n] + [ds[n]];
    }
  }

  lemma {:induction false} NumberConsSnoc(d: int, low: seq<int>, last: int, b: int)
    requires Number([d] + low, b) == d * Pow(b, |low|) + Number(low, b)
    ensures Number([d] + low + [last], b) == d * Pow(b, |low| + 1) + Number(low + [last], b)
  {
    NumberSnoc([d] + low, last, b);
    NumberSnoc(low, last, b);
    ConsStep(d, b, Pow(b, |low|), Number(low, b), Number([d] + low, b));
  }

  lemma ConsStep(d: int, b: int, p: int, m: int, x: int)
    requires x == d * p + m
    ensures x * b == d * (b * p) + m * b
  {
    ConsAlgebra(d, b, p, m);
  }

  lemma ConsAlgebra(d: int, b: int, p: int, m: int)
    ensures (d * p + m) * b == d * (b * p) + m * b
  {
  }

  lemma {:induction false} NumberBound(ds: seq<int>, b: int)
    requires 0 < b && DigitsBelow(ds, b)
    ensures 0 <= Number(ds, b) < Pow(b, |ds|)
    decreases |ds|
  {
    if ds != [] {
      var n := |ds| - 1;
      NumberBound(ds[..n], b);
      HornerBound(Number(ds[..n], b), Pow(b, n), b, ds[n]);
    }
  }

  lemma HornerBound(m: int, p: int, b: int, d: int)
    requires 0 <= m < p && 0 < b && 0 <= d < b
    ensures 0 <= m * b + d < b * p
  {
    MulBounds(0, m, 0, b);
    MulMono(m + 1, p, b);
    Distribute(b, m, 1, 0, 0);
  }

  lemma {:induction false} LowAppend(s: seq<int>, t: seq<int>, b: int)
    ensures LowFirst(s + t, b) == LowFirst(s, b) + Pow(b, |s|) * LowFirst(t, b)
    decreases |s|
  {
    if s == [] {
      assert s + t == t;
    } else {
      assert (s + t)[1..] == s[1..] + t;
      LowAppend(s[1..], t, b);
      AppendAlgebra(b, LowFirst(s[1..], b), Pow(b, |s| - 1), LowFirst(t, b));
    }
  }

  lemma AppendAlgebra(b: int, x: int, p: int, y: int)
    ensures b * (x + p * y) == b * x + (b * p) * y
  {
  }

  /** t is s backwards. */
  ghost predicate Reversed(s: seq<int>, t: seq<int>) {
    |s| == |t| && forall k :: 0 <= k < |t| ==> t[k] == s[|s| - 1 - k]
  }

  lemma {:induction false} NumberOfReversed(s: seq<int>, t: seq<int>, b: int)
    requires Reversed(s, t)
    ensures Number(t, b) == LowFirst(s, b)
    decreases |s|
  {
    if s != [] {
      NumberOfReversed(s[1..], t[..|t| - 1], b);
    }
  }

  // ---- canonical numerals ----

  /** The digits of n > 0 in base b, most significant first. */
  function NatDigits(n: int, b: int): (ds: seq<int>)
    requires 0 < n && 2 <= b
    decreases n
  {
    if n < b then [n] else
      QuotientSmaller(n, b);
      NatDigits(n / b, b) + [n % b]
  }

  lemma QuotientSmaller(n: int, b: int)
    requires 2 <= b <= n
    ensures 0 < n / b < n
  {
    var q := n / b;
    if q <= 0 { MulMono(q, 0, b); }
    MulMono(2, b, q);
  }

  /** ds is a numeral for n: digits in range and no leading zero. */
  ghost predicate IsNumeral(ds: seq<int>, n: int, b: int) {
    ds != [] && DigitsBelow(ds, b) && ds[0] != 0 && Number(ds, b) == n
  }

  lemma {:induction false} NatDigitsCorrect(n: int, b: int)
    requires 0 < n && 2 <= b
    ensures IsNumeral(NatDigits(n, b), n, b)
    decreases n
  {
    if n < b {
      assert [n] == [] + [n];
      NumberSnoc([], n, b);
    } else {
      QuotientSmaller(n, b);
      var q, r := n / b, n % b;
      assert n == q * b + r;
      NatDigitsCorrect(q, b);
      NumberSnoc(NatDigits(q, b), r, b);
      hide Number;
    }
  }

  lemma {:induction false} LeadingDigit(ds: seq<int>, b: int)
    requires 0 < b && ds != [] && DigitsBelow(ds, b) && ds[0] != 0
    ensures Pow(b, |ds| - 1) <= Number(ds, b)
  {
    assert ds == [ds[0]] + ds[1..];
    NumberCons(ds[0], ds[1..], b);
    NumberBound(ds[1..], b);
    MulMono(1, ds[0], Pow(b, |ds| - 1));
  }

  /** Every number has one numeral. */
  lemma {:induction false} NumeralUnique(ds: seq<int>, n: int, b: int)
    requires 0 < n && 2 <= b && IsNumeral(ds, n, b)
    ensures ds == NatDigits(n, b)
    decreases |ds|
  {
    var k := |ds| - 1;
    var m := Number(ds[..k], b);
    assert n == m * b + ds[k];
    DivModUnique(n, b, m, ds[k]);
    if k == 0 {
      assert ds == [n];
    } else {
      LeadingDigit(ds[..k], b);
      assert 1 <= Pow(b, k - 1);
      MulMono(1, m, b);
      NumeralUnique(ds[..k], m, b);
      assert ds == ds[..k] + [ds[k]];
    }
  }
}
