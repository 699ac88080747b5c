/** Complement and negation of limb arrays. */
module MpnNeg {
  import opened Arith
  import opened Limb
  import opened Mpn
  import opened MpnShift

  /** mpn_com: the ones' complement of n limbs. */
  method Com(rp: array<Limb>, ro: nat, up: array<Limb>, uo: nat, n: nat)
    requires ro + n <= rp.Length && uo + n <= up.Length
    requires rp != up || ro <= uo
    modifies rp
    ensures Val(rp, ro, n) == BPow(n) - 1 - old(Val(up, uo, n))
    ensures SameOutside(rp, old(rp[..]), ro, n)
  {
    hide Value, BPow;
    ghost var s: seq<Limb> := up[uo..uo + n];
    AtStart(rp, ro, s, s);
    var i := 0;
    while i < n
      invariant 0 <= i <= n
      invariant Val(rp, ro, i) == BPow(i) - 1 - Value(s[..i])
      invariant SameOutside(rp, old(rp[..]), ro, i)
    {
      ghost var done: seq<Limb> := rp[ro..ro + i];
      assert up[uo + i] == s[i];
      StoreNext(rp, ro, i, B - 1 - up[uo + i], done);
      ScaleStep(done, -1, -1, -1, s, B - 1 - s[i], -1);
      i := i + 1;
    }
    assert s[..n] == s;
  }

  /** The loop of mpn_neg over the low zero limbs. */
  method CopyZeros(rp: array<Limb>, up: array<Limb>, n: nat) returns (i: nat)
    requires 1 <= n <= rp.Length && n <= up.Length
    modifies rp
    ensures i <= n && Val(rp, 0, i) == 0 && old(Val(up, 0, i)) == 0 && (i < n ==> old(up[i]) != 0)
    ensures SameOutside(rp, old(rp[..]), 0, i)
  {
    ghost var s: seq<Limb> := up[0..n];
    i := 0;
    while up[i] == 0
      invariant 0 <= i < n
      invariant Val(rp, 0, i) == 0 && Value(s[..i]) == 0
      invariant SameOutside(rp, old(rp[..]), 0, i)
      decreases n - i
    {
      ghost var done: seq<Limb> := rp[0..i];
      assert up[i] == s[i];
      ValueTake(s, i);
      ValueSnoc(done, 0);
      StoreNext(rp, 0, i, 0, done);
      i := i + 1;
      if i == n { break; }
    }
    assert s[..i] == old(up[0..i]);
  }

  /** mpn_neg: the two's complement of n limbs; says whether there was anything to negate. */
  method Neg(rp: array<Limb>, up: array<Limb>, n: nat) returns (nonzero: bool)
    requires 1 <= n <= rp.Length && n <= up.Length
    modifies rp
    ensures nonzero <==> old(Val(up, 0, n)) != 0
    ensures Val(rp, 0, n) == if nonzero then BPow(n) - old(Val(up, 0, n)) else 0
    ensures SameOutside(rp, old(rp[..]), 0, n)
  {
    hide Value, BPow;
    ghost var s: seq<Limb> := up[0..n];
    var i := CopyZeros(rp, up, n);
    if i == n {
      return false;
    }
    assert up[i..n] == s[i..] && s[..i] == old(up[0..i]);
    NegateRest(rp, up, n, i, s[i..], rp[0..i]);
    NegParts(s, i, rp[0..i], rp[i + 1..n]);
    nonzero := true;
  }

  /** The first nonzero limb is negated, the others are complemented. */
  method NegateRest(rp: array<Limb>, up: array<Limb>, n: nat, i: nat, ghost s: seq<Limb>, ghost done: seq<Limb>)
    requires i < n <= rp.Length && n <= up.Length && up[i..n] == s && s[0] != 0 && rp[0..i] == done
    modifies rp
    ensures rp[0..i] == done && rp[0..n] == done + [B - s[0]] + rp[i + 1..n]
    ensures Val(rp, i + 1, n - i - 1) == BPow(n - i - 1) - 1 - Value(s[1..])
    ensures SameOutside(rp, old(rp[..]), i, n - i)
  {
    hide Value, BPow;
    StoreNext(rp, 0, i, B - up[i], done);
    assert up[i + 1..n] == s[1..];
    Com(rp, i + 1, up, i + 1, n - i - 1);
  }

  lemma {:induction false} NegParts(s: seq<Limb>, i: nat, done: seq<Limb>, rest: seq<Limb>)
    requires i < |s| && |done| == i && |rest| == |s| - i - 1 && s[i] != 0
    requires Value(done) == 0 && Value(s[..i]) == 0 && Value(rest) == BPow(|rest|) - 1 - Value(s[i + 1..])
    ensures Value(done + [B - s[i]] + rest) == BPow(|s|) - Value(s) && Value(s) != 0
  {
    var x: Limb := B - s[i];
    assert Value(done + [x] + rest) == x * BPow(i) + BPow(i + 1) * Value(rest) by {
      ValueAppend(done + [x], rest);
      ValueSnoc(done, x);
    }
    assert Value(s) == s[i] * BPow(i) + BPow(i + 1) * Value(s[i + 1..]) by {
      ValueCut(s, i + 1);
      ValueTake(s, i);
    }
    BPowAdd(i + 1, |rest|);
    NegAlgebra(B, s[i], BPow(i), BPow(|rest|), Value(s[i + 1..]));
  }

  lemma NegAlgebra(b: int, x: int, p: int, q: int, v: int)
    ensures (b - x) * p + (b * p) * (q - 1 - v) == (b * p) * q - (x * p + (b * p) * v)
    ensures 0 < x && 0 < p && 0 < b && 0 <= v ==> 0 < x * p + (b * p) * v
  {
    Distribute(b * p, q, 0, 0, 1 + v);
    Distribute(p, b, 0, 0, x);
    if 0 < x && 0 < p && 0 < b && 0 <= v {
      MulMono(1, x, p);
      MulBounds(0, b, 0, p);
      MulBounds(0, b * p, 0, v);
    }
  }
}
