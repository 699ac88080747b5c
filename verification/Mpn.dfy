/** Natural numbers as little-endian limb arrays: the mpn_ layer of mini-gmp, updated in place. */
module Mpn {
  import opened Arith
  import opened Limb

  /** The number that a sequence of limbs stands for, least significant limb first. */
  function Value(s: seq<Limb>): (v: nat) { ValueOfLast(s, |s|) }

  /** The value of the last k limbs. */
  function ValueOfLast(s: seq<Limb>, k: nat): (v: nat)
    requires k <= |s|
    decreases k
  {
    if k == 0 then 0 else s[|s| - k] + B * ValueOfLast(s, k - 1)
  }

  function BPow(n: nat): (p: nat)
    ensures p > 0
  {
    if n == 0 then 1 else B * BPow(n - 1)
  }

  lemma {:induction false} LastOfTail(s: seq<Limb>, k: nat)
    requires k < |s|
    ensures ValueOfLast(s, k) == ValueOfLast(s[1..], k)
    decreases k
  {
    if k > 0 { LastOfTail(s, k - 1); }
  }

  lemma {:induction false} ValueCons(s: seq<Limb>)
    requires s != []
    ensures Value(s) == s[0] + B * Value(s[1..])
  {
    LastOfTail(s, |s| - 1);
  }

  lemma {:induction false} NoLimbs()
    ensures BPow(0) == 1 && Value([]) == 0
  {
  }

  lemma {:induction false} ValueAppend(s: seq<Limb>, t: seq<Limb>)
    ensures Value(s + t) == Value(s) + BPow(|s|) * Value(t)
    decreases |s|
  {
    if s == [] {
      assert s + t == t;
    } else {
      assert (s + t)[1..] == s[1..] + t;
      ValueCons(s + t); ValueCons(s);
      ValueAppend(s[1..], t);
      Associate(B, BPow(|s| - 1), Value(t));
    }
  }

  lemma {:induction false} ValueSnoc(s: seq<Limb>, x: Limb)
    ensures Value(s + [x]) == Value(s) + x * BPow(|s|)
  {
    ValueAppend(s, [x]);
    assert ValueOfLast([x], 0) == 0;
    assert Value([x]) == x;
  }

  lemma {:induction false} ValueBound(s: seq<Limb>)
    ensures Value(s) < BPow(|s|)
    decreases |s|
  {
    if s != [] { ValueCons(s); ValueBound(s[1..]); }
  }

  /** Value of the n limbs that start at offset lo. */
  ghost function Val(a: array<Limb>, lo: nat, n: nat): nat
    requires lo + n <= a.Length
    reads a
  {
    Value(a[lo..lo + n])
  }

  /** Where the loops over limbs start. */
  lemma {:induction false} AtStart(a: array<Limb>, lo: nat, s: seq<Limb>, t: seq<Limb>)
    requires lo <= a.Length
    ensures BPow(0) == 1 && Val(a, lo, 0) == 0 && Value(s[..0]) == 0 && Value(t[..0]) == 0
  {
    assert a[lo..lo] == [] && s[..0] == [] && t[..0] == [];
  }

  /** All of a[..] except the n limbs from offset lo on is as in s. */
  ghost predicate SameOutside(a: array<Limb>, s: seq<Limb>, lo: nat, n: nat)
    requires |s| == a.Length
    reads a
  {
    forall j :: 0 <= j < a.Length && !(lo <= j < lo + n) ==> a[j] == s[j]
  }

  /** *rp++ = x, after the i limbs in done. */
  method StoreNext(rp: array<Limb>, ro: nat, i: nat, x: Limb, ghost done: seq<Limb>)
    requires ro + i < rp.Length && rp[ro..ro + i] == done
    modifies rp
    ensures rp[ro..ro + i + 1] == done + [x]
    ensures SameOutside(rp, old(rp[..]), ro + i, 1)
  {
    rp[ro + i] := x;
  }

  /** *--rp = x, below the limbs in done. */
  method StoreBelow(rp: array<Limb>, at: nat, end: nat, x: Limb, ghost done: seq<Limb>)
    requires at < end <= rp.Length && rp[at + 1..end] == done
    modifies rp
    ensures rp[at..end] == [x] + done
    ensures SameOutside(rp, old(rp[..]), at, 1)
  {
    rp[at] := x;
  }

  lemma {:induction false} ValueTake(s: seq<Limb>, i: nat)
    requires i < |s|
    ensures Value(s[..i + 1]) == Value(s[..i]) + s[i] * BPow(i)
  {
    assert s[..i + 1] == s[..i] + [s[i]];
    ValueSnoc(s[..i], s[i]);
  }

  /** One more column, with digit sum d, of a loop that carries c into it and c' out of it. */
  lemma {:induction false} NextColumn(done: seq<Limb>, c: int, x: int, d: int, r: Limb, c': int)
    requires Value(done) + c * BPow(|done|) == x
    requires r + c' * B == d + c
    ensures Value(done + [r]) + c' * BPow(|done| + 1) == x + d * BPow(|done|)
  {
    var p := BPow(|done|);
    ValueSnoc(done, r);
    Distribute(p, r, c' * B, 0, c);
    Associate(c', B, p);
  }

  /** One more column of x + k * t. */
  lemma {:induction false} ScaleStep(done: seq<Limb>, c: int, x: int, k: int, t: seq<Limb>, r: Limb, c': int)
    requires |done| < |t|
    requires Value(done) + c * BPow(|done|) == x + k * Value(t[..|done|])
    requires r + c' * B == k * t[|done|] + c
    ensures Value(done + [r]) + c' * BPow(|done| + 1) == x + k * Value(t[..|done| + 1])
  {
    var i := |done|;
    NextColumn(done, c, x + k * Value(t[..i]), k * t[i], r, c');
    ValueTake(t, i);
    Distribute(k, Value(t[..i]), t[i] * BPow(i), 0, 0);
    Associate(k, t[i], BPow(i));
  }

  /** One more column of s + k * t. */
  lemma {:induction false} SumStep(done: seq<Limb>, c: int, s: seq<Limb>, k: int, t: seq<Limb>, r: Limb, c': int)
    requires |done| < |s| && |done| < |t|
    requires Value(done) + c * BPow(|done|) == Value(s[..|done|]) + k * Value(t[..|done|])
    requires r + c' * B == s[|done|] + k * t[|done|] + c
    ensures Value(done + [r]) + c' * BPow(|done| + 1) == Value(s[..|done| + 1]) + k * Value(t[..|done| + 1])
  {
    var i := |done|;
    NextColumn(done, c, Value(s[..i]) + k * Value(t[..i]), s[i] + k * t[i], r, c');
    ValueTake(s, i); ValueTake(t, i);
    SumAlgebra(BPow(i), Value(s[..i]), s[i], k, Value(t[..i]), t[i]);
  }

  lemma SumAlgebra(p: int, vs: int, a: int, k: int, vt: int, b: int)
    ensures (vs + a * p) + k * (vt + b * p) == vs + k * vt + (a + k * b) * p
  {
  }

  lemma Negate(x: int, y: int)
    ensures (-y) * x == -(x * y)
  {
  }

  lemma Commute(x: int, y: int)
    ensures y * x == x * y
  {
  }

  lemma {:induction false} AddmulStep(done: seq<Limb>, c: int, s: seq<Limb>, v: int, t: seq<Limb>, r: Limb, c': int)
    requires |done| < |s| && |done| < |t|
    requires Value(done) == Value(s[..|done|]) + Value(t[..|done|]) * v - c * BPow(|done|)
    requires r + c' * B == s[|done|] + t[|done|] * v + c
    ensures Value(done + [r]) == Value(s[..|done| + 1]) + Value(t[..|done| + 1]) * v - c' * BPow(|done| + 1)
  {
    Commute(Value(t[..|done|]), v); Commute(t[|done|], v); Commute(Value(t[..|done| + 1]), v);
    SumStep(done, c, s, v, t, r, c');
  }

  /** mpn_addmul_1. */
  method Addmul1(rp: array<Limb>, ro: nat, up: array<Limb>, uo: nat, n: nat, vl: Limb) returns (cl: Limb)
    requires 0 < n && ro + n <= rp.Length && uo + n <= up.Length
    requires rp != up
    modifies rp
    ensures Val(rp, ro, n) == old(Val(rp, ro, n)) + Val(up, uo, n) * vl - cl * BPow(n)
    ensures SameOutside(rp, old(rp[..]), ro, n)
  {
    hide Value, BPow;
    ghost var s: seq<Limb>, t: seq<Limb> := rp[ro..ro + n], up[uo..uo + n];
    AtStart(rp, ro, s, t);
    cl := 0;
    var i := 0;
    while i < n
      invariant 0 <= i <= n
      invariant Val(rp, ro, i) == Value(s[..i]) + Value(t[..i]) * vl - cl * BPow(i)
      invariant SameOutside(rp, old(rp[..]), ro, i)
    {
      ghost var done: seq<Limb>, c := rp[ro..ro + i], cl;
      assert rp[ro + i] == s[i] && up[uo + i] == t[i];
      var lpl;
      lpl, cl := MulAddColumn(up[uo + i], vl, cl, rp[ro + i]);
      StoreNext(rp, ro, i, lpl, done);
      AddmulStep(done, c, s, vl, t, lpl, cl);
      i := i + 1;
    }
    assert s[..n] == s && t[..n] == t;
  }

  lemma {:induction false} SubmulStep(done: seq<Limb>, c: int, s: seq<Limb>, v: int, t: seq<Limb>, r: Limb, c': int)
    requires |done| < |s| && |done| < |t|
    requires Value(done) == Value(s[..|done|]) - Value(t[..|done|]) * v + c * BPow(|done|)
    requires r - c' * B == s[|done|] - t[|done|] * v - c
    ensures Value(done + [r]) == Value(s[..|done| + 1]) - Value(t[..|done| + 1]) * v + c' * BPow(|done| + 1)
  {
    Negate(Value(t[..|done|]), v); Negate(t[|done|], v); Negate(Value(t[..|done| + 1]), v);
    Negate(BPow(|done|), c); Negate(BPow(|done| + 1), c');
    SumStep(done, -c, s, -v, t, r, -c');
  }

  /** mpn_submul_1. */
  method Submul1(rp: array<Limb>, ro: nat, up: array<Limb>, uo: nat, n: nat, vl: Limb) returns (cl: Limb)
    requires 0 < n && ro + n <= rp.Length && uo + n <= up.Length
    requires rp != up
    modifies rp
    ensures Val(rp, ro, n) == old(Val(rp, ro, n)) - Val(up, uo, n) * vl + cl * BPow(n)
    ensures SameOutside(rp, old(rp[..]), ro, n)
  {
    hide Value, BPow;
    ghost var s: seq<Limb>, t: seq<Limb> := rp[ro..ro + n], up[uo..uo + n];
    AtStart(rp, ro, s, t);
    cl := 0;
    var i := 0;
    while i < n
      invariant 0 <= i <= n
      invariant Val(rp, ro, i) == Value(s[..i]) - Value(t[..i]) * vl + cl * BPow(i)
      invariant SameOutside(rp, old(rp[..]), ro, i)
    {
      ghost var done: seq<Limb>, c := rp[ro..ro + i], cl;
      assert rp[ro + i] == s[i] && up[uo + i] == t[i];
      var lpl;
      lpl, cl := MulSubColumn(up[uo + i], vl, cl, rp[ro + i]);
      StoreNext(rp, ro, i, lpl, done);
      SubmulStep(done, c, s, vl, t, lpl, cl);
      i := i + 1;
    }
    assert s[..n] == s && t[..n] == t;
  }

  lemma {:induction false} AddStep(done: seq<Limb>, c: int, s: seq<Limb>, t: seq<Limb>, r: Limb, c': int)
    requires |done| < |s| && |done| < |t|
    requires Value(done) == Value(s[..|done|]) + Value(t[..|done|]) - c * BPow(|done|)
    requires r + c' * B == s[|done|] + t[|done|] + c
    ensures Value(done + [r]) == Value(s[..|done| + 1]) + Value(t[..|done| + 1]) - c' * BPow(|done| + 1)
  {
    AddmulStep(done, c, s, 1, t, r, c');
  }

  lemma {:induction false} SubStep(done: seq<Limb>, c: int, s: seq<Limb>, t: seq<Limb>, r: Limb, c': int)
    requires |done| < |s| && |done| < |t|
    requires Value(done) == Value(s[..|done|]) - Value(t[..|done|]) + c * BPow(|done|)
    requires r - c' * B == s[|done|] - t[|done|] - c
    ensures Value(done + [r]) == Value(s[..|done| + 1]) - Value(t[..|done| + 1]) + c' * BPow(|done| + 1)
  {
    SubmulStep(done, c, s, 1, t, r, c');
  }

  /** mpn_add_n. */
  method AddN(rp: array<Limb>, ro: nat, ap: array<Limb>, ao: nat, bp: array<Limb>, bo: nat, n: nat)
    returns (cy: Limb)
    requires ro + n <= rp.Length && ao + n <= ap.Length && bo + n <= bp.Length
    requires (rp != ap || ro <= ao) && (rp != bp || ro <= bo)
    modifies rp
    ensures cy <= 1
    ensures Val(rp, ro, n) == old(Val(ap, ao, n)) + old(Val(bp, bo, n)) - cy * BPow(n)
    ensures SameOutside(rp, old(rp[..]), ro, n)
  {
    hide Value, BPow;
    ghost var s: seq<Limb>, t: seq<Limb> := ap[ao..ao + n], bp[bo..bo + n];
    AtStart(rp, ro, s, t);
    cy := 0;
    var i := 0;
    while i < n
      invariant 0 <= i <= n && cy <= 1
      invariant Val(rp, ro, i) == Value(s[..i]) + Value(t[..i]) - cy * BPow(i)
      invariant SameOutside(rp, old(rp[..]), ro, i)
    {
      ghost var done: seq<Limb>, c := rp[ro..ro + i], cy;
      assert ap[ao + i] == s[i] && bp[bo + i] == t[i];
      var r;
      r, cy := AddColumn(ap[ao + i], bp[bo + i], cy);
      StoreNext(rp, ro, i, r, done);
      AddStep(done, c, s, t, r, cy);
      i := i + 1;
    }
    assert s[..n] == s && t[..n] == t;
  }

  /** mpn_sub_n. */
  method SubN(rp: array<Limb>, ro: nat, ap: array<Limb>, ao: nat, bp: array<Limb>, bo: nat, n: nat)
    returns (cy: Limb)
    requires ro + n <= rp.Length && ao + n <= ap.Length && bo + n <= bp.Length
    requires (rp != ap || ro <= ao) && (rp != bp || ro <= bo)
    modifies rp
    ensures cy <= 1
    ensures Val(rp, ro, n) == old(Val(ap, ao, n)) - old(Val(bp, bo, n)) + cy * BPow(n)
    ensures SameOutside(rp, old(rp[..]), ro, n)
  {
    hide Value, BPow;
    ghost var s: seq<Limb>, t: seq<Limb> := ap[ao..ao + n], bp[bo..bo + n];
    AtStart(rp, ro, s, t);
    cy := 0;
    var i := 0;
    while i < n
      invariant 0 <= i <= n && cy <= 1
      invariant Val(rp, ro, i) == Value(s[..i]) - Value(t[..i]) + cy * BPow(i)
      invariant SameOutside(rp, old(rp[..]), ro, i)
    {
      ghost var done: seq<Limb>, c := rp[ro..ro + i], cy;
      assert ap[ao + i] == s[i] && bp[bo + i] == t[i];
      var r;
      r, cy := SubColumn(ap[ao + i], bp[bo + i], cy);
      StoreNext(rp, ro, i, r, done);
      SubStep(done, c, s, t, r, cy);
      i := i + 1;
    }
    assert s[..n] == s && t[..n] == t;
  }

  lemma {:induction false} Add1Step(done: seq<Limb>, c: int, s: seq<Limb>, b: int, r: Limb, c': int)
    requires |done| < |s|
    requires Value(done) == Value(s[..|done|]) + b - c * BPow(|done|)
    requires r + c' * B == s[|done|] + c
    ensures Value(done + [r]) == Value(s[..|done| + 1]) + b - c' * BPow(|done| + 1)
  {
    ScaleStep(done, c, b, 1, s, r, c');
  }

  /** mpn_add_1. */
  method Add1(rp: array<Limb>, ro: nat, ap: array<Limb>, ao: nat, n: nat, b0: Limb) returns (b: Limb)
    requires 0 < n && ro + n <= rp.Length && ao + n <= ap.Length
    requires rp != ap || ro <= ao
    modifies rp
    ensures b <= 1
    ensures Val(rp, ro, n) == old(Val(ap, ao, n)) + b0 - b * BPow(n)
    ensures SameOutside(rp, old(rp[..]), ro, n)
  {
    hide Value, BPow;
    ghost var s: seq<Limb> := ap[ao..ao + n];
    AtStart(rp, ro, s, s);
    b := b0;
    var i := 0;
    while i < n
      invariant 0 <= i <= n && (i > 0 ==> b <= 1)
      invariant Val(rp, ro, i) == Value(s[..i]) + b0 - b * BPow(i)
      invariant SameOutside(rp, old(rp[..]), ro, i)
    {
      ghost var done: seq<Limb>, c := rp[ro..ro + i], b;
      assert ap[ao + i] == s[i];
      var r := Wrap(ap[ao + i] + b);
      b := if r < b then 1 else 0;
      StoreNext(rp, ro, i, r, done);
      Add1Step(done, c, s, b0, r, b);
      i := i + 1;
    }
    assert s[..n] == s;
  }

  lemma {:induction false} Sub1Step(done: seq<Limb>, c: int, s: seq<Limb>, b: int, r: Limb, c': int)
    requires |done| < |s|
    requires Value(done) == Value(s[..|done|]) - b + c * BPow(|done|)
    requires r - c' * B == s[|done|] - c
    ensures Value(done + [r]) == Value(s[..|done| + 1]) - b + c' * BPow(|done| + 1)
  {
    Negate(BPow(|done|), c); Negate(BPow(|done| + 1), c');
    ScaleStep(done, -c, -b, 1, s, r, -c');
  }

  /** mpn_sub_1. */
  method Sub1(rp: array<Limb>, ro: nat, ap: array<Limb>, ao: nat, n: nat, b0: Limb) returns (b: Limb)
    requires 0 < n && ro + n <= rp.Length && ao + n <= ap.Length
    requires rp != ap || ro <= ao
    modifies rp
    ensures b <= 1
    ensures Val(rp, ro, n) == old(Val(ap, ao, n)) - b0 + b * BPow(n)
    ensures SameOutside(rp, old(rp[..]), ro, n)
  {
    hide Value, BPow;
    ghost var s: seq<Limb> := ap[ao..ao + n];
    AtStart(rp, ro, s, s);
    b := b0;
    var i := 0;
    while i < n
      invariant 0 <= i <= n && (i > 0 ==> b <= 1)
      invariant |s| == n && Val(rp, ro, i) == Value(s[..i]) - b0 + b * BPow(i)
      invariant SameOutside(rp, old(rp[..]), ro, i)
    {
      ghost var done: seq<Limb>, c := rp[ro..ro + i], b;
      assert ap[ao + i] == old(ap[ao + i]) == s[i];
      var a := ap[ao + i];
      var cy := if a < b then 1 else 0;
      var r := Wrap(a - b);
      b := cy;
      StoreNext(rp, ro, i, r, done);
      Sub1Step(done, c, s, b0, r, b);
      i := i + 1;
    }
    assert s[..n] == s;
  }

  lemma {:induction false} Mul1Step(done: seq<Limb>, c: int, t: seq<Limb>, v: int, r: Limb, c': int)
    requires |done| < |t|
    requires Value(done) == Value(t[..|done|]) * v - c * BPow(|done|)
    requires r + c' * B == t[|done|] * v + c
    ensures Value(done + [r]) == Value(t[..|done| + 1]) * v - c' * BPow(|done| + 1)
  {
    Commute(Value(t[..|done|]), v); Commute(t[|done|], v); Commute(Value(t[..|done| + 1]), v);
    ScaleStep(done, c, 0, v, t, r, c');
  }

  /** mpn_mul_1. */
  method Mul1(rp: array<Limb>, ro: nat, up: array<Limb>, uo: nat, n: nat, vl: Limb) returns (cl: Limb)
    requires 0 < n && ro + n <= rp.Length && uo + n <= up.Length
    requires rp != up || ro <= uo
    modifies rp
    ensures Val(rp, ro, n) == old(Val(up, uo, n)) * vl - cl * BPow(n)
    ensures SameOutside(rp, old(rp[..]), ro, n)
  {
    hide Value, BPow;
    ghost var t: seq<Limb> := up[uo..uo + n];
    AtStart(rp, ro, t, t);
    cl := 0;
    var i := 0;
    while i < n
      invariant 0 <= i <= n
      invariant Val(rp, ro, i) == Value(t[..i]) * vl - cl * BPow(i)
      invariant SameOutside(rp, old(rp[..]), ro, i)
    {
      ghost var done: seq<Limb>, c := rp[ro..ro + i], cl;
      assert up[uo + i] == t[i];
      var lpl;
      lpl, cl := MulColumn(up[uo + i], vl, cl);
      StoreNext(rp, ro, i, lpl, done);
      Mul1Step(done, c, t, vl, lpl, cl);
      i := i + 1;
    }
    assert t[..n] == t;
  }

}
