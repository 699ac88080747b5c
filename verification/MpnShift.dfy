/** Comparison, shifts, negation and the operations on operands of different lengths. */
module MpnShift {
  import opened Arith
  import opened Bits
  import opened Limb
  import opened Mpn

  lemma {:induction false} BPowAdd(m: nat, n: nat)
    ensures BPow(m + n) == BPow(m) * BPow(n)
    decreases m
  {
    if m > 0 {
      BPowAdd(m - 1, n);
      Associate(B, BPow(m - 1), BPow(n));
    }
  }

  /** A stretch of limbs, cut after its first m limbs. */
  lemma {:induction false} ValueCut(s: seq<Limb>, m: nat)
    requires m <= |s|
    ensures Value(s) == Value(s[..m]) + BPow(m) * Value(s[m..])
  {
    assert s == s[..m] + s[m..];
    ValueAppend(s[..m], s[m..]);
  }

  lemma {:induction false} ValCut(a: array<Limb>, lo: nat, n: nat, m: nat)
    requires m <= n && lo + n <= a.Length
    ensures Val(a, lo, n) == Val(a, lo, m) + BPow(m) * Val(a, lo + m, n - m)
  {
    var s: seq<Limb> := a[lo..lo + n];
    ValueCut(s, m);
    assert s[..m] == a[lo..lo + m] && s[m..] == a[lo + m..lo + n];
  }

  lemma JoinAdd(p: int, q: int, a0: int, a1: int, b: int, c: int, d: int, r0: int, r1: int)
    requires r0 == a0 + b - c * p && r1 == a1 + c - d * q
    ensures r0 + p * r1 == a0 + p * a1 + b - d * (p * q)
  {
    Distribute(p, a1, c, 0, d * q);
    Associate(p, d, q);
  }

  lemma JoinSub(p: int, q: int, a0: int, a1: int, b: int, c: int, d: int, r0: int, r1: int)
    requires r0 == a0 - b + c * p && r1 == a1 - c + d * q
    ensures r0 + p * r1 == a0 + p * a1 - b + d * (p * q)
  {
    Distribute(p, a1, d * q, 0, c);
    Associate(p, d, q);
  }

  /** mpn_add, for operands of an >= bn limbs. */
  method Add(rp: array<Limb>, ap: array<Limb>, an: nat, bp: array<Limb>, bn: nat) returns (cy: Limb)
    requires bn <= an <= rp.Length && an <= ap.Length && bn <= bp.Length
    modifies rp
    ensures cy <= 1
    ensures Val(rp, 0, an) == old(Val(ap, 0, an)) + old(Val(bp, 0, bn)) - cy * BPow(an)
    ensures SameOutside(rp, old(rp[..]), 0, an)
  {
    hide Value, BPow, Pow2;
    NoLimbs();
    ValCut(ap, 0, an, bn);
    ghost var a0, high: seq<Limb>, b := Val(ap, 0, bn), ap[bn..an], Val(bp, 0, bn);
    cy := AddN(rp, 0, ap, 0, bp, 0, bn);
    ghost var low: seq<Limb>, c := rp[0..bn], cy;
    assert ap[bn..an] == high;
    if an > bn {
      cy := Add1(rp, bn, ap, bn, an - bn, cy);
      assert rp[0..bn] == low;
      ValCut(rp, 0, an, bn);
      BPowAdd(bn, an - bn);
      JoinAdd(BPow(bn), BPow(an - bn), a0, Value(high), b, c, cy, Value(low), Val(rp, bn, an - bn));
    } else {
      assert Value(high) == 0;
    }
  }

  /** mpn_sub, for operands of an >= bn limbs. */
  method Sub(rp: array<Limb>, ap: array<Limb>, an: nat, bp: array<Limb>, bn: nat) returns (cy: Limb)
    requires bn <= an <= rp.Length && an <= ap.Length && bn <= bp.Length
    modifies rp
    ensures cy <= 1
    ensures Val(rp, 0, an) == old(Val(ap, 0, an)) - old(Val(bp, 0, bn)) + cy * BPow(an)
    ensures SameOutside(rp, old(rp[..]), 0, an)
  {
    hide Value, BPow, Pow2;
    NoLimbs();
    ValCut(ap, 0, an, bn);
    ghost var a0, high: seq<Limb>, b := Val(ap, 0, bn), ap[bn..an], Val(bp, 0, bn);
    cy := SubN(rp, 0, ap, 0, bp, 0, bn);
    ghost var low: seq<Limb>, c := rp[0..bn], cy;
    assert ap[bn..an] == high;
    if an > bn {
      cy := Sub1(rp, bn, ap, bn, an - bn, cy);
      assert rp[0..bn] == low;
      ValCut(rp, 0, an, bn);
      BPowAdd(bn, an - bn);
      JoinSub(BPow(bn), BPow(an - bn), a0, Value(high), b, c, cy, Value(low), Val(rp, bn, an - bn));
    } else {
      assert Value(high) == 0;
    }
  }

  /** One row of the schoolbook product: adds v times the multiplicand at limb offset k. */
  method MulRow(rp: array<Limb>, k: nat, up: array<Limb>, un: nat, v: Limb)
    requires 1 <= un <= up.Length && k + un + 1 <= rp.Length && rp != up
    modifies rp
    ensures Val(rp, 0, k + un + 1) == old(Val(rp, 0, k + un)) + Val(up, 0, un) * v * BPow(k)
    ensures SameOutside(rp, old(rp[..]), k, un + 1)
  {
    ghost var low: seq<Limb>, mid := rp[0..k], Val(rp, k, un);
    ValCut(rp, 0, k + un, k);
    var c := Addmul1(rp, k, up, 0, un, v);
    ghost var column: seq<Limb> := rp[k..k + un];
    rp[k + un] := c;
    assert rp[0..k] == low;
    assert rp[k..k + un + 1] == column + [c];
    ValueSnoc(column, c);
    ValCut(rp, 0, k + un + 1, k);
    Distribute(BPow(k), mid, Val(up, 0, un) * v, 0, 0);
  }

  /** mpn_mul: the schoolbook product of un >= vn >= 1 limbs; the top limb is returned. */
  method Mul(rp: array<Limb>, up: array<Limb>, un: nat, vp: array<Limb>, vn: nat) returns (top: Limb)
    requires 1 <= vn <= un <= up.Length && vn <= vp.Length && un + vn <= rp.Length
    requires rp != up && rp != vp
    modifies rp
    ensures Val(rp, 0, un + vn) == Val(up, 0, un) * Val(vp, 0, vn)
    ensures top == rp[un + vn - 1]
    ensures SameOutside(rp, old(rp[..]), 0, un + vn)
  {
    ghost var u, v: seq<Limb> := Val(up, 0, un), vp[0..vn];
    var c := Mul1(rp, 0, up, 0, un, vp[0]);
    rp[un] := c;
    var k := 1;
    ProductStart(rp, un, u, v, c);
    while k < vn
      invariant 1 <= k <= vn
      invariant Val(rp, 0, k + un) == u * Value(v[..k])
      invariant SameOutside(rp, old(rp[..]), 0, k + un)
    {
      MulRow(rp, k, up, un, vp[k]);
      ProductStep(u, v, k);
      k := k + 1;
    }
    assert v[..vn] == v;
    top := rp[un + vn - 1];
  }

  lemma ProductStart(rp: array<Limb>, un: nat, u: int, v: seq<Limb>, c: Limb)
    requires 1 <= |v| && un < rp.Length && rp[un] == c
    requires Val(rp, 0, un) == u * v[0] - c * BPow(un)
    ensures Val(rp, 0, un + 1) == u * Value(v[..1])
  {
    assert rp[0..un + 1] == rp[0..un] + [c];
    ValueSnoc(rp[0..un], c);
    ValueTake(v, 0);
  }

  lemma ProductStep(u: int, v: seq<Limb>, k: nat)
    requires k < |v|
    ensures u * Value(v[..k]) + u * v[k] * BPow(k) == u * Value(v[..k + 1])
  {
    ValueTake(v, k);
    Distribute(u, Value(v[..k]), v[k] * BPow(k), 0, 0);
    Associate(u, v[k], BPow(k));
  }

  /** mpn_normalized_size: the length without leading zero limbs. */
  method NormalizedSize(xp: array<Limb>, n0: nat) returns (n: nat)
    requires n0 <= xp.Length
    ensures n <= n0 && (n > 0 ==> xp[n - 1] != 0)
    ensures Val(xp, 0, n) == Val(xp, 0, n0)
  {
    n := n0;
    while n > 0 && xp[n - 1] == 0
      invariant n <= n0
      invariant Val(xp, 0, n) == Val(xp, 0, n0)
    {
      assert xp[0..n] == xp[0..n - 1] + [0];
      ValueSnoc(xp[0..n - 1], 0);
      n := n - 1;
    }
  }

  /** A limb sequence with non-zero top limb is at least the power of B below it. */
  lemma {:induction false} ValueTop(s: seq<Limb>)
    requires s != [] && s[|s| - 1] != 0
    ensures BPow(|s| - 1) <= Value(s)
  {
    var n := |s| - 1;
    assert s == s[..n] + [s[n]];
    ValueSnoc(s[..n], s[n]);
    MulMono(1, s[n], BPow(n));
  }

  lemma {:induction false} BPowMono(m: nat, n: nat)
    requires m <= n
    ensures BPow(m) <= BPow(n)
    decreases n
  {
    if m < n { BPowMono(m, n - 1); }
  }

  /** Longer normalised numbers are larger. */
  lemma {:induction false} LengthOrder(s: seq<Limb>, t: seq<Limb>)
    requires |s| < |t| && t[|t| - 1] != 0
    ensures Value(s) < Value(t)
  {
    ValueBound(s);
    ValueTop(t);
    BPowMono(|s|, |t| - 1);
  }

  /** The first differing limb from the top decides the order. */
  lemma {:induction false} TopOrder(s: seq<Limb>, t: seq<Limb>, i: nat)
    requires |s| == |t| && i < |s| && s[i] < t[i] && s[i + 1..] == t[i + 1..]
    ensures Value(s) < Value(t)
  {
    ValueCut(s, i + 1); ValueCut(t, i + 1);
    ValueTake(s, i); ValueTake(t, i);
    ValueBound(s[..i]);
    DigitOrder(BPow(i), Value(s[..i]), s[i], t[i]);
  }

  lemma DigitOrder(p: int, low: int, x: int, y: int)
    requires low < p && x < y
    ensures low + x * p < y * p || p <= 0
  {
    if 0 < p {
      Distribute(p, x, 1, 0, 0);
      MulMono(x + 1, y, p);
    }
  }

  /** The sign of a comparison: negative, zero or positive as x is less than, equal to or greater than y. */
  ghost predicate Compares(c: int, x: int, y: int) {
    (c < 0 <==> x < y) && (c == 0 <==> x == y)
  }

  /** mpn_cmp. */
  method Cmp(ap: array<Limb>, bp: array<Limb>, n0: nat) returns (c: int)
    requires n0 <= ap.Length && n0 <= bp.Length
    ensures Compares(c, Val(ap, 0, n0), Val(bp, 0, n0))
  {
    ghost var s: seq<Limb>, t: seq<Limb> := ap[0..n0], bp[0..n0];
    var n := n0;
    while n > 0
      invariant n <= n0
      invariant s[n..] == t[n..]
    {
      n := n - 1;
      if ap[n] != bp[n] {
        if ap[n] > bp[n] { TopOrder(t, s, n); } else { TopOrder(s, t, n); }
        return if ap[n] > bp[n] then 1 else -1;
      }
      assert s[n..] == [s[n]] + s[n + 1..] && t[n..] == [t[n]] + t[n + 1..];
    }
    assert s[0..] == s && t[0..] == t;
    c := 0;
  }

  /** mpn_cmp4, on normalised operands. */
  method Cmp4(ap: array<Limb>, an: nat, bp: array<Limb>, bn: nat) returns (c: int)
    requires an <= ap.Length && (an > 0 ==> ap[an - 1] != 0)
    requires bn <= bp.Length && (bn > 0 ==> bp[bn - 1] != 0)
    ensures Compares(c, Val(ap, 0, an), Val(bp, 0, bn))
  {
    if an != bn {
      if an < bn { LengthOrder(ap[0..an], bp[0..bn]); } else { LengthOrder(bp[0..bn], ap[0..an]); }
      c := if an < bn then -1 else 1;
    } else {
      c := Cmp(ap, bp, an);
    }
  }

  // ---- shifts by 1 to 63 bits ----

  /** The two pieces that meet in one limb of a shift do not overlap. */
  lemma ShiftJoin(x: Limb, y: Limb, k: nat)
    requires 1 <= k < 64
    ensures Bitwise(OR, Shl(x, k), Shr(y, 64 - k)) == Shl(x, k) + Shr(y, 64 - k) < B
    ensures Bitwise(OR, Shr(y, 64 - k), Shl(x, k)) == Shl(x, k) + Shr(y, 64 - k)
  {
    ShiftSplit(x, k);
    assert Shr(y, 64 - k) < Pow2(k) by { ShiftSplit(y, k); }
    OrIsSum(x % Pow2(64 - k), k, Shr(y, 64 - k));
    Pow2Complement(k);
    PiecesFit(x % Pow2(64 - k), Pow2(k), Pow2(64 - k), Shr(y, 64 - k));
  }

  lemma PiecesFit(r: int, p: int, t: int, s: int)
    requires 0 < p && r < t && s < p
    ensures r * p + s < p * t
  {
    MulMono(r, t - 1, p);
    Distribute(p, t, 0, 0, 1);
  }

  /** One limb of a left shift: the pending bits joined with those that move up, and the new pending bits. */
  method ShiftUp(high: Limb, ghost x: Limb, low: Limb, cnt: nat) returns (join: Limb, high': Limb)
    requires 1 <= cnt < 64 && high == Shl(x, cnt)
    ensures join * B + high' == high * B + low * Pow2(cnt) && high' == Shl(low, cnt)
  {
    ShiftJoin(x, low, cnt);
    ShiftSplit(low, cnt);
    join := Bitwise(OR, high, Shr(low, 64 - cnt));
    high' := Shl(low, cnt);
  }

  /** One limb of a right shift. */
  method ShiftDown(low: Limb, ghost x: Limb, high: Limb, cnt: nat) returns (join: Limb, low': Limb)
    requires 1 <= cnt < 64 && low == Shr(x, cnt)
    ensures join + low' * B == low + high * Pow2(64 - cnt) && low' == Shr(high, cnt)
  {
    ShiftJoin(high, x, 64 - cnt);
    ShiftSplit(high, 64 - cnt);
    join := Bitwise(OR, low, Shl(high, 64 - cnt));
    low' := Shr(high, cnt);
  }

  /** The limbs of u from k on are shifted: the limbs in done, the part `high` of the next one, and ret shifted out. */
  ghost predicate ShiftedUp(done: seq<Limb>, high: int, ret: int, u: seq<Limb>, k: nat, p: int)
    requires k < |u|
  {
    |done| == |u| - k - 1 && B * Value(done) + high + ret * BPow(|u| - k) == Value(u[k..]) * p
  }

  lemma {:induction false} LshiftStart(u: seq<Limb>, high: int, ret: int, p: int)
    requires u != [] && high + ret * B == u[|u| - 1] * p
    ensures ShiftedUp([], high, ret, u, |u| - 1, p)
  {
    assert u[|u| - 1..] == [u[|u| - 1]];
    ValueCons(u[|u| - 1..]);
    assert BPow(1) == B * BPow(0);
  }

  lemma {:induction false} LshiftEnd(done: seq<Limb>, high: Limb, ret: int, u: seq<Limb>, p: int)
    requires u != [] && ShiftedUp(done, high, ret, u, 0, p)
    ensures Value([high] + done) + ret * BPow(|u|) == Value(u) * p
  {
    assert u[0..] == u && ([high] + done)[1..] == done;
    ValueCons([high] + done);
  }

  lemma {:induction false} LshiftStep(done: seq<Limb>, high: int, ret: int, u: seq<Limb>, k: nat, p: int, join: Limb,
                                      rest: int)
    requires 1 <= k < |u| && ShiftedUp(done, high, ret, u, k, p)
    requires join * B + rest == high * B + u[k - 1] * p
    ensures ShiftedUp([join] + done, rest, ret, u, k - 1, p)
  {
    assert u[k - 1..][1..] == u[k..] && ([join] + done)[1..] == done;
    ValueCons(u[k - 1..]); ValueCons([join] + done);
    Associate(ret, B, BPow(|u| - k));
    Distribute(p, u[k - 1], B * Value(u[k..]), 0, 0);
    Associate(B, Value(u[k..]), p);
    assert BPow(|u| - k + 1) == B * BPow(|u| - k);
  }

  /** mpn_lshift: multiplication by 2^cnt from the top limb down; the bits shifted out are returned. */
  method Lshift(rp: array<Limb>, ro: nat, up: array<Limb>, uo: nat, n: nat, cnt: nat) returns (ret: Limb)
    requires 1 <= n && 1 <= cnt < 64 && ro + n <= rp.Length && uo + n <= up.Length
    requires rp != up || uo <= ro
    modifies rp
    ensures Val(rp, ro, n) + ret * BPow(n) == old(Val(up, uo, n)) * Pow2(cnt)
    ensures ret < Pow2(cnt)
    ensures SameOutside(rp, old(rp[..]), ro, n)
  {
    hide Value, BPow, Pow2, ShiftedUp;
    ghost var u: seq<Limb>, p := up[uo..uo + n], Pow2(cnt);
    var k, tnc := n - 1, 64 - cnt;
    var low := up[uo + k];
    ret := Shr(low, tnc);
    var high := Shl(low, cnt);
    ShiftSplit(low, cnt);
    LshiftStart(u, high, ret, p);
    assert rp[ro + n..ro + n] == [];
    ghost var x := low;
    while k > 0
      invariant 0 <= k < n && high == Shl(x, cnt)
      invariant ShiftedUp(rp[ro + k + 1..ro + n], high, ret, u, k, p)
      invariant SameOutside(rp, old(rp[..]), ro + k + 1, n - k - 1)
    {
      ghost var done: seq<Limb> := rp[ro + k + 1..ro + n];
      ghost var high0 := high;
      low := up[uo + k - 1];
      assert low == u[k - 1];
      var join;
      join, high := ShiftUp(high, x, low, cnt);
      StoreBelow(rp, ro + k, ro + n, join, done);
      LshiftStep(done, high0, ret, u, k, p, join, high);
      x := low;
      k := k - 1;
    }
    ghost var done: seq<Limb> := rp[ro + 1..ro + n];
    StoreBelow(rp, ro, ro + n, high, done);
    LshiftEnd(done, high, ret, u, p);
  }

  /** One limb more of u than done has is shifted: ret shifted out, the limbs in done, part `low` of the next. */
  ghost predicate ShiftedDown(done: seq<Limb>, low: int, ret: int, u: seq<Limb>, p: int)
    requires |done| < |u|
  {
    ret + B * (Value(done) + low * BPow(|done|)) == Value(u[..|done| + 1]) * p
  }

  lemma {:induction false} RshiftStart(u: seq<Limb>, low: int, ret: int, p: int)
    requires u != [] && ret + B * low == u[0] * p
    ensures ShiftedDown([], low, ret, u, p)
  {
    ValueTake(u, 0);
    assert u[..0] == [];
  }

  lemma {:induction false} RshiftEnd(done: seq<Limb>, low: Limb, ret: int, u: seq<Limb>, p: int)
    requires |done| + 1 == |u| && ShiftedDown(done, low, ret, u, p)
    ensures ret + B * Value(done + [low]) == Value(u) * p
  {
    assert u[..|u|] == u;
    ValueSnoc(done, low);
  }

  lemma {:induction false} RshiftStep(done: seq<Limb>, low: int, ret: int, u: seq<Limb>, p: int, join: Limb, low': int)
    requires |done| + 1 < |u| && ShiftedDown(done, low, ret, u, p)
    requires join + low' * B == low + u[|done| + 1] * p
    ensures ShiftedDown(done + [join], low', ret, u, p)
  {
    var i := |done|;
    var q := BPow(i);
    assert BPow(i + 1) == B * q;
    hide Value, BPow;
    ValueSnoc(done, join);
    ValueTake(u, i + 1);
    RshiftWhole(ret, Value(done), q, low, Value(u[..i + 1]), p, join, low', u[i + 1]);
  }

  lemma RshiftWhole(ret: int, v: int, q: int, l: int, w: int, p: int, j: int, l': int, x: int)
    requires ret + B * (v + l * q) == w * p && j + l' * B == l + x * p
    ensures ret + B * ((v + j * q) + l' * (B * q)) == (w + x * (B * q)) * p
  {
    Distribute(p, w, x * (B * q), 0, 0);
    RshiftAlgebra(q, j, l', l, x, p);
  }

  lemma RshiftAlgebra(q: int, j: int, l': int, l: int, x: int, p: int)
    requires j + l' * B == l + x * p
    ensures B * (j * q + l' * (B * q)) == B * (l * q) + (x * (B * q)) * p
  {
    Distribute(q, j, l' * B, 0, 0);
    Distribute(q, l, x * p, 0, 0);
    Associate(l', B, q);
    assert (x * (B * q)) * p == B * ((x * p) * q);
  }

  /** mpn_rshift: division by 2^cnt from the lowest limb up; the bits shifted out are returned at the top of a limb. */
  method Rshift(rp: array<Limb>, ro: nat, up: array<Limb>, uo: nat, n: nat, cnt: nat) returns (ret: Limb)
    requires 1 <= n && 1 <= cnt < 64 && ro + n <= rp.Length && uo + n <= up.Length
    requires rp != up || ro <= uo
    modifies rp
    ensures ret + B * Val(rp, ro, n) == old(Val(up, uo, n)) * Pow2(64 - cnt)
    ensures SameOutside(rp, old(rp[..]), ro, n)
  {
    hide Value, BPow, Pow2, ShiftedDown;
    var tnc := 64 - cnt;
    ghost var u: seq<Limb>, p := up[uo..uo + n], Pow2(tnc);
    var high := up[uo];
    ret := Shl(high, tnc);
    var low := Shr(high, cnt);
    ShiftSplit(high, tnc);
    RshiftStart(u, low, ret, p);
    assert rp[ro..ro] == [];
    ghost var x := high;
    var i := 0;
    while i + 1 < n
      invariant 0 <= i < n && low == Shr(x, cnt)
      invariant ShiftedDown(rp[ro..ro + i], low, ret, u, p)
      invariant SameOutside(rp, old(rp[..]), ro, i)
    {
      ghost var done: seq<Limb> := rp[ro..ro + i];
      ghost var low0 := low;
      high := up[uo + i + 1];
      assert high == u[i + 1];
      var join;
      join, low := ShiftDown(low, x, high, cnt);
      StoreNext(rp, ro, i, join, done);
      RshiftStep(done, low0, ret, u, p, join, low);
      x := high;
      i := i + 1;
    }
    ghost var done: seq<Limb> := rp[ro..ro + i];
    StoreNext(rp, ro, i, low, done);
    RshiftEnd(done, low, ret, u, p);
  }
}
