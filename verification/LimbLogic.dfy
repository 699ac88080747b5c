/**
 Bitwise logic on sign-and-magnitude limb arrays. A negative number is turned into its two's
 complement limb by limb, with a running carry, and the result is turned back the same way.
 */
module LimbLogic {
  import opened Arith
  import opened Bits
  import opened Limb
  import opened Mpn
  import opened MpnShift

  /** The mask of a sign: all ones for a negative number. */
  function Mask(neg: bool): (m: Limb) { if neg then B - 1 else 0 }

  lemma {:induction false} XorZero(x: int)
    ensures Bitwise(XOR, x, 0) == x
    decreases Magnitude(x)
  {
    if x < -1 || 0 < x {
      XorZero(x / 2);
      BitwiseHalves(XOR, x, 0);
      SameHalves(x, Bitwise(XOR, x, 0));
    }
  }

  lemma {:induction false} XorOnes(x: int)
    ensures Bitwise(XOR, x, -1) == -1 - x
    decreases Magnitude(x)
  {
    if x < -1 || 0 < x {
      XorOnes(x / 2);
      BitwiseHalves(XOR, x, -1);
      SameHalves(-1 - x, Bitwise(XOR, x, -1));
    }
  }

  lemma {:induction false} AndConstants(x: int)
    ensures Bitwise(AND, x, 0) == 0 && Bitwise(AND, x, -1) == x
    decreases Magnitude(x)
  {
    if x < -1 || 0 < x {
      AndConstants(x / 2);
      BitwiseHalves(AND, x, 0);
      BitwiseHalves(AND, x, -1);
      SameHalves(0, Bitwise(AND, x, 0));
      SameHalves(x, Bitwise(AND, x, -1));
    }
  }

  lemma {:induction false} OrOnes(x: int)
    ensures Bitwise(OR, x, -1) == -1
    decreases Magnitude(x)
  {
    if x < -1 || 0 < x {
      OrOnes(x / 2);
      BitwiseStep(OR, x, -1);
      assert OR.OnBits(x % 2, 1) == 1;
    }
  }

  /** x has high part h and low part l at limb n. */
  ghost predicate Cut(x: int, n: nat, h: int, l: int) {
    0 <= l < BPow(n) && x == h * BPow(n) + l
  }

  /** A bitwise operation on numbers cut at a limb boundary acts on both parts. */
  lemma {:induction false} BitwiseCut(op: Op, n: nat, x: int, xh: int, xl: int, y: int, yh: int, yl: int)
    requires Cut(x, n, xh, xl) && Cut(y, n, yh, yl)
    ensures Cut(Bitwise(op, x, y), n, Bitwise(op, xh, yh), Bitwise(op, xl, yl))
  {
    CutIsSplit(x, n, xh, xl);
    CutIsSplit(y, n, yh, yl);
    BitwiseSplit(op, 64 * n, x, xh, xl, y, yh, yl);
    CutIsSplit(Bitwise(op, x, y), n, Bitwise(op, xh, yh), Bitwise(op, xl, yl));
  }

  lemma {:induction false} CutIsSplit(x: int, n: nat, h: int, l: int)
    ensures Cut(x, n, h, l) <==> Splits(x, 64 * n, h, l)
  {
    BPowIsPow2(n);
    SplitsMeaning(x, 64 * n, h, l);
  }

  lemma {:induction false} BPowIsPow2(n: nat)
    ensures BPow(n) == Pow2(64 * n)
    decreases n
  {
    if n > 0 {
      BPowIsPow2(n - 1);
      Pow2Values();
      Pow2Add(64, 64 * (n - 1));
    }
  }

  /** A bitwise operation on two limbs yields a limb. */
  lemma {:induction false} LimbResult(op: Op, x: Limb, y: Limb)
    ensures 0 <= Bitwise(op, x, y) < B
  {
    Pow2Values();
    BitwiseBound(op, 64, x, y);
  }

  lemma {:induction false} LimbCut(x: Limb)
    ensures Cut(x, 1, 0, x)
  {
    assert BPow(1) == B * BPow(0);
  }

  /** Complementing a limb. */
  lemma {:induction false} XorMask(x: Limb, neg: bool)
    ensures Bitwise(XOR, x, Mask(neg)) == if neg then B - 1 - x else x
  {
    XorZero(x);
    if neg {
      LimbCut(x);
      assert BPow(1) == B * BPow(0);
      BitwiseCut(XOR, 1, x, 0, x, -1, -1, B - 1);
      XorOnes(x);
      XorOnes(0);
    }
  }

  /** The operation on the low limbs of two numbers, limb by limb. */
  ghost function Limbwise(op: Op, s: seq<Limb>, t: seq<Limb>): (r: seq<Limb>)
    requires |s| == |t|
    ensures |r| == |s|
  {
    if s == [] then []
    else
      LimbResult(op, s[|s| - 1], t[|t| - 1]);
      Limbwise(op, s[..|s| - 1], t[..|t| - 1]) + [Bitwise(op, s[|s| - 1], t[|t| - 1])]
  }

  lemma {:induction false} LimbwiseValue(op: Op, s: seq<Limb>, t: seq<Limb>)
    requires |s| == |t|
    ensures Value(Limbwise(op, s, t)) == Bitwise(op, Value(s), Value(t))
    decreases |s|
  {
    if s == [] {
      assert Bitwise(op, 0, 0) == 0;
    } else {
      LimbwiseValue(op, s[..|s| - 1], t[..|t| - 1]);
      LimbwiseSnoc(op, s, t, Limbwise(op, s[..|s| - 1], t[..|t| - 1]));
    }
  }

  lemma {:induction false} LimbwiseSnoc(op: Op, s: seq<Limb>, t: seq<Limb>, r: seq<Limb>)
    requires |s| == |t| == |r| + 1
    requires Value(r) == Bitwise(op, Value(s[..|r|]), Value(t[..|r|]))
    ensures 0 <= Bitwise(op, s[|r|], t[|r|]) < B
    ensures Value(r + [Bitwise(op, s[|r|], t[|r|])]) == Bitwise(op, Value(s), Value(t))
  {
    var n := |r|;
    LimbResult(op, s[n], t[n]);
    ValueSnoc(r, Bitwise(op, s[n], t[n]));
    ValueCutTop(s); ValueCutTop(t);
    BitwiseCut(op, n, Value(s), s[n], Value(s[..n]), Value(t), t[n], Value(t[..n]));
  }

  lemma {:induction false} ValueCutTop(s: seq<Limb>)
    requires s != []
    ensures Cut(Value(s), |s| - 1, s[|s| - 1], Value(s[..|s| - 1]))
  {
    var n := |s| - 1;
    assert s == s[..n] + [s[n]];
    ValueSnoc(s[..n], s[n]);
    ValueBound(s[..n]);
  }

  // ---- two's complement ----

  /** t and the carry c hold the low limbs of the number with magnitude limbs s and the given sign. */
  ghost predicate Complements(neg: bool, s: seq<Limb>, t: seq<Limb>, c: int) {
    && 0 <= c <= 1 && (!neg ==> c == 0)
    && Value(t) + c * BPow(|t|) == if neg then BPow(|t|) - Value(s) else Value(s)
  }

  /** One limb of negation: complement and add the carry. */
  method ComplementLimb(x: Limb, neg: bool, c: Limb) returns (y: Limb, c': Limb)
    requires c <= 1
    ensures c' <= 1 && (!neg && c == 0 ==> c' == 0)
    ensures y + c' * B == (if neg then B - 1 - x else x) + c
  {
    XorMask(x, neg);
    y := Wrap(Bitwise(XOR, x, Mask(neg)) + c);
    c' := if y < c then 1 else 0;
  }

  lemma {:induction false} ComplementStep(neg: bool, s: seq<Limb>, t: seq<Limb>, c: int, y: Limb, c': int)
    requires |t| < |s| && Complements(neg, s[..|t|], t, c) && 0 <= c' <= 1 && (!neg ==> c' == 0)
    requires y + c' * B == (if neg then B - 1 - s[|t|] else s[|t|]) + c
    ensures Complements(neg, s[..|t| + 1], t + [y], c')
  {
    var i := |t|;
    ValueTake(s, i);
    ValueSnoc(t, y);
    ComplementAlgebra(BPow(i), y, c', s[i], c);
  }

  lemma ComplementAlgebra(p: int, y: int, c': int, x: int, c: int)
    ensures y + c' * B == B - 1 - x + c ==> y * p + c' * (B * p) == B * p - p - x * p + c * p
    ensures y + c' * B == x + c ==> y * p + c' * (B * p) == x * p + c * p
  {
    Distribute(p, y, c' * B, 0, 0);
    Associate(c', B, p);
    Distribute(p, B - x, c, 0, 1);
    Distribute(p, B, 0, 0, x);
    Distribute(p, x, c, 0, 0);
  }

  /** A non-zero number leaves no carry behind its last limb. */
  lemma {:induction false} CarryEnds(neg: bool, s: seq<Limb>, t: seq<Limb>, c: int)
    requires |s| == |t| && Complements(neg, s, t, c) && Value(s) > 0
    ensures c == 0
  {
  }

  /** The integer with the given sign and magnitude. */
  function Signed(neg: bool, m: int): (x: int) { if neg then -m else m }

  /** The sign word: what an integer of that sign has above all its limbs. */
  function SignWord(neg: bool): (x: int) { if neg then -1 else 0 }

  /** The sign of the result of an operation. */
  function ResultSign(op: Op, uneg: bool, vneg: bool): (neg: bool) {
    match op
    case AND => uneg && vneg
    case OR => uneg || vneg
    case XOR => uneg != vneg
  }

  lemma SignOfResult(op: Op, uneg: bool, vneg: bool)
    ensures SignWord(ResultSign(op, uneg, vneg)) == Bitwise(op, SignWord(uneg), SignWord(vneg))
  {
    assert SignWord(ResultSign(op, uneg, vneg)) == op.OnSigns(SignWord(uneg), SignWord(vneg));
  }

  /** All limbs of a number have been complemented: its sign word stands above them. */
  lemma {:induction false} WholeCut(neg: bool, s: seq<Limb>, t: seq<Limb>)
    requires |s| <= |t| && Complements(neg, s, t, 0) && Value(s) > 0
    ensures Cut(Signed(neg, Value(s)), |t|, SignWord(neg), Value(t))
  {
    ValueBound(t);
  }

  /** Some limbs of a number have been complemented: the rest of it stands above them. */
  lemma {:induction false} PartCut(neg: bool, s: seq<Limb>, t: seq<Limb>, c: int) returns (h: int)
    requires |t| <= |s| && Complements(neg, s[..|t|], t, c)
    ensures Cut(Signed(neg, Value(s)), |t|, h, Value(t))
  {
    var p, m := BPow(|t|), Value(s[|t|..]);
    ValueCut(s, |t|);
    ValueBound(t);
    h := if neg then c - 1 - m else m;
    HighPart(p, c, m);
  }

  lemma HighPart(p: int, c: int, m: int)
    ensures (c - 1 - m) * p == c * p - p - p * m && m * p == p * m
  {
  }

  lemma {:induction false} ExtendComplement(neg: bool, s: seq<Limb>, t: seq<Limb>)
    requires Complements(neg, s, t, 0)
    ensures Complements(neg, s, t + [Mask(neg)], 0)
  {
    ValueSnoc(t, Mask(neg));
    Distribute(BPow(|t|), B, 0, 0, 1);
  }

  lemma {:induction false} LimbwiseStep(op: Op, s: seq<Limb>, t: seq<Limb>, x: Limb, y: Limb)
    requires |s| == |t|
    ensures 0 <= Bitwise(op, x, y) < B
    ensures Limbwise(op, s + [x], t + [y]) == Limbwise(op, s, t) + [Bitwise(op, x, y)]
  {
    LimbResult(op, x, y);
    assert (s + [x])[..|s|] == s && (t + [y])[..|t|] == t;
  }

  /** State of the two running operands and of the result after the limbs in tu and tv. */
  ghost predicate Progress(op: Op, us: seq<Limb>, tu: seq<Limb>, uneg: bool, uc: int, vs: seq<Limb>, tv: seq<Limb>,
                           vneg: bool, vc: int, done: seq<Limb>, rc: int) {
    && |tu| == |tv| == |done| <= |us|
    && Complements(uneg, us[..|tu|], tu, uc)
    && Complements(vneg, if |tv| <= |vs| then vs[..|tv|] else vs, tv, vc)
    && Complements(ResultSign(op, uneg, vneg), Limbwise(op, tu, tv), done, rc)
  }

  lemma {:induction false} ProgressLow(op: Op, us: seq<Limb>, tu: seq<Limb>, uneg: bool, uc: int, vs: seq<Limb>,
                                       tv: seq<Limb>, vneg: bool, vc: int, done: seq<Limb>, rc: int, ul: Limb, uc': int,
                                       vl: Limb, vc': int, rl: Limb, rc': int)
    requires Progress(op, us, tu, uneg, uc, vs, tv, vneg, vc, done, rc) && |tu| < |us| && |tv| < |vs|
    requires 0 <= uc' <= 1 && 0 <= vc' <= 1 && 0 <= rc' <= 1
    requires (!uneg ==> uc' == 0) && (!vneg ==> vc' == 0) && (!ResultSign(op, uneg, vneg) ==> rc' == 0)
    requires ul + uc' * B == (if uneg then B - 1 - us[|tu|] else us[|tu|]) + uc
    requires vl + vc' * B == (if vneg then B - 1 - vs[|tv|] else vs[|tv|]) + vc
    requires rl + rc' * B == (if ResultSign(op, uneg, vneg) then B - 1 - Bitwise(op, ul, vl)
                              else Bitwise(op, ul, vl)) + rc
    ensures Progress(op, us, tu + [ul], uneg, uc', vs, tv + [vl], vneg, vc', done + [rl], rc')
  {
    ComplementStep(uneg, us, tu, uc, ul, uc');
    ComplementStep(vneg, vs, tv, vc, vl, vc');
    ResultStep(op, tu, tv, uneg, vneg, done, rc, ul, vl, rl, rc');
  }

  lemma {:induction false} ResultStep(op: Op, tu: seq<Limb>, tv: seq<Limb>, uneg: bool, vneg: bool, done: seq<Limb>,
                                      rc: int, ul: Limb, vl: Limb, rl: Limb, rc': int)
    requires |tu| == |tv| == |done| && Complements(ResultSign(op, uneg, vneg), Limbwise(op, tu, tv), done, rc)
    requires 0 <= rc' <= 1 && (!ResultSign(op, uneg, vneg) ==> rc' == 0)
    requires rl + rc' * B == (if ResultSign(op, uneg, vneg) then B - 1 - Bitwise(op, ul, vl)
                              else Bitwise(op, ul, vl)) + rc
    ensures Complements(ResultSign(op, uneg, vneg), Limbwise(op, tu + [ul], tv + [vl]), done + [rl], rc')
  {
    var w := Limbwise(op, tu, tv);
    LimbwiseStep(op, tu, tv, ul, vl);
    var w' := w + [Bitwise(op, ul, vl)];
    assert w'[..|done|] == w && w'[..|done| + 1] == w';
    ComplementStep(ResultSign(op, uneg, vneg), w', done, rc, rl, rc');
  }

  lemma {:induction false} ProgressHigh(op: Op, us: seq<Limb>, tu: seq<Limb>, uneg: bool, uc: int, vs: seq<Limb>,
                                        tv: seq<Limb>, vneg: bool, done: seq<Limb>, rc: int, ul: Limb, uc': int,
                                        rl: Limb, rc': int)
    requires Progress(op, us, tu, uneg, uc, vs, tv, vneg, 0, done, rc) && |vs| <= |tu| < |us|
    requires 0 <= uc' <= 1 && 0 <= rc' <= 1 && (!uneg ==> uc' == 0) && (!ResultSign(op, uneg, vneg) ==> rc' == 0)
    requires ul + uc' * B == (if uneg then B - 1 - us[|tu|] else us[|tu|]) + uc
    requires var w := Bitwise(op, ul, Mask(vneg));
             rl + rc' * B == (if ResultSign(op, uneg, vneg) then B - 1 - w else w) + rc
    ensures Progress(op, us, tu + [ul], uneg, uc', vs, tv + [Mask(vneg)], vneg, 0, done + [rl], rc')
  {
    ComplementStep(uneg, us, tu, uc, ul, uc');
    assert |tv| == |vs| ==> vs[..|tv|] == vs;
    ExtendComplement(vneg, vs, tv);
    ResultStep(op, tu, tv, uneg, vneg, done, rc, ul, Mask(vneg), rl, rc');
  }

  lemma {:induction false} ProgressStart(op: Op, us: seq<Limb>, uneg: bool, uc: Limb, vs: seq<Limb>, vneg: bool,
                                         vc: Limb, rc: Limb)
    requires uc == (if uneg then 1 else 0) && vc == (if vneg then 1 else 0) &&
             rc == (if ResultSign(op, uneg, vneg) then 1 else 0)
    ensures Progress(op, us, [], uneg, uc, vs, [], vneg, vc, [], rc)
  {
  }

  /** The loop over the limbs that both operands have. */
  method LowLoop(op: Op, rp: array<Limb>, up: array<Limb>, uneg: bool, vp: array<Limb>, vn: nat, vneg: bool,
                 ghost us: seq<Limb>, ghost vs: seq<Limb>)
    returns (uc: Limb, vc: Limb, rc: Limb, ghost tu: seq<Limb>, ghost tv: seq<Limb>)
    requires |vs| == vn <= |us| <= up.Length && vn <= vp.Length && vn <= rp.Length
    requires up[0..|us|] == us && vp[0..vn] == vs
    modifies rp
    ensures |tu| == vn && Progress(op, us, tu, uneg, uc, vs, tv, vneg, vc, rp[0..vn], rc)
    ensures SameOutside(rp, old(rp[..]), 0, vn)
  {
    hide Value, BPow, Pow2, Bitwise;
    var rneg := ResultSign(op, uneg, vneg);
    uc, vc, rc := if uneg then 1 else 0, if vneg then 1 else 0, if rneg then 1 else 0;
    tu, tv := [], [];
    ProgressStart(op, us, uneg, uc, vs, vneg, vc, rc);
    var i := 0;
    while i < vn
      invariant 0 <= i <= vn && |tu| == i
      invariant Progress(op, us, tu, uneg, uc, vs, tv, vneg, vc, rp[0..i], rc)
      invariant SameOutside(rp, old(rp[..]), 0, i)
    {
      ghost var done: seq<Limb>, uc0, vc0, rc0 := rp[0..i], uc, vc, rc;
      assert up[i] == us[i] && vp[i] == vs[i];
      var ul, vl, rl;
      ul, uc := ComplementLimb(up[i], uneg, uc);
      vl, vc := ComplementLimb(vp[i], vneg, vc);
      LimbResult(op, ul, vl);
      rl, rc := ComplementLimb(Bitwise(op, ul, vl), rneg, rc);
      ProgressLow(op, us, tu, uneg, uc0, vs, tv, vneg, vc0, done, rc0, ul, uc, vl, vc, rl, rc);
      StoreNext(rp, 0, i, rl, done);
      tu, tv := tu + [ul], tv + [vl];
      i := i + 1;
    }
  }

  /** One limb of the result above the shorter operand, whose limbs there are all Mask(vneg). */
  method HighLimb(op: Op, ul: Limb, uneg: bool, vneg: bool, rc: Limb) returns (rl: Limb, rc': Limb)
    requires rc <= 1 && (!ResultSign(op, uneg, vneg) ==> rc == 0)
    ensures rc' <= 1 && (!ResultSign(op, uneg, vneg) ==> rc' == 0)
    ensures var w := Bitwise(op, ul, Mask(vneg));
            rl + rc' * B == (if ResultSign(op, uneg, vneg) then B - 1 - w else w) + rc
  {
    var rneg := ResultSign(op, uneg, vneg);
    if op == XOR {
      XorMask(ul, vneg);
      rl, rc' := ComplementLimb(ul, uneg, rc);
    } else {
      LimbResult(op, ul, Mask(vneg));
      rl, rc' := ComplementLimb(Bitwise(op, ul, Mask(vneg)), rneg, rc);
    }
  }

  /** The loop over the remaining limbs of the longer operand; the shorter one is sign-extended. */
  method HighLoop(op: Op, rp: array<Limb>, rn: nat, up: array<Limb>, uneg: bool, vn: nat, vneg: bool, uc0: Limb,
                  rc0: Limb, ghost us: seq<Limb>, ghost vs: seq<Limb>, ghost tu0: seq<Limb>, ghost tv0: seq<Limb>)
    returns (uc: Limb, rc: Limb, ghost tu: seq<Limb>, ghost tv: seq<Limb>)
    requires |vs| == |tu0| == vn <= rn <= |us| <= up.Length && rn <= rp.Length
    requires up[vn..|us|] == us[vn..]
    requires Progress(op, us, tu0, uneg, uc0, vs, tv0, vneg, 0, rp[0..vn], rc0)
    modifies rp
    ensures |tu| == rn && Progress(op, us, tu, uneg, uc, vs, tv, vneg, 0, rp[0..rn], rc)
    ensures SameOutside(rp, old(rp[..]), vn, rn - vn)
  {
    hide Value, BPow, Pow2, Bitwise;
    uc, rc, tu, tv := uc0, rc0, tu0, tv0;
    var i := vn;
    while i < rn
      invariant vn <= i <= rn && |tu| == i
      invariant Progress(op, us, tu, uneg, uc, vs, tv, vneg, 0, rp[0..i], rc)
      invariant SameOutside(rp, old(rp[..]), vn, i - vn)
    {
      ghost var done: seq<Limb>, c0, rc1 := rp[0..i], uc, rc;
      assert up[i] == us[vn..][i - vn];
      var ul, rl;
      ul, uc := ComplementLimb(up[i], uneg, uc);
      rl, rc := HighLimb(op, ul, uneg, vneg, rc);
      ProgressHigh(op, us, tu, uneg, c0, vs, tv, vneg, done, rc1, ul, uc, rl, rc);
      StoreNext(rp, 0, i, rl, done);
      tu, tv := tu + [ul], tv + [Mask(vneg)];
      i := i + 1;
    }
  }

  /** How many limbs of the operands matter: past them the shorter operand decides alone. */
  function ResultLimbs(op: Op, un: nat, vn: nat, vneg: bool): (n: nat) {
    match op
    case AND => if vneg then un else vn
    case OR => if vneg then vn else un
    case XOR => un
  }

  /** What the limbs below rn and the carry hold is the magnitude of the bitwise result. */
  lemma {:induction false} LogicCorrect(op: Op, us: seq<Limb>, tu: seq<Limb>, uneg: bool, uc: int, vs: seq<Limb>,
                                        tv: seq<Limb>, vneg: bool, done: seq<Limb>, rc: int)
    requires 0 < |vs| <= |us| && Value(us) > 0 && Value(vs) > 0
    requires |tu| == ResultLimbs(op, |us|, |vs|, vneg) && |vs| <= |tu|
    requires Progress(op, us, tu, uneg, uc, vs, tv, vneg, 0, done, rc)
    ensures Signed(ResultSign(op, uneg, vneg), Value(done) + rc * BPow(|done|))
         == Bitwise(op, Signed(uneg, Value(us)), Signed(vneg, Value(vs)))
  {
    var n, u, v := |tu|, Signed(uneg, Value(us)), Signed(vneg, Value(vs));
    assert |tv| == |vs| ==> vs[..|tv|] == vs;
    WholeCut(vneg, vs, tv);
    var h := PartCut(uneg, us, tu, uc);
    BitwiseCut(op, n, u, h, Value(tu), v, SignWord(vneg), Value(tv));
    LimbwiseValue(op, tu, tv);
    HighWord(op, us, tu, uneg, uc, vneg, h, |vs|);
  }

  /** Above the limbs that matter the result is its own sign. */
  lemma {:induction false} HighWord(op: Op, us: seq<Limb>, tu: seq<Limb>, uneg: bool, uc: int, vneg: bool, h: int,
                                    vn: nat)
    requires |tu| == ResultLimbs(op, |us|, vn, vneg) && |tu| <= |us| && Value(us) > 0
    requires Complements(uneg, us[..|tu|], tu, uc) && Cut(Signed(uneg, Value(us)), |tu|, h, Value(tu))
    ensures Bitwise(op, h, SignWord(vneg)) == SignWord(ResultSign(op, uneg, vneg))
  {
    if |tu| == |us| {
      assert us[..|tu|] == us;
      CarryEnds(uneg, us, tu, uc);
      WholeCut(uneg, us, tu);
      SameHigh(|tu|, h, SignWord(uneg), Value(tu));
      SignOfResult(op, uneg, vneg);
    } else {
      AndConstants(h);
      OrOnes(h);
    }
  }

  lemma {:induction false} SameHigh(n: nat, h: int, g: int, l: int)
    requires h * BPow(n) + l == g * BPow(n) + l
    ensures h == g
  {
    if h < g { MulMono(h + 1, g, BPow(n)); Distribute(BPow(n), h, 1, 0, 0); }
    if g < h { MulMono(g + 1, h, BPow(n)); Distribute(BPow(n), g, 1, 0, 0); }
  }

  /**
   The limb part of mpz_and, mpz_ior and mpz_xor, for un >= vn >= 1 limbs. The result array may be
   one of the operands: every limb is read before it is written.
   */
  method LogicLimbs(op: Op, rp: array<Limb>, up: array<Limb>, un: nat, uneg: bool, vp: array<Limb>, vn: nat, vneg: bool)
    returns (n: nat)
    requires 1 <= vn <= un <= up.Length && vn <= vp.Length && up[un - 1] != 0 && vp[vn - 1] != 0
    requires ResultLimbs(op, un, vn, vneg) + (if ResultSign(op, uneg, vneg) then 1 else 0) <= rp.Length
    modifies rp
    ensures n <= rp.Length && (n > 0 ==> rp[n - 1] != 0)
    ensures Signed(ResultSign(op, uneg, vneg), Val(rp, 0, n))
         == Bitwise(op, Signed(uneg, old(Val(up, 0, un))), Signed(vneg, old(Val(vp, 0, vn))))
  {
    hide Value, BPow, Pow2, Bitwise;
    ghost var us: seq<Limb>, vs: seq<Limb> := up[0..un], vp[0..vn];
    assert Value(us) > 0 by { ValueTop(us); }
    assert Value(vs) > 0 by { ValueTop(vs); }
    var uc: Limb, vc: Limb, rc: Limb;
    ghost var tu, tv;
    uc, vc, rc, tu, tv := LowLoop(op, rp, up, uneg, vp, vn, vneg, us, vs);
    assert vc == 0 by {
      assert vs[..vn] == vs;
      CarryEnds(vneg, vs, tv, vc);
    }
    assert up[vn..un] == us[vn..];
    n := ResultLimbs(op, un, vn, vneg);
    uc, rc, tu, tv := HighLoop(op, rp, n, up, uneg, vn, vneg, uc, rc, us, vs, tu, tv);
    ghost var done: seq<Limb> := rp[0..n];
    LogicCorrect(op, us, tu, uneg, uc, vs, tv, vneg, done, rc);
    n := FinishLogic(rp, n, rc, done);
  }

  /** Stores a final carry, or drops leading zero limbs. */
  method FinishLogic(rp: array<Limb>, rn: nat, rc: Limb, ghost done: seq<Limb>) returns (n: nat)
    requires rn + rc <= rp.Length && rc <= 1 && rp[0..rn] == done
    modifies rp
    ensures n <= rp.Length && (n > 0 ==> rp[n - 1] != 0)
    ensures Val(rp, 0, n) == Value(done) + rc * BPow(rn)
  {
    if rc != 0 {
      StoreNext(rp, 0, rn, rc, done);
      ValueSnoc(done, rc);
      n := rn + 1;
    } else {
      n := NormalizedSize(rp, rn);
    }
  }
}
