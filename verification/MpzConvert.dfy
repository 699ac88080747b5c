/** mpz_get_str and mpz_set_str: the text of an integer object, and back. */
module MpzConvert {
  import opened Arith
  import opened Limb
  import opened Mpn
  import opened MpnShift
  import opened MpnDivSmall
  import opened LimbLogic
  import opened Mpz
  import opened MpzDiv
  import opened MpzDiv2exp
  import opened Power
  import opened Numeral
  import opened MpnGetStr
  import opened MpnStrBits
  import opened MpnSetStr
  import opened MpzStr
  import opened Strings

  // ---- number of digits ----

  /** One division by the base in the digit count. */
  method DropDigit(tp: array<Limb>, un: nat, inv: DivInverse, ghost b: int) returns (n: nat)
    requires 1 <= un <= tp.Length && tp[un - 1] != 0 && 2 <= b < B && Inverts1(inv, b)
    modifies tp
    ensures n <= un && (n > 0 ==> tp[n - 1] != 0) && Val(tp, 0, n) == old(Val(tp, 0, un)) / b
    ensures Val(tp, 0, n) < old(Val(tp, 0, un))
  {
    ghost var s: seq<Limb> := tp[0..un];
    ValueTop(s);
    var r := DivQr1Preinv(tp, tp, un, inv, b);
    if un >= 2 { BigQuotient(Value(s), b, Val(tp, 0, un), BPow(un - 2)); }
    ShrunkQuotient(Value(s), b);
    OneLeadingZero(tp[0..un]);
    var k := DropTop(tp, un);
    n := k;
  }

  lemma ShrunkQuotient(v: int, b: int)
    requires 0 < v && 2 <= b
    ensures v / b < v
  {
    var q := v / b;
    if q >= v { MulMono(2, b, q); }
  }

  /** The loop that counts digits by repeated division. */
  method CountDigits(up: array<Limb>, un0: nat, base: Limb) returns (ndigits: nat)
    requires 1 <= un0 <= up.Length && up[un0 - 1] != 0 && 2 <= base <= 36
    ensures 1 <= ndigits && Pow(base, ndigits - 1) <= Val(up, 0, un0) < Pow(base, ndigits)
  {
    var un := un0;
    var tp := new Limb[un];
    CopyLimbs(tp, up, 0, un);
    assert tp[0..un] == up[0..un] && tp[un - 1] == tp[0..un][un - 1];
    ndigits := CountInPlace(tp, un, base);
  }

  method CountInPlace(tp: array<Limb>, un0: nat, base: Limb) returns (ndigits: nat)
    requires 1 <= un0 <= tp.Length && tp[un0 - 1] != 0 && 2 <= base <= 36
    modifies tp
    ensures 1 <= ndigits && Pow(base, ndigits - 1) <= old(Val(tp, 0, un0)) < Pow(base, ndigits)
  {
    ghost var u := Val(tp, 0, un0);
    var un: nat := un0;
    var inv := DivQr1Invert(base);
    assert Pow(base, 0) == 1;
    ndigits := 0;
    while un > 0
      invariant un <= tp.Length && (un > 0 ==> tp[un - 1] != 0)
      invariant ndigits == 0 ==> un > 0
      invariant Between(u, Val(tp, 0, un), Pow(base, ndigits))
      invariant ndigits > 0 ==> Pow(base, ndigits - 1) <= u
      decreases Val(tp, 0, un)
    {
      ghost var v := Val(tp, 0, un);
      assert v > 0 by { ValueTop(tp[0..un]); }
      un := DropDigit(tp, un, inv, base);
      DigitDropped(u, v, base, Pow(base, ndigits));
      ndigits := ndigits + 1;
    }
    assert tp[0..0] == [];
  }

  /** v is the quotient of u by p. */
  ghost predicate Between(u: int, v: int, p: int) { v * p <= u < (v + 1) * p }

  lemma DigitDropped(u: int, v: int, b: int, p: int)
    requires 0 < v && 2 <= b && 0 < p && Between(u, v, p)
    ensures Between(u, v / b, b * p) && p <= u
  {
    var q, r := v / b, v % b;
    Associate(q, b, p); Associate(q + 1, b, p);
    MulMono(q * b, v, p);
    Distribute(b, q, 1, 0, 0);
    MulMono(v + 1, (q + 1) * b, p);
    MulMono(1, v, p);
  }

  /** mpz_sizeinbase of a magnitude: the exact number of digits, and 1 for zero. */
  method SizeInBase(up: array<Limb>, un: nat, base: Limb) returns (n: nat)
    requires un <= up.Length && (un > 0 ==> up[un - 1] != 0) && 2 <= base <= 36
    ensures 1 <= n && (un > 0 ==> Pow(base, n - 1) <= Val(up, 0, un) < Pow(base, n))
    ensures un == 0 ==> n == 1 && Val(up, 0, un) == 0
  {
    if un == 0 {
      assert up[0..0] == [];
      return 1;
    }
    var bits := BitCount(up, un);
    ghost var u := Val(up, 0, un);
    assert Pow2(1) == 2 && Pow2(2) == 4 && Pow2(3) == 8 && Pow2(4) == 16 && Pow2(5) == 32;
    match base {
      case 2 => n := bits; DigitCount(u, bits, 1, n);
      case 4 => n := (bits + 1) / 2; DigitCount(u, bits, 2, n);
      case 8 => n := (bits + 2) / 3; DigitCount(u, bits, 3, n);
      case 16 => n := (bits + 3) / 4; DigitCount(u, bits, 4, n);
      case 32 => n := (bits + 4) / 5; DigitCount(u, bits, 5, n);
      case _ => n := CountDigits(up, un, base);
    }
  }

  // ---- printing ----

  /** The digits of a magnitude, at offset so of the buffer, which has room for them. */
  method PutDigits(sp: array<Byte>, so: nat, base: Limb, up: array<Limb>, un: nat, ghost room: nat) returns (sn: nat)
    requires 2 <= base <= 36 && 1 <= un <= up.Length && up[un - 1] != 0
    requires Val(up, 0, un) < Pow(base, room) && so + room <= sp.Length
    modifies sp
    ensures sn <= room && IsNumeral(sp[so..so + sn], Val(up, 0, un), base)
    ensures sp[..so] == old(sp[..so])
  {
    var bits := BasePowerOfTwo(base);
    if bits > 0 {
      sn := GetStrBits(sp, so, bits, up, un, room);
    } else {
      var exp, bb := BaseInfo(base);
      var tp := new Limb[un];
      CopyLimbs(tp, up, 0, un);
      assert up[0..0 + un] == up[0..un] && tp[un - 1] == tp[0..un][un - 1] == up[un - 1];
      sn := GetStrOther(sp, so, base, exp, bb, tp, un, room);
    }
  }

  /** The loop that turns digits into characters. */
  method SpellBytes(sp: array<Byte>, from: nat, to: nat, upper: bool)
    requires from <= to <= sp.Length && forall k :: from <= k < to ==> sp[k] < 36
    modifies sp
    ensures sp[..from] == old(sp[..from])
    ensures forall k :: from <= k < to ==> sp[k] == DigitChar(old(sp[k]), upper) as int
  {
    var i := from;
    while i < to
      invariant from <= i <= to && sp[..from] == old(sp[..from])
      invariant forall k :: from <= k < i ==> sp[k] == DigitChar(old(sp[k]), upper) as int
      invariant forall k :: i <= k < to ==> sp[k] == old(sp[k])
    {
      sp[i] := DigitChar(sp[i], upper) as int;
      i := i + 1;
    }
  }

  function Text(bytes: seq<Byte>): (s: string) { seq(|bytes|, i requires 0 <= i < |bytes| => bytes[i] as char) }

  /** mpz_get_str: None stands for a null result. */
  method GetStr(u: Mpz, base0: int) returns (s: Option<string>)
    requires u.Valid()
    ensures s == if Abs(base0) > 36 then None
                 else Some(Format(u.Int(), if Abs(base0) <= 1 then 10 else Abs(base0), base0 < 0))
  {
    var upper := base0 < 0;
    var base: int := Abs(base0);
    if base <= 1 { base := 10; }
    if base > 36 { return None; }
    var un := Abs(u.size);
    if un == 0 {
      ZeroText(base, upper);
      assert u.d[0..0] == [];
      return Some("0");
    }
    SignOfInt(u);
    var t := PrintNonzero(u.d, un, u.size < 0, base, upper);
    s := Some(t);
  }

  /** The text of a nonzero number. */
  method PrintNonzero(up: array<Limb>, un: nat, neg: bool, base: Limb, upper: bool) returns (s: string)
    requires 1 <= un <= up.Length && up[un - 1] != 0 && 2 <= base <= 36
    ensures s == Format(Signed(neg, Val(up, 0, un)), base, upper)
  {
    ghost var v := Val(up, 0, un);
    assert v > 0 by { ValueTop(up[0..un]); }
    var n := SizeInBase(up, un, base);
    var sp := new Byte[n + 2];
    var i := 0;
    if neg {
      sp[0] := '-' as int;
      i := 1;
    }
    var sn := PutDigits(sp, i, base, up, un, n);
    ghost var ds: seq<int> := sp[i..i + sn];
    FormatNonzero(neg, v, ds, base, upper);
    s := FinishText(sp, i, sn, neg, upper, ds);
  }

  lemma FormatNonzero(neg: bool, v: int, ds: seq<int>, b: int, upper: bool)
    requires 0 < v && 2 <= b <= 36 && IsNumeral(ds, v, b)
    ensures Format(Signed(neg, v), b, upper) == Sign(neg) + Spell(ds, upper)
  {
    NumeralUnique(ds, v, b);
    assert MagnitudeDigits(v, b) == ds;
  }

  method FinishText(sp: array<Byte>, i: nat, sn: nat, ghost neg: bool, upper: bool, ghost ds: seq<int>)
    returns (s: string)
    requires i + sn <= sp.Length && i == (if neg then 1 else 0) && (neg ==> sp[0] == '-' as int)
    requires sp[i..i + sn] == ds && DigitsBelow(ds, 36)
    modifies sp
    ensures s == Sign(neg) + Spell(ds, upper)
  {
    assert forall k :: i <= k < i + sn ==> sp[k] == ds[k - i];
    SpellBytes(sp, i, i + sn, upper);
    s := Text(sp[..i + sn]);
    SpelledText(sp[..i + sn], neg, ds, upper);
  }

  lemma ZeroText(b: int, upper: bool)
    requires 2 <= b <= 36
    ensures Format(0, b, upper) == "0"
  {
    assert MagnitudeDigits(0, b) == [0];
    assert Spell([0], upper) == "0";
  }

  lemma SpelledText(bytes: seq<Byte>, neg: bool, ds: seq<int>, upper: bool)
    requires DigitsBelow(ds, 36)
    requires var i := if neg then 1 else 0;
             && |bytes| == i + |ds| && (neg ==> bytes[0] == '-' as int)
             && forall k :: 0 <= k < |ds| ==> bytes[i + k] == DigitChar(ds[k], upper) as int
    ensures Text(bytes) == Sign(neg) + Spell(ds, upper)
  {
    var i := if neg then 1 else 0;
    var t := Sign(neg) + Spell(ds, upper);
    forall k | 0 <= k < |bytes| ensures Text(bytes)[k] == t[k] {
      if k >= i { assert bytes[i + (k - i)] == DigitChar(ds[k - i], upper) as int; }
    }
  }

  // ---- parsing ----

  lemma {:induction false} CollectFails(t: string, i: nat, base: int)
    requires i <= |t| && 0 <= base && Collect(t[..i], base) == None
    ensures Collect(t, base) == None
    decreases |t| - i
  {
    if i == |t| {
      assert t[..i] == t;
    } else {
      assert t[..i + 1][..i] == t[..i];
      CollectFails(t, i + 1, base);
    }
  }

  /** The loop that collects the digits of t[..], or stops at a bad character. */
  method CollectDigits(t: string, base: int) returns (ok: bool, dp: seq<Byte>)
    requires 2 <= base <= 36
    ensures ok <==> Collect(t, base).Some?
    ensures ok ==> Some(dp) == Collect(t, base)
  {
    dp := [];
    var i := 0;
    while i < |t|
      invariant 0 <= i <= |t| && Collect(t[..i], base) == Some(dp)
    {
      assert t[..i + 1][..i] == t[..i];
      var c := t[i];
      if !IsSpace(c) {
        var digit := DigitOf(c, base);
        if digit >= base {
          CollectFails(t, i + 1, base);
          return false, [];
        }
        dp := dp + [digit];
      }
      i := i + 1;
    }
    assert t[..i] == t;
    ok := true;
  }

  /** The limbs of a number given by digits. */
  method StoreDigits(r: Mpz, ds: seq<Byte>, base: Limb) returns (rn: nat)
    requires r.Valid() && 2 <= base <= 36 && ds != [] && DigitsBelow(ds, base)
    modifies r`d, r.d
    ensures rn <= r.d.Length && (rn > 0 ==> r.d[rn - 1] != 0) && Val(r.d, 0, rn) == Number(ds, base)
  {
    var bits := BasePowerOfTwo(base);
    if bits > 0 {
      var alloc := (|ds| * bits + 63) / 64;
      r.Realloc(alloc);
      rn := SetStrBits(r.d, ds, bits);
    } else {
      var exp, bb := BaseInfo(base);
      var alloc := (|ds| + exp - 1) / exp;
      CeilingBounds(|ds|, exp, alloc);
      r.Realloc(alloc);
      MulMono(alloc, r.d.Length, exp);
      rn := SetStrOther(r.d, ds, base, exp, bb);
      var k := DropTop(r.d, rn);
      rn := k;
    }
  }

  /** The position after leading white space. */
  method SkipBlanks(s: string) returns (p: nat)
    ensures p <= |s| && s[p..] == SkipSpaces(s)
  {
    p := 0;
    assert s[0..] == s;
    while p < |s| && IsSpace(s[p])
      invariant p <= |s| && SkipSpaces(s) == SkipSpaces(s[p..])
    {
      assert s[p..][1..] == s[p + 1..];
      p := p + 1;
    }
  }

  /** Base 0: looks at the prefix after the sign. */
  method DetectBase(s: string, p0: nat, base0: int) returns (base: int, p: nat)
    requires p0 <= |s| && (base0 == 0 || 2 <= base0 <= 36)
    ensures p <= |s| && (base, s[p..]) == ChooseBase(s[p0..], base0)
  {
    base, p := base0, p0;
    if base == 0 {
      if p < |s| && s[p] == '0' {
        if p + 1 < |s| && (s[p + 1] == 'x' || s[p + 1] == 'X') {
          base, p := 16, p + 2;
          assert s[p..] == s[p0..][2..];
        } else if p + 1 < |s| && (s[p + 1] == 'b' || s[p + 1] == 'B') {
          base, p := 2, p + 2;
          assert s[p..] == s[p0..][2..];
        } else {
          base := 8;
        }
      } else {
        base := 10;
      }
    }
  }

  /** The sign, base and digits of a text; false if it is no number. */
  method ReadNumber(s: string, base0: int) returns (ok: bool, sign: bool, base: int, dp: seq<Byte>)
    requires base0 == 0 || 2 <= base0 <= 36
    ensures ok <==> Parse(s, base0).Some?
    ensures ok ==> dp != [] && 2 <= base <= 36 && DigitsBelow(dp, base)
    ensures ok ==> Parse(s, base0).value == Signed(sign, Number(dp, base))
  {
    var p := SkipBlanks(s);
    ghost var t := s[p..];
    sign := p < |s| && s[p] == '-';
    if sign {
      p := p + 1;
      assert s[p..] == t[1..];
    }
    base, p := DetectBase(s, p, base0);
    if p == |s| {
      assert Collect("", base) == Some([]);
      return false, sign, base, [];
    }
    ok, dp := CollectDigits(s[p..], base);
    ok := ok && dp != [];
  }

  /** mpz_set_str: true stands for the return value 0. A text that is no number leaves 0. */
  method SetStr(r: Mpz, s: string, base0: int) returns (ok: bool)
    requires r.Valid() && (base0 == 0 || 2 <= base0 <= 36)
    modifies r, r.d
    ensures r.Valid()
    ensures ok <==> Parse(s, base0).Some?
    ensures r.Int() == if ok then Parse(s, base0).value else 0
  {
    var sign, base, dp;
    ok, sign, base, dp := ReadNumber(s, base0);
    if !ok {
      r.size := 0;
      assert r.d[0..0] == [];
      return;
    }
    var rn: int := StoreDigits(r, dp, base);
    r.size := if sign then -rn else rn;
  }

  /** Printing and parsing gives the number back, in every base and either case. */
  method PrintThenParse(r: Mpz, u: Mpz, base: int) returns (ok: bool)
    requires r.Valid() && u.Valid() && Apart(r, u) && 2 <= Abs(base) <= 36
    modifies r, r.d
    ensures ok && r.Valid() && r.Int() == old(u.Int())
  {
    ghost var x := u.Int();
    FormatParses(x, Abs(base), base < 0);
    var s := GetStr(u, base);
    ok := SetStr(r, s.value, Abs(base));
  }
}
