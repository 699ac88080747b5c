/** Printing and parsing of integers. */
module MpzStr {
  import opened LimbLogic
  import opened Mpz
  import opened Numeral
  import opened Strings

  datatype Option<T> = None | Some(value: T)

  // ---- what the text of a number is ----

  /** The digits 0 to 9 and then the letters, in lower or upper case. */
  function DigitChar(d: int, upper: bool): (c: char)
    requires 0 <= d < 36
  {
    if d < 10 then ('0' as int + d) as char
    else if upper then ('A' as int + d - 10) as char
    else ('a' as int + d - 10) as char
  }

  function Spell(ds: seq<int>, upper: bool): (s: string)
    requires DigitsBelow(ds, 36)
  {
    seq(|ds|, i requires 0 <= i < |ds| => DigitChar(ds[i], upper))
  }

  /** The digits of a magnitude; zero has one digit. */
  function MagnitudeDigits(n: nat, b: int): (ds: seq<int>)
    requires 2 <= b <= 36
    ensures ds != [] && DigitsBelow(ds, b) && Number(ds, b) == n && (n > 0 ==> ds[0] != 0)
  {
    if n == 0 then
      NumberSnoc([], 0, b);
      assert [0] == [] + [0];
      [0]
    else
      NatDigitsCorrect(n, b);
      NatDigits(n, b)
  }

  function Sign(neg: bool): (s: string) { if neg then "-" else "" }

  /** The text of u in base b: a sign if negative, then the digits without leading zeros. */
  function Format(u: int, b: int, upper: bool): (s: string)
    requires 2 <= b <= 36
  {
    Sign(u < 0) + Spell(MagnitudeDigits(Abs(u), b), upper)
  }

  /** The value of a digit character; anything else counts as base, which is out of range. */
  function DigitOf(c: char, base: int): (d: int)
    requires 0 <= base
    ensures 0 <= d
  {
    if '0' <= c <= '9' then c as int - '0' as int
    else if 'a' <= c <= 'z' then c as int - 'a' as int + 10
    else if 'A' <= c <= 'Z' then c as int - 'A' as int + 10
    else base
  }

  /** The digits of a text, in which white space is skipped; None if another character occurs. */
  function Collect(t: string, base: int): (ds: Option<seq<int>>)
    requires 0 <= base
    ensures ds.Some? ==> DigitsBelow(ds.value, base) && |ds.value| <= |t|
  {
    if t == "" then Some([]) else
      var c := t[|t| - 1];
      match Collect(t[..|t| - 1], base)
      case None => None
      case Some(ds) =>
        if IsSpace(c) then Some(ds)
        else if DigitOf(c, base) < base then Some(ds + [DigitOf(c, base)])
        else None
  }

  function SkipSpaces(t: string): (r: string) {
    if t != "" && IsSpace(t[0]) then SkipSpaces(t[1..]) else t
  }

  /** Base 0 is chosen by a prefix: 0x, 0b, 0, or none for decimal. */
  function ChooseBase(t: string, base: int): (r: (int, string))
    requires base == 0 || 2 <= base <= 36
    ensures 2 <= r.0 <= 36
  {
    if base != 0 then (base, t)
    else if t == "" || t[0] != '0' then (10, t)
    else if |t| >= 2 && (t[1] == 'x' || t[1] == 'X') then (16, t[2..])
    else if |t| >= 2 && (t[1] == 'b' || t[1] == 'B') then (2, t[2..])
    else (8, t)
  }

  predicate Negative(t: string) { t != "" && t[0] == '-' }

  /** The number that a text stands for, or None. */
  function Parse(s: string, base: int): (n: Option<int>)
    requires base == 0 || 2 <= base <= 36
  {
    var t := SkipSpaces(s);
    var neg := Negative(t);
    var (b, body) := ChooseBase(if neg then t[1..] else t, base);
    match Collect(body, b)
    case None => None
    case Some(ds) => if ds == [] then None else Some(Signed(neg, Number(ds, b)))
  }

  // ---- printing, then parsing ----

  lemma DigitCharValue(d: int, base: int, upper: bool)
    requires 0 <= d < base <= 36
    ensures DigitOf(DigitChar(d, upper), base) == d && !IsSpace(DigitChar(d, upper)) && DigitChar(d, upper) != '-'
  {
  }

  lemma {:induction false} CollectSpelled(ds: seq<int>, base: int, upper: bool)
    requires 0 <= base <= 36 && DigitsBelow(ds, base)
    ensures Collect(Spell(ds, upper), base) == Some(ds)
    decreases |ds|
  {
    if ds != [] {
      var n := |ds| - 1;
      CollectSpelled(ds[..n], base, upper);
      DigitCharValue(ds[n], base, upper);
      assert Spell(ds, upper)[..n] == Spell(ds[..n], upper);
      assert ds == ds[..n] + [ds[n]];
    }
  }

  /** Behind the sign the base is chosen, and then come the digits. */
  lemma ParseSigned(neg: bool, t: string, base: int, b: int, body: string, ds: seq<int>)
    requires (base == 0 || 2 <= base <= 36) && t != "" && !IsSpace(t[0]) && t[0] != '-'
    requires ChooseBase(t, base) == (b, body) && ds != [] && Collect(body, b) == Some(ds)
    ensures Parse(Sign(neg) + t, base) == Some(Signed(neg, Number(ds, b)))
  {
    var s := Sign(neg) + t;
    assert s[0] == if neg then '-' else t[0];
    assert SkipSpaces(s) == s && Negative(s) == neg;
    assert (if neg then s[1..] else s) == t;
  }

  /** A sign and spelled digits parse to the signed number. */
  lemma SpelledParses(neg: bool, ds: seq<int>, b: int, upper: bool)
    requires 2 <= b <= 36 && ds != [] && DigitsBelow(ds, b)
    ensures Parse(Sign(neg) + Spell(ds, upper), b) == Some(Signed(neg, Number(ds, b)))
  {
    CollectSpelled(ds, b, upper);
    DigitCharValue(ds[0], b, upper);
    ParseSigned(neg, Spell(ds, upper), b, b, Spell(ds, upper), ds);
  }

  /** The text of a number parses back to the number. */
  lemma FormatParses(u: int, b: int, upper: bool)
    requires 2 <= b <= 36
    ensures Parse(Format(u, b, upper), b) == Some(u)
  {
    SpelledParses(u < 0, MagnitudeDigits(Abs(u), b), b, upper);
  }

  // ---- base 0, and white space in front ----

  /** 0x or 0X, and hexadecimal digits. */
  lemma HexParses(neg: bool, x: char, ds: seq<int>, upper: bool)
    requires (x == 'x' || x == 'X') && ds != [] && DigitsBelow(ds, 16)
    ensures Parse(Sign(neg) + (['0', x] + Spell(ds, upper)), 0) == Some(Signed(neg, Number(ds, 16)))
  {
    var t := ['0', x] + Spell(ds, upper);
    assert t[2..] == Spell(ds, upper);
    CollectSpelled(ds, 16, upper);
    ParseSigned(neg, t, 0, 16, t[2..], ds);
  }

  /** 0b or 0B, and binary digits. */
  lemma BinaryParses(neg: bool, x: char, ds: seq<int>, upper: bool)
    requires (x == 'b' || x == 'B') && ds != [] && DigitsBelow(ds, 2)
    ensures Parse(Sign(neg) + (['0', x] + Spell(ds, upper)), 0) == Some(Signed(neg, Number(ds, 2)))
  {
    var t := ['0', x] + Spell(ds, upper);
    assert t[2..] == Spell(ds, upper);
    CollectSpelled(ds, 2, upper);
    ParseSigned(neg, t, 0, 2, t[2..], ds);
  }

  /** 0, and octal digits, if any. */
  lemma OctalParses(neg: bool, ds: seq<int>, upper: bool)
    requires DigitsBelow(ds, 8)
    ensures Parse(Sign(neg) + ("0" + Spell(ds, upper)), 0) == Some(Signed(neg, Number(ds, 8)))
  {
    var t, zs := "0" + Spell(ds, upper), [0] + ds;
    assert Spell(zs, upper) == t by { SpellCons(0, ds, upper); }
    if ds != [] { assert t[1] == DigitChar(ds[0], upper) <= '7'; }
    hide Spell, Parse, Collect, Number, DigitChar;
    CollectSpelled(zs, 8, upper);
    LeadingZero(ds, 8);
    ParseSigned(neg, t, 0, 8, t, zs);
  }

  lemma SpellCons(d: int, ds: seq<int>, upper: bool)
    requires 0 <= d < 36 && DigitsBelow(ds, 36)
    ensures Spell([d] + ds, upper) == [DigitChar(d, upper)] + Spell(ds, upper)
  {
    hide DigitChar;
  }

  lemma LeadingZero(ds: seq<int>, b: int)
    requires 0 < b
    ensures Number([0] + ds, b) == Number(ds, b)
  {
    NumberCons(0, ds, b);
  }

  /** Decimal digits that do not start with zero. */
  lemma DecimalParses(neg: bool, ds: seq<int>, upper: bool)
    requires ds != [] && DigitsBelow(ds, 10) && ds[0] != 0
    ensures Parse(Sign(neg) + Spell(ds, upper), 0) == Some(Signed(neg, Number(ds, 10)))
  {
    var t := Spell(ds, upper);
    CollectSpelled(ds, 10, upper);
    DigitCharValue(ds[0], 10, upper);
    ParseSigned(neg, t, 0, 10, t, ds);
  }

  /** Blanks, tabs, newlines, vertical tabs, form feeds and returns in front change nothing. */
  lemma {:induction false} SpacesInFront(ws: string, s: string, base: int)
    requires base == 0 || 2 <= base <= 36
    requires forall i :: 0 <= i < |ws| ==> ws[i] == ' ' || '\t' <= ws[i] <= '\r'
    ensures Parse(ws + s, base) == Parse(s, base)
    decreases |ws|
  {
    if ws == "" {
      assert ws + s == s;
    } else {
      assert (ws + s)[1..] == ws[1..] + s;
      SpacesInFront(ws[1..], s, base);
    }
  }

  /** The text of an integer in base b, behind a prefix. */
  function Prefixed(u: int, prefix: string, b: int, upper: bool): (s: string)
    requires 2 <= b <= 36
  {
    Sign(u < 0) + (prefix + Spell(MagnitudeDigits(Abs(u), b), upper))
  }

  /** Every integer is read back in base 0 behind the prefix of its base, in either case; a decimal text needs none. */
  lemma BaseZeroParses(u: int, upper: bool)
    ensures Parse(Prefixed(u, "0x", 16, upper), 0) == Parse(Prefixed(u, "0X", 16, upper), 0) == Some(u)
    ensures Parse(Prefixed(u, "0b", 2, upper), 0) == Parse(Prefixed(u, "0B", 2, upper), 0) == Some(u)
    ensures Parse(Prefixed(u, "0", 8, upper), 0) == Parse(Format(u, 10, upper), 0) == Some(u)
  {
    hide Parse, Spell, Number;
    HexParses(u < 0, 'x', MagnitudeDigits(Abs(u), 16), upper);
    HexParses(u < 0, 'X', MagnitudeDigits(Abs(u), 16), upper);
    BinaryParses(u < 0, 'b', MagnitudeDigits(Abs(u), 2), upper);
    BinaryParses(u < 0, 'B', MagnitudeDigits(Abs(u), 2), upper);
    OctalParses(u < 0, MagnitudeDigits(Abs(u), 8), upper);
    DecimalText(u, upper);
  }

  lemma DecimalText(u: int, upper: bool)
    ensures Parse(Format(u, 10, upper), 0) == Some(u)
  {
    var ds := MagnitudeDigits(Abs(u), 10);
    if u != 0 {
      DecimalParses(u < 0, ds, upper);
    } else {
      assert Number([], 8) == 0;
      OctalParses(false, [], upper);
      assert Spell([0], upper) == "0" + Spell([], upper);
    }
  }

  // ---- the characters ----

  const LOWER_DIGITS := "0123456789abcdefghijklmnopqrstuvwxyz"
  const UPPER_DIGITS := "0123456789ABCDEFGHIJKLMNOPQRSTUVWXYZ"

  lemma DigitChars(d: int)
    requires 0 <= d < 36
    ensures DigitChar(d, false) == LOWER_DIGITS[d] && DigitChar(d, true) == UPPER_DIGITS[d]
  {
  }

  /** The text of u is a sign if it is negative, and the digits of its magnitude, each with its character. */
  lemma FormatChars(u: int, b: int, upper: bool)
    requires 2 <= b <= 36
    ensures var s, ds := Format(u, b, upper), MagnitudeDigits(Abs(u), b); var k := if u < 0 then 1 else 0;
            && |s| == k + |ds| && (u < 0 ==> s[0] == '-')
            && forall i :: 0 <= i < |ds| ==> s[k + i] == (if upper then UPPER_DIGITS else LOWER_DIGITS)[ds[i]]
  {
    var ds := MagnitudeDigits(Abs(u), b);
    forall i | 0 <= i < |ds| ensures Spell(ds, upper)[i] == (if upper then UPPER_DIGITS else LOWER_DIGITS)[ds[i]] {
      DigitChars(ds[i]);
    }
  }

  /** A text without its white space. */
  function Visible(t: string): (v: string) {
    if t == "" then "" else
      var c := t[|t| - 1];
      Visible(t[..|t| - 1]) + if c == ' ' || '\t' <= c <= '\r' then "" else [c]
  }

  /** A character that stands for the digit d. */
  predicate IsDigit(c: char, d: int) { 0 <= d < 36 && (c == LOWER_DIGITS[d] || c == UPPER_DIGITS[d]) }

  /** A text is read as digits if and only if its visible characters are these digits, one for each, in order. */
  lemma {:induction false} CollectExactly(t: string, b: int, ds: seq<int>)
    requires 2 <= b <= 36
    ensures Collect(t, b) == Some(ds) <==>
            |Visible(t)| == |ds| && forall i :: 0 <= i < |ds| ==> ds[i] < b && IsDigit(Visible(t)[i], ds[i])
    decreases |t|
  {
    if t != "" {
      var n, c := |t| - 1, t[|t| - 1];
      if IsSpace(c) {
        CollectExactly(t[..n], b, ds);
      } else if ds != [] {
        var m := |ds| - 1;
        CollectExactly(t[..n], b, ds[..m]);
        OneDigit(c, b, ds[m]);
        assert ds == ds[..m] + [ds[m]];
      }
    }
  }

  lemma OneDigit(c: char, b: int, d: int)
    requires 2 <= b <= 36
    ensures 0 <= d < b && DigitOf(c, b) == d <==> d < b && IsDigit(c, d)
  {
    assert d < 0 ==> !IsDigit(c, d);
    hide IsDigit;
    if 0 <= d < b {
      DigitIs(c, d);
      if d < 10 { assert DigitChar(d, false) == DigitChar(d, true) == ('0' as int + d) as char; }
    }
  }

  lemma DigitIs(c: char, d: int)
    requires 0 <= d < 36
    ensures IsDigit(c, d) <==> c == DigitChar(d, false) || c == DigitChar(d, true)
  {
    DigitChars(d);
    hide DigitChar;
  }
}
