/** From requests to bytes and back: what a client sends is what the server parses. */
module Wire {
  import opened Framing
  import opened LimbLogic
  import opened Mpz
  import opened MpzStr
  import opened Numeral
  import opened Request
  import opened Strings

  /** A run request as fields that contain neither separator, newline nor NUL. */
  ghost predicate RunFields(fs: seq<string>) {
    |fs| >= 5 && (fs[0] == "run" || fs[0] == "runstdin") && forall i :: 0 <= i < |fs| ==> Plain(fs[i]) && '\n' !in fs[i]
  }

  function JoinAll(fss: seq<seq<string>>): (ls: seq<string>)
    requires forall i :: 0 <= i < |fss| ==> fss[i] != []
    ensures |ls| == |fss| && forall i :: 0 <= i < |fss| ==> ls[i] == Join(fss[i])
  {
    seq(|fss|, i requires 0 <= i < |fss| => Join(fss[i]))
  }

  lemma {:induction false} JoinNoNewline(fs: seq<string>)
    requires fs != [] && forall i :: 0 <= i < |fs| ==> '\n' !in fs[i]
    ensures '\n' !in Join(fs)
    decreases |fs|
  {
    if |fs| > 1 { JoinNoNewline(fs[1..]); }
  }

  /** Requests sent one per line arrive as they were sent, however the stream is cut into chunks. */
  lemma {:induction false} RequestsArrive(fss: seq<seq<string>>, chunks: seq<string>, key: int, k: nat)
    requires k < |fss| && forall i :: 0 <= i < |fss| ==> |fss[i]| >= 5 && RunFields(fss[i])
    requires Concat(chunks) == Unlines(JoinAll(fss))
    ensures var (lines, rest) := Feed(chunks); |lines| == |fss| && rest == ""
    ensures var fs := fss[k];
            |Feed(chunks).0| == |fss|
            && Meaning(Feed(chunks).0[k], key)
               == Accepted(Run(key, fs[1], Atoi(fs[2]), Atoi(fs[3]), fs[0] == "runstdin", fs[4], fs[5..]))
  {
    var lines := JoinAll(fss);
    forall i | 0 <= i < |lines| ensures '\n' !in lines[i] { JoinNoNewline(fss[i]); }
    LinesUnique(lines, "");
    assert Unlines(lines) + "" == Unlines(lines);
    FeedIsWhole(chunks);
    JoinedRunParses(fss[k], key);
  }

  // ---- numbers in requests ----

  lemma {:induction false} DigitsSnoc(s: string, c: char, acc: int)
    requires '0' <= c <= '9' && forall i :: 0 <= i < |s| ==> '0' <= s[i] <= '9'
    ensures DigitsValue(s + [c], acc) == 10 * DigitsValue(s, acc) + (c as int - '0' as int)
    decreases |s|
  {
    if s == "" {
      assert s + [c] == [c] && [c][1..] == "";
    } else {
      assert (s + [c])[1..] == s[1..] + [c];
      DigitsSnoc(s[1..], c, 10 * acc + (s[0] as int - '0' as int));
    }
  }

  /** Decimal digits are read as the number that they write. */
  lemma {:induction false} SpelledValue(ds: seq<int>)
    requires DigitsBelow(ds, 10)
    ensures DigitsValue(Spell(ds, false), 0) == Number(ds, 10)
    decreases |ds|
  {
    if ds != [] {
      var n := |ds| - 1;
      var s := Spell(ds[..n], false);
      assert Spell(ds, false) == s + [DigitChar(ds[n], false)];
      DigitsSnoc(s, DigitChar(ds[n], false), 0);
      SpelledValue(ds[..n]);
    }
  }

  lemma {:induction false} DigitsThen(s: string, rest: string, acc: int)
    requires forall i :: 0 <= i < |s| ==> '0' <= s[i] <= '9'
    requires rest == "" || !('0' <= rest[0] <= '9')
    ensures DigitsValue(s + rest, acc) == DigitsValue(s, acc)
    decreases |s|
  {
    if s == "" {
      assert s + rest == rest;
    } else {
      assert (s + rest)[1..] == s[1..] + rest;
      DigitsThen(s[1..], rest, 10 * acc + (s[0] as int - '0' as int));
    }
  }

  lemma {:induction false} SpacesBefore(ws: string, s: string)
    requires forall i :: 0 <= i < |ws| ==> ws[i] == ' ' || '\t' <= ws[i] <= '\r'
    ensures Atoi(ws + s) == Atoi(s)
    decreases |ws|
  {
    if ws == "" {
      assert ws + s == s;
    } else {
      assert (ws + s)[1..] == ws[1..] + s;
      SpacesBefore(ws[1..], s);
    }
  }

  /** atoi: white space, then a sign or none, then decimal digits, up to the first character that is not one. */
  lemma AtoiReads(ws: string, sign: string, ds: seq<int>, rest: string)
    requires forall i :: 0 <= i < |ws| ==> ws[i] == ' ' || '\t' <= ws[i] <= '\r'
    requires (sign == "-" || sign == "+" || (sign == "" && ds != [])) && DigitsBelow(ds, 10)
    requires rest == "" || !('0' <= rest[0] <= '9')
    ensures Atoi(ws + (sign + (Spell(ds, false) + rest))) == if sign == "-" then -Number(ds, 10) else Number(ds, 10)
  {
    var digits := Spell(ds, false);
    var s := digits + rest;
    if ds != [] { assert s[0] == DigitChar(ds[0], false); }
    SpelledValue(ds);
    DigitsThen(digits, rest, 0);
    hide Spell, Number, DigitsValue, Atoi;
    SpacesBefore(ws, sign + s);
    AfterSign(sign, s);
  }

  lemma AfterSign(sign: string, s: string)
    requires sign == "-" || sign == "+" || (sign == "" && s != "" && '0' <= s[0] <= '9')
    ensures Atoi(sign + s) == if sign == "-" then -DigitsValue(s, 0) else DigitsValue(s, 0)
  {
    if sign == "" { assert sign + s == s; } else { assert (sign + s)[1..] == s; }
    hide DigitsValue;
  }

  /** The decimal text of every integer is read as that integer. */
  lemma DecimalReads(n: int)
    ensures Atoi(Format(n, 10, false)) == n && Plain(Format(n, 10, false)) && '\n' !in Format(n, 10, false)
  {
    var ds := MagnitudeDigits(Abs(n), 10);
    var s, t := Spell(ds, false), Format(n, 10, false);
    SpelledValue(ds);
    assert s[0] == DigitChar(ds[0], false);
    if n < 0 { assert t[1..] == s; } else { assert t == s; }
  }

  /** A new limit, sent as its decimal text, is set if it is positive. */
  lemma JoinedParallelParses(n: int, key: int)
    ensures Meaning(Join(["parallel", Format(n, 10, false)]), key) == if n >= 1 then SetParallel(n) else Nothing
  {
    var fs := ["parallel", Format(n, 10, false)];
    DecimalReads(n);
    FieldsOfJoin(fs);
    CStringWhole("parallel");
    hide Fields, Join, CString, Atoi, Format;
  }

  /** A run request, with its limits as decimal texts, arrives as it was meant. */
  lemma RunRequestParses(usestdin: bool, id: string, timeout: int, memlimit: int, cmd: string, args: seq<string>,
                         key: int)
    requires Plain(id) && Plain(cmd) && forall i :: 0 <= i < |args| ==> Plain(args[i])
    ensures var kind := if usestdin then "runstdin" else "run";
            Meaning(Join([kind, id, Format(timeout, 10, false), Format(memlimit, 10, false), cmd] + args), key)
              == Accepted(Run(key, id, timeout, memlimit, usestdin, cmd, args))
  {
    hide Meaning, Join, Atoi, Format;
    var kind := if usestdin then "runstdin" else "run";
    assert Plain(kind) && (kind == "runstdin" <==> usestdin);
    hide Plain;
    DecimalReads(timeout);
    DecimalReads(memlimit);
    TextsParse(kind, id, Format(timeout, 10, false), Format(memlimit, 10, false), cmd, args, key);
  }

  lemma TextsParse(kind: string, id: string, timeout: string, memlimit: string, cmd: string, args: seq<string>,
                   key: int)
    requires (kind == "run" || kind == "runstdin") && Plain(kind) && Plain(id) && Plain(timeout) && Plain(memlimit)
    requires Plain(cmd) && forall i :: 0 <= i < |args| ==> Plain(args[i])
    ensures Meaning(Join([kind, id, timeout, memlimit, cmd] + args), key)
         == Accepted(Run(key, id, Atoi(timeout), Atoi(memlimit), kind == "runstdin", cmd, args))
  {
    hide Meaning, Join, Atoi, Plain;
    var front := [kind, id, timeout, memlimit, cmd];
    var fs := front + args;
    forall i | 0 <= i < |fs| ensures Plain(fs[i]) {
      if i >= 5 { assert fs[i] == args[i - 5]; }
    }
    assert fs[5..] == args;
    JoinedRunParses(fs, key);
  }
}
