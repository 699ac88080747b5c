/** Quoting of a command line, and the rules by which a C program takes it apart again. */
module Quoter {
  import opened Strings

  function Backslashes(n: nat): (s: string)
    ensures |s| == n && forall i :: 0 <= i < n ==> s[i] == '\\'
  {
    if n == 0 then "" else "\\" + Backslashes(n - 1)
  }

  lemma {:induction false} BackslashesAdd(m: nat, n: nat)
    ensures Backslashes(m + n) == Backslashes(m) + Backslashes(n)
  {
  }

  // ---- the rules of section "Parsing C command-line arguments" of the Microsoft C documentation ----

  /** The number of backslashes at the front. */
  function Run(s: string): (n: nat)
    ensures n <= |s|
  {
    if s != "" && s[0] == '\\' then 1 + Run(s[1..]) else 0
  }

  predicate IsDelimiter(c: char) { c == ' ' || c == '\t' }

  /** One argument: its value, and the text after it. */
  function ReadArgument(s: string, quoted: bool): (r: (string, string))
    ensures |r.1| <= |s|
    decreases |s|
  {
    var n := Run(s);
    if n > 0 then
      if n < |s| && s[n] == '"' then
        if n % 2 == 0 then
          var (arg, rest) := ReadArgument(s[n + 1..], !quoted);
          (Backslashes(n / 2) + arg, rest)
        else
          var (arg, rest) := ReadArgument(s[n + 1..], quoted);
          (Backslashes(n / 2) + "\"" + arg, rest)
      else
        var (arg, rest) := ReadArgument(s[n..], quoted);
        (Backslashes(n) + arg, rest)
    else if s == "" then ("", "")
    else if s[0] == '"' then ReadArgument(s[1..], !quoted)
    else if IsDelimiter(s[0]) && !quoted then ("", s)
    else
      var (arg, rest) := ReadArgument(s[1..], quoted);
      ([s[0]] + arg, rest)
  }

  function SkipDelimiters(s: string): (t: string)
    ensures |t| <= |s| && (t != "" ==> !IsDelimiter(t[0]))
  {
    if s != "" && IsDelimiter(s[0]) then SkipDelimiters(s[1..]) else s
  }

  /** An argument that starts with a character other than a delimiter uses up some of the text. */
  lemma {:induction false} ReadsSomething(s: string)
    requires s != "" && !IsDelimiter(s[0])
    ensures |ReadArgument(s, false).1| < |s|
  {
  }

  /** All arguments of a command line, after the program name. */
  function Arguments(s: string): (args: seq<string>)
    decreases |s|
  {
    var t := SkipDelimiters(s);
    if t == "" then [] else
      ReadsSomething(t);
      var (arg, rest) := ReadArgument(t, false);
      [arg] + Arguments(rest)
  }

  // ---- quoting ----

  /** The quoted form of what is left of an argument, after k backslashes. */
  function Escape(s: string, k: nat): (t: string)
    decreases |s|
  {
    if s == "" then Backslashes(k)
    else if s[0] == '\\' then "\\" + Escape(s[1..], k + 1)
    else if s[0] == '"' then Backslashes(k) + "\\\"" + Escape(s[1..], 0)
    else [s[0]] + Escape(s[1..], 0)
  }

  predicate NeedsQuotes(a: string) { a == "" || ' ' in a || '"' in a }

  function Quote(a: string): (t: string) {
    if NeedsQuotes(a) then "\"" + Escape(a, 0) + "\" " else a + " "
  }

  function QuoteAll(args: seq<string>): (t: string) {
    if args == [] then "" else QuoteAll(args[..|args| - 1]) + Quote(args[|args| - 1])
  }

  // ---- reading what was quoted ----

  lemma {:induction false} RunOf(k: nat, t: string)
    requires t == "" || t[0] != '\\'
    ensures Run(Backslashes(k) + t) == k
    decreases k
  {
    if k == 0 {
      assert Backslashes(0) + t == t;
    } else {
      assert (Backslashes(k) + t)[1..] == Backslashes(k - 1) + t;
      RunOf(k - 1, t);
    }
  }

  /** Backslashes before a double quote. */
  lemma {:induction false} ReadRunQuote(n: nat, t: string, quoted: bool)
    ensures var (arg, rest) := ReadArgument(t, if n % 2 == 0 then !quoted else quoted);
            ReadArgument(Backslashes(n) + "\"" + t, quoted)
              == (Backslashes(n / 2) + (if n % 2 == 0 then "" else "\"") + arg, rest)
  {
    var s := Backslashes(n) + "\"" + t;
    assert s == Backslashes(n) + ("\"" + t);
    RunOf(n, "\"" + t);
    assert s[n] == '"' && s[n + 1..] == t;
    assert Backslashes(n / 2) + "" == Backslashes(n / 2);
    if n == 0 { assert forall x: string :: "" + x == x; }
  }

  lemma {:induction false} ReadEvenRun(k: nat, t: string, quoted: bool)
    ensures ReadArgument(Backslashes(2 * k) + "\"" + t, quoted)
         == (Backslashes(k) + ReadArgument(t, !quoted).0, ReadArgument(t, !quoted).1)
  {
    assert (2 * k) / 2 == k && (2 * k) % 2 == 0;
    ReadRunQuote(2 * k, t, quoted);
    assert Backslashes(k) + "" == Backslashes(k);
  }

  lemma {:induction false} ReadOddRun(k: nat, t: string, quoted: bool)
    ensures ReadArgument(Backslashes(2 * k + 1) + "\"" + t, quoted)
         == (Backslashes(k) + "\"" + ReadArgument(t, quoted).0, ReadArgument(t, quoted).1)
  {
    assert (2 * k + 1) / 2 == k && (2 * k + 1) % 2 == 1;
    ReadRunQuote(2 * k + 1, t, quoted);
  }

  /** Backslashes before anything else. */
  lemma {:induction false} ReadRunOther(n: nat, t: string, quoted: bool)
    requires t == "" || (t[0] != '\\' && t[0] != '"')
    ensures var (arg, rest) := ReadArgument(t, quoted);
            ReadArgument(Backslashes(n) + t, quoted) == (Backslashes(n) + arg, rest)
  {
    var s := Backslashes(n) + t;
    RunOf(n, t);
    if n == 0 {
      assert s == t && forall x: string :: Backslashes(0) + x == x;
    } else {
      assert s[n..] == t;
    }
  }

  lemma QuoteShape(b: string, e: string, more: string)
    ensures b + ((b + "\\\"" + e) + "\"" + more) == (b + b + "\\") + "\"" + (e + "\"" + more)
  {
  }

  lemma EndShape(b: string, more: string)
    ensures (b + b) + "\"" + more == b + (b + "\"" + more)
  {
  }

  lemma OtherShape(c: string, e: string, more: string)
    ensures (c + e) + "\"" + more == c + (e + "\"" + more)
  {
  }

  /** Inside quotes, escaped text followed by the closing quote reads back as the text. */
  ghost predicate ReadsBack(s: string, k: nat, more: string) {
    ReadArgument(Backslashes(k) + (Escape(s, k) + "\"" + more), true)
      == (Backslashes(k) + (s + ReadArgument(more, false).0), ReadArgument(more, false).1)
  }

  lemma {:induction false} ReadsBackEnd(k: nat, more: string)
    ensures ReadsBack("", k, more)
  {
    var (arg, rest) := ReadArgument(more, false);
    var b := Backslashes(k);
    BackslashesAdd(k, k);
    ReadEvenRun(k, more, true);
    assert Backslashes(2 * k) + "\"" + more == b + (b + "\"" + more) by { EndShape(b, more); }
    assert "" + arg == arg;
  }

  lemma {:induction false} ReadsBackBackslash(s: string, k: nat, more: string)
    requires ReadsBack(s, k + 1, more)
    ensures ReadsBack("\\" + s, k, more)
  {
    var (arg, rest) := ReadArgument(more, false);
    var b, t, tail := Backslashes(k), "\\" + s, Escape(s, k + 1) + "\"" + more;
    assert b + "\\" == Backslashes(k + 1) by {
      BackslashesAdd(k, 1);
      assert Backslashes(1) == "\\" + Backslashes(0);
    }
    assert b + (Escape(t, k) + "\"" + more) == Backslashes(k + 1) + tail by {
      assert t[1..] == s;
      OtherShape("\\", Escape(s, k + 1), more);
      Regroup(b, "\\", tail);
    }
    assert b + (t + arg) == Backslashes(k + 1) + (s + arg) by {
      Regroup("\\", s, arg);
      Regroup(b, "\\", s + arg);
    }
  }

  lemma {:induction false} ReadsBackQuote(s: string, k: nat, more: string)
    requires ReadsBack(s, 0, more)
    ensures ReadsBack("\"" + s, k, more)
  {
    var (arg, rest) := ReadArgument(more, false);
    var b, t, tail := Backslashes(k), "\"" + s, Escape(s, 0) + "\"" + more;
    assert ReadArgument(tail, true) == (s + arg, rest) by {
      assert Backslashes(0) + tail == tail && Backslashes(0) + (s + arg) == s + arg;
    }
    ReadOddRun(k, tail, true);
    assert b + (Escape(t, k) + "\"" + more) == Backslashes(2 * k + 1) + "\"" + tail by {
      assert t[1..] == s;
      OddRun(k);
      QuoteShape(b, Escape(s, 0), more);
    }
    assert b + "\"" + (s + arg) == b + (t + arg) by { Regroup(b, "\"", s + arg); Regroup("\"", s, arg); }
  }

  lemma {:induction false} OddRun(k: nat)
    ensures Backslashes(2 * k + 1) == Backslashes(k) + Backslashes(k) + "\\"
  {
    BackslashesAdd(k, k); BackslashesAdd(2 * k, 1);
    assert Backslashes(1) == "\\" + Backslashes(0);
  }

  lemma {:induction false} ReadsBackOther(c: char, s: string, k: nat, more: string)
    requires ReadsBack(s, 0, more) && c != '\\' && c != '"'
    ensures ReadsBack([c] + s, k, more)
  {
    var (arg, rest) := ReadArgument(more, false);
    var t, tail := [c] + s, Escape(s, 0) + "\"" + more;
    assert t[1..] == s && Backslashes(0) + tail == tail && Backslashes(0) + (s + arg) == s + arg;
    assert Escape(t, k) == [c] + Escape(s, 0);
    OtherShape([c], Escape(s, 0), more);
    assert ([c] + tail)[1..] == tail;
    ReadRunOther(k, [c] + tail, true);
    Regroup([c], s, arg);
  }

  lemma {:induction false} ReadEscaped(s: string, k: nat, more: string)
    ensures ReadsBack(s, k, more)
    decreases |s|
  {
    if s == "" {
      ReadsBackEnd(k, more);
    } else {
      assert s == [s[0]] + s[1..];
      ReadEscaped(s[1..], if s[0] == '\\' then k + 1 else 0, more);
      if s[0] == '\\' {
        ReadsBackBackslash(s[1..], k, more);
      } else if s[0] == '"' {
        ReadsBackQuote(s[1..], k, more);
      } else {
        ReadsBackOther(s[0], s[1..], k, more);
      }
    }
  }

  /** A plain character reads as itself. */
  lemma {:induction false} ReadChar(c: char, t: string)
    requires c != '\\' && c != '"' && !IsDelimiter(c)
    ensures ReadArgument([c] + t, false) == ([c] + ReadArgument(t, false).0, ReadArgument(t, false).1)
  {
    assert ([c] + t)[1..] == t;
    assert Run([c] + t) == 0;
  }

  lemma {:induction false} PlainRun(n: nat, t: string, end: string)
    requires t + end != "" && (t + end)[0] != '\\' && (t + end)[0] != '"' && ReadArgument(t + end, false) == (t, end)
    ensures ReadArgument((Backslashes(n) + t) + end, false) == (Backslashes(n) + t, end)
  {
    Regroup(Backslashes(n), t, end);
    ReadRunOther(n, t + end, false);
  }

  lemma {:induction false} PlainChar(c: char, t: string, end: string)
    requires c != '\\' && c != '"' && !IsDelimiter(c) && ReadArgument(t + end, false) == (t, end)
    ensures ReadArgument(([c] + t) + end, false) == ([c] + t, end)
  {
    Regroup([c], t, end);
    ReadChar(c, t + end);
  }

  /** Text without delimiters and quotes reads as itself. */
  lemma {:induction false} ReadPlain(a: string, more: string)
    requires ' ' !in a && '\t' !in a && '"' !in a
    ensures ReadArgument(a + (" " + more), false) == (a, " " + more)
    decreases |a|
  {
    var n, end := Run(a), " " + more;
    if a == "" {
      assert a + end == end && Run(end) == 0;
    } else if n > 0 {
      RunOfFront(a);
      ReadPlain(a[n..], more);
      PlainStart(a, n, more);
      PlainRun(n, a[n..], end);
    } else {
      ReadPlain(a[1..], more);
      assert a[0] in a;
      PlainChar(a[0], a[1..], end);
      assert a == [a[0]] + a[1..];
    }
  }

  lemma PlainStart(a: string, n: nat, more: string)
    requires n <= |a| && '"' !in a && (n < |a| ==> a[n] != '\\')
    ensures var t := a[n..] + (" " + more); t[0] != '\\' && t[0] != '"'
  {
    var t := a[n..] + (" " + more);
    if n < |a| { assert t[0] == a[n] && a[n] in a; }
  }

  lemma {:induction false} RunOfFront(a: string)
    ensures a == Backslashes(Run(a)) + a[Run(a)..] && (Run(a) < |a| ==> a[Run(a)] != '\\')
    decreases |a|
  {
    if a != "" && a[0] == '\\' {
      var t, n := a[1..], Run(a[1..]);
      RunOfFront(t);
      assert a == "\\" + t && a[n + 1..] == t[n..];
      Regroup("\\", Backslashes(n), t[n..]);
    }
  }

  /** Quoting does not look for tabs: an argument with a tab survives only if something else gets it quoted. */
  predicate Survives(a: string) { NeedsQuotes(a) || '\t' !in a }

  /** One quoted argument and the text after it. */
  lemma {:induction false} ReadQuoted(a: string, more: string)
    requires Survives(a)
    ensures ReadArgument(Quote(a) + more, false) == (a, " " + more)
    ensures Quote(a) != "" && !IsDelimiter(Quote(a)[0])
  {
    if NeedsQuotes(a) {
      var tail := Escape(a, 0) + "\"" + (" " + more);
      assert Quote(a) + more == "\"" + tail;
      assert ("\"" + tail)[1..] == tail && Backslashes(0) + tail == tail;
      ReadEscaped(a, 0, " " + more);
      assert Backslashes(0) + (a + "") == a;
    } else {
      assert Quote(a) + more == a + (" " + more);
      assert a[0] in a;
      ReadPlain(a, more);
    }
  }

  function QuoteFrom(args: seq<string>): (t: string) {
    if args == [] then "" else Quote(args[0]) + QuoteFrom(args[1..])
  }

  lemma {:induction false} QuoteFromSnoc(args: seq<string>, a: string)
    ensures QuoteFrom(args + [a]) == QuoteFrom(args) + Quote(a)
    decreases |args|
  {
    if args == [] {
      assert (args + [a])[1..] == [];
    } else {
      assert (args + [a])[1..] == args[1..] + [a];
      QuoteFromSnoc(args[1..], a);
    }
  }

  lemma {:induction false} SameQuoting(args: seq<string>)
    ensures QuoteAll(args) == QuoteFrom(args)
    decreases |args|
  {
    if args != [] {
      var n := |args| - 1;
      SameQuoting(args[..n]);
      QuoteFromSnoc(args[..n], args[n]);
      assert args == args[..n] + [args[n]];
    }
  }

  lemma {:induction false} ReadAll(args: seq<string>)
    requires forall i :: 0 <= i < |args| ==> Survives(args[i])
    ensures Arguments(QuoteFrom(args)) == args && Arguments(" " + QuoteFrom(args)) == args
    decreases |args|
  {
    var t := QuoteFrom(args);
    assert (" " + t)[1..] == t;
    if args != [] {
      ReadAll(args[1..]);
      ReadFirst(args);
    }
  }

  lemma {:induction false} ReadFirst(args: seq<string>)
    requires args != [] && Survives(args[0])
    ensures Arguments(QuoteFrom(args)) == [args[0]] + Arguments(" " + QuoteFrom(args[1..]))
    ensures Arguments(" " + QuoteFrom(args)) == Arguments(QuoteFrom(args))
  {
    var t := QuoteFrom(args);
    ReadQuoted(args[0], QuoteFrom(args[1..]));
    assert t[0] == Quote(args[0])[0];
    assert SkipDelimiters(t) == t;
    assert (" " + t)[1..] == t;
  }

  // ---- what happens to an unquoted tab ----

  /** Text without double quotes, outside quotes: the argument ends before a tab. */
  lemma {:induction false} StopsAtTab(a: string, more: string)
    requires '"' !in a
    ensures '\t' !in ReadArgument(a + (" " + more), false).0
    decreases |a|
  {
    var n, end := Run(a), " " + more;
    var s := a + end;
    if a == "" {
      assert s == end && Run(end) == 0;
    } else if n > 0 {
      RunOfFront(a);
      StopsAtTab(a[n..], more);
      PlainStart(a, n, more);
      Regroup(Backslashes(n), a[n..], end);
      ReadRunOther(n, a[n..] + end, false);
    } else {
      assert s[0] == a[0] && s[1..] == a[1..] + end && Run(s) == 0;
      assert a[0] in a;
      StopsAtTab(a[1..], more);
    }
  }

  /** The first argument read from a quoted list is one that was quoted, or has no tab. */
  lemma {:induction false} FirstSurvives(args: seq<string>)
    requires Arguments(QuoteFrom(args)) != []
    ensures Survives(Arguments(QuoteFrom(args))[0])
    decreases |args|
  {
    if args != [] {
      if Survives(args[0]) {
        ReadFirst(args);
      } else {
        var more := QuoteFrom(args[1..]);
        assert QuoteFrom(args) == args[0] + (" " + more);
        UnquotedFirst(args[0], more);
        if args[1..] != [] && Arguments(more) != [] { FirstSurvives(args[1..]); }
      }
    }
  }

  /** Skipping delimiters in front of an unquoted argument: it is gone, or what is left is read up to a tab. */
  lemma {:induction false} UnquotedFirst(a: string, more: string)
    requires '"' !in a
    ensures Arguments(a + (" " + more)) == Arguments(more)
         || (Arguments(a + (" " + more)) != [] && '\t' !in Arguments(a + (" " + more))[0])
    decreases |a|
  {
    var s := a + (" " + more);
    if a == "" {
      assert s == " " + more && s[1..] == more;
    } else if IsDelimiter(a[0]) {
      assert s[0] == a[0] && s[1..] == a[1..] + (" " + more);
      UnquotedFirst(a[1..], more);
    } else {
      assert s[0] == a[0];
      assert SkipDelimiters(s) == s;
      StopsAtTab(a, more);
    }
  }

  /** Quoting loses nothing exactly when no argument has a tab without a blank or a double quote: quotes, blanks,
      backslashes and empty arguments all come back. */
  lemma {:induction false} ReadsBackExactly(args: seq<string>)
    ensures Arguments(QuoteAll(args)) == args <==> forall i :: 0 <= i < |args| ==> Survives(args[i])
  {
    SameQuoting(args);
    if forall i :: 0 <= i < |args| ==> Survives(args[i]) {
      ReadAll(args);
    } else {
      LosesSomething(args);
    }
  }

  lemma {:induction false} LosesSomething(args: seq<string>)
    requires exists i :: 0 <= i < |args| && !Survives(args[i])
    ensures Arguments(QuoteFrom(args)) != args && Arguments(" " + QuoteFrom(args)) != args
    decreases |args|
  {
    var t := QuoteFrom(args);
    assert (" " + t)[1..] == t;
    if Survives(args[0]) {
      var i :| 0 <= i < |args| && !Survives(args[i]);
      assert args[1..][i - 1] == args[i];
      LosesSomething(args[1..]);
      ReadFirst(args);
      assert args == [args[0]] + args[1..];
    } else if Arguments(t) != [] {
      FirstSurvives(args);
    }
  }

  /** In particular every argument list without tabs comes back. */
  lemma {:induction false} QuotedArgumentsReadBack(args: seq<string>)
    requires forall i :: 0 <= i < |args| ==> '\t' !in args[i]
    ensures Arguments(QuoteAll(args)) == args
  {
    ReadsBackExactly(args);
  }

  /** A single tab is lost. */
  lemma {:induction false} TabIsLost()
    ensures Arguments(QuoteAll(["\t"])) != ["\t"]
  {
    ReadsBackExactly(["\t"]);
    assert !Survives(["\t"][0]);
  }

  // ---- the quoting loops ----

  /** The number of backslashes just before place i. */
  function RunBefore(a: string, i: nat): (n: nat)
    requires i <= |a|
    ensures n <= i
  {
    if i > 0 && a[i - 1] == '\\' then 1 + RunBefore(a, i - 1) else 0
  }

  /** The scan for blanks and quotes. */
  method MustQuote(ca: string) returns (need: bool)
    ensures need <==> NeedsQuotes(ca)
  {
    need := |ca| == 0;
    var i := 0;
    while i < |ca|
      invariant 0 <= i <= |ca| && need == (ca == "")
      invariant ' ' !in ca[..i] && '"' !in ca[..i]
    {
      if ca[i] == ' ' || ca[i] == '"' {
        need := true;
        break;
      }
      i := i + 1;
    }
    if !need { assert ca[..|ca|] == ca; }
  }

  /** The loop that repeats the backslashes before place i. */
  method RepeatBackslashes(cmd0: string, ca: string, i: nat) returns (cmd: string)
    requires i <= |ca|
    ensures cmd == cmd0 + Backslashes(RunBefore(ca, i))
  {
    cmd := cmd0;
    var j: int := i - 1;
    ghost var n := 0;
    while j >= 0 && ca[j] == '\\'
      invariant -1 <= j < i && n + RunBefore(ca, j + 1) == RunBefore(ca, i)
      invariant cmd == cmd0 + Backslashes(n)
    {
      BackslashesAdd(n, 1);
      assert Backslashes(1) == "\\" + Backslashes(0);
      cmd := cmd + "\\";
      n := n + 1;
      j := j - 1;
    }
  }

  /** What is still to be emitted from place i on. */
  ghost function Remaining(ca: string, i: nat): (t: string)
    requires i <= |ca|
  {
    if i == |ca| then "" else Escape(ca[i..], RunBefore(ca, i))
  }

  lemma {:induction false} RemainingStep(ca: string, i: nat)
    requires i < |ca|
    ensures var k, r := RunBefore(ca, i), Remaining(ca, i + 1);
            Remaining(ca, i) == if ca[i] == '"' then Backslashes(k) + "\\\"" + r
                                else if ca[i] == '\\' && i + 1 == |ca| then "\\" + Backslashes(k + 1)
                                else [ca[i]] + r
  {
    var rest := ca[i + 1..];
    assert ca[i..][1..] == rest && ca[i..][0] == ca[i];
    if i + 1 == |ca| {
      assert rest == "";
      assert forall k: nat :: Escape(rest, k) == Backslashes(k);
      assert Backslashes(0) == "";
    }
  }

  /** One round of the loop over the characters. */
  method EscapeChar(cmd0: string, ca: string, i: nat) returns (cmd: string)
    requires i < |ca|
    ensures cmd + Remaining(ca, i + 1) == cmd0 + Remaining(ca, i)
  {
    RemainingStep(ca, i);
    ghost var k, r := RunBefore(ca, i), Remaining(ca, i + 1);
    if ca[i] == '"' {
      cmd := RepeatBackslashes(cmd0, ca, i);
      cmd := cmd + "\\" + "\"";
      EmitShape(cmd0, Backslashes(k), r);
    } else {
      cmd := cmd0 + [ca[i]];
      if ca[i] == '\\' && i + 1 == |ca| {
        cmd := RepeatBackslashes(cmd, ca, i + 1);
        Regroup(cmd0, "\\", Backslashes(k + 1));
        assert cmd + "" == cmd;
      } else {
        Regroup(cmd0, [ca[i]], r);
      }
    }
  }

  lemma EmitShape(c: string, b: string, r: string)
    ensures ((c + b) + "\\" + "\"") + r == c + (b + "\\\"" + r)
  {
  }

  /** The text of one argument, appended to the command line. */
  method AppendArgument(cmd0: string, ca: string) returns (cmd: string)
    ensures cmd == cmd0 + Quote(ca)
  {
    var need := MustQuote(ca);
    if need {
      cmd := cmd0 + "\"";
      ghost var whole := cmd + Escape(ca, 0);
      assert ca[0..] == ca;
      if ca == "" { assert Escape("", 0) == ""; }
      var i := 0;
      while i < |ca|
        invariant 0 <= i <= |ca| && cmd + Remaining(ca, i) == whole
      {
        cmd := EscapeChar(cmd, ca, i);
        i := i + 1;
      }
      assert cmd == whole;
      cmd := cmd + "\"" + " ";
      assert cmd == cmd0 + ("\"" + Escape(ca, 0) + "\" ");
    } else {
      cmd := cmd0 + ca + " ";
      Regroup(cmd0, ca, " ");
    }
  }

  /** The command line of run_request: the program, a blank, and the arguments in quoted form. */
  method CommandLine(program: string, args: seq<string>) returns (cmd: string)
    ensures cmd == program + " " + QuoteAll(args)
    ensures (forall i :: 0 <= i < |args| ==> '\t' !in args[i]) ==> Arguments(cmd[|program| + 1..]) == args
  {
    cmd := program + " ";
    ghost var start := cmd;
    var k := 0;
    while k < |args|
      invariant 0 <= k <= |args| && cmd == start + QuoteAll(args[..k])
    {
      assert args[..k + 1][..k] == args[..k];
      Regroup(start, QuoteAll(args[..k]), Quote(args[k]));
      cmd := AppendArgument(cmd, args[k]);
      k := k + 1;
    }
    assert args[..k] == args;
    assert cmd[|program| + 1..] == QuoteAll(args);
    if forall i :: 0 <= i < |args| ==> '\t' !in args[i] { QuotedArgumentsReadBack(args); }
  }
}
