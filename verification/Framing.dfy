/** Cutting a byte stream into lines, whatever pieces it arrives in. */
module Framing {
  import opened Strings

  /** One read yields at most so many bytes. */
  const READ_ONCE := 1024

  /** The place of the first newline, or the length. */
  function LineEnd(s: string): (i: nat)
    ensures i <= |s|
  {
    if s == "" || s[0] == '\n' then 0 else LineEnd(s[1..]) + 1
  }

  lemma {:induction false} LineEndFound(s: string)
    ensures '\n' !in s[..LineEnd(s)] && (LineEnd(s) < |s| ==> s[LineEnd(s)] == '\n')
    decreases |s|
  {
    if s != "" && s[0] != '\n' {
      var i := LineEnd(s[1..]);
      LineEndFound(s[1..]);
      assert s[..i + 1] == [s[0]] + s[1..][..i];
    }
  }

  /** The newline-terminated lines of a text. */
  function Lines(s: string): (ls: seq<string>) {
    var i := LineEnd(s);
    if i == |s| then [] else [s[..i]] + Lines(s[i + 1..])
  }

  /** What follows the last newline. */
  function Tail(s: string): (t: string) {
    var i := LineEnd(s);
    if i == |s| then s else Tail(s[i + 1..])
  }

  /** Every line with its newline again, one after the other. */
  function Unlines(ls: seq<string>): (s: string) {
    if ls == [] then "" else ls[0] + "\n" + Unlines(ls[1..])
  }

  ghost predicate NoNewline(ls: seq<string>) { forall i :: 0 <= i < |ls| ==> '\n' !in ls[i] }

  lemma {:induction false} LineEndIs(s: string, k: nat)
    requires k <= |s| && '\n' !in s[..k] && (k < |s| ==> s[k] == '\n')
    ensures LineEnd(s) == k
    decreases k
  {
    if k > 0 {
      assert s[..k][0] == s[0];
      assert s[1..][..k - 1] == s[..k][1..];
      LineEndIs(s[1..], k - 1);
    }
  }

  lemma LineEndAt(line: string, rest: string)
    requires '\n' !in line
    ensures LineEnd(line + "\n" + rest) == |line|
  {
    var s := line + "\n" + rest;
    assert s[..|line|] == line;
    LineEndIs(s, |line|);
  }

  lemma NoLineEnd(t: string)
    requires '\n' !in t
    ensures LineEnd(t) == |t|
  {
    assert t[..|t|] == t;
    LineEndIs(t, |t|);
  }

  /** A text is its lines and its tail. */
  lemma {:induction false} LinesWhole(s: string)
    ensures s == Unlines(Lines(s)) + Tail(s)
    decreases |s|
  {
    assert Unlines([]) == "";
    hide LineEnd, Unlines;
    var i := LineEnd(s);
    LineEndFound(s);
    if i < |s| {
      LinesWhole(s[i + 1..]);
      WholeStep(s, i, Lines(s[i + 1..]), Tail(s[i + 1..]));
    }
  }

  lemma WholeStep(s: string, i: nat, ls: seq<string>, t: string)
    requires i < |s| && s[i] == '\n' && s[i + 1..] == Unlines(ls) + t
    ensures s == Unlines([s[..i]] + ls) + t
  {
    var line := s[..i] + "\n";
    assert s == line + s[i + 1..];
    assert ([s[..i]] + ls)[1..] == ls;
    Regroup(line, Unlines(ls), t);
  }

  lemma {:induction false} LinesClean(s: string)
    ensures NoNewline(Lines(s)) && '\n' !in Tail(s)
    decreases |s|
  {
    var i := LineEnd(s);
    LineEndFound(s);
    if i == |s| {
      assert s[..i] == s;
    } else {
      LinesClean(s[i + 1..]);
      var rest := Lines(s[i + 1..]);
      assert Lines(s) == [s[..i]] + rest;
      forall k | 0 <= k < |Lines(s)| ensures '\n' !in Lines(s)[k] {
        if k > 0 { assert Lines(s)[k] == rest[k - 1]; }
      }
    }
  }

  /** There is only one way to see a text as lines and a tail. */
  lemma {:induction false} LinesUnique(ls: seq<string>, t: string)
    requires NoNewline(ls) && '\n' !in t
    ensures Lines(Unlines(ls) + t) == ls && Tail(Unlines(ls) + t) == t
    decreases |ls|
  {
    hide LineEnd;
    if ls == [] {
      assert Unlines(ls) + t == t;
      NoLineEnd(t);
    } else {
      var rest := Unlines(ls[1..]) + t;
      var s := ls[0] + "\n" + rest;
      assert Unlines(ls) + t == s;
      LineEndAt(ls[0], rest);
      assert s[..|ls[0]|] == ls[0] && s[|ls[0]| + 1..] == rest;
      LinesUnique(ls[1..], t);
    }
  }

  lemma {:induction false} UnlinesAppend(ls: seq<string>, ms: seq<string>)
    ensures Unlines(ls + ms) == Unlines(ls) + Unlines(ms)
    decreases |ls|
  {
    if ls == [] {
      assert ls + ms == ms;
    } else {
      assert (ls + ms)[1..] == ls[1..] + ms;
      UnlinesAppend(ls[1..], ms);
    }
  }

  /** More input after a tail continues where the text left off. */
  lemma LinesAppend(a: string, b: string)
    ensures Lines(a + b) == Lines(a) + Lines(Tail(a) + b) && Tail(a + b) == Tail(Tail(a) + b)
  {
    var c := Tail(a) + b;
    LinesClean(a); LinesClean(c);
    LinesSum(a, b);
    LinesUnique(Lines(a) + Lines(c), Tail(c));
  }

  lemma LinesSum(a: string, b: string)
    ensures a + b == Unlines(Lines(a) + Lines(Tail(a) + b)) + Tail(Tail(a) + b)
  {
    var c := Tail(a) + b;
    var u, v, t := Unlines(Lines(a)), Unlines(Lines(c)), Tail(c);
    LinesWhole(a);
    LinesWhole(c);
    UnlinesAppend(Lines(a), Lines(c));
    Regroup(u, Tail(a), b);
    Regroup(u, v, t);
  }

  // ---- reading in pieces ----

  function Concat(chunks: seq<string>): (s: string) {
    if chunks == [] then "" else Concat(chunks[..|chunks| - 1]) + chunks[|chunks| - 1]
  }

  /** The lines handed out and the text kept, after all chunks were read one by one. */
  function Feed(chunks: seq<string>): (r: (seq<string>, string)) {
    if chunks == [] then ([], "") else
      var (lines, buffer) := Feed(chunks[..|chunks| - 1]);
      var text := buffer + chunks[|chunks| - 1];
      (lines + Lines(text), Tail(text))
  }

  /** For every cutting of a stream, the lines handed out are the lines of the stream, and the buffer holds its tail. */
  lemma {:induction false} FeedIsWhole(chunks: seq<string>)
    ensures Feed(chunks) == (Lines(Concat(chunks)), Tail(Concat(chunks)))
    decreases |chunks|
  {
    if chunks != [] {
      var n := |chunks| - 1;
      FeedIsWhole(chunks[..n]);
      LinesAppend(Concat(chunks[..n]), chunks[n]);
    }
  }
}
