/** The client's side: what it reads, taken apart into lines and fields, tells it what happened to its requests. */
module ClientView {
  import opened Framing
  import opened Request
  import opened Protocol
  import opened Strings
  import opened ProtocolSafety
  import opened ProtocolRuns
  import opened ProtocolStreams

  /** Neither a newline nor a semicolon. */
  ghost predicate Clean(f: string) { '\n' !in f && ';' !in f }

  // ---- identifiers ----

  lemma {:induction false} FieldClean(s: string, k: nat)
    requires '\n' !in s && k < |Fields(s)|
    ensures Clean(Fields(s)[k])
    decreases |s|
  {
    var i := FieldEnd(s);
    FieldEndFound(s);
    if i == |s| {
      assert s[..i] == s;
    } else if k > 0 {
      FieldClean(s[i + 1..], k - 1);
    }
  }

  lemma {:induction false} FieldEndFound(s: string)
    ensures ';' !in s[..FieldEnd(s)]
    decreases |s|
  {
    if s != "" && s[0] != ';' {
      FieldEndFound(s[1..]);
      assert s[..FieldEnd(s)] == [s[0]] + s[1..][..FieldEnd(s[1..])];
    }
  }

  lemma {:induction false} CStringClean(f: string)
    requires Clean(f)
    ensures Clean(CString(f))
    decreases |f|
  {
    if f != "" && f[0] != '\0' {
      assert f[0] in f;
      CStringClean(f[1..]);
    }
  }

  /** The identifier of a request is a field of a line. */
  lemma {:induction false} AskedClean(s: State, e: Event)
    requires Enabled(s, e) && AsksRun(e)
    ensures Clean(e.asked.request.id)
  {
    var text := s.clients[e.key].unread;
    var line := FirstLine(text);
    LineEndFound(text);
    FieldClean(line, 1);
    CStringClean(Fields(line)[1]);
  }

  lemma {:induction false} IdsAreClean(states: seq<State>, events: seq<Event>, i: nat, t: nat)
    requires IsRun(states, events) && i < |states| && t < |states[i].past.requests|
    ensures Clean(states[i].past.requests[t].id)
    decreases i
  {
    hide Step, Enabled, Clean;
    if i > 0 {
      var s, e := states[i - 1], events[i - 1];
      NextNumber(s, e);
      if t < |s.past.requests| {
        IdsAreClean(states, events, i - 1, t);
      } else {
        AskedClean(s, e);
      }
    }
  }

  // ---- messages and lines ----

  /** The messages for the key. */
  function For(ms: seq<Message>, key: int): (r: seq<Message>)
    ensures forall m :: m in r ==> m in ms
  {
    if ms == [] then [] else
      var m := ms[|ms| - 1];
      For(ms[..|ms| - 1], key) + if m.key == key then [m] else []
  }

  /** A text without its last character. */
  function Body(text: string): (s: string) { if text == "" then "" else text[..|text| - 1] }

  function Bodies(ms: seq<Message>): (ls: seq<string>)
    ensures |ls| == |ms| && forall i :: 0 <= i < |ms| ==> ls[i] == Body(ms[i].text)
  {
    seq(|ms|, i requires 0 <= i < |ms| => Body(ms[i].text))
  }

  /** The text is one line. */
  ghost predicate IsLine(text: string) { text == Body(text) + "\n" && '\n' !in Body(text) }

  lemma {:induction false} TextsAreLines(ms: seq<Message>, key: int)
    requires forall m :: m in ms && m.key == key ==> IsLine(m.text)
    ensures Texts(ms, key) == Unlines(Bodies(For(ms, key)))
    decreases |ms|
  {
    hide Unlines, IsLine;
    if ms == [] {
      assert Unlines([]) == "" by { NoLines(); }
      assert Bodies([]) == [];
    } else {
      var n := |ms| - 1;
      var m, fs := ms[n], For(ms[..n], key);
      assert m in ms;
      TextsAreLines(ms[..n], key);
      if m.key == key {
        assert Bodies(fs + [m]) == Bodies(fs) + [Body(m.text)];
        OneLine(Bodies(fs), m.text);
      } else {
        assert For(ms, key) == fs && Texts(ms, key) == Texts(ms[..n], key);
      }
    }
  }

  lemma NoLines()
    ensures Unlines([]) == ""
  {
  }

  lemma OneLine(ls: seq<string>, text: string)
    requires IsLine(text)
    ensures Unlines(ls + [Body(text)]) == Unlines(ls) + text
  {
    var l := Body(text);
    UnlinesAppend(ls, [l]);
    assert [l][1..] == [] && l + "\n" + "" == l + "\n";
  }

  lemma FieldsCons(f: string, rest: string)
    requires ';' !in f
    ensures Fields(f + ";" + rest) == [f] + Fields(rest)
  {
    var s := f + ";" + rest;
    assert s[..|f|] == f && s[|f| + 1..] == rest;
    FieldEndIs(s, |f|);
  }

  lemma OneField(f: string)
    requires ';' !in f
    ensures Fields(f) == [f]
  {
    assert f[..|f|] == f;
    FieldEndIs(f, |f|);
  }

  /** The step that owes a message. */
  lemma {:induction false} MessageStep(states: seq<State>, events: seq<Event>, lo: nat, i: nat, m: Message)
      returns (r: nat)
    requires lo <= i <= |events| < |states| && m in Log(states, events, lo, i)
    ensures lo <= r < i && m in Owed(states[r], events[r])
    decreases i
  {
    hide Owed;
    if m in Owed(states[i - 1], events[i - 1]) {
      r := i - 1;
    } else {
      r := MessageStep(states, events, lo, i - 1, m);
    }
  }

  /** What the line of a message for request t says: S and the identifier for one that was started, F, the identifier
      and the details for one that was waited for. */
  ghost predicate Tells(states: seq<State>, events: seq<Event>, lo: nat, i: nat, m: Message, line: string)
    requires lo <= i <= |events| < |states|
  {
    && m.ticket < |states[i].past.requests|
    && var id := states[i].past.requests[m.ticket].id;
       match m.kind
       case STARTED => Fields(line) == ["S", id]
       case FINISHED =>
         exists r :: lo <= r < i && Reaps(states[r], events[r], m.ticket)
                     && Fields(line) == ["F", id] + Fields(events[r].detail)
  }

  ghost predicate PlainDetails(events: seq<Event>, lo: nat, hi: nat)
    requires lo <= hi <= |events|
  {
    forall k :: lo <= k < hi && events[k].Reap? ==> '\n' !in events[k].detail
  }

  lemma {:induction false} MessageTells(states: seq<State>, events: seq<Event>, lo: nat, i: nat, m: Message)
    requires IsRun(states, events) && lo <= i < |states| && m in Log(states, events, lo, i)
    requires PlainDetails(events, lo, i)
    ensures IsLine(m.text) && Tells(states, events, lo, i, m, Body(m.text))
  {
    hide Step, Enabled, Owed, Inv, Fields, Clean, IsLine;
    var r := MessageStep(states, events, lo, i, m);
    RunInv(states, events, r);
    OwedSays(states[r], events[r], m);
    RequestsGrow(states, events, r + 1, i);
    var id := states[i].past.requests[m.ticket].id;
    IdsAreClean(states, events, i, m.ticket);
    if m.kind == STARTED {
      StartedLine(m.text, id);
    } else {
      FinishedLine(m.text, id, events[r].detail);
    }
  }

  lemma {:induction false} OwedSays(s: State, e: Event, m: Message)
    requires Enabled(s, e) && Inv(s) && m in Owed(s, e)
    ensures var rs := Step(s, e).past.requests;
            && m.ticket < |rs|
            && (m.kind == STARTED ==> m.text == "S;" + rs[m.ticket].id + "\n")
            && (m.kind == FINISHED ==>
                  Reaps(s, e, m.ticket) && m.text == "F;" + rs[m.ticket].id + ";" + e.detail + "\n")
  {
    NextNumber(s, e);
  }

  lemma {:induction false} StartedLine(text: string, id: string)
    requires Clean(id) && text == "S;" + id + "\n"
    ensures IsLine(text) && Fields(Body(text)) == ["S", id]
  {
    assert Body(text) == "S" + ";" + id;
    FieldsCons("S", id);
    OneField(id);
  }

  lemma {:induction false} FinishedLine(text: string, id: string, detail: string)
    requires Clean(id) && '\n' !in detail && text == "F;" + id + ";" + detail + "\n"
    ensures IsLine(text) && Fields(Body(text)) == ["F", id] + Fields(detail)
  {
    var rest := id + ";" + detail;
    hide Fields;
    assert text == "F" + ";" + rest + "\n" && '\n' !in rest;
    FieldsCons("F", rest);
    FieldsCons(id, detail);
    assert ["F", id] + Fields(detail) == ["F"] + ([id] + Fields(detail));
  }

  /** From its acceptance on, a client that splits what it is sent into lines and fields gets one line for each message
      for its key, in order: S and the identifier for a request that was started, F, the identifier and the details
      for one that was waited for, and no unfinished line. */
  lemma {:induction false} ClientUnderstands(states: seq<State>, events: seq<Event>, a: nat, i: nat, fd: int)
    requires IsRun(states, events) && a < i < |states| && events[a] == Accept(fd)
    requires (forall k :: a < k < i ==> events[k] != Close(fd)) && PlainDetails(events, a + 1, i)
    ensures fd in states[i].clients
    ensures var data := states[i].clients[fd].written + Flatten(states[i].clients[fd].pending);
            var ms := For(Log(states, events, a + 1, i), fd);
            && Tail(data) == "" && |Lines(data)| == |ms|
            && forall k :: 0 <= k < |ms| ==> Tells(states, events, a + 1, i, ms[k], Lines(data)[k])
  {
    hide Step, Enabled, Owed, Log, Tells, IsLine, Lines, Tail;
    ConnectionData(states, events, a, i, fd);
    var log := Log(states, events, a + 1, i);
    forall m | m in log ensures IsLine(m.text) && Tells(states, events, a + 1, i, m, Body(m.text)) {
      MessageTells(states, events, a + 1, i, m);
    }
    TextsAreLines(log, fd);
    SplitBack(log, fd);
  }

  lemma {:induction false} SplitBack(log: seq<Message>, key: int)
    requires forall m :: m in log ==> IsLine(m.text)
    ensures var ls := Bodies(For(log, key)); Lines(Unlines(ls)) == ls && Tail(Unlines(ls)) == ""
  {
    var ms := For(log, key);
    var ls := Bodies(ms);
    forall k | 0 <= k < |ls| ensures '\n' !in ls[k] { assert ms[k] in log; }
    LinesUnique(ls, "");
    assert Unlines(ls) + "" == Unlines(ls);
  }

  // ---- bytes written ----

  /** How many bytes the writes to the descriptor took. */
  function BytesTaken(events: seq<Event>, lo: nat, hi: nat, fd: int): (n: nat)
    requires lo <= hi <= |events|
    decreases hi
  {
    if hi == lo then 0 else
      var e := events[hi - 1];
      BytesTaken(events, lo, hi - 1, fd) + if e.Write? && e.fd == fd then e.n else 0
  }

  /** What a client has been written since its acceptance is as long as the writes say; with ClientUnderstands, these
      are the first bytes of its lines. */
  lemma {:induction false} BytesWritten(states: seq<State>, events: seq<Event>, a: nat, i: nat, fd: int)
    requires IsRun(states, events) && a < i < |states| && events[a] == Accept(fd)
    requires forall k :: a < k < i ==> events[k] != Close(fd)
    ensures fd in states[i].clients && |states[i].clients[fd].written| == BytesTaken(events, a + 1, i, fd)
    decreases i
  {
    hide IsRun, Enabled, Step;
    RunLength(states, events);
    RunStep(states, events, i - 1);
    if i == a + 1 {
      JustAccepted(states[a], fd);
    } else {
      BytesWritten(states, events, a, i - 1, fd);
      WrittenStep(states[i - 1], events[i - 1], fd);
    }
  }

  lemma {:induction false} JustAccepted(s: State, fd: int)
    ensures var r := Step(s, Accept(fd)); fd in r.clients && r.clients[fd].written == ""
  {
  }

  lemma {:induction false} WrittenStep(s: State, e: Event, fd: int)
    requires Enabled(s, e) && fd in s.clients && e != Close(fd)
    ensures fd in Step(s, e).clients
    ensures |Step(s, e).clients[fd].written| == |s.clients[fd].written| + if e.Write? && e.fd == fd then e.n else 0
  {
    if e.Line? { LineData(s, e.key, e.asked, e.newPid, fd); }
  }
}
