/** What a client sends and what it is sent, for every run. */
module ProtocolStreams {
  import opened Framing
  import opened Request
  import opened Protocol
  import opened Strings
  import opened ProtocolSafety
  import opened ProtocolRuns

  // ---- messages to clients ----

  /** The messages that the steps from lo up to hi owe. */
  ghost function Log(states: seq<State>, events: seq<Event>, lo: nat, hi: nat): (ms: seq<Message>)
    requires lo <= hi <= |events| < |states|
    decreases hi
  {
    if hi == lo then [] else Log(states, events, lo, hi - 1) + Owed(states[hi - 1], events[hi - 1])
  }

  /** While a connection lasts, what it is sent is exactly the messages for its key, in order, and what was written
      stays written. */
  lemma {:induction false} DataSince(states: seq<State>, events: seq<Event>, j: nat, i: nat, fd: int)
    requires IsRun(states, events) && j <= i < |states| && fd in states[j].clients
    requires forall k :: j <= k < i ==> events[k] != Close(fd)
    ensures fd in states[i].clients
    ensures Data(states[i].clients[fd]) == Data(states[j].clients[fd]) + Texts(Log(states, events, j, i), fd)
    ensures states[j].clients[fd].written <= states[i].clients[fd].written
    decreases i
  {
    hide IsRun, Step, Enabled, Owed, Data;
    if i > j {
      RunLength(states, events);
      RunStep(states, events, i - 1);
      DataSince(states, events, j, i - 1, fd);
      StepData(states[i - 1], events[i - 1], fd);
      TextsAppend(Log(states, events, j, i - 1), Owed(states[i - 1], events[i - 1]), fd);
    }
  }

  /** From its acceptance on, the bytes written to a client and those pending are exactly the messages for its key. */
  lemma {:induction false} ConnectionData(states: seq<State>, events: seq<Event>, a: nat, i: nat, fd: int)
    requires IsRun(states, events) && a < i < |states| && events[a] == Accept(fd)
    requires forall k :: a < k < i ==> events[k] != Close(fd)
    ensures fd in states[i].clients
    ensures states[i].clients[fd].written + Flatten(states[i].clients[fd].pending)
         == Texts(Log(states, events, a + 1, i), fd)
  {
    assert states[a + 1].clients[fd] == Client("", "", []);
    DataSince(states, events, a + 1, i, fd);
  }

  function Count(ms: seq<Message>, kind: Kind, t: nat): (n: nat) {
    if ms == [] then 0 else
      var m := ms[|ms| - 1];
      Count(ms[..|ms| - 1], kind, t) + One(m.kind == kind && m.ticket == t)
  }

  lemma {:induction false} CountAppend(a: seq<Message>, b: seq<Message>, kind: Kind, t: nat)
    ensures Count(a + b, kind, t) == Count(a, kind, t) + Count(b, kind, t)
    decreases |b|
  {
    if b == [] {
      assert a + b == a;
    } else {
      var n := |b| - 1;
      assert (a + b)[..|a + b| - 1] == a + b[..n];
      CountAppend(a, b[..n], kind, t);
    }
  }

  /** A step owes a start message for t if and only if it starts t and the client is there, and a finish message
      if and only if it reaps t and the client is there. */
  lemma {:induction false} OwedCount(s: State, e: Event, t: nat)
    requires Enabled(s, e) && Inv(s)
    ensures Count(Owed(s, e), STARTED, t) == One(Starts(s, e, t) && KeyOf(s, e, t) in s.clients)
    ensures Count(Owed(s, e), FINISHED, t) == One(Reaps(s, e, t) && KeyOf(s, e, t) in s.clients)
  {
    if Owed(s, e) != [] {
      OneMessage(Owed(s, e)[0], STARTED, t);
      OneMessage(Owed(s, e)[0], FINISHED, t);
    }
  }

  lemma {:induction false} OneMessage(m: Message, kind: Kind, t: nat)
    ensures Count([m], kind, t) == One(m.kind == kind && m.ticket == t)
  {
    assert [m][..0] == [];
  }

  /** Some step before i that reaps request t while its key has a client. */
  ghost predicate WasReported(states: seq<State>, events: seq<Event>, i: nat, t: nat, key: int)
    requires i <= |events| < |states|
  {
    exists j :: 0 <= j < i && Reaps(states[j], events[j], t) && key in states[j].clients
  }

  /** One start message for a request that was started, one finish message if it was reaped with its client there. */
  ghost predicate CountsFit(states: seq<State>, events: seq<Event>, i: nat, t: nat, key: int)
    requires i <= |events| < |states|
  {
    && Count(Log(states, events, 0, i), STARTED, t) == One(WasStarted(states, events, i, t, key, true))
    && Count(Log(states, events, 0, i), FINISHED, t) == One(WasReported(states, events, i, t, key))
  }

  /** In every run and for every request: exactly one start message if it was started, exactly one finish message
      if it was reaped while its key had a client, no other message, and no finish without a start before it. */
  lemma {:induction false} MessagesOnce(states: seq<State>, events: seq<Event>, i: nat, t: nat)
    requires IsRun(states, events) && i < |states| && t < |states[i].past.requests|
    ensures t in states[i].past.fate && CountsFit(states, events, i, t, states[i].past.requests[t].key)
    ensures Count(Log(states, events, 0, i), STARTED, t) == One(Begun(states[i], t))
    ensures Count(Log(states, events, 0, i), FINISHED, t) <= One(states[i].past.fate[t] == REAPED)
    ensures Count(Log(states, events, 0, i), FINISHED, t) <= Count(Log(states, events, 0, i), STARTED, t)
  {
    hide Step, Enabled, Owed, Log, Starts, Count;
    WhyFate(states, events, i, t);
    CountsInduction(states, events, i, t, states[i].past.requests[t].key);
  }

  lemma {:induction false} CountsInduction(states: seq<State>, events: seq<Event>, i: nat, t: nat, key: int)
    requires IsRun(states, events) && i < |states|
    requires t < |states[i].past.requests| ==> key == states[i].past.requests[t].key
    ensures CountsFit(states, events, i, t, key)
    decreases i
  {
    hide Step, Enabled, Owed, CountsFit, Inv, Starts, Reaps;
    if i == 0 {
      NoCounts(states, events, t, key);
    } else {
      var s, e := states[i - 1], events[i - 1];
      RequestsGrow(states, events, i - 1, i);
      CountsInduction(states, events, i - 1, t, key);
      RunInv(states, events, i - 1);
      CountsStep(states, events, i - 1, t, key);
    }
  }

  lemma {:induction false} NoCounts(states: seq<State>, events: seq<Event>, t: nat, key: int)
    requires |events| < |states|
    ensures CountsFit(states, events, 0, t, key)
  {
  }

  lemma {:induction false} CountsStep(states: seq<State>, events: seq<Event>, i: nat, t: nat, key: int)
    requires IsRun(states, events) && i < |events| && CountsFit(states, events, i, t, key)
    requires t < |states[i + 1].past.requests| ==> key == states[i + 1].past.requests[t].key
    ensures CountsFit(states, events, i + 1, t, key)
  {
    hide Step, Enabled, Owed, Inv, Starts, Reaps, KeyOf, Count;
    var s, e := states[i], events[i];
    RunInv(states, events, i);
    OwedCount(s, e, t);
    CountAppend(Log(states, events, 0, i), Owed(s, e), STARTED, t);
    CountAppend(Log(states, events, 0, i), Owed(s, e), FINISHED, t);
    RequestsGrow(states, events, i, i + 1);
    OnlyOnce(states, events, i, t, key);
    if Starts(s, e, t) || Reaps(s, e, t) { SameKey(s, e, t); }
  }

  /** A request that starts was not started before, and one that is reaped was not reaped before. */
  lemma {:induction false} OnlyOnce(states: seq<State>, events: seq<Event>, i: nat, t: nat, key: int)
    requires IsRun(states, events) && i < |events|
    requires t < |states[i].past.requests| ==> key == states[i].past.requests[t].key
    ensures Starts(states[i], events[i], t) ==> !WasStarted(states, events, i, t, key, true)
    ensures Reaps(states[i], events[i], t) ==> !WasReported(states, events, i, t, key)
  {
    hide Step, Enabled, Starts, Reaps;
    RunInv(states, events, i);
    PlacesFit(states[i], events[i], t);
    if t < |states[i].past.requests| {
      WhyFate(states, events, i, t);
    } else {
      NothingBefore(states, events, i, t);
    }
  }

  lemma {:induction false} SameKey(s: State, e: Event, t: nat)
    requires Enabled(s, e) && Inv(s) && (Starts(s, e, t) || Reaps(s, e, t))
    ensures t < |Step(s, e).past.requests| && Step(s, e).past.requests[t].key == KeyOf(s, e, t)
  {
    NextNumber(s, e);
  }

  lemma {:induction false} LogSplit(states: seq<State>, events: seq<Event>, m: nat, i: nat)
    requires m <= i <= |events| < |states|
    ensures Log(states, events, 0, i) == Log(states, events, 0, m) + Log(states, events, m, i)
    decreases i
  {
    hide Owed;
    if i > m { LogSplit(states, events, m, i - 1); }
  }

  /** What is new between two states of a run. */
  lemma {:induction false} CountsSince(states: seq<State>, events: seq<Event>, m: nat, i: nat, t: nat)
    requires IsRun(states, events) && m <= i < |states| && t < |states[i].past.requests|
    ensures var key := states[i].past.requests[t].key;
            && Count(Log(states, events, m, i), STARTED, t)
               == One(WasStarted(states, events, i, t, key, true)) - One(WasStarted(states, events, m, t, key, true))
            && Count(Log(states, events, m, i), FINISHED, t)
               == One(WasReported(states, events, i, t, key)) - One(WasReported(states, events, m, t, key))
  {
    hide Step, Enabled, Owed, Log, Starts, Reaps, Count;
    var key := states[i].past.requests[t].key;
    RequestsGrow(states, events, m, i);
    CountsInduction(states, events, m, t, key);
    CountsInduction(states, events, i, t, key);
    LogSplit(states, events, m, i);
    CountAppend(Log(states, events, 0, m), Log(states, events, m, i), STARTED, t);
    CountAppend(Log(states, events, 0, m), Log(states, events, m, i), FINISHED, t);
  }

  /** How many messages of a kind about request t there are for the key. */
  function CountFor(ms: seq<Message>, kind: Kind, t: nat, key: int): (n: nat) {
    if ms == [] then 0 else
      var m := ms[|ms| - 1];
      CountFor(ms[..|ms| - 1], kind, t, key) + One(m.kind == kind && m.ticket == t && m.key == key)
  }

  lemma {:induction false} CountForKey(ms: seq<Message>, kind: Kind, t: nat, key: int, fd: int)
    requires forall m :: m in ms && m.ticket == t ==> m.key == key
    ensures CountFor(ms, kind, t, fd) == if key == fd then Count(ms, kind, t) else 0
    decreases |ms|
  {
    if ms != [] {
      var m := ms[|ms| - 1];
      assert m in ms;
      CountForKey(ms[..|ms| - 1], kind, t, key, fd);
    }
  }

  /** What a client reads and will read is exactly the texts of the messages for its key since it was accepted. Among
      them are, for every request of this key, one start message if it was started since then with a client there and
      one finish message if it was reaped since then with a client there, and no other message about a request. */
  lemma {:induction false} ClientReadsOnce(states: seq<State>, events: seq<Event>, a: nat, i: nat, fd: int, t: nat)
    requires IsRun(states, events) && a < i < |states| && events[a] == Accept(fd) && t < |states[i].past.requests|
    requires forall k :: a < k < i ==> events[k] != Close(fd)
    ensures fd in states[i].clients
    ensures var key, log := states[i].past.requests[t].key, Log(states, events, a + 1, i);
            && states[i].clients[fd].written + Flatten(states[i].clients[fd].pending) == Texts(log, fd)
            && CountFor(log, STARTED, t, fd)
               == One(key == fd && WasStarted(states, events, i, t, key, true)
                      && !WasStarted(states, events, a + 1, t, key, true))
            && CountFor(log, FINISHED, t, fd)
               == One(key == fd && WasReported(states, events, i, t, key)
                      && !WasReported(states, events, a + 1, t, key))
  {
    hide Step, Enabled, Owed, Log, Starts, Reaps, Count, CountFor, Texts;
    ConnectionData(states, events, a, i, fd);
    CountsSince(states, events, a + 1, i, t);
    var key, log := states[i].past.requests[t].key, Log(states, events, a + 1, i);
    forall m | m in log && m.ticket == t ensures m.key == key { MessageTexts(states, events, a + 1, i, m); }
    CountForKey(log, STARTED, t, key, fd);
    CountForKey(log, FINISHED, t, key, fd);
  }

  /** Every message carries the key and the identifier of its request. */
  lemma {:induction false} MessageTexts(states: seq<State>, events: seq<Event>, lo: nat, i: nat, m: Message)
    requires IsRun(states, events) && lo <= i < |states| && m in Log(states, events, lo, i)
    ensures m.ticket < |states[i].past.requests| && m.key == states[i].past.requests[m.ticket].key
    ensures m.kind == STARTED ==> m.text == StartedText(states[i].past.requests[m.ticket].id)
    ensures m.kind == FINISHED ==> exists d :: m.text == FinishedText(states[i].past.requests[m.ticket].id, d)
    ensures m.kind == STARTED ==> m.text == "S;" + states[i].past.requests[m.ticket].id + "\n"
    ensures m.kind == FINISHED ==>
              "F;" + states[i].past.requests[m.ticket].id + ";" <= m.text && m.text[|m.text| - 1] == '\n'
    decreases i
  {
    hide Step, Enabled, Owed, Inv, StartedText, FinishedText;
    if i > lo {
      var s, e := states[i - 1], events[i - 1];
      RequestsGrow(states, events, i - 1, i);
      if m in Owed(s, e) {
        RunInv(states, events, i - 1);
        OwedTexts(s, e, m);
      } else {
        MessageTexts(states, events, lo, i - 1, m);
      }
    }
  }

  lemma {:induction false} OwedTexts(s: State, e: Event, m: Message)
    requires Enabled(s, e) && Inv(s) && m in Owed(s, e)
    ensures var rs := Step(s, e).past.requests;
            && m.ticket < |rs| && m.key == rs[m.ticket].key
            && (m.kind == STARTED ==> m.text == StartedText(rs[m.ticket].id))
            && (m.kind == FINISHED ==> exists d :: m.text == FinishedText(rs[m.ticket].id, d))
            && (m.kind == STARTED ==> m.text == "S;" + rs[m.ticket].id + "\n")
            && (m.kind == FINISHED ==> "F;" + rs[m.ticket].id + ";" <= m.text && m.text[|m.text| - 1] == '\n')
  {
    NextNumber(s, e);
  }

  // ---- bytes from clients ----

  /** The bytes that arrived on the descriptor. */
  ghost function Received(events: seq<Event>, lo: nat, hi: nat, fd: int): (s: string)
    requires lo <= hi <= |events|
    decreases hi
  {
    if hi == lo then "" else
      var e := events[hi - 1];
      Received(events, lo, hi - 1, fd) + if e.Receive? && e.fd == fd then e.chunk else ""
  }

  /** What the handled lines of the client asked for. */
  ghost function Asked(events: seq<Event>, lo: nat, hi: nat, fd: int): (ps: seq<Parsed>)
    requires lo <= hi <= |events|
    decreases hi
  {
    if hi == lo then [] else
      var e := events[hi - 1];
      Asked(events, lo, hi - 1, fd) + if e.Line? && e.key == fd then [e.asked] else []
  }

  /** Of the text the first lines were taken, and this is left. */
  ghost predicate Taken(text: string, lines: seq<string>, left: string) {
    Lines(text) == lines + Lines(left) && Tail(text) == Tail(left)
  }

  ghost predicate MeaningsOf(asked: seq<Parsed>, lines: seq<string>, key: int) {
    |asked| == |lines| && forall k :: 0 <= k < |lines| ==> asked[k] == Meaning(lines[k], key)
  }

  lemma {:induction false} TakenMore(text: string, lines: seq<string>, left: string, chunk: string)
    requires Taken(text, lines, left)
    ensures Taken(text + chunk, lines, left + chunk)
  {
    hide Lines, Tail;
    LinesAppend(text, chunk);
    LinesAppend(left, chunk);
  }

  lemma {:induction false} TakenLine(text: string, lines: seq<string>, left: string)
    requires Taken(text, lines, left) && HasLine(left)
    ensures Taken(text, lines + [FirstLine(left)], AfterLine(left))
  {
    assert Lines(left) == [FirstLine(left)] + Lines(AfterLine(left));
  }

  /** The unread bytes of a client change only by its own input and its own lines. */
  lemma {:induction false} StepUnread(s: State, e: Event, fd: int)
    requires Enabled(s, e) && fd in s.clients && e != Close(fd)
    ensures fd in Step(s, e).clients
    ensures Step(s, e).clients[fd].unread ==
            if e.Receive? && e.fd == fd then s.clients[fd].unread + e.chunk
            else if e.Line? && e.key == fd then AfterLine(s.clients[fd].unread)
            else s.clients[fd].unread
  {
    if e.Line? { LineUnread(LineTaken(s, e.key), e.asked, e.newPid, fd); }
  }

  lemma {:induction false} LineUnread(s: State, asked: Parsed, pid: int, fd: int)
    requires fd in s.clients
    ensures fd in HandleLine(s, asked, pid).clients &&
            HandleLine(s, asked, pid).clients[fd].unread == s.clients[fd].unread
  {
    if asked.Accepted? && asked.request.Run? {}
  }

  lemma {:induction false} NothingTaken(s: State, fd: int)
    ensures fd in Step(s, Accept(fd)).clients && Taken("", [], Step(s, Accept(fd)).clients[fd].unread)
  {
  }

  /** One more event of a connection. */
  lemma {:induction false} NextInput(s: State, e: Event, fd: int, text: string, before: seq<string>, asked: seq<Parsed>)
      returns (lines: seq<string>)
    requires Enabled(s, e) && fd in s.clients && e != Close(fd)
    requires Taken(text, before, s.clients[fd].unread) && MeaningsOf(asked, before, fd)
    ensures fd in Step(s, e).clients
    ensures Taken(text + if e.Receive? && e.fd == fd then e.chunk else "", lines, Step(s, e).clients[fd].unread)
    ensures MeaningsOf(asked + if e.Line? && e.key == fd then [e.asked] else [], lines, fd)
  {
    hide Step, Taken;
    StepUnread(s, e, fd);
    lines := before;
    if e.Receive? && e.fd == fd {
      TakenMore(text, before, s.clients[fd].unread, e.chunk);
    } else if e.Line? && e.key == fd {
      lines := before + [FirstLine(s.clients[fd].unread)];
      TakenLine(text, before, s.clients[fd].unread);
      assert text + "" == text;
    } else {
      assert text + "" == text;
    }
  }

  /** From its acceptance on, the lines handled for a client are the first complete lines of the bytes received from
      it, each once, in order and with its meaning; the unread bytes hold the other lines and the unfinished one. */
  lemma {:induction false} ConnectionInput(states: seq<State>, events: seq<Event>, a: nat, i: nat, fd: int)
      returns (lines: seq<string>)
    requires IsRun(states, events) && a < i < |states| && events[a] == Accept(fd)
    requires forall k :: a < k < i ==> events[k] != Close(fd)
    ensures fd in states[i].clients
    ensures Taken(Received(events, a + 1, i, fd), lines, states[i].clients[fd].unread)
    ensures MeaningsOf(Asked(events, a + 1, i, fd), lines, fd)
    decreases i
  {
    hide Step, Enabled, Taken;
    if i == a + 1 {
      lines := [];
      NothingTaken(states[a], fd);
    } else {
      var before := ConnectionInput(states, events, a, i - 1, fd);
      lines := NextInput(states[i - 1], events[i - 1], fd, Received(events, a + 1, i - 1, fd), before,
                         Asked(events, a + 1, i - 1, fd));
    }
  }

  // ---- the client that asked ----

  /** When the descriptor was last given to a client; -1 if never. */
  function LastAccept(events: seq<Event>, i: nat, fd: int): (a: int)
    requires i <= |events|
    ensures -1 <= a < i
    decreases i
  {
    if i == 0 then -1 else if events[i - 1] == Accept(fd) then i - 1 else LastAccept(events, i - 1, fd)
  }

  ghost predicate ClosedBetween(events: seq<Event>, j: nat, i: nat, fd: int)
    requires j <= i <= |events|
  {
    exists k :: j <= k < i && events[k] == Close(fd)
  }

  lemma {:induction false} StaysAccepted(states: seq<State>, events: seq<Event>, j: nat, i: nat, fd: int)
    requires IsRun(states, events) && j <= i < |states| && fd in states[j].clients && !ClosedBetween(events, j, i, fd)
    ensures fd in states[i].clients && LastAccept(events, i, fd) == LastAccept(events, j, fd)
    decreases i
  {
    hide Step, Enabled;
    if i > j {
      assert !ClosedBetween(events, j, i - 1, fd);
      StaysAccepted(states, events, j, i - 1, fd);
      StaysOne(states[i - 1], events[i - 1], fd);
    }
  }

  lemma {:induction false} StaysOne(s: State, e: Event, fd: int)
    requires Enabled(s, e) && fd in s.clients && e != Close(fd)
    ensures fd in Step(s, e).clients && e != Accept(fd)
  {
    StepUnread(s, e, fd);
  }

  lemma {:induction false} AcceptedSince(states: seq<State>, events: seq<Event>, j: nat, i: nat, fd: int)
    requires IsRun(states, events) && j <= i < |states| && fd !in states[j].clients && fd in states[i].clients
    ensures LastAccept(events, i, fd) >= j
    decreases i
  {
    if events[i - 1] != Accept(fd) {
      ClientsComeByAccept(states[i - 1], events[i - 1], fd);
      AcceptedSince(states, events, j, i - 1, fd);
    }
  }

  lemma {:induction false} ClientsComeByAccept(s: State, e: Event, fd: int)
    requires Enabled(s, e) && e != Accept(fd) && fd in Step(s, e).clients
    ensures fd in s.clients
  {
    if e.Line? && e.asked.Accepted? && e.asked.request.Run? {
      assert LineTaken(s, e.key).clients.Keys == s.clients.Keys;
    }
  }

  /** A message about a request goes to the connection that asked for it if and only if that connection was not
      closed in between: a descriptor that is in use again stands for another client. */
  lemma {:induction false} AnswersRequester(states: seq<State>, events: seq<Event>, j: nat, i: nat, m: Message)
    requires IsRun(states, events) && j <= i < |events|
    requires AsksRun(events[j]) && m in Owed(states[i], events[i]) && m.ticket == |states[j].past.requests|
    ensures m.key == events[j].key
    ensures LastAccept(events, i, m.key) == LastAccept(events, j, m.key) <==> !ClosedBetween(events, j, i, m.key)
  {
    hide Step, Inv;
    RequesterKey(states, events, j, i, m);
    var fd := m.key;
    if ClosedBetween(events, j, i, fd) {
      var k :| j <= k < i && events[k] == Close(fd);
      ClosedIsGone(states[k], fd);
      AcceptedSince(states, events, k + 1, i, fd);
    } else {
      StaysAccepted(states, events, j, i, fd);
    }
  }

  lemma {:induction false} ClosedIsGone(s: State, fd: int)
    ensures fd !in Step(s, Close(fd)).clients
  {
  }

  lemma {:induction false} RequesterKey(states: seq<State>, events: seq<Event>, j: nat, i: nat, m: Message)
    requires IsRun(states, events) && j <= i < |events|
    requires AsksRun(events[j]) && m in Owed(states[i], events[i]) && m.ticket == |states[j].past.requests|
    ensures m.key == events[j].key && m.key in states[i].clients
  {
    hide Step, Inv;
    LinesAreAsked(states[j].clients[events[j].key].unread, events[j].key, events[j].asked);
    NextNumber(states[j], events[j]);
    RequestsGrow(states, events, j + 1, i + 1);
    RunInv(states, events, i);
    OwedTexts(states[i], events[i], m);
  }
}
