/** What one round of the main loop does, read off the run: which events belong to which report of poll. */
module ProtocolRounds {
  import opened Framing
  import opened Request
  import opened Protocol
  import opened ProtocolSafety
  import opened ProtocolRuns
  import opened ProtocolStreams
  import opened Strings
  import PollList

  /** What the system calls for one entry of the poll list answer: the descriptor that accept yields, how many bytes
      write takes (negative for an error), whether read fails, and the bytes that it yields. */
  datatype Input = Input(fd: int, wrote: int, failed: bool, chunk: string)

  /** The operating system acts. */
  predicate Outside(e: Event) { e.Exit? || e.Signal? }

  // ---- the events that a report calls for ----

  /** A read: an error is ignored, an end of file closes, bytes are received and their complete lines handled. */
  ghost predicate ReadEvents(c: Client, seg: seq<Event>, fd: int, input: Input) {
    if input.failed then seg == []
    else if input.chunk == "" then seg == [Close(fd)]
    else
      && seg != [] && seg[0] == Receive(fd, input.chunk) && OnlyLines(seg, fd)
      && MeaningsOf(Asked(seg, 0, |seg|, fd), Lines(c.unread + input.chunk), fd)
  }

  /** After the first event, only lines of the client and what the operating system does. */
  ghost predicate OnlyLines(seg: seq<Event>, fd: int) {
    forall k :: 1 <= k < |seg| ==> Outside(seg[k]) || (seg[k].Line? && seg[k].key == fd)
  }

  /** A report for a client: an error closes, else output is written, else input is read. */
  ghost predicate ClientEvents(c: Client, seg: seq<Event>, fd: int, report: PollList.Ready, input: Input) {
    if report.error then seg == [Close(fd)]
    else if report.output then
      && c.pending != []
      && seg == [if input.wrote < 0 then WriteError(fd) else Write(fd, Smaller(input.wrote, |c.pending[0]|))]
    else if report.input then ReadEvents(c, seg, fd, input)
    else seg == []
  }

  /** A report for the pipe: one byte is read, and children are waited for until none is left that has exited. */
  ghost predicate ReapEvents(seg: seq<Event>) {
    && |seg| >= 2 && seg[0] == ReadPipe && seg[|seg| - 1] == EndReap
    && forall k :: 1 <= k < |seg| - 1 ==> Outside(seg[k]) || seg[k].Reap?
  }

  /** A descriptor that accept can yield. */
  predicate Usable(s: State, fd: int, sock: int, pipe: int) {
    fd !in s.clients && fd != PollList.MARK && fd != sock && fd != pipe
  }

  /** The events, from state s on, are what the report of the entry calls for. */
  ghost predicate EntryEvents(s: State, seg: seq<Event>, e: PollList.PollFd, input: Input, sock: int, pipe: int) {
    if e.revents == PollList.IDLE then seg == []
    else if e.fd == pipe then ReapEvents(seg)
    else if e.fd == sock then seg == if Usable(s, input.fd, sock, pipe) then [Accept(input.fd)] else []
    else e.fd in s.clients && ClientEvents(s.clients[e.fd], seg, e.fd, e.revents, input)
  }

  // ---- failed writes ----

  function FailedAfter(failed: set<int>, e: Event): (r: set<int>) {
    match e
    case WriteError(fd) => failed + {fd}
    case Accept(fd) => failed - {fd}
    case Close(fd) => failed - {fd}
    case _ => failed
  }

  /** The clients to which a write has failed. */
  function FailedWrites(events: seq<Event>): (fds: set<int>) {
    if events == [] then {} else FailedAfter(FailedWrites(events[..|events| - 1]), events[|events| - 1])
  }

  lemma {:induction false} FailedSnoc(events: seq<Event>, e: Event)
    ensures FailedWrites(events + [e]) == FailedAfter(FailedWrites(events), e)
  {
    assert (events + [e])[..|events|] == events;
  }

  /** The k-th event is a failed write to the client that still has the descriptor. */
  ghost predicate FailedAt(events: seq<Event>, k: nat, fd: int)
    requires k < |events|
  {
    events[k] == WriteError(fd) && forall j :: k < j < |events| ==> events[j] != Accept(fd) && events[j] != Close(fd)
  }

  /** A descriptor counts as failed if and only if some write to its present client has failed. */
  lemma {:induction false} FailedMeaning(events: seq<Event>, fd: int)
    ensures fd in FailedWrites(events) <==> exists k: nat :: k < |events| && FailedAt(events, k, fd)
    decreases |events|
  {
    if events != [] {
      var n := |events| - 1;
      var before, e := events[..n], events[n];
      FailedMeaning(before, fd);
      if e == WriteError(fd) {
        assert FailedAt(events, n, fd);
      } else if e != Accept(fd) && e != Close(fd) {
        if k: nat :| k < n && FailedAt(before, k, fd) {
          assert FailedAt(events, k, fd);
        }
        if k: nat :| k < |events| && FailedAt(events, k, fd) {
          assert k < n && FailedAt(before, k, fd);
        }
      } else {
        forall k: nat | k < |events| ensures !FailedAt(events, k, fd) {
          if k < n { assert events[n] == e; }
        }
      }
    }
  }

  /** The server stops here: output is reported, without an error, for a client to which a write has failed. */
  predicate Stops(e: PollList.PollFd, failed: set<int>, sock: int, pipe: int) {
    e.fd != sock && e.fd != pipe && !e.revents.error && e.revents.output && e.fd in failed
  }

  ghost predicate NoErrors(events: seq<Event>) { forall k :: 0 <= k < |events| ==> !events[k].WriteError? }

  lemma {:induction false} NoneFailed(events: seq<Event>)
    requires NoErrors(events)
    ensures FailedWrites(events) == {}
    decreases |events|
  {
    if events != [] { NoneFailed(events[..|events| - 1]); }
  }

  /** Only a write that fails is recorded as one. */
  lemma {:induction false} EntryWithoutError(s: State, seg: seq<Event>, e: PollList.PollFd, input: Input, sock: int,
                                             pipe: int)
    requires EntryEvents(s, seg, e, input, sock, pipe) && input.wrote >= 0
    ensures NoErrors(seg)
  {
  }

  // ---- a dispatch and a round ----

  /** The descriptors that poll should watch: those of the clients, with output for those that have messages, the
      listening socket and the pipe. */
  ghost function Wanted(conns: map<int, Client>, sock: int, pipe: int): (m: map<int, bool>) {
    map fd | fd in conns.Keys + {sock, pipe} :: fd in conns && conns[fd].pending != []
  }

  /** What poll reports: anything for clients and socket, with output only where it is awaited, and for the pipe input
      exactly if there are bytes in it. */
  predicate Reported(e: PollList.PollFd, answer: PollList.Ready, pipe: int, bytes: nat) {
    e.revents == if e.fd == pipe then PollList.Ready(false, false, bytes > 0)
                 else answer.(output := answer.output && e.out)
  }

  /** The entries up to the last cut were served, in order and each once: the events from cut i to cut i + 1 are what
      the report of entry i calls for. */
  ghost predicate Served(states: seq<State>, events: seq<Event>, polled: seq<PollList.PollFd>, cuts: seq<nat>,
                         inputs: int -> Input, sock: int, pipe: int)
    requires |states| == |events| + 1
  {
    && 1 <= |cuts| <= |polled| + 1
    && (forall i :: 0 <= i < |cuts| ==> cuts[i] <= |events|)
    && forall i :: 0 <= i < |cuts| - 1 ==>
         && cuts[i] <= cuts[i + 1]
         && EntryEvents(states[cuts[i]], events[cuts[i]..cuts[i + 1]], polled[i], inputs(i), sock, pipe)
         && !Stops(polled[i], FailedWrites(events[..cuts[i]]), sock, pipe)
  }

  /** One entry more is served. */
  lemma {:induction false} ServedMore(states: seq<State>, events: seq<Event>, states': seq<State>, events': seq<Event>,
                                      polled: seq<PollList.PollFd>, cuts: seq<nat>, inputs: int -> Input, sock: int,
                                      pipe: int)
    requires |states| == |events| + 1 && |states'| == |events'| + 1 && states <= states' && events <= events'
    requires Served(states, events, polled, cuts, inputs, sock, pipe)
    requires var i := |cuts| - 1;
             && i < |polled| && cuts[i] == |events| && !Stops(polled[i], FailedWrites(events), sock, pipe)
             && EntryEvents(states[|events|], events'[|events|..], polled[i], inputs(i), sock, pipe)
    ensures Served(states', events', polled, cuts + [|events'|], inputs, sock, pipe)
  {
    hide EntryEvents, Stops, FailedWrites;
    var cuts' := cuts + [|events'|];
    forall i | 0 <= i < |cuts| ensures events'[..cuts[i]] == events[..cuts[i]] && states'[cuts[i]] == states[cuts[i]] {}
    forall i | 0 <= i < |cuts| - 1 ensures events'[cuts[i]..cuts[i + 1]] == events[cuts[i]..cuts[i + 1]] {}
    assert events[..|events|] == events && events'[|events|..|events'|] == events'[|events|..];
  }

  /** What was served stays served when the run goes on. */
  lemma {:induction false} ServedLater(states: seq<State>, events: seq<Event>, states': seq<State>,
                                       events': seq<Event>, polled: seq<PollList.PollFd>, cuts: seq<nat>,
                                       inputs: int -> Input, sock: int, pipe: int)
    requires |states| == |events| + 1 && |states'| == |events'| + 1 && states <= states' && events <= events'
    requires Served(states, events, polled, cuts, inputs, sock, pipe)
    ensures Served(states', events', polled, cuts, inputs, sock, pipe)
  {
    hide EntryEvents, Stops, FailedWrites;
    forall i | 0 <= i < |cuts| ensures events'[..cuts[i]] == events[..cuts[i]] && states'[cuts[i]] == states[cuts[i]] {}
    forall i | 0 <= i < |cuts| - 1 && cuts[i] <= cuts[i + 1]
      ensures events'[cuts[i]..cuts[i + 1]] == events[cuts[i]..cuts[i + 1]] {}
  }

  /** A dispatch in which no write fails records none. */
  lemma {:induction false} DispatchWithoutError(states: seq<State>, events: seq<Event>, polled: seq<PollList.PollFd>,
                                                cuts: seq<nat>, inputs: int -> Input, sock: int, pipe: int, k: nat)
    requires |states| == |events| + 1 && Served(states, events, polled, cuts, inputs, sock, pipe) && k < |cuts|
    requires NoErrors(events[..cuts[0]]) && forall i :: inputs(i).wrote >= 0
    ensures NoErrors(events[..cuts[k]])
    decreases k
  {
    hide EntryEvents, Stops, FailedWrites;
    if k > 0 {
      DispatchWithoutError(states, events, polled, cuts, inputs, sock, pipe, k - 1);
      var lo, hi := cuts[k - 1], cuts[k - 1 + 1];
      EntryWithoutError(states[lo], events[lo..hi], polled[k - 1], inputs(k - 1), sock, pipe);
      assert events[..hi] == events[..lo] + events[lo..hi];
    }
  }

  /** A round: where it starts, when poll returned, what it reported, where the entries' events start, where it ends. */
  datatype RoundLog = RoundLog(start: nat, woke: nat, polled: seq<PollList.PollFd>, cuts: seq<nat>, end: nat)

  /** Before poll returns the round only starts queued requests. */
  predicate Prelude(e: Event) { Outside(e) || e.Schedule? || e.EndSchedule? || e.Wake? }

  /** Poll watches every client, the socket and the pipe, each once, and reports what it is given. */
  ghost predicate Polls(s: State, polled: seq<PollList.PollFd>, answers: int -> PollList.Ready, sock: int, pipe: int) {
    && PollList.Once(polled) && PollList.Flags(polled) == Wanted(s.clients, sock, pipe)
    && forall j :: 0 <= j < |polled| ==>
      polled[j].fd != PollList.MARK && Reported(polled[j], answers(j), pipe, s.os.pipe)
  }

  /** The round was performed: it stopped early if and only if it came to an entry at which the server stops. */
  ghost predicate Performed(states: seq<State>, events: seq<Event>, r: RoundLog, ok: bool,
                            answers: int -> PollList.Ready, inputs: int -> Input, sock: int, pipe: int)
    requires |states| == |events| + 1
  {
    && r.start < r.woke <= r.end <= |events| && events[r.woke - 1] == Wake
    && (forall k :: r.start <= k < r.woke ==> Prelude(events[k]))
    && Polls(states[r.woke], r.polled, answers, sock, pipe)
    && Served(states, events, r.polled, r.cuts, inputs, sock, pipe) && r.cuts[0] == r.woke
    && var n := |r.cuts| - 1;
       if ok then n == |r.polled| && r.end == r.cuts[n] + 1 && events[r.cuts[n]] == EndDispatch
       else n < |r.polled| && r.end == r.cuts[n] && Stops(r.polled[n], FailedWrites(events[..r.cuts[n]]), sock, pipe)
  }

  /** A round stops early if and only if output is reported, without an error, for a client to which a write has failed
      before its entry's turn. */
  lemma {:induction false} StopsExactly(states: seq<State>, events: seq<Event>, r: RoundLog, ok: bool,
                                        answers: int -> PollList.Ready, inputs: int -> Input, sock: int, pipe: int)
    requires |states| == |events| + 1 && Performed(states, events, r, ok, answers, inputs, sock, pipe)
    ensures !ok <==> exists i :: 0 <= i < |r.cuts| && i < |r.polled| && r.cuts[i] <= |events|
                              && Stops(r.polled[i], FailedWrites(events[..r.cuts[i]]), sock, pipe)
  {
    hide EntryEvents, FailedWrites, Stops, Polls;
    var n := |r.cuts| - 1;
    if !ok { assert r.cuts[n] <= |events| && Stops(r.polled[n], FailedWrites(events[..r.cuts[n]]), sock, pipe); }
  }

  /** What was performed stays performed while the run goes on. */
  lemma {:induction false} PerformedLater(states: seq<State>, events: seq<Event>, states': seq<State>,
                                          events': seq<Event>, r: RoundLog, ok: bool, answers: int -> PollList.Ready,
                                          inputs: int -> Input, sock: int, pipe: int)
    requires |states| == |events| + 1 && |states'| == |events'| + 1 && states <= states' && events <= events'
    requires Performed(states, events, r, ok, answers, inputs, sock, pipe)
    ensures Performed(states', events', r, ok, answers, inputs, sock, pipe)
  {
    ServedLater(states, events, states', events', r.polled, r.cuts, inputs, sock, pipe);
    var n := |r.cuts| - 1;
    assert events'[..r.cuts[n]] == events[..r.cuts[n]];
    hide Served, Stops, FailedWrites, Polls;
  }

  // ---- what the wake-up is for ----

  /** An exited child that nobody waits for stays exited, and its process record stays as it is. */
  lemma {:induction false} StaysExited(s: State, e: Event, pid: int)
    requires Enabled(s, e) && Inv(s) && Exited(s, pid) && !(e.Reap? && e.child == pid)
    ensures Exited(Step(s, e), pid) && pid in s.processes && pid in Step(s, e).processes
    ensures Step(s, e).processes[pid] == s.processes[pid]
  {
    if e.Line? {
      LineKilled(LineTaken(s, e.key), e.asked, e.newPid, pid);
      LineChildren(LineTaken(s, e.key), e.asked, e.newPid, pid);
    } else if Quiet(e) {
      QuietStep(s, e);
    }
  }

  lemma {:induction false} LineChildren(s: State, asked: Parsed, newPid: int, pid: int)
    requires pid in s.os.children && newPid != pid
    ensures var r := HandleLine(s, asked, newPid); pid in r.os.children && r.os.children[pid] == s.os.children[pid]
  {
    if asked.Accepted? && asked.request.Run? {}
  }

  /** Once the reaping loop has ended, every child that had exited by any earlier time was waited for. */
  lemma {:induction false} ExitedIsReaped(states: seq<State>, events: seq<Event>, w: nat, r: nat, pid: int)
    requires IsRun(states, events) && w <= r < |events| && events[r] == EndReap && Exited(states[w], pid)
    ensures pid in states[w].processes && WasReaped(states, events, r, states[w].processes[pid].ticket)
    decreases r - w
  {
    RunInv(states, events, w);
    RunStep(states, events, w);
    hide Step;
    var e := events[w];
    if e.Reap? && e.child == pid {
      assert Reaps(states[w], events[w], states[w].processes[pid].ticket);
    } else if w < r {
      StaysExited(states[w], e, pid);
      ExitedIsReaped(states, events, w + 1, r, pid);
    }
  }

  /** With a byte in the pipe a round has an end of the reaping loop. */
  lemma {:induction false} RoundReaps(states: seq<State>, events: seq<Event>, r: RoundLog,
                                      answers: int -> PollList.Ready, inputs: int -> Input, sock: int, pipe: int)
    returns (k: nat)
    requires |states| == |events| + 1 && Performed(states, events, r, true, answers, inputs, sock, pipe)
    requires states[r.woke].os.pipe > 0
    ensures r.woke <= k < r.end <= |events| && events[k] == EndReap
  {
    hide Served, Stops, FailedWrites;
    var polled := r.polled;
    PollList.FlagEntry(polled, pipe);
    var i :| 0 <= i < |polled| && PollList.EntryOf(polled, i, pipe, PollList.Flags(polled)[pipe]);
    assert Reported(polled[i], answers(i), pipe, states[r.woke].os.pipe);
    k := LastOfPipe(states, events, r.polled, r.cuts, inputs, sock, pipe, i);
  }

  lemma {:induction false} LastOfPipe(states: seq<State>, events: seq<Event>, polled: seq<PollList.PollFd>,
                                      cuts: seq<nat>, inputs: int -> Input, sock: int, pipe: int, i: nat)
    returns (k: nat)
    requires |states| == |events| + 1 && Served(states, events, polled, cuts, inputs, sock, pipe)
    requires |cuts| == |polled| + 1 && i < |polled| && polled[i].fd == pipe && polled[i].revents != PollList.IDLE
    ensures cuts[0] <= k < cuts[|polled|] <= |events| && events[k] == EndReap
  {
    hide Stops, FailedWrites, OnlyLines, ClientEvents;
    k := cuts[i + 1] - 1;
    CutsRise(states, events, polled, cuts, inputs, sock, pipe, 0, i);
    CutsRise(states, events, polled, cuts, inputs, sock, pipe, i + 1, |polled|);
    var seg := events[cuts[i]..cuts[i + 1]];
    assert seg[|seg| - 1] == events[k];
  }

  lemma {:induction false} CutsRise(states: seq<State>, events: seq<Event>, polled: seq<PollList.PollFd>,
                                    cuts: seq<nat>, inputs: int -> Input, sock: int, pipe: int, i: nat, j: nat)
    requires |states| == |events| + 1 && Served(states, events, polled, cuts, inputs, sock, pipe) && i <= j < |cuts|
    ensures cuts[i] <= cuts[j]
    decreases j - i
  {
    hide EntryEvents, Stops, FailedWrites;
    if i < j { CutsRise(states, events, polled, cuts, inputs, sock, pipe, i + 1, j); }
  }

  /** The wake-up promise kept: if the pipe held a byte when poll returned, then after that round every request whose
      process had exited by then is reaped, for good. */
  lemma {:induction false} WakeUpKept(states: seq<State>, events: seq<Event>, r: RoundLog,
                                      answers: int -> PollList.Ready, inputs: int -> Input, sock: int, pipe: int,
                                      pid: int, i: nat)
    requires IsRun(states, events) && |states| == |events| + 1
    requires Performed(states, events, r, true, answers, inputs, sock, pipe)
    requires states[r.woke].os.pipe > 0 && Exited(states[r.woke], pid) && r.end <= i < |states|
    ensures pid in states[r.woke].processes
    ensures var t := states[r.woke].processes[pid].ticket; t in states[i].past.fate && states[i].past.fate[t] == REAPED
  {
    hide Performed, Step, Enabled;
    var k := RoundReaps(states, events, r, answers, inputs, sock, pipe);
    assert r.woke <= k;
    ExitedIsReaped(states, events, r.woke, k, pid);
    var t := states[r.woke].processes[pid].ticket;
    RunInv(states, events, r.woke);
    RequestsGrow(states, events, r.woke, i);
    WhyFate(states, events, i, t);
  }

  /** In state r the request that process pid ran in state s is reaped. */
  ghost predicate ReapedSince(s: State, r: State, pid: int) {
    pid in s.processes && s.processes[pid].ticket in r.past.fate && r.past.fate[s.processes[pid].ticket] == REAPED
  }

  /** The same for all children at once. */
  lemma {:induction false} AllReaped(states: seq<State>, events: seq<Event>, r: RoundLog,
                                     answers: int -> PollList.Ready, inputs: int -> Input, sock: int, pipe: int, i: nat)
    requires IsRun(states, events) && |states| == |events| + 1
    requires Performed(states, events, r, true, answers, inputs, sock, pipe)
    requires states[r.woke].os.pipe > 0 && r.end <= i < |states|
    ensures forall pid :: Exited(states[r.woke], pid) ==> ReapedSince(states[r.woke], states[i], pid)
  {
    assert r.woke < |states|;
    hide IsRun, Performed;
    forall pid | Exited(states[r.woke], pid) ensures ReapedSince(states[r.woke], states[i], pid) {
      WakeUpKept(states, events, r, answers, inputs, sock, pipe, pid, i);
    }
  }

  // ---- any number of rounds ----

  /** Where the first n rounds end. */
  ghost function EndOf(rounds: seq<RoundLog>, n: nat): (k: nat)
    requires n <= |rounds|
  {
    if n == 0 then 0 else rounds[n - 1].end
  }

  /** The rounds follow each other; all were performed to the end, except the last one if the server has stopped. */
  ghost predicate AllPerformed(states: seq<State>, events: seq<Event>, rounds: seq<RoundLog>, ok: bool,
                               answers: seq<int -> PollList.Ready>, inputs: seq<int -> Input>, sock: int, pipe: int)
    requires |states| == |events| + 1
  {
    && |rounds| <= |answers| && |rounds| <= |inputs|
    && |events| == EndOf(rounds, |rounds|) && (forall n :: 0 <= n < |rounds| ==> rounds[n].start == EndOf(rounds, n))
    && forall n :: 0 <= n < |rounds| ==>
         Performed(states, events, rounds[n], ok || n < |rounds| - 1, answers[n], inputs[n], sock, pipe)
  }

  lemma {:induction false} OneMoreRound(states: seq<State>, events: seq<Event>, states': seq<State>,
                                        events': seq<Event>, rounds: seq<RoundLog>, r: RoundLog, ok: bool,
                                        answers: seq<int -> PollList.Ready>, inputs: seq<int -> Input>, sock: int,
                                        pipe: int)
    requires |states| == |events| + 1 && |states'| == |events'| + 1 && states <= states' && events <= events'
    requires AllPerformed(states, events, rounds, true, answers, inputs, sock, pipe)
    requires |rounds| < |answers| && |rounds| < |inputs| && r.start == |events| && r.end == |events'|
    requires Performed(states', events', r, ok, answers[|rounds|], inputs[|rounds|], sock, pipe)
    ensures AllPerformed(states', events', rounds + [r], ok, answers, inputs, sock, pipe)
  {
    hide Performed;
    var more := rounds + [r];
    forall n | 0 <= n < |more|
      ensures more[n].start == EndOf(more, n)
      ensures Performed(states', events', more[n], ok || n < |more| - 1, answers[n], inputs[n], sock, pipe)
    {
      if n > 0 { assert more[n - 1] == rounds[n - 1]; }
      if n < |rounds| {
        assert more[n] == rounds[n];
        PerformedLater(states, events, states', events', rounds[n], true, answers[n], inputs[n], sock, pipe);
      } else {
        assert more[n] == r;
      }
    }
  }
}
