/** A run in which the answer to a request goes to another client than the one that asked. */
module Misdelivery {
  import opened Framing
  import opened Request
  import opened Protocol
  import opened ProtocolSafety
  import opened ProtocolRuns
  import opened ProtocolStreams

  /** The event is the first one of an entry of the poll list. */
  predicate BeginsEntry(e: Event) {
    e.Accept? || e.Close? || e.Write? || e.WriteError? || e.Receive? || e.ReadPipe?
  }

  /** No entry was served since poll returned. */
  predicate JustPolled(events: seq<Event>) {
    if events == [] then false else
      var e := events[|events| - 1];
      e.Wake? || (!BeginsEntry(e) && JustPolled(events[..|events| - 1]))
  }

  /** Between two polls at most one entry is served, and a read yields some bytes, but not more than READ_ONCE: the main
      loop can perform the events in this order. */
  ghost predicate OneEach(events: seq<Event>) {
    && (forall k :: 0 <= k < |events| && BeginsEntry(events[k]) ==> JustPolled(events[..k]))
    && (forall k :: 0 <= k < |events| && events[k].Receive? ==> 0 < |events[k].chunk| <= READ_ONCE)
  }

  lemma {:induction false} LastAcceptPrefix(events: seq<Event>, events': seq<Event>, i: nat, fd: int)
    requires i <= |events| && events <= events'
    ensures LastAccept(events', i, fd) == LastAccept(events, i, fd)
    decreases i
  {
    if i > 0 { LastAcceptPrefix(events, events', i - 1, fd); }
  }

  /** A run that goes on with one event. */
  lemma {:induction false} Extended(states: seq<State>, events: seq<Event>, e: Event)
      returns (states': seq<State>, events': seq<Event>)
    requires IsRun(states, events) && |states| == |events| + 1 && OneEach(events) && Enabled(states[|events|], e)
    requires (BeginsEntry(e) ==> JustPolled(events)) && (e.Receive? ==> 0 < |e.chunk| <= READ_ONCE)
    ensures IsRun(states', events') && |states'| == |events'| + 1 && OneEach(events')
    ensures states' == states + [Step(states[|events|], e)] && events' == events + [e]
    ensures JustPolled(events') <==> e.Wake? || (!BeginsEntry(e) && JustPolled(events))
    ensures forall fd :: LastAccept(events', |events'|, fd)
                      == if e == Accept(fd) then |events| else LastAccept(events, |events|, fd)
  {
    hide IsRun, Step, Enabled;
    forall fd { LastAcceptPrefix(events, events + [e], |events|, fd); }
    ExtendRun(states, events, e);
    states', events' := states + [Step(states[|events|], e)], events + [e];
    assert events'[..|events|] == events;
    forall k | 0 <= k < |events| ensures events'[..k] == events[..k] {}
  }

  /** A dispatch ends, nothing is to be scheduled, and poll returns again. */
  lemma {:induction false} PolledAgain(states: seq<State>, events: seq<Event>)
    returns (states': seq<State>, events': seq<Event>)
    requires IsRun(states, events) && |states| == |events| + 1 && OneEach(events)
    requires states[|events|].phase == DISPATCHING && states[|events|].queue == []
    ensures IsRun(states', events') && |states'| == |events'| + 1 && OneEach(events') && JustPolled(events')
    ensures states <= states' && events <= events' && states'[|events'|] == states[|events|]
    ensures forall fd :: LastAccept(events', |events'|, fd) == LastAccept(events, |events|, fd)
  {
    hide IsRun, OneEach, JustPolled, LastAccept;
    var s := states[|events|];
    states', events' := Extended(states, events, EndDispatch);
    states', events' := Extended(states', events', EndSchedule);
    states', events' := Extended(states', events', Wake);
    assert states'[|events'|] == s.(phase := DISPATCHING) == s;
  }

  /** The bytes of one client arrive, a chunk per poll. */
  lemma {:induction false} AllReceived(states: seq<State>, events: seq<Event>, fd: int, chunks: seq<string>)
      returns (states': seq<State>, events': seq<Event>)
    requires IsRun(states, events) && |states| == |events| + 1 && OneEach(events) && JustPolled(events)
    requires states[|events|].phase == DISPATCHING && states[|events|].queue == [] && fd in states[|events|].clients
    requires chunks != [] && forall k :: 0 <= k < |chunks| ==> 0 < |chunks[k]| <= READ_ONCE
    ensures IsRun(states', events') && |states'| == |events'| + 1 && OneEach(events')
    ensures states <= states' && events <= events'
    ensures var s := states[|events|];
            states'[|events'|] == s.(clients := s.clients[fd := Fed(s.clients[fd], Concat(chunks))])
    ensures LastAccept(events', |events'|, fd) == LastAccept(events, |events|, fd)
    decreases |chunks|
  {
    hide IsRun, OneEach, JustPolled, LastAccept;
    var n, s := |chunks| - 1, states[|events|];
    if n == 0 {
      states', events' := Extended(states, events, Receive(fd, chunks[0]));
      assert chunks[..0] == [] && Concat([]) == "" && "" + chunks[0] == chunks[0];
    } else {
      states', events' := AllReceived(states, events, fd, chunks[..n]);
      states', events' := PolledAgain(states', events');
      states', events' := Extended(states', events', Receive(fd, chunks[n]));
      FedTwice(s, fd, Concat(chunks[..n]), chunks[n]);
    }
  }

  lemma {:induction false} FedTwice(s: State, fd: int, a: string, b: string)
    requires fd in s.clients
    ensures var r := s.(clients := s.clients[fd := Fed(s.clients[fd], a)]);
            Step(r, Receive(fd, b)) == s.(clients := s.clients[fd := Fed(s.clients[fd], a + b)])
  {
    assert s.clients[fd].unread + (a + b) == (s.clients[fd].unread + a) + b;
  }

  /** The server is in a dispatch, and the request of the client, the only one so far, runs as process pid. */
  ghost predicate Runs(s: State, pid: int, fd: int, id: string) {
    && s.phase == DISPATCHING && s.queue == [] && pid in s.processes && s.processes[pid] == Proc(0, fd, id)
    && pid in s.os.children && !s.os.children[pid]
  }

  lemma {:induction false} AskStep(s: State, fd: int, text: string, request: Request, pid: int)
    requires s.phase == DISPATCHING && s.queue == [] && fd in s.clients && s.clients[fd].unread == text
    requires |s.processes| < s.parallel && s.past.requests == []
    requires request.Run? && Says(text, fd, Accepted(request)) && Fresh(s, pid)
    ensures var e := Line(fd, Accepted(request), pid);
            Enabled(s, e) && Runs(Step(s, e), pid, fd, request.id) && fd in Step(s, e).clients
  {
    LinesAreAsked(text, fd, Accepted(request));
  }

  lemma {:induction false} CloseStep(s: State, fd: int, pid: int, id: string)
    requires Runs(s, pid, fd, id) && fd in s.clients
    ensures Enabled(s, Close(fd)) && Runs(Step(s, Close(fd)), pid, fd, id) && fd !in Step(s, Close(fd)).clients
  {
  }

  lemma {:induction false} AcceptStep(s: State, fd: int, pid: int, id: string)
    requires Runs(s, pid, fd, id) && fd !in s.clients
    ensures Enabled(s, Accept(fd)) && Runs(Step(s, Accept(fd)), pid, fd, id) && fd in Step(s, Accept(fd)).clients
  {
  }

  /** The client disconnects, and the next one gets its descriptor. */
  lemma {:induction false} Replaced(states: seq<State>, events: seq<Event>, fd: int, pid: int, id: string)
      returns (states': seq<State>, events': seq<Event>)
    requires IsRun(states, events) && |states| == |events| + 1 && OneEach(events)
    requires Runs(states[|events|], pid, fd, id) && fd in states[|events|].clients
    ensures IsRun(states', events') && |states'| == |events'| + 1 && OneEach(events')
    ensures states <= states' && events <= events' && LastAccept(events', |events'|, fd) >= |events|
    ensures Runs(states'[|events'|], pid, fd, id) && fd in states'[|events'|].clients
  {
    hide IsRun, OneEach, JustPolled, LastAccept, Step, Enabled;
    states', events' := PolledAgain(states, events);
    CloseStep(states'[|events'|], fd, pid, id);
    states', events' := Extended(states', events', Close(fd));
    states', events' := PolledAgain(states', events');
    AcceptStep(states'[|events'|], fd, pid, id);
    states', events' := Extended(states', events', Accept(fd));
  }

  /** The child exits while the server waits. */
  lemma {:induction false} ExitSteps(states: seq<State>, events: seq<Event>, fd: int, pid: int, id: string)
      returns (states': seq<State>, events': seq<Event>)
    requires IsRun(states, events) && |states| == |events| + 1 && OneEach(events)
    requires Runs(states[|events|], pid, fd, id) && fd in states[|events|].clients
    ensures IsRun(states', events') && |states'| == |events'| + 1 && OneEach(events') && JustPolled(events')
    ensures states <= states' && events <= events'
    ensures LastAccept(events', |events'|, fd) == LastAccept(events, |events|, fd)
    ensures var s := states'[|events'|];
            && s.phase == DISPATCHING && s.os.pipe > 0 && fd in s.clients && pid in s.os.children && s.os.children[pid]
            && pid in s.processes && s.processes[pid] == Proc(0, fd, id)
  {
    hide IsRun, OneEach, JustPolled, LastAccept;
    states', events' := Extended(states, events, EndDispatch);
    states', events' := Extended(states', events', EndSchedule);
    states', events' := Extended(states', events', Exit(pid));
    states', events' := Extended(states', events', Signal);
    states', events' := Extended(states', events', Wake);
  }

  /** The first client is connected and has been heard of by poll. */
  lemma {:induction false} Connected(fd: int) returns (states: seq<State>, events: seq<Event>)
    ensures IsRun(states, events) && |states| == |events| + 1 && OneEach(events) && JustPolled(events)
    ensures LastAccept(events, |events|, fd) == 2
    ensures var s := states[|events|];
            && s.phase == DISPATCHING && s.queue == [] && fd in s.clients && s.clients[fd].unread == ""
            && s.processes == map[] && s.parallel == 1 && s.os.children == map[] && s.past.requests == []
  {
    hide OneEach, JustPolled, LastAccept;
    var s0 := State(SCHEDULING, 1, map[], [], map[], System(map[], {}, false, 0), History([], map[], 1));
    states, events := [s0], [];
    assert IsRun(states, events) && OneEach(events) by { NothingYet(s0); }
    hide IsRun;
    states, events := Extended(states, events, EndSchedule);
    states, events := Extended(states, events, Wake);
    states, events := Extended(states, events, Accept(fd));
    states, events := PolledAgain(states, events);
  }

  lemma {:induction false} NothingYet(s: State)
    requires Initial(s)
    ensures IsRun([s], []) && OneEach([])
  {
  }

  /** For every run request, and however its line is cut into reads, there is a run, which the main loop can perform,
      in which its client disconnects, and the next client gets the descriptor and the finish message of the first
      one's request. */
  lemma {:induction false} WrongClient(fd: int, chunks: seq<string>, request: Request)
      returns (states: seq<State>, events: seq<Event>, j: nat, i: nat)
    requires chunks != [] && forall k :: 0 <= k < |chunks| ==> 0 < |chunks[k]| <= READ_ONCE
    requires request.Run? && Says(Concat(chunks), fd, Accepted(request)) && AfterLine(Concat(chunks)) == ""
    ensures IsRun(states, events) && OneEach(events) && j <= i < |events| < |states|
    ensures AsksRun(events[j]) && events[j].key == fd && events[j].asked.request == request &&
            states[j].past.requests == []
    ensures Owed(states[i], events[i]) == [Message(FINISHED, 0, fd, FinishedText(request.id, "0"))]
    ensures LastAccept(events, j, fd) < LastAccept(events, i, fd)
  {
    hide IsRun, OneEach, JustPolled, LastAccept, Step, Enabled, Owed, Says, FinishedText, Concat;
    states, events := Connected(fd);
    states, events := AllReceived(states, events, fd, chunks);
    j := |events|;
    ghost var asked := events;
    AskStep(states[j], fd, Concat(chunks), request, 1);
    states, events := Extended(states, events, Line(fd, Accepted(request), 1));
    states, events := Replaced(states, events, fd, 1, request.id);
    states, events := ExitSteps(states, events, fd, 1, request.id);
    FinishStep(states[|events|], fd, 1, request.id, "0");
    states, events := Extended(states, events, ReadPipe);
    i := |events|;
    states, events := Extended(states, events, Reap(1, "0"));
    LastAcceptPrefix(asked, events, j, fd);
    LastAcceptPrefix(events[..i], events, i, fd);
  }

  lemma {:induction false} FinishStep(s: State, fd: int, pid: int, id: string, detail: string)
    requires s.phase == DISPATCHING && s.os.pipe > 0 && fd in s.clients && pid in s.os.children && s.os.children[pid]
    requires pid in s.processes && s.processes[pid] == Proc(0, fd, id)
    ensures Enabled(s, ReadPipe) && Enabled(Step(s, ReadPipe), Reap(pid, detail))
    ensures Owed(Step(s, ReadPipe), Reap(pid, detail)) == [Message(FINISHED, 0, fd, FinishedText(id, detail))]
  {
  }
}
