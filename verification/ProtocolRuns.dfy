/** The promises of the server about requests, for every run. */
module ProtocolRuns {
  import opened Request
  import opened Protocol
  import opened ProtocolSafety

  ghost predicate Inv(s: State) {
    Tickets(s) && ChildrenMatch(s) && Limits(s) && WaitsOnlyWhenFull(s) && NoLostWakeUp(s)
  }

  lemma {:induction false} InitialInv(s: State)
    requires Initial(s)
    ensures Inv(s)
  {
  }

  lemma {:induction false} StepInv(s: State, e: Event)
    requires Enabled(s, e) && Inv(s)
    ensures Inv(Step(s, e))
  {
    StepTickets(s, e);
    StepLimits(s, e);
    StepWaiting(s, e);
    StepWakeUp(s, e);
  }

  /** The invariant holds in every state of every run. */
  lemma {:induction false} RunInv(states: seq<State>, events: seq<Event>, i: nat)
    requires IsRun(states, events) && i < |states|
    ensures Inv(states[i])
    decreases i
  {
    if i == 0 {
      InitialInv(states[0]);
    } else {
      RunInv(states, events, i - 1);
      StepInv(states[i - 1], events[i - 1]);
    }
  }

  // ---- where a request is, and why ----

  function One(b: bool): nat { if b then 1 else 0 }

  /** Every accepted run request is in exactly one place: queued, running, reaped, cancelled or dropped; the
      queue is in order of acceptance, and queue and processes hold the data of the request. */
  lemma {:induction false} OnePlace(states: seq<State>, events: seq<Event>, i: nat, t: nat)
    requires IsRun(states, events) && i < |states| && t < |states[i].past.requests|
    ensures t in states[i].past.fate
    ensures var s, f := states[i], states[i].past.fate[t];
            One(InQueue(s.queue, t)) + One(IsRunning(s.processes, t))
              + One(f == REAPED) + One(f == CANCELLED) + One(f == DROPPED) == 1
    ensures Sorted(states[i].queue) && Injective(states[i].processes)
    ensures QueueRecords(states[i].queue, states[i].past) && ProcessRecords(states[i].processes, states[i].past)
  {
    RunInv(states, events, i);
  }

  /** The numbered requests are exactly the run requests in the lines that were read, in order. */
  function AcceptedRuns(events: seq<Event>): (rs: seq<Request>) {
    if events == [] then [] else
      var e := events[|events| - 1];
      AcceptedRuns(events[..|events| - 1]) + if AsksRun(e) then [e.asked.request] else []
  }

  lemma {:induction false} AllAreNumbered(states: seq<State>, events: seq<Event>, i: nat)
    requires IsRun(states, events) && i < |states|
    ensures states[i].past.requests == AcceptedRuns(events[..i])
    decreases i
  {
    if i > 0 {
      AllAreNumbered(states, events, i - 1);
      assert events[..i][..i - 1] == events[..i - 1];
      NextNumber(states[i - 1], events[i - 1]);
    }
  }

  lemma {:induction false} NextNumber(s: State, e: Event)
    requires Enabled(s, e)
    ensures Step(s, e).past.requests == s.past.requests + if AsksRun(e) then [e.asked.request] else []
  {
    if Quiet(e) {
      QuietStep(s, e);
    } else if e.Line? && e.asked.Accepted? && e.asked.request.Run? {
      assert LineTaken(s, e.key).past == s.past;
    }
  }

  /** Some step before i that starts request t, with or without a client for the key. */
  ghost predicate WasStarted(states: seq<State>, events: seq<Event>, i: nat, t: nat, key: int, connected: bool)
    requires i <= |events| < |states|
  {
    exists j :: 0 <= j < i && Starts(states[j], events[j], t) && (key in states[j].clients <==> connected)
  }

  ghost predicate WasCancelled(states: seq<State>, events: seq<Event>, i: nat, t: nat)
    requires i <= |events| < |states|
  {
    exists j :: 0 <= j < i && Cancels(states[j], events[j], t)
  }

  ghost predicate WasReaped(states: seq<State>, events: seq<Event>, i: nat, t: nat)
    requires i <= |events| < |states|
  {
    exists j :: 0 <= j < i && Reaps(states[j], events[j], t)
  }

  /** What the events before i say about the fate of request t. */
  ghost predicate FateFits(states: seq<State>, events: seq<Event>, i: nat, t: nat, f: Fate, key: int)
    requires i <= |events| < |states|
  {
    && (f == CANCELLED <==> WasCancelled(states, events, i, t))
    && (f == DROPPED <==> WasStarted(states, events, i, t, key, false))
    && (f == RUNNING || f == REAPED <==> WasStarted(states, events, i, t, key, true))
    && (f == REAPED <==> WasReaped(states, events, i, t))
  }

  /** How one step moves a fate; a request that is not there yet counts as queued. */
  ghost predicate FateMoves(s: State, e: Event, t: nat, key: int, f: Fate, f': Fate) {
    && (Cancels(s, e, t) ==> f == QUEUED && f' == CANCELLED)
    && (Starts(s, e, t) ==> f == QUEUED && f' == if key in s.clients then RUNNING else DROPPED)
    && (Reaps(s, e, t) ==> f == RUNNING && f' == REAPED)
    && (!Cancels(s, e, t) && !Starts(s, e, t) && !Reaps(s, e, t) ==> f' == f)
  }

  lemma {:induction false} StepMoves(s: State, e: Event, t: nat)
    requires Enabled(s, e) && Inv(s) && t < |Step(s, e).past.requests|
    ensures t in Step(s, e).past.fate && (t < |s.past.requests| ==> t in s.past.fate)
    ensures FateMoves(s, e, t, Step(s, e).past.requests[t].key,
                      if t < |s.past.requests| then s.past.fate[t] else QUEUED, Step(s, e).past.fate[t])
  {
    StepFate(s, e, t);
    NextNumber(s, e);
    PlacesFit(s, e, t);
  }

  /** Only a queued request is started or cancelled, only a running one is reaped. */
  lemma {:induction false} PlacesFit(s: State, e: Event, t: nat)
    requires Inv(s)
    ensures t in s.past.fate && (Starts(s, e, t) || Cancels(s, e, t)) ==> s.past.fate[t] == QUEUED
    ensures Reaps(s, e, t) ==> t in s.past.fate && s.past.fate[t] == RUNNING
    ensures Cancels(s, e, t) ==> t in s.past.fate
    ensures !(Cancels(s, e, t) && Starts(s, e, t))
  {
    if e.Schedule? && s.queue != [] { assert InQueue(s.queue, s.queue[0].ticket); }
    if Reaps(s, e, t) { assert IsRunning(s.processes, t); }
  }

  lemma {:induction false} FitsAfter(states: seq<State>, events: seq<Event>, i: nat, t: nat, key: int, f: Fate,
                                     f': Fate)
    requires i < |events| < |states|
    requires FateFits(states, events, i, t, f, key) && FateMoves(states[i], events[i], t, key, f, f')
    ensures FateFits(states, events, i + 1, t, f', key)
  {
    FateGrows(states, events, i, t, key);
  }

  /** Why a request has its fate. It is cancelled if and only if an interrupt with its identifier came while it
      was queued; dropped if and only if its turn came and its key had no client; running or reaped if and only
      if its turn came and its key had a client; reaped if and only if its process was waited for. */
  lemma {:induction false} WhyFate(states: seq<State>, events: seq<Event>, i: nat, t: nat)
    requires IsRun(states, events) && i < |states| && t < |states[i].past.requests|
    ensures t in states[i].past.fate
    ensures FateFits(states, events, i, t, states[i].past.fate[t], states[i].past.requests[t].key)
    decreases i
  {
    hide FateFits, FateMoves, Inv, Step, Enabled;
    if i > 0 {
      var s, key := states[i - 1], states[i].past.requests[t].key;
      RunInv(states, events, i - 1);
      StepMoves(s, events[i - 1], t);
      var f := if t < |s.past.requests| then s.past.fate[t] else QUEUED;
      if t < |s.past.requests| {
        WhyFate(states, events, i - 1, t);
        RequestsGrow(states, events, i - 1, i);
      } else {
        NothingBefore(states, events, i - 1, t);
      }
      FitsAfter(states, events, i - 1, t, key, f, states[i].past.fate[t]);
    }
  }

  /** Nothing happens to a request before it is accepted. */
  lemma {:induction false} NothingBefore(states: seq<State>, events: seq<Event>, i: nat, t: nat)
    requires IsRun(states, events) && i < |states| && |states[i].past.requests| <= t
    ensures !WasCancelled(states, events, i, t) && !WasReaped(states, events, i, t)
    ensures forall key, b :: !WasStarted(states, events, i, t, key, b)
  {
    forall j | 0 <= j < i ensures !Cancels(states[j], events[j], t) && !Reaps(states[j], events[j], t)
                               && !Starts(states[j], events[j], t)
    {
      RequestsGrow(states, events, j, i);
      RequestsGrow(states, events, j + 1, i);
      RunInv(states, events, j);
      NextNumber(states[j], events[j]);
    }
  }

  lemma {:induction false} RequestsGrow(states: seq<State>, events: seq<Event>, j: nat, i: nat)
    requires IsRun(states, events) && j <= i < |states|
    ensures states[j].past.requests <= states[i].past.requests
    decreases i - j
  {
    if j < i {
      NextNumber(states[j], events[j]);
      RequestsGrow(states, events, j + 1, i);
    }
  }

  /** One more step of the run. */
  lemma {:induction false} FateGrows(states: seq<State>, events: seq<Event>, i: nat, t: nat, key: int)
    requires i < |events| < |states|
    ensures WasCancelled(states, events, i + 1, t) <==>
            WasCancelled(states, events, i, t) || Cancels(states[i], events[i], t)
    ensures WasReaped(states, events, i + 1, t) <==> WasReaped(states, events, i, t) || Reaps(states[i], events[i], t)
    ensures WasStarted(states, events, i + 1, t, key, true) <==>
              WasStarted(states, events, i, t, key, true) ||
                (Starts(states[i], events[i], t) && key in states[i].clients)
    ensures WasStarted(states, events, i + 1, t, key, false) <==>
              WasStarted(states, events, i, t, key, false) ||
                (Starts(states[i], events[i], t) && key !in states[i].clients)
  {
  }

  // ---- processes ----

  ghost predicate WasKilled(states: seq<State>, events: seq<Event>, i: nat, t: nat)
    requires i <= |events| < |states|
  {
    exists j :: 0 <= j < i && Kills(states[j], events[j], t)
  }

  /** A process was sent a kill signal if and only if an interrupt with the identifier of its request came
      while it was running. */
  lemma {:induction false} WhyKilled(states: seq<State>, events: seq<Event>, i: nat, pid: int)
    requires IsRun(states, events) && i < |states| && pid in states[i].processes
    ensures pid in states[i].os.killed <==> WasKilled(states, events, i, states[i].processes[pid].ticket)
    decreases i
  {
    hide Step, Enabled, Kills, Starts;
    if i > 0 {
      var s, e := states[i - 1], events[i - 1];
      RunInv(states, events, i - 1);
      if pid in s.processes {
        StepKilled(s, e, pid);
        WhyKilled(states, events, i - 1, pid);
      } else {
        NewProcess(s, e, pid);
        NotKilledBefore(states, events, i - 1, states[i].processes[pid].ticket);
      }
    }
  }

  lemma {:induction false} NewProcess(s: State, e: Event, pid: int)
    requires Enabled(s, e) && ChildrenMatch(s) && pid !in s.processes && pid in Step(s, e).processes
    ensures pid !in Step(s, e).os.killed && Starts(s, e, Step(s, e).processes[pid].ticket)
    ensures !Kills(s, e, Step(s, e).processes[pid].ticket)
  {
    if Quiet(e) { QuietStep(s, e); }
  }

  lemma {:induction false} NotKilledBefore(states: seq<State>, events: seq<Event>, i: nat, t: nat)
    requires IsRun(states, events) && i < |events| && Starts(states[i], events[i], t)
    ensures !WasKilled(states, events, i, t)
  {
    hide Step, Enabled;
    forall j | 0 <= j < i ensures !Kills(states[j], events[j], t) {
      if Kills(states[j], events[j], t) {
        RunInv(states, events, i);
        PlacesFit(states[i], events[i], t);
        StillBegun(states, events, j, i, t);
      }
    }
  }

  predicate Begun(s: State, t: nat) { t in s.past.fate && (s.past.fate[t] == RUNNING || s.past.fate[t] == REAPED) }

  /** What was running is running or reaped ever after. */
  lemma {:induction false} StillBegun(states: seq<State>, events: seq<Event>, j: nat, i: nat, t: nat)
    requires IsRun(states, events) && j <= i < |states| && t < |states[j].past.requests| &&
             IsRunning(states[j].processes, t)
    ensures Begun(states[i], t) && t < |states[i].past.requests|
  {
    hide Step, Enabled;
    RunInv(states, events, j);
    WhyFate(states, events, j, t);
    RequestsGrow(states, events, j, i);
    WhyFate(states, events, i, t);
  }

  /** The reaper's lookup never misses: every child that the operating system knows is in the process list. */
  lemma {:induction false} ReaperFinds(states: seq<State>, events: seq<Event>, i: nat, pid: int)
    requires IsRun(states, events) && i < |states| && pid in states[i].os.children
    ensures pid in states[i].processes
  {
    RunInv(states, events, i);
  }

  /** Process ids are positive. */
  lemma {:induction false} PositivePids(states: seq<State>, events: seq<Event>, i: nat)
    requires IsRun(states, events) && i < |states|
    ensures forall pid :: pid in states[i].os.children ==> pid > 0
    decreases i
  {
    hide Step, Enabled;
    if i > 0 {
      PositivePids(states, events, i - 1);
      PositiveStep(states[i - 1], events[i - 1]);
    }
  }

  lemma {:induction false} PositiveStep(s: State, e: Event)
    requires Enabled(s, e) && forall pid :: pid in s.os.children ==> pid > 0
    ensures forall pid :: pid in Step(s, e).os.children ==> pid > 0
  {
    if Quiet(e) { QuietStep(s, e); }
  }

  // ---- limit, scheduling, wake-up ----

  /** No process is started at or above the limit in force. */
  lemma {:induction false} StartsBelowLimit(states: seq<State>, events: seq<Event>, i: nat)
    requires IsRun(states, events) && i + 1 < |states|
    ensures |states[i + 1].processes| > |states[i].processes| ==> |states[i].processes| < states[i].parallel
  {
    RunInv(states, events, i);
    StepLimits(states[i], events[i]);
  }

  /** A line that asks for a new limit. */
  predicate SetsLimit(e: Event) { e.Line? && e.asked.SetParallel? }

  /** The limit in force is the one that the last such line has asked for, and the start limit if there was none. */
  lemma {:induction false} LimitInForce(states: seq<State>, events: seq<Event>, i: nat)
    requires IsRun(states, events) && i < |states|
    ensures (forall k :: 0 <= k < i ==> !SetsLimit(events[k])) ==> states[i].parallel == states[0].parallel
    ensures forall k :: 0 <= k < i && SetsLimit(events[k]) && (forall m :: k < m < i ==> !SetsLimit(events[m])) ==>
              states[i].parallel == events[k].asked.limit
    decreases i
  {
    hide Step, Enabled;
    if i > 0 {
      LimitInForce(states, events, i - 1);
      LimitStep(states[i - 1], events[i - 1]);
    }
  }

  lemma {:induction false} LimitStep(s: State, e: Event)
    requires Enabled(s, e)
    ensures Step(s, e).parallel == if SetsLimit(e) then e.asked.limit else s.parallel
  {
    if Quiet(e) { QuietStep(s, e); }
  }

  /** Every limit was the start limit or was asked for by a line. */
  lemma {:induction false} LimitWasAsked(states: seq<State>, events: seq<Event>, i: nat)
    requires IsRun(states, events) && i < |states|
    ensures states[i].parallel == states[0].parallel
            || exists k :: 0 <= k < i && SetsLimit(events[k]) && states[i].parallel == events[k].asked.limit
    decreases i
  {
    hide Step, Enabled;
    if i > 0 {
      LimitWasAsked(states, events, i - 1);
      LimitStep(states[i - 1], events[i - 1]);
    }
  }

  /** So there are never more processes than the largest limit that was ever in force, which is the start limit or
      one that a line has asked for. */
  lemma {:induction false} CountBelowHighest(states: seq<State>, events: seq<Event>, i: nat) returns (j: nat)
    requires IsRun(states, events) && i < |states|
    ensures j <= i && states[j].parallel == states[i].past.highest && |states[i].processes| <= states[j].parallel
    ensures forall k :: 0 <= k <= i ==> states[k].parallel <= states[j].parallel
    ensures states[j].parallel == states[0].parallel
            || exists k :: 0 <= k < j && SetsLimit(events[k]) && states[j].parallel == events[k].asked.limit
  {
    RunInv(states, events, i);
    j := HighestWasInForce(states, events, i);
    LimitWasAsked(states, events, j);
  }

  lemma {:induction false} HighestWasInForce(states: seq<State>, events: seq<Event>, i: nat) returns (j: nat)
    requires IsRun(states, events) && i < |states|
    ensures j <= i && states[j].parallel == states[i].past.highest
    ensures forall k :: 0 <= k <= i ==> states[k].parallel <= states[i].past.highest
    decreases i
  {
    if i == 0 {
      j := 0;
    } else {
      j := HighestWasInForce(states, events, i - 1);
      RunInv(states, events, i - 1);
      HighestStep(states[i - 1], events[i - 1]);
      if states[i].past.highest != states[i - 1].past.highest { j := i; }
    }
  }

  lemma {:induction false} HighestStep(s: State, e: Event)
    requires Enabled(s, e) && s.parallel <= s.past.highest
    ensures var r := Step(s, e);
            r.parallel <= r.past.highest && s.past.highest <= r.past.highest
            && (r.past.highest == s.past.highest || r.past.highest == r.parallel)
  {
    if Quiet(e) { QuietStep(s, e); }
  }

  /** Whenever the server waits, nothing is queued or the limit is reached. */
  lemma {:induction false} WaitsWhenDone(states: seq<State>, events: seq<Event>, i: nat)
    requires IsRun(states, events) && i < |states| && states[i].phase == POLLING
    ensures states[i].queue == [] || |states[i].processes| >= states[i].parallel
  {
    RunInv(states, events, i);
  }

  /** Scheduling comes to an end: every round takes the oldest request off the queue. */
  lemma {:induction false} ScheduleProgress(s: State, pid: int)
    requires Inv(s) && Enabled(s, Schedule(pid))
    ensures |Step(s, Schedule(pid)).queue| == |s.queue| - 1
    ensures forall j :: 0 <= j < |Step(s, Schedule(pid)).queue| ==>
            s.queue[0].ticket < Step(s, Schedule(pid)).queue[j].ticket
  {
    var r := Step(s, Schedule(pid));
    assert r.queue == s.queue[1..];
    forall j | 0 <= j < |r.queue| ensures s.queue[0].ticket < r.queue[j].ticket { assert r.queue[j] == s.queue[j + 1]; }
  }

  /** How many of the first i events are deliveries of a signal. */
  function Signals(events: seq<Event>, i: nat): (n: nat)
    requires i <= |events|
  {
    if i == 0 then 0 else Signals(events, i - 1) + One(events[i - 1] == Signal)
  }

  /** How many of the first i events are reads of the pipe. */
  function PipeReads(events: seq<Event>, i: nat): (n: nat)
    requires i <= |events|
  {
    if i == 0 then 0 else PipeReads(events, i - 1) + One(events[i - 1] == ReadPipe)
  }

  /** Each delivery puts one byte into the pipe, as long as it has room, and each read takes one out. */
  lemma {:induction false} PipeBytes(states: seq<State>, events: seq<Event>, i: nat)
    requires IsRun(states, events) && i < |states|
    ensures states[i].os.pipe <= 65536 && states[i].os.pipe + PipeReads(events, i) <= Signals(events, i)
    ensures Signals(events, i) <= 65536 ==> states[i].os.pipe + PipeReads(events, i) == Signals(events, i)
    decreases i
  {
    hide Step, Enabled;
    if i > 0 {
      PipeBytes(states, events, i - 1);
      PipeStep(states[i - 1], events[i - 1]);
    }
  }

  lemma {:induction false} PipeStep(s: State, e: Event)
    requires Enabled(s, e)
    ensures var r := Step(s, e);
            if e == Signal then r.os.pipe == if s.os.pipe < 65536 then s.os.pipe + 1 else s.os.pipe
            else if e == ReadPipe then r.os.pipe == s.os.pipe - 1
            else r.os.pipe == s.os.pipe
  {
  }

  /** An exited child that was not waited for: a signal or a byte is on its way, or the reaping loop is active. */
  lemma {:induction false} NothingIsLost(states: seq<State>, events: seq<Event>, i: nat, pid: int)
    requires IsRun(states, events) && i < |states| && Exited(states[i], pid)
    ensures states[i].os.signal || states[i].os.pipe > 0 || states[i].phase == REAPING
  {
    RunInv(states, events, i);
  }
}
