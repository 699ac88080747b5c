/** What every step of the server keeps. */
module ProtocolSafety {
  import opened Request
  import opened Protocol
  import opened Strings

  // ---- fates, queue and process list ----

  ghost predicate Sorted(q: seq<Job>) { forall i, j :: 0 <= i < j < |q| ==> q[i].ticket < q[j].ticket }

  ghost predicate Injective(ps: map<int, Proc>) {
    forall p, q :: p in ps && q in ps && p != q ==> ps[p].ticket != ps[q].ticket
  }

  /** Every queued job is the request with its number. */
  ghost predicate QueueRecords(q: seq<Job>, past: History) {
    forall i :: 0 <= i < |q| ==>
      q[i].ticket in past.fate && q[i].ticket < |past.requests| && q[i].request == past.requests[q[i].ticket]
  }

  ghost predicate AllRuns(requests: seq<Request>) { forall t :: 0 <= t < |requests| ==> requests[t].Run? }

  /** Every process runs the request with its number. */
  ghost predicate ProcessRecords(ps: map<int, Proc>, past: History) {
    forall p :: p in ps ==>
      var t := ps[p].ticket;
      t in past.fate && t < |past.requests| && ps[p].key == past.requests[t].key && ps[p].id == past.requests[t].id
  }

  /** Except for the open tickets, which are in no place yet, every request has one fate, and queue and
      process list hold exactly the requests that the fates say. */
  ghost predicate Placed(s: State, open: set<nat>) {
    && (forall t: nat :: t in s.past.fate || t in open <==> t < |s.past.requests|)
    && (forall t :: t in open ==> !InQueue(s.queue, t) && !IsRunning(s.processes, t))
    && AllRuns(s.past.requests) && Sorted(s.queue) && QueueRecords(s.queue, s.past)
    && Injective(s.processes) && ProcessRecords(s.processes, s.past)
    && (forall t: nat :: t in s.past.fate && t !in open ==> (s.past.fate[t] == QUEUED <==> InQueue(s.queue, t)))
    && (forall t: nat :: t in s.past.fate && t !in open ==> (s.past.fate[t] == RUNNING <==> IsRunning(s.processes, t)))
  }

  ghost predicate Tickets(s: State) { Placed(s, {}) }

  lemma {:induction false} RunningAfterStart(ps: map<int, Proc>, pid: int, p: Proc, t: nat)
    requires pid !in ps
    ensures IsRunning(ps[pid := p], t) <==> IsRunning(ps, t) || t == p.ticket
  {
    var ps' := ps[pid := p];
    assert ps'[pid] == p;
    if IsRunning(ps, t) {
      var q :| q in ps && ps[q].ticket == t;
      assert ps'[q].ticket == t;
    }
  }

  lemma {:induction false} StartTickets(s: State, job: Job, pid: int)
    requires Placed(s, {job.ticket}) && pid !in s.processes
    requires job.ticket < |s.past.requests| && s.past.requests[job.ticket] == job.request
    ensures Tickets(StartJob(s, job, pid))
  {
    var key := job.request.key;
    if key in s.clients {
      var p := Proc(job.ticket, key, job.request.id);
      forall t: nat { RunningAfterStart(s.processes, pid, p, t); }
    }
  }

  lemma {:induction false} QueuedAfterPush(q: seq<Job>, job: Job, t: nat)
    ensures InQueue(q + [job], t) <==> InQueue(q, t) || t == job.ticket
  {
    assert (q + [job])[|q|] == job;
    if InQueue(q, t) {
      var i :| 0 <= i < |q| && q[i].ticket == t;
      assert (q + [job])[i].ticket == t;
    }
  }

  lemma {:induction false} PushTickets(s: State, job: Job)
    requires Placed(s, {job.ticket})
    requires |s.past.requests| == job.ticket + 1 && s.past.requests[job.ticket] == job.request
    ensures Tickets(s.(queue := s.queue + [job], past := SetFate(s.past, job.ticket, QUEUED)))
  {
    forall t: nat { QueuedAfterPush(s.queue, job, t); }
    forall i | 0 <= i < |s.queue| ensures s.queue[i].ticket < job.ticket {
      assert InQueue(s.queue, s.queue[i].ticket);
    }
  }

  lemma {:induction false} QueuedAfterPop(q: seq<Job>, t: nat)
    requires q != [] && Sorted(q)
    ensures InQueue(q[1..], t) <==> InQueue(q, t) && t != q[0].ticket
  {
    if InQueue(q, t) && t != q[0].ticket {
      var i :| 0 <= i < |q| && q[i].ticket == t;
      assert q[1..][i - 1].ticket == t;
    }
    if InQueue(q[1..], t) {
      var i :| 0 <= i < |q[1..]| && q[1..][i].ticket == t;
      assert q[i + 1].ticket == t;
    }
  }

  lemma {:induction false} PopOpens(s: State)
    requires Tickets(s) && s.queue != []
    ensures Placed(s.(queue := s.queue[1..]), {s.queue[0].ticket})
  {
    assert InQueue(s.queue, s.queue[0].ticket);
    forall t: nat { QueuedAfterPop(s.queue, t); }
  }

  lemma {:induction false} NewOpens(s: State, request: Request)
    requires Tickets(s) && request.Run?
    ensures Placed(Numbered(s, request), {|s.past.requests|})
  {
  }

  /** An interrupt leaves exactly the requests with another identifier queued, in the same order. */
  lemma {:induction false} WithoutElements(q: seq<Job>, id: string)
    requires Sorted(q)
    ensures Sorted(Without(q, id))
    ensures forall j :: j in Without(q, id) <==> j in q && j.request.id != id
    decreases |q|
  {
    if q != [] {
      var n := |q| - 1;
      WithoutElements(q[..n], id);
      assert q == q[..n] + [q[n]];
    }
  }

  lemma {:induction false} QueuedAfterInterrupt(q: seq<Job>, id: string, past: History, t: nat)
    requires Sorted(q) && QueueRecords(q, past)
    ensures InQueue(Without(q, id), t) <==> InQueue(q, t) && t < |past.requests| && past.requests[t].id != id
  {
    WithoutElements(q, id);
    var kept := Without(q, id);
    if InQueue(kept, t) {
      var i :| 0 <= i < |kept| && kept[i].ticket == t;
      assert kept[i] in q;
    }
    if InQueue(q, t) && past.requests[t].id != id {
      var i :| 0 <= i < |q| && q[i].ticket == t;
      assert q[i] in kept;
    }
  }

  lemma {:induction false} InterruptTickets(s: State, id: string)
    requires Tickets(s)
    ensures Tickets(Interrupted(s, id))
  {
    WithoutElements(s.queue, id);
    forall t: nat { QueuedAfterInterrupt(s.queue, id, s.past, t); }
    var kept := Without(s.queue, id);
    forall i | 0 <= i < |kept| ensures kept[i] in s.queue { assert kept[i] in kept; }
  }

  lemma {:induction false} RunningAfterReap(ps: map<int, Proc>, pid: int, t: nat)
    requires pid in ps && Injective(ps)
    ensures IsRunning(ps - {pid}, t) <==> IsRunning(ps, t) && t != ps[pid].ticket
  {
    var ps' := ps - {pid};
    if IsRunning(ps, t) && t != ps[pid].ticket {
      var q :| q in ps && ps[q].ticket == t;
      assert q in ps' && ps'[q].ticket == t;
    }
    if IsRunning(ps', t) {
      var q :| q in ps' && ps'[q].ticket == t;
      assert q in ps && ps[q].ticket == t;
    }
  }

  lemma {:induction false} ReapTickets(s: State, pid: int, detail: string)
    requires Tickets(s) && pid in s.processes
    ensures Tickets(ReapChild(s, pid, detail))
  {
    var t := s.processes[pid].ticket;
    assert IsRunning(s.processes, t);
    forall u: nat { RunningAfterReap(s.processes, pid, u); }
  }

  /** The operating system's children are exactly the processes that the server knows, and only they are killed. */
  ghost predicate ChildrenMatch(s: State) {
    s.os.children.Keys == s.processes.Keys && s.os.killed <= s.os.children.Keys
  }

  predicate Quiet(e: Event) { !e.Schedule? && !e.Line? && !e.Reap? }

  /** The other events leave requests and processes alone. */
  lemma {:induction false} QuietStep(s: State, e: Event)
    requires Enabled(s, e) && Quiet(e)
    ensures var r := Step(s, e);
            && r.queue == s.queue && r.processes == s.processes && r.past == s.past && r.parallel == s.parallel
            && r.os.children.Keys == s.os.children.Keys && r.os.killed == s.os.killed
  {
  }

  lemma {:induction false} StepTickets(s: State, e: Event)
    requires Enabled(s, e) && Tickets(s) && ChildrenMatch(s)
    ensures Tickets(Step(s, e)) && ChildrenMatch(Step(s, e))
  {
    if e.Schedule? {
      PopOpens(s);
      StartTickets(s.(queue := s.queue[1..]), s.queue[0], e.pid);
    } else if e.Line? {
      LineTickets(LineTaken(s, e.key), e.asked, e.newPid);
    } else if e.Reap? {
      ReapTickets(s, e.child, e.detail);
    } else {
      QuietStep(s, e);
    }
  }

  lemma {:induction false} LineTickets(s: State, asked: Parsed, pid: int)
    requires Tickets(s) && ChildrenMatch(s) && pid !in s.processes
    ensures Tickets(HandleLine(s, asked, pid)) && ChildrenMatch(HandleLine(s, asked, pid))
  {
    if asked.Accepted? {
      if asked.request.Run? {
        AdmitTickets(s, asked.request, pid);
      } else {
        InterruptTickets(s, asked.request.id);
      }
    }
  }

  lemma {:induction false} AdmitTickets(s: State, request: Request, pid: int)
    requires request.Run? && Tickets(s) && ChildrenMatch(s) && pid !in s.processes
    ensures Tickets(Admit(s, request, pid)) && ChildrenMatch(Admit(s, request, pid))
  {
    NewOpens(s, request);
    var job := Job(|s.past.requests|, request);
    if |s.processes| < s.parallel {
      StartTickets(Numbered(s, request), job, pid);
    } else {
      PushTickets(Numbered(s, request), job);
    }
  }

  // ---- what changes a fate ----

  /** A line that asks for a run. */
  predicate AsksRun(e: Event) { e.Line? && e.asked.Accepted? && e.asked.request.Run? }

  predicate AsksInterrupt(e: Event, id: string) {
    e.Line? && e.asked.Accepted? && e.asked.request.Interrupt? && e.asked.request.id == id
  }

  /** Request t is taken off the queue, or arrives below the limit, to be run. */
  predicate Starts(s: State, e: Event, t: nat) {
    || (e.Schedule? && s.queue != [] && s.queue[0].ticket == t)
    || (AsksRun(e) && t == |s.past.requests| && |s.processes| < s.parallel)
  }

  /** An interrupt with the identifier of request t comes while t is queued. */
  predicate Cancels(s: State, e: Event, t: nat) {
    InQueue(s.queue, t) && t < |s.past.requests| && AsksInterrupt(e, s.past.requests[t].id)
  }

  /** An interrupt with the identifier of request t comes while t is running. */
  predicate Kills(s: State, e: Event, t: nat) {
    IsRunning(s.processes, t) && t < |s.past.requests| && AsksInterrupt(e, s.past.requests[t].id)
  }

  /** The process of request t is waited for. */
  predicate Reaps(s: State, e: Event, t: nat) {
    e.Reap? && e.child in s.processes && s.processes[e.child].ticket == t
  }

  /** The key of the client that asked for request t, which may be the one that arrives with e. */
  function KeyOf(s: State, e: Event, t: nat): (key: int) {
    if t < |s.past.requests| then s.past.requests[t].key
    else if AsksRun(e) then e.asked.request.key else 0
  }

  /** What a step makes of the fate of request t. */
  ghost predicate FateAfter(s: State, e: Event, t: nat, f: Fate) {
    if Cancels(s, e, t) then f == CANCELLED
    else if Starts(s, e, t) then f == if KeyOf(s, e, t) in s.clients then RUNNING else DROPPED
    else if Reaps(s, e, t) then f == REAPED
    else if t in s.past.fate then f == s.past.fate[t]
    else f == QUEUED
  }

  lemma {:induction false} StepFate(s: State, e: Event, t: nat)
    requires Enabled(s, e) && Tickets(s) && ChildrenMatch(s) && t < |Step(s, e).past.requests|
    ensures t in Step(s, e).past.fate && FateAfter(s, e, t, Step(s, e).past.fate[t])
  {
    if e.Schedule? {
      ScheduleFate(s, e.pid, t);
    } else if e.Line? {
      LineFate(s, e.key, e.asked, e.newPid, t);
    } else if e.Reap? {
      ReapFate(s, e.child, e.detail, t);
    } else {
      QuietStep(s, e);
    }
  }

  lemma {:induction false} ScheduleFate(s: State, pid: int, t: nat)
    requires Tickets(s) && s.queue != [] && t < |s.past.requests|
    ensures var e := Schedule(pid);
            t in Step(s, e).past.fate && FateAfter(s, e, t, Step(s, e).past.fate[t])
  {
    assert InQueue(s.queue, s.queue[0].ticket);
  }

  lemma {:induction false} ReapFate(s: State, pid: int, detail: string, t: nat)
    requires Tickets(s) && pid in s.processes && t < |s.past.requests|
    ensures var e := Reap(pid, detail);
            t in Step(s, e).past.fate && FateAfter(s, e, t, Step(s, e).past.fate[t])
  {
    assert IsRunning(s.processes, s.processes[pid].ticket);
  }

  lemma {:induction false} LineFate(s: State, key: int, asked: Parsed, pid: int, t: nat)
    requires Tickets(s) && key in s.clients && t < |Step(s, Line(key, asked, pid)).past.requests|
    ensures var e := Line(key, asked, pid);
            t in Step(s, e).past.fate && FateAfter(s, e, t, Step(s, e).past.fate[t])
  {
    var s' := LineTaken(s, key);
    if asked.Accepted? && asked.request.Run? {
      assert s'.clients.Keys == s.clients.Keys;
      assert t == |s.past.requests| || t in s.past.fate;
    }
  }

  /** A kill signal goes to exactly the processes of requests with the identifier. */
  lemma {:induction false} StepKilled(s: State, e: Event, pid: int)
    requires Enabled(s, e) && Tickets(s) && ChildrenMatch(s) && pid in s.processes && pid in Step(s, e).processes
    ensures Step(s, e).processes[pid] == s.processes[pid]
    ensures pid in Step(s, e).os.killed <==> pid in s.os.killed || Kills(s, e, s.processes[pid].ticket)
  {
    assert IsRunning(s.processes, s.processes[pid].ticket);
    if e.Line? {
      LineKilled(LineTaken(s, e.key), e.asked, e.newPid, pid);
    } else if Quiet(e) {
      QuietStep(s, e);
    }
  }

  lemma {:induction false} LineKilled(s: State, asked: Parsed, newPid: int, pid: int)
    requires pid in s.processes && newPid != pid
    ensures var r := HandleLine(s, asked, newPid);
            && pid in r.processes && r.processes[pid] == s.processes[pid]
            && (pid in r.os.killed <==>
                 pid in s.os.killed ||
                   (asked.Accepted? && asked.request.Interrupt? && asked.request.id == s.processes[pid].id))
  {
    if asked.Accepted? && asked.request.Run? {}
  }

  // ---- messages ----

  datatype Kind = STARTED | FINISHED

  /** A message about request t for the client that has the key. */
  datatype Message = Message(kind: Kind, ticket: nat, key: int, text: string)

  function StartMessage(s: State, t: nat, request: Request): (ms: seq<Message>) {
    if request.key in s.clients then [Message(STARTED, t, request.key, StartedText(request.id))] else []
  }

  /** The message that a step owes: one to the client of a request that starts, one to the client of a
      request whose process is waited for, if there still is a client with that key. */
  function Owed(s: State, e: Event): (ms: seq<Message>) {
    match e
    case Schedule(_) => if s.queue == [] then [] else StartMessage(s, s.queue[0].ticket, s.queue[0].request)
    case Line(_, _, _) =>
      if AsksRun(e) && |s.processes| < s.parallel then StartMessage(s, |s.past.requests|, e.asked.request) else []
    case Reap(pid, detail) =>
      if pid !in s.processes || s.processes[pid].key !in s.clients then []
      else [Message(FINISHED, s.processes[pid].ticket, s.processes[pid].key, FinishedText(s.processes[pid].id, detail))]
    case _ => []
  }

  /** What a client with the key reads in these messages. */
  function Texts(ms: seq<Message>, key: int): (s: string) {
    if ms == [] then "" else
      var m := ms[|ms| - 1];
      Texts(ms[..|ms| - 1], key) + if m.key == key then m.text else ""
  }

  lemma {:induction false} TextsAppend(a: seq<Message>, b: seq<Message>, key: int)
    ensures Texts(a + b, key) == Texts(a, key) + Texts(b, key)
    decreases |b|
  {
    if b == [] {
      assert a + b == a;
    } else {
      var n := |b| - 1;
      assert (a + b)[..|a + b| - 1] == a + b[..n];
      TextsAppend(a, b[..n], key);
    }
  }

  /** All that a client was sent: written or still pending. */
  function Data(c: Client): (s: string) { c.written + Flatten(c.pending) }

  lemma {:induction false} SendData(c: Client, msg: string)
    ensures Data(Send(c, msg)) == Data(c) + msg && Send(c, msg).written == c.written
  {
    FlattenSnoc(c.pending, msg);
    Regroup(c.written, Flatten(c.pending), msg);
  }

  lemma {:induction false} WroteData(c: Client, n: nat)
    requires CanTake(c, n)
    ensures Data(Wrote(c, n)) == Data(c) && c.written <= Wrote(c, n).written
  {
    AdvancedFlatten(c.pending, n);
    Regroup(c.written, c.pending[0][..n], Flatten(Advanced(c.pending, n)));
  }

  lemma {:induction false} OneText(m: Message, key: int)
    ensures Texts([m], key) == if m.key == key then m.text else ""
  {
    assert [m][..0] == [] && "" + m.text == m.text;
  }

  /** A step that keeps a connection adds exactly the texts that it owes to that connection, and never
      takes back what was written. */
  lemma {:induction false} StepData(s: State, e: Event, fd: int)
    requires Enabled(s, e) && fd in s.clients && e != Close(fd)
    ensures fd in Step(s, e).clients && Data(Step(s, e).clients[fd]) == Data(s.clients[fd]) + Texts(Owed(s, e), fd)
    ensures s.clients[fd].written <= Step(s, e).clients[fd].written
  {
    var c := s.clients[fd];
    match e {
      case Schedule(pid) => StartData(s.(queue := s.queue[1..]), s.queue[0], pid, fd);
      case Line(key, asked, pid) => LineData(s, key, asked, pid, fd);
      case Reap(pid, detail) =>
        if pid in s.processes && s.processes[pid].key in s.clients {
          SendData(c, FinishedText(s.processes[pid].id, detail));
          OneText(Owed(s, e)[0], fd);
        }
      case Write(f, n) => if f == fd { WroteData(c, n); }
      case _ =>
    }
  }

  lemma {:induction false} StartData(s: State, job: Job, pid: int, fd: int)
    requires fd in s.clients
    ensures var r := StartJob(s, job, pid);
            && fd in r.clients && s.clients[fd].written == r.clients[fd].written
            && Data(r.clients[fd]) == Data(s.clients[fd]) + Texts(StartMessage(s, job.ticket, job.request), fd)
  {
    if job.request.key in s.clients {
      SendData(s.clients[fd], StartedText(job.request.id));
      OneText(StartMessage(s, job.ticket, job.request)[0], fd);
    }
  }

  lemma {:induction false} LineData(s: State, key: int, asked: Parsed, pid: int, fd: int)
    requires fd in s.clients && key in s.clients
    ensures var e := Line(key, asked, pid); var r := Step(s, e);
            && fd in r.clients && s.clients[fd].written == r.clients[fd].written
            && Data(r.clients[fd]) == Data(s.clients[fd]) + Texts(Owed(s, e), fd)
  {
    var s' := LineTaken(s, key);
    assert Data(s'.clients[fd]) == Data(s.clients[fd]) && Texts([], fd) == "";
    hide Data, Texts, StartJob, StartMessage;
    if asked.Accepted? && asked.request.Run? {
      StartData(Numbered(s', asked.request), Job(|s.past.requests|, asked.request), pid, fd);
    }
  }

  // ---- limit, scheduling, wake-up ----

  ghost predicate Limits(s: State) { 1 <= s.parallel <= s.past.highest && |s.processes| <= s.past.highest }

  /** The server waits only when nothing is queued or nothing more may run. */
  ghost predicate WaitsOnlyWhenFull(s: State) { s.phase == POLLING ==> s.queue == [] || |s.processes| >= s.parallel }

  ghost predicate Exited(s: State, p: int) { p in s.os.children && s.os.children[p] }

  /** An exited child that was not waited for will still be noticed. */
  ghost predicate NoLostWakeUp(s: State) {
    forall p :: Exited(s, p) ==> s.os.signal || s.os.pipe > 0 || s.phase == REAPING
  }

  /** A limit that a line sets is positive, and a request carries the key of its client. */
  lemma {:induction false} LinesAreAsked(text: string, key: int, asked: Parsed)
    requires Says(text, key, asked)
    ensures asked.SetParallel? ==> asked.limit >= 1
    ensures asked.Accepted? ==> asked.request.key == key
  {
  }

  lemma {:induction false} StepLimits(s: State, e: Event)
    requires Enabled(s, e) && Limits(s) && ChildrenMatch(s)
    ensures Limits(Step(s, e))
    ensures |Step(s, e).processes| > |s.processes| ==> |s.processes| < s.parallel
  {
    match e {
      case Schedule(pid) =>
      case Line(key, asked, pid) =>
        LinesAreAsked(s.clients[key].unread, key, asked);
        if asked.Accepted? && asked.request.Run? {}
      case Reap(pid, detail) => OneLess(s.processes, pid);
      case _ => QuietStep(s, e);
    }
  }

  lemma {:induction false} OneLess(m: map<int, Proc>, k: int)
    requires k in m
    ensures |m - {k}| == |m| - 1
  {
    assert (m - {k}).Keys == m.Keys - {k};
    assert |m.Keys - {k}| == |m.Keys| - 1;
  }

  lemma {:induction false} StepWaiting(s: State, e: Event)
    requires Enabled(s, e) && WaitsOnlyWhenFull(s)
    ensures WaitsOnlyWhenFull(Step(s, e))
  {
  }

  /** Only an exit makes an exited child. */
  lemma {:induction false} ExitedBefore(s: State, e: Event, p: int)
    requires Enabled(s, e) && Exited(Step(s, e), p) && !e.Exit?
    ensures Exited(s, p)
  {
    match e {
      case Schedule(pid) =>
      case Line(key, asked, pid) => if asked.Accepted? {}
      case Reap(pid, detail) =>
      case _ => QuietStep(s, e);
    }
  }

  lemma {:induction false} StepWakeUp(s: State, e: Event)
    requires Enabled(s, e) && NoLostWakeUp(s)
    ensures NoLostWakeUp(Step(s, e))
  {
    var r := Step(s, e);
    if !e.Exit? {
      forall p | Exited(r, p) ensures r.os.signal || r.os.pipe > 0 || r.phase == REAPING {
        ExitedBefore(s, e, p);
      }
    }
  }
}
