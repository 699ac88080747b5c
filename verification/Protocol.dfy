/**
 The prover server as a state machine. One event is one uninterrupted piece of the server's work or one
 thing that the operating system does: child exits and signals may come between any two of them.
 */
module Protocol {
  import opened Framing
  import opened Request
  import opened Strings

  /** A running task: the number of its request, the key of the client and the identifier. */
  datatype Proc = Proc(ticket: nat, key: int, id: string)

  /** A connection: bytes received and not yet taken, bytes written, messages still to be written. */
  datatype Client = Client(unread: string, written: string, pending: seq<string>)

  /** What became of a run request. */
  datatype Fate = QUEUED | RUNNING | REAPED | CANCELLED | DROPPED

  datatype Phase = SCHEDULING | POLLING | DISPATCHING | REAPING

  datatype State = State(
    phase: Phase,
    parallel: int,
    clients: map<int, Client>,
    queue: seq<Job>,
    processes: map<int, Proc>,
    os: System,
    past: History)

  /** The operating system's side: children not yet waited for (true: exited), those among them that were
      sent a kill signal, a child signal to be delivered, bytes in the pipe. */
  datatype System = System(children: map<int, bool>, killed: set<int>, signal: bool, pipe: nat)

  /** All accepted run requests in order of acceptance, the fate of each, the largest limit so far. */
  datatype History = History(requests: seq<Request>, fate: map<nat, Fate>, highest: int)

  datatype Event =
    | Schedule(pid: int) | EndSchedule | Wake | EndDispatch
    | Accept(fd: int) | Close(fd: int) | Write(fd: int, n: nat) | WriteError(fd: int)
    | Receive(fd: int, chunk: string) | Line(key: int, asked: Parsed, newPid: int)
    | ReadPipe | Reap(child: int, detail: string) | EndReap
    | Exit(child: int) | Signal

  const PIPE_CAPACITY: nat := 65536

  // ---- the handlers ----

  function StartedText(id: string): string { "S;" + id + "\n" }

  function FinishedText(id: string, detail: string): string { "F;" + id + ";" + detail + "\n" }

  /** queue_write. */
  function Send(c: Client, msg: string): (r: Client) { c.(pending := c.pending + [msg]) }

  /** A write can take n bytes: there is a message, and it has that many. */
  predicate CanTake(c: Client, n: nat) { c.pending != [] && n <= |c.pending[0]| }

  /** A write took n bytes of the first message. */
  function Wrote(c: Client, n: nat): (r: Client)
    requires CanTake(c, n)
  {
    c.(written := c.written + c.pending[0][..n], pending := Advanced(c.pending, n))
  }

  /** More input has arrived. */
  function Fed(c: Client, chunk: string): (r: Client) { c.(unread := c.unread + chunk) }

  function SetFate(h: History, t: nat, f: Fate): (r: History) { h.(fate := h.fate[t := f]) }

  /** run_request: without its client the request is dropped. */
  function StartJob(s: State, job: Job, pid: int): (r: State) {
    var key := job.request.key;
    if key !in s.clients then s.(past := SetFate(s.past, job.ticket, DROPPED))
    else s.(processes := s.processes[pid := Proc(job.ticket, key, job.request.id)],
            os := s.os.(children := s.os.children[pid := false]),
            past := SetFate(s.past, job.ticket, RUNNING),
            clients := s.clients[key := Send(s.clients[key], StartedText(job.request.id))])
  }

  /** The processes that run a task with the identifier. */
  function Victims(ps: map<int, Proc>, id: string): (pids: set<int>) { set p | p in ps && ps[p].id == id }

  /** An interrupt: queued requests with the identifier are cancelled, running ones killed. */
  function Interrupted(s: State, id: string): (r: State) {
    s.(queue := Without(s.queue, id),
       os := s.os.(killed := s.os.killed + Victims(s.processes, id)),
       past := s.past.(fate := map t | t in s.past.fate ::
                 if s.past.fate[t] == QUEUED && t < |s.past.requests| && s.past.requests[t].id == id then CANCELLED
                 else s.past.fate[t]))
  }

  /** One more request accepted. */
  function Numbered(s: State, request: Request): (r: State) {
    s.(past := s.past.(requests := s.past.requests + [request]))
  }

  /** A run request is started at once below the limit, and queued otherwise. */
  function Admit(s: State, request: Request, pid: int): (r: State) {
    var job := Job(|s.past.requests|, request);
    var s' := Numbered(s, request);
    if |s.processes| < s.parallel then StartJob(s', job, pid)
    else s'.(queue := s.queue + [job], past := SetFate(s'.past, job.ticket, QUEUED))
  }

  /** One line of handle_msg, after parsing. */
  function HandleLine(s: State, asked: Parsed, pid: int): (r: State) {
    match asked
    case Nothing => s
    case SetParallel(n) => s.(parallel := n,
                              past := s.past.(highest := if n > s.past.highest then n else s.past.highest))
    case Accepted(request) => if request.Run? then Admit(s, request, pid) else Interrupted(s, request.id)
  }

  /** One round of handle_child_events. */
  function ReapChild(s: State, pid: int, detail: string): (r: State)
    requires pid in s.processes
  {
    var p := s.processes[pid];
    var s' := s.(processes := s.processes - {pid},
                 os := s.os.(children := s.os.children - {pid}, killed := s.os.killed - {pid}),
                 past := SetFate(s.past, p.ticket, REAPED));
    if p.key !in s.clients then s'
    else s'.(clients := s.clients[p.key := Send(s.clients[p.key], FinishedText(p.id, detail))])
  }

  // ---- steps and runs ----

  predicate Fresh(s: State, pid: int) { pid > 0 && pid !in s.os.children }

  predicate HasLine(text: string) { LineEnd(text) < |text| }

  function FirstLine(text: string): (line: string) { text[..LineEnd(text)] }

  function AfterLine(text: string): (rest: string) { if HasLine(text) then text[LineEnd(text) + 1..] else text }

  /** The first complete line of the text asks for this. */
  predicate Says(text: string, key: int, asked: Parsed) { HasLine(text) && asked == Meaning(FirstLine(text), key) }

  function Passed(c: Client): (r: Client) { c.(unread := AfterLine(c.unread)) }

  /** The first line of the client is taken. */
  function LineTaken(s: State, key: int): (r: State) {
    if key in s.clients then s.(clients := s.clients[key := Passed(s.clients[key])]) else s
  }

  predicate Enabled(s: State, e: Event) {
    match e
    case Schedule(pid) => s.phase == SCHEDULING && |s.processes| < s.parallel && s.queue != [] && Fresh(s, pid)
    case EndSchedule => s.phase == SCHEDULING && !(|s.processes| < s.parallel && s.queue != [])
    case Wake => s.phase == POLLING
    case EndDispatch => s.phase == DISPATCHING
    case Accept(fd) => s.phase == DISPATCHING && fd !in s.clients
    case Close(fd) => s.phase == DISPATCHING && fd in s.clients
    case Write(fd, n) => s.phase == DISPATCHING && fd in s.clients && CanTake(s.clients[fd], n)
    case WriteError(fd) => s.phase == DISPATCHING && fd in s.clients && s.clients[fd].pending != []
    case Receive(fd, _) => s.phase == DISPATCHING && fd in s.clients
    case Line(key, asked, pid) =>
      s.phase == DISPATCHING && key in s.clients && Fresh(s, pid) && Says(s.clients[key].unread, key, asked)
    case ReadPipe => s.phase == DISPATCHING && s.os.pipe > 0
    case Reap(pid, _) => s.phase == REAPING && pid in s.os.children && s.os.children[pid]
    case EndReap => s.phase == REAPING && forall p :: p in s.os.children ==> !s.os.children[p]
    case Exit(pid) => pid in s.os.children && !s.os.children[pid]
    case Signal => s.os.signal
  }

  function Step(s: State, e: Event): (r: State) {
    match e
    case Schedule(pid) => if s.queue == [] then s else StartJob(s.(queue := s.queue[1..]), s.queue[0], pid)
    case EndSchedule => s.(phase := POLLING)
    case Wake => s.(phase := DISPATCHING)
    case EndDispatch => s.(phase := SCHEDULING)
    case Accept(fd) => s.(clients := s.clients[fd := Client("", "", [])])
    case Close(fd) => s.(clients := s.clients - {fd})
    case Write(fd, n) =>
      if fd in s.clients && CanTake(s.clients[fd], n) then s.(clients := s.clients[fd := Wrote(s.clients[fd], n)])
      else s
    case WriteError(_) => s
    case Receive(fd, chunk) => if fd in s.clients then s.(clients := s.clients[fd := Fed(s.clients[fd], chunk)]) else s
    case Line(key, asked, pid) => HandleLine(LineTaken(s, key), asked, pid)
    case ReadPipe => if s.os.pipe > 0 then s.(os := s.os.(pipe := s.os.pipe - 1), phase := REAPING) else s
    case Reap(pid, detail) => if pid in s.processes then ReapChild(s, pid, detail) else s
    case EndReap => s.(phase := DISPATCHING)
    case Exit(pid) => s.(os := s.os.(children := s.os.children[pid := true], signal := true))
    case Signal => s.(os := s.os.(signal := false,
                                  pipe := if s.os.pipe < PIPE_CAPACITY then s.os.pipe + 1 else s.os.pipe))
  }

  ghost predicate Initial(s: State) {
    && s.phase == SCHEDULING && s.parallel >= 1
    && s.clients == map[] && s.queue == [] && s.processes == map[]
    && s.os == System(map[], {}, false, 0) && s.past == History([], map[], s.parallel)
  }

  ghost predicate IsRun(states: seq<State>, events: seq<Event>) {
    && |states| == |events| + 1 && Initial(states[0])
    && forall i :: 0 <= i < |events| ==> Enabled(states[i], events[i]) && states[i + 1] == Step(states[i], events[i])
  }

  lemma {:induction false} RunLength(states: seq<State>, events: seq<Event>)
    requires IsRun(states, events)
    ensures |states| == |events| + 1
  {
  }

  lemma {:induction false} RunStep(states: seq<State>, events: seq<Event>, i: nat)
    requires IsRun(states, events) && i < |events|
    ensures |states| == |events| + 1 && Enabled(states[i], events[i]) && states[i + 1] == Step(states[i], events[i])
  {
  }

  lemma {:induction false} ExtendRun(states: seq<State>, events: seq<Event>, e: Event)
    requires IsRun(states, events) && Enabled(states[|events|], e)
    ensures IsRun(states + [Step(states[|events|], e)], events + [e])
  {
    hide Step, Enabled, Initial;
  }

  // ---- places ----

  predicate InQueue(q: seq<Job>, t: nat) { exists i :: 0 <= i < |q| && q[i].ticket == t }

  predicate IsRunning(ps: map<int, Proc>, t: nat) { exists p :: p in ps && ps[p].ticket == t }
}
