/**
 The server process: the list of clients with their buffers, the poll list, the queue, the process list, and the
 handlers of the main loop. Every object of the class carries the run of the protocol that it has performed.
 */
module Server {
  import opened Framing
  import opened Request
  import opened Protocol
  import opened ProtocolSafety
  import opened ProtocolRuns
  import opened ProtocolStreams
  import opened ProtocolRounds
  import opened RingQueue
  import opened Strings
  import opened KeyedList
  import opened Connections
  import opened Network
  import PollList

  class Server {
    const net: Network
    const queue: Queue<Job>
    const processes: List<Proc>
    var parallel: int
    /** How many run requests were accepted. */
    var accepted: nat
    /** The operating system's side. */
    var os: System
    ghost var phase: Phase
    ghost var past: History
    /** The run so far. */
    ghost var states: seq<State>
    ghost var events: seq<Event>

    /** The parts are sound and have nothing in common. */
    ghost predicate Wired()
      reads this, net, net.Repr, queue, queue.data, processes, processes.key, processes.data
    {
      && net.Valid() && queue.Valid() && processes.Valid() && Distinct(processes.Items())
      && {this as object, queue, queue.data, processes, processes.key, processes.data} !! net.Repr
      && queue.data as object != processes.data as object && queue.data as object != processes.key as object
      && parallel >= 1 && accepted == |past.requests|
    }

    /** The server as the protocol sees it. */
    ghost function View(): (s: State)
      requires Wired()
      reads this, net, net.Repr, queue, queue.data, processes, processes.key, processes.data
    {
      State(phase, parallel, net.Conns(), queue.Contents(), AsMap(processes.Items()), os, past)
    }

    /** The poll list. */
    ghost function Watched(): (s: seq<PollList.PollFd>)
      requires Wired()
      reads this, net, net.Repr, queue, queue.data, processes, processes.key, processes.data
    {
      net.poll.Entries()
    }

    ghost function Marks(): (m: map<int, Mark>)
      requires Wired()
      reads this, net, net.Repr, queue, queue.data, processes, processes.key, processes.data
    {
      net.Marks()
    }

    ghost function Parts(): (objects: set<object>)
      reads net, queue, processes
    {
      net.Repr + {queue, queue.data, processes, processes.key, processes.data}
    }

    /** Objects that are new among the parts are new altogether. */
    twostate predicate OnlyNew()
      reads net, queue, processes
    {
      forall o :: o in Parts() ==> o in old(Parts()) || fresh(o)
    }

    /** The state of the objects is the last state of a run of the protocol, and the writes that are not finished are
        those that have failed. */
    ghost predicate Valid()
      reads this, net, net.Repr, queue, queue.data, processes, processes.key, processes.data
    {
      && Wired() && this !in Parts() && |states| == |events| + 1
      && IsRun(states, events) && states[|events|] == View() && Writing(Marks()) == FailedWrites(events)
    }

    /** The run goes on. */
    twostate predicate Continues()
      reads this
    {
      old(events) <= events && old(states) <= states
    }

    /** The server on the parts that server_init_listening has set up. */
    constructor (net: Network, queue: Queue<Job>, processes: List<Proc>, limit: int)
      requires net.Valid() && queue.Valid() && processes.Valid() && limit >= 1
      requires {queue as object, queue.data, processes, processes.key, processes.data} !! net.Repr
      requires queue.data as object != processes.data as object && queue.data as object != processes.key as object
      requires net.Conns() == map[] && queue.Contents() == [] && processes.Items() == []
      ensures this.net == net && this.queue == queue && this.processes == processes
      ensures Valid() && phase == SCHEDULING && events == [] && parallel == limit && states[0].parallel == limit
    {
      this.net, this.queue, this.processes := net, queue, processes;
      parallel, accepted := limit, 0;
      os := System(map[], {}, false, 0);
      phase, past := SCHEDULING, History([], map[], limit);
      new;
      hide Network.Valid, Network.Listed, Network.Members;
      EmptyList<Proc>();
      assert Wired();
      StartRun(View());
      states, events := [View()], [];
      assert Marks() == map[];
    }

    // ---- changes of the parts ----

    /** queue_write. */
    method Tell(c: Connection, msg: string)
      requires Wired() && net.Has(c)
      modifies net.Repr
      ensures Wired() && OnlyNew() && net.table == old(net.table) && Marks() == old(Marks())
      ensures View() == old(View()).(clients := old(View()).clients[c.fd := Send(old(View()).clients[c.fd], msg)])
      ensures PollList.Kept(old(Watched()), Watched(), {})
    {
      hide Network.Valid, Distinct, AsMap;
      net.QueueWrite(c, msg);
    }

    /** list_lookup(clients, key). */
    method FindClient(key: int) returns (c: Connection?)
      requires Wired()
      ensures c == null <==> key !in View().clients
      ensures c != null ==> c.fd == key && net.Has(c)
      ensures key in View().clients <==> key in Marks()
    {
      hide Distinct, AsMap, Connection.Valid, Connection.Abs;
      c := net.Find(key);
    }

    method AddProcess(pid: int, p: Proc)
      requires Wired() && pid !in View().processes
      modifies processes, processes.key, processes.data
      ensures Wired() && View() == old(View()).(processes := old(View()).processes[pid := p])
      ensures OnlyNew()
      ensures Watched() == old(Watched()) && Marks() == old(Marks())
    {
      hide Network.Valid, Distinct, AsMap;
      processes.Append(pid, p);
    }

    method RemoveProcess(pid: int)
      requires Wired()
      modifies processes, processes.key, processes.data
      ensures Wired() && View() == old(View()).(processes := old(View()).processes - {pid})
      ensures Parts() == old(Parts())
      ensures Watched() == old(Watched()) && Marks() == old(Marks())
    {
      hide Network.Valid, Distinct, AsMap;
      processes.Remove(pid);
    }

    method PushJob(job: Job)
      requires Wired()
      modifies queue, queue.data
      ensures Wired() && View() == old(View()).(queue := old(View()).queue + [job]) && OnlyNew()
      ensures Watched() == old(Watched()) && Marks() == old(Marks())
    {
      hide Network.Valid, Distinct, AsMap;
      queue.Push(job);
    }

    method PopJob() returns (job: Job)
      requires Wired() && View().queue != []
      modifies queue
      ensures Wired() && Parts() == old(Parts())
      ensures job == old(View()).queue[0] && View() == old(View()).(queue := old(View()).queue[1..])
      ensures Watched() == old(Watched()) && Marks() == old(Marks())
    {
      hide Network.Valid, Distinct, AsMap;
      job := queue.Pop();
      assert ([job] + queue.Contents())[1..] == queue.Contents();
    }

    method RemoveJobs(id: string)
      requires Wired()
      modifies queue, queue.data
      ensures Wired() && View() == old(View()).(queue := Without(old(View()).queue, id)) && OnlyNew()
      ensures Watched() == old(Watched()) && Marks() == old(Marks())
    {
      hide Network.Valid, Distinct, AsMap;
      RemoveFromQueue(queue, id);
    }

    // ---- requests ----

    ghost method SetPast(h: History)
      requires Wired() && |h.requests| == |View().past.requests|
      modifies this`past
      ensures Wired() && View() == old(View()).(past := h)
      ensures Watched() == old(Watched()) && Marks() == old(Marks())
    {
      hide Network.Valid, Distinct, AsMap;
      past := h;
    }

    /** The operating system has a new child. */
    method NewChild(pid: int, ghost t: nat)
      requires Wired()
      modifies this`os, this`past
      ensures Wired() && Watched() == old(Watched()) && Marks() == old(Marks())
      ensures View() == old(View()).(os := old(View()).os.(children := old(View()).os.children[pid := false]),
                                     past := SetFate(old(View()).past, t, RUNNING))
    {
      hide Network.Valid, Network.Conns, Network.Marks, Network.Members, Distinct, AsMap;
      os := os.(children := os.children[pid := false]);
      past := SetFate(past, t, RUNNING);
    }

    /** The part of run_request that deals with the new process. */
    method Launch(job: Job, pid: int)
      requires Wired() && pid !in View().processes
      modifies this`os, this`past, processes, processes.key, processes.data
      ensures Wired() && OnlyNew()
      ensures var proc := Proc(job.ticket, job.request.key, job.request.id);
              View() == old(View()).(processes := old(View()).processes[pid := proc],
                                     os := old(View()).os.(children := old(View()).os.children[pid := false]),
                                     past := SetFate(old(View()).past, job.ticket, RUNNING))
      ensures Watched() == old(Watched()) && Marks() == old(Marks())
    {
      hide Wired, View, Watched, Marks, SetFate;
      AddProcess(pid, Proc(job.ticket, job.request.key, job.request.id));
      NewChild(pid, job.ticket);
    }

    /** run_request, with the process id that fork yields. */
    method RunRequest(job: Job, pid: int)
      requires Wired() && job.request.Run? && pid !in View().processes
      modifies this`os, this`past, Parts()
      ensures Wired() && View() == StartJob(old(View()), job, pid) && OnlyNew()
      ensures net.table == old(net.table) && Marks() == old(Marks()) && PollList.Kept(old(Watched()), Watched(), {})
    {
      hide Wired, View;
      var c := FindClient(job.request.key);
      if c == null {
        SetPast(SetFate(View().past, job.ticket, DROPPED));
        return;
      }
      Launch(job, pid);
      Tell(c, "S;" + job.request.id + "\n");
    }

    /** kill_processes: a kill signal goes to every process of the list whose task has the identifier. */
    method KillProcesses(id: string)
      requires Wired()
      modifies this`os
      ensures Wired() && Watched() == old(Watched()) && Marks() == old(Marks()) &&
              os.(killed := old(os).killed) == old(os)
      ensures var s := old(View());
              View() == s.(os := s.os.(killed := s.os.killed + Victims(s.processes, id)))
    {
      hide Network.Valid;
      ghost var items := processes.Items();
      var i := 0;
      while i < processes.len
        invariant 0 <= i <= processes.len && os == old(os).(killed := old(os).killed + WithId(items, i, id))
      {
        assert items[i] == (processes.key[i], processes.data[i]);
        NextWithId(items, i, id);
        if processes.data[i].id == id {
          os := os.(killed := os.killed + {processes.key[i]});
        }
        i := i + 1;
      }
      AllWithId(items, id);
    }

    /** The work of handle_msg for an interrupt. */
    method Interrupt(id: string)
      requires Wired()
      modifies this`os, this`past, queue, queue.data
      ensures Wired() && View() == Interrupted(old(View()), id) && OnlyNew()
      ensures Watched() == old(Watched()) && Marks() == old(Marks())
    {
      hide Wired, View;
      ghost var s := View();
      RemoveJobs(id);
      KillProcesses(id);
      SetPast(Interrupted(s, id).past);
    }

    /** A new number for a request that is accepted. */
    method Number(request: Request) returns (t: nat)
      requires Wired()
      modifies this`accepted, this`past
      ensures Wired() && View() == Numbered(old(View()), request) && t == |old(View()).past.requests|
      ensures Watched() == old(Watched()) && Marks() == old(Marks())
    {
      hide Network.Valid, Distinct, AsMap;
      t := accepted;
      accepted := accepted + 1;
      past := past.(requests := past.requests + [request]);
    }

    /** list_length(processes) < parallel. */
    method BelowLimit() returns (below: bool)
      requires Wired()
      ensures below <==> |View().processes| < View().parallel
    {
      hide Network.Valid, Distinct, AsMap;
      MapLength(processes.Items());
      below := processes.len < parallel;
    }

    /** The work of handle_msg for a run request. */
    method AdmitRun(request: Request, pid: int)
      requires Wired() && request.Run? && pid !in View().processes
      modifies this`accepted, this`os, this`past, Parts()
      ensures Wired() && View() == Admit(old(View()), request, pid) && OnlyNew()
      ensures net.table == old(net.table) && Marks() == old(Marks()) && PollList.Kept(old(Watched()), Watched(), {})
    {
      hide Wired, View, StartJob;
      var below := BelowLimit();
      var t := Number(request);
      if below {
        RunRequest(Job(t, request), pid);
      } else {
        PushJob(Job(t, request));
        SetPast(SetFate(View().past, t, QUEUED));
      }
    }

    /** A new limit. */
    method SetLimit(n: int)
      requires Wired() && n >= 1
      modifies this`parallel, this`past
      ensures Wired() && View() == Protocol.HandleLine(old(View()), SetParallel(n), 0)
      ensures Watched() == old(Watched()) && Marks() == old(Marks())
    {
      hide Network.Valid, Network.Conns, Network.Marks, Network.Members, Distinct, AsMap;
      parallel := n;
      past := past.(highest := if n > past.highest then n else past.highest);
    }

    /** The work of handle_msg for one line of a client, with the process id that fork would yield. */
    method HandleLine(line: string, key: int, pid: int)
      requires Wired() && pid !in View().processes
      modifies this`parallel, this`accepted, this`os, this`past, Parts()
      ensures Wired() && View() == Protocol.HandleLine(old(View()), Meaning(line, key), pid) && OnlyNew()
      ensures net.table == old(net.table) && Marks() == old(Marks()) && PollList.Kept(old(Watched()), Watched(), {})
    {
      hide Wired, View, Admit, Interrupted;
      var asked := ParseRequest(line, key);
      match asked {
        case Nothing =>
        case SetParallel(n) => SetLimit(n);
        case Accepted(request) =>
          if request.Run? {
            AdmitRun(request, pid);
          } else {
            Interrupt(request.id);
          }
      }
    }

    // ---- steps of the run ----

    /** One more event of the run has taken place. */
    ghost method Record(e: Event)
      requires Wired() && this !in Parts() && |states| == |events| + 1
      requires IsRun(states, events) && Enabled(states[|events|], e) && View() == Step(states[|events|], e)
      requires Writing(Marks()) == FailedAfter(FailedWrites(events), e)
      modifies this`states, this`events
      ensures Valid() && Continues() && events == old(events) + [e] && View() == old(View())
      ensures Watched() == old(Watched()) && Marks() == old(Marks())
    {
      hide Network.Valid, Distinct, AsMap, Step, Enabled;
      ExtendRun(states, events, e);
      FailedSnoc(events, e);
      states, events := states + [View()], events + [e];
    }

    /** Whatever was promised for runs holds of the server. */
    lemma Promised()
      requires Valid()
      ensures Inv(View())
    {
      RunInv(states, events, |events|);
    }

    /** An act of the operating system. */
    method Outer(exits: bool, pid: int)
      requires Valid() && if exits then pid in os.children && !os.children[pid] else os.signal
      modifies this`os, this`states, this`events
      ensures Valid() && Continues() && Watched() == old(Watched()) && Marks() == old(Marks())
      ensures events == old(events) + [if exits then Exit(pid) else Signal]
      ensures SameButSystem(old(View()), View())
    {
      hide Network.Valid, Distinct, AsMap, IsRun, FailedWrites, Writing;
      ghost var e := if exits then Exit(pid) else Signal;
      if exits {
        os := os.(children := os.children[pid := true], signal := true);
      } else {
        os := os.(signal := false, pipe := if os.pipe < PIPE_CAPACITY then os.pipe + 1 else os.pipe);
      }
      Record(e);
    }

    /** Any number of children exit and signals arrive. */
    method Meanwhile()
      requires Valid()
      modifies this`os, this`states, this`events
      ensures Valid() && Watched() == old(Watched()) && Marks() == old(Marks())
      ensures Continues() && OuterSince(old(events), events) && SameButSystem(old(View()), View())
    {
      hide Wired, View, IsRun, Watched, Marks, FailedWrites, Writing;
      var more: nat := *;
      while more > 0
        invariant Valid() && Watched() == old(Watched()) && Marks() == old(Marks())
        invariant Continues() && OuterSince(old(events), events) && SameButSystem(old(View()), View())
      {
        var pid: int := *;
        if pid in os.children && !os.children[pid] {
          Outer(true, pid);
        } else if os.signal {
          Outer(false, 0);
        }
        more := more - 1;
      }
    }

    /** The process id that the next fork yields. */
    method NewPid() returns (pid: int)
      requires Valid()
      ensures Fresh(View(), pid) && pid !in View().processes
    {
      hide Network.Valid, Distinct, AsMap, IsRun, Tickets;
      Promised();
      FreshExists(os.children);
      pid :| pid > 0 && pid !in os.children;
    }

    // ---- scheduling ----

    /** The oldest queued request is taken and run. */
    method TakeAndRun(pid: int)
      requires Wired() && Inv(View()) && View().phase == SCHEDULING && |View().processes| < View().parallel
      requires View().queue != [] && Fresh(View(), pid) && pid !in View().processes
      modifies this`os, this`past, Parts()
      ensures Wired() && Enabled(old(View()), Schedule(pid)) && View() == Step(old(View()), Schedule(pid))
      ensures View().phase == SCHEDULING && OnlyNew() && |View().queue| == |old(View()).queue| - 1
      ensures net.table == old(net.table) && Marks() == old(Marks())
    {
      hide Wired, View, Inv, Enabled, Step, StartJob;
      ghost var s := View();
      var job := PopJob();
      QueuedRuns(s);
      ScheduleStep(s, job, pid);
      RunRequest(job, pid);
    }

    /** One round of schedule_new_jobs; children may exit before it. */
    method ScheduleOne()
      requires Valid() && View().phase == SCHEDULING && |View().processes| < View().parallel && View().queue != []
      modifies this`os, this`past, this`states, this`events, Parts()
      ensures Valid() && OnlyNew() && View().phase == SCHEDULING && |View().queue| == |old(View()).queue| - 1
      ensures Continues() && PreludeSince(old(events), events) && Marks() == old(Marks())
    {
      hide IsRun, Wired, View, Inv, Enabled, Step;
      Meanwhile();
      Promised();
      var pid := NewPid();
      TakeAndRun(pid);
      Record(Schedule(pid));
    }

    /** queue_is_empty(queue). */
    method QueueIsEmpty() returns (empty: bool)
      requires Wired()
      ensures empty <==> View().queue == []
    {
      hide Network.Valid, Distinct, AsMap;
      empty := queue.IsEmpty();
    }

    ghost method SetPhase(p: Phase)
      requires Wired()
      modifies this`phase
      ensures Wired() && View() == old(View()).(phase := p) && Watched() == old(Watched()) && Marks() == old(Marks())
    {
      hide Network.Valid, Distinct, AsMap;
      phase := p;
    }

    /** A change of phase. */
    ghost method Turn(e: Event)
      requires Valid() && Enabled(View(), e) && (e.EndSchedule? || e.Wake? || e.EndDispatch? || e.EndReap?)
      modifies this`phase, this`states, this`events
      ensures Valid() && Continues() && events == old(events) + [e] && View() == Step(old(View()), e)
      ensures Watched() == old(Watched()) && Marks() == old(Marks())
    {
      hide Wired, View, Enabled, IsRun;
      SetPhase(Step(View(), e).phase);
      Record(e);
    }

    /** schedule_new_jobs: starts queued requests, oldest first, until the queue is empty or the limit is reached;
        children may exit in between. */
    method ScheduleNewJobs()
      requires Valid() && View().phase == SCHEDULING
      modifies this, Parts()
      ensures Valid() && OnlyNew() && Continues() && PreludeSince(old(events), events) && Marks() == old(Marks())
      ensures View().phase == POLLING && (View().queue == [] || |View().processes| >= View().parallel)
    {
      hide Wired, View, IsRun, Enabled, Step, Parts, Watched, Marks, FailedWrites, Writing;
      var more := MoreToStart();
      while more
        invariant Valid() && OnlyNew() && Continues() && PreludeSince(old(events), events) && Marks() == old(Marks())
        invariant View().phase == SCHEDULING && (more <==> |View().processes| < View().parallel && View().queue != [])
        decreases |View().queue|
      {
        ScheduleOne();
        more := MoreToStart();
      }
      EndOfSchedule(View());
      Turn(EndSchedule);
    }

    method MoreToStart() returns (more: bool)
      requires Wired()
      ensures more <==> |View().processes| < View().parallel && View().queue != []
    {
      hide Wired, View;
      var below := BelowLimit();
      var empty := QueueIsEmpty();
      more := below && !empty;
    }

    // ---- children ----

    /** wait3 without hanging: the process id of a child that has exited, or 0 if there is none. */
    method Wait() returns (pid: int)
      requires Valid()
      modifies this`os, this`states, this`events
      ensures Valid() && Watched() == old(Watched()) && Marks() == old(Marks())
      ensures Continues() && OuterSince(old(events), events) && SameButSystem(old(View()), View())
      ensures if pid == 0 then NoneExited(View()) else Exited(View(), pid)
    {
      hide IsRun, Inv;
      Meanwhile();
      if p :| p in os.children && p != 0 && os.children[p] {
        pid := p;
      } else {
        pid := 0;
        ZeroIsNoChild();
      }
    }

    /** No child has process id 0. */
    lemma ZeroIsNoChild()
      requires Valid()
      ensures 0 !in os.children
    {
      PositivePids(states, events, |events|);
    }

    /** list_lookup and list_remove on the process list: the lookup finds the child. */
    method TakeProcess(pid: int) returns (p: Proc)
      requires Wired() && pid in View().processes
      modifies processes, processes.key, processes.data
      ensures Wired() && Parts() == old(Parts()) && Watched() == old(Watched()) && Marks() == old(Marks())
      ensures p == old(View()).processes[pid] && View() == old(View()).(processes := old(View()).processes - {pid})
    {
      hide Network.Valid, Distinct, AsMap;
      var r := processes.Find(pid);
      p := r.value;
      RemoveProcess(pid);
    }

    /** The operating system forgets a child that was waited for. */
    method Forget(pid: int, ghost t: nat)
      requires Wired()
      modifies this`os, this`past
      ensures Wired() && Watched() == old(Watched()) && Marks() == old(Marks())
      ensures View() == old(View()).(os := old(View()).os.(children := old(View()).os.children - {pid},
                                                           killed := old(View()).os.killed - {pid}),
                                     past := SetFate(old(View()).past, t, REAPED))
    {
      hide Network.Valid, Distinct, AsMap;
      os := os.(children := os.children - {pid}, killed := os.killed - {pid});
      past := SetFate(past, t, REAPED);
    }

    /** The work of handle_child_events for one child. */
    method ReapOne(pid: int, detail: string)
      requires Wired() && pid in View().processes
      modifies this`os, this`past, Parts()
      ensures Wired() && View() == ReapChild(old(View()), pid, detail) && OnlyNew()
      ensures net.table == old(net.table) && Marks() == old(Marks()) && PollList.Kept(old(Watched()), Watched(), {})
    {
      hide Wired, View;
      var child := TakeProcess(pid);
      Forget(pid, child.ticket);
      var c := FindClient(child.key);
      if c != null {
        Tell(c, "F;" + child.id + ";" + detail + "\n");
      }
    }

    /** One round of handle_child_events: the child is in the process list, and is taken off it. */
    method ReapNext(pid: int, detail: string)
      requires Valid() && View().phase == REAPING && Exited(View(), pid)
      modifies this`os, this`past, this`states, this`events, Parts()
      ensures Valid() && OnlyNew() && Continues() && events == old(events) + [Reap(pid, detail)]
      ensures Reaped(old(View()), View(), pid)
      ensures net.table == old(net.table) && Marks() == old(Marks()) && PollList.Kept(old(Watched()), Watched(), {})
    {
      hide Wired, View, IsRun, Inv, Enabled, Step, ReapChild;
      Promised();
      ReapStep(View(), pid, detail);
      ReapOne(pid, detail);
      Record(Reap(pid, detail));
    }

    /** The loop of handle_child_events: one exited child after the other; others may exit between two rounds. */
    method ReapAll()
      requires Valid() && View().phase == REAPING
      modifies this`os, this`past, this`states, this`events, Parts()
      ensures Valid() && OnlyNew() && Continues() && ReapsSince(old(events), events)
      ensures Reaping(old(View()), View()) && NoneExited(View())
      ensures net.table == old(net.table) && Marks() == old(Marks()) && PollList.Kept(old(Watched()), Watched(), {})
    {
      hide Wired, View, IsRun, PollList.Kept, Watched, Marks, FailedWrites, Writing, Parts;
      PollList.KeptSelf(Watched(), {});
      var pid := Wait();
      while pid != 0
        invariant Valid() && OnlyNew() && Continues() && ReapsSince(old(events), events)
        invariant Reaping(old(View()), View())
        invariant if pid == 0 then NoneExited(View()) else Exited(View(), pid)
        invariant net.table == old(net.table) && Marks() == old(Marks()) && PollList.Kept(old(Watched()), Watched(), {})
        decreases |View().processes|
      {
        var detail: string := *;
        ghost var watched := Watched();
        ReapNext(pid, detail);
        PollList.KeptTwice(old(Watched()), watched, Watched(), {});
        pid := Wait();
      }
    }

    /** handle_child_events: every child that had exited is waited for and taken off the process list. */
    method HandleChildEvents()
      requires Valid() && View().phase == REAPING
      modifies this`os, this`past, this`phase, this`states, this`events, Parts()
      ensures Valid() && OnlyNew() && Continues() && View().phase == DISPATCHING
      ensures |events| > |old(events)| && events[|events| - 1] == EndReap
      ensures ReapsSince(old(events), events[..|events| - 1])
      ensures forall p :: Exited(old(View()), p) ==> p !in View().processes
      ensures View().os.pipe >= old(View()).os.pipe
      ensures net.table == old(net.table) && Marks() == old(Marks()) && PollList.Kept(old(Watched()), Watched(), {})
    {
      hide Wired, View, IsRun, Inv, Enabled, Step, PollList.Kept, Watched, Marks, FailedWrites, Writing, Parts;
      ReapAll();
      Promised();
      EndOfReaping(old(View()), View());
      ghost var reaped := events;
      Turn(EndReap);
      assert events[..|events| - 1] == reaped;
    }

    // ---- clients ----

    method AddClient(fd: int)
      requires Wired() && fd !in View().clients && fd != PollList.MARK && fd != net.sock && fd != net.pipe
      modifies net.Repr
      ensures Wired() && OnlyNew()
      ensures Watched() == old(Watched()) + [PollList.PollFd(fd, false, PollList.IDLE)]
      ensures View() == old(View()).(clients := old(View()).clients[fd := Client("", "", [])])
      ensures Marks() == old(Marks())[fd := Mark(0, false)]
    {
      hide Network.Valid, Network.Conns, Network.Marks, Network.Members, Distinct, AsMap;
      net.Accept(fd, parallel);
    }

    /** server_accept_client, with the descriptor that accept yields. */
    method AcceptClient(fd: int)
      requires Valid() && View().phase == DISPATCHING
      requires fd !in View().clients && fd != PollList.MARK && fd != net.sock && fd != net.pipe
      modifies this`states, this`events, net.Repr
      ensures Valid() && OnlyNew()
      ensures Watched() == old(Watched()) + [PollList.PollFd(fd, false, PollList.IDLE)]
      ensures Continues() && events == old(events) + [Accept(fd)] && View() == Step(old(View()), Accept(fd))
      ensures Marks() == old(Marks())[fd := Mark(0, false)]
    {
      hide Wired, View, IsRun, Writing;
      WritingAccept(Marks(), fd);
      AddClient(fd);
      Record(Accept(fd));
    }

    method DropClient(c: Connection)
      requires Wired() && net.Has(c)
      modifies net.Repr
      ensures Wired() && Parts() == old(Parts()) && PollList.Kept(old(Watched()), Watched(), {c.fd})
      ensures c.fd in old(View()).clients && View() == old(View()).(clients := old(View()).clients - {c.fd})
      ensures Marks() == old(Marks()) - {c.fd}
    {
      hide Network.Valid, Network.Marks, Network.Members, Distinct, AsMap;
      net.Close(c);
    }

    /** close_client. */
    method CloseClient(c: Connection)
      requires Valid() && View().phase == DISPATCHING && net.Has(c)
      modifies this`states, this`events, net.Repr
      ensures Valid() && Parts() == old(Parts()) && PollList.Kept(old(Watched()), Watched(), {c.fd})
      ensures Continues() && events == old(events) + [Close(c.fd)] && View() == Step(old(View()), Close(c.fd))
      ensures Marks() == old(Marks()) - {c.fd}
    {
      hide Wired, View, IsRun, Writing;
      WritingAccept(Marks(), c.fd);
      DropClient(c);
      Record(Close(c.fd));
    }

    method Put(c: Connection, i: int, n: nat) returns (k: nat)
      requires Wired() && net.Has(c) && 0 <= i < |Watched()| && Watched()[i].fd == c.fd && c.writebuf.CanWrite()
      requires c.fd in View().clients && View().clients[c.fd].pending != []
      modifies net.Repr
      ensures Wired() && Parts() == old(Parts()) && PollList.Kept(old(Watched()), Watched(), {c.fd})
      ensures k == Smaller(n, |old(View()).clients[c.fd].pending[0]|) && Marks() == old(Marks())
      ensures View() == old(View()).(clients := old(View()).clients[c.fd := Wrote(old(View()).clients[c.fd], k)])
    {
      hide Network.Valid, Network.Conns, Network.Marks, Network.Members, Distinct, AsMap;
      k := net.WriteToClient(c, i, n);
    }

    /** write_to_client for the entry at place i, with a write of n bytes of the current message or all of it. */
    method WriteToClient(c: Connection, i: int, n: nat)
      requires Valid() && View().phase == DISPATCHING && net.Has(c) && c.writebuf.CanWrite()
      requires 0 <= i < |Watched()| && Watched()[i].fd == c.fd
      requires c.fd in View().clients && View().clients[c.fd].pending != []
      modifies this`states, this`events, net.Repr
      ensures Valid() && Parts() == old(Parts()) && PollList.Kept(old(Watched()), Watched(), {c.fd}) &&
              Marks() == old(Marks())
      ensures var e := Write(c.fd, Smaller(n, |old(View()).clients[c.fd].pending[0]|));
              Continues() && events == old(events) + [e] && View() == Step(old(View()), e)
    {
      hide Wired, View, IsRun;
      var k := Put(c, i, n);
      Record(Write(c.fd, k));
    }

    method PutFails(c: Connection)
      requires Wired() && net.Has(c) && c.writebuf.CanWrite()
      requires c.fd in View().clients && View().clients[c.fd].pending != []
      modifies net.Repr
      ensures Wired() && Parts() == old(Parts()) && View() == old(View()) && Watched() == old(Watched())
      ensures net.table == old(net.table)
      ensures c.fd in old(Marks()) && Marks() == old(Marks())[c.fd := old(Marks())[c.fd].(writing := true)]
    {
      hide Network.Valid, Network.Conns, Network.Members, Distinct, AsMap;
      net.WriteFails(c);
    }

    /** write_to_client with a write that fails. */
    method WriteFails(c: Connection)
      requires Valid() && View().phase == DISPATCHING && net.Has(c) && c.writebuf.CanWrite()
      requires c.fd in View().clients && View().clients[c.fd].pending != []
      modifies this`states, this`events, net.Repr
      ensures Valid() && Parts() == old(Parts()) && View() == old(View()) && Watched() == old(Watched())
      ensures Continues() && events == old(events) + [WriteError(c.fd)] && net.table == old(net.table)
      ensures c.fd in old(Marks()) && Marks() == old(Marks())[c.fd := old(Marks())[c.fd].(writing := true)]
    {
      hide Wired, View, IsRun;
      WritingFailed(Marks(), c.fd);
      PutFails(c);
      Record(WriteError(c.fd));
    }

    ghost method Pass(c: Connection)
      requires Wired() && net.Has(c) && c.fd in View().clients && c.fd in Marks() &&
               HasLine(View().clients[c.fd].unread)
      modifies net.Repr
      ensures net.table == old(net.table)
      ensures Wired() && Parts() == old(Parts()) && View() == LineTaken(old(View()), c.fd) &&
              Watched() == old(Watched())
      ensures Marks() == old(Marks())[c.fd := Onward(old(Marks())[c.fd], old(View()).clients[c.fd].unread)]
    {
      hide Network.Conns, Network.Marks, Network.Members, Distinct, AsMap, LineEnd;
      net.Pass(c);
    }

    /** The line is passed and handled. */
    method PassAndHandle(c: Connection, line: string, pid: int)
      requires Wired() && View().phase == DISPATCHING && net.Has(c) && c.fd in View().clients && c.fd in Marks()
      requires HasLine(View().clients[c.fd].unread) && line == FirstLine(View().clients[c.fd].unread)
      requires Fresh(View(), pid) && pid !in View().processes
      modifies this`parallel, this`accepted, this`os, this`past, Parts()
      ensures var e := Line(c.fd, Meaning(line, c.fd), pid);
              Wired() && OnlyNew() && Enabled(old(View()), e) && View() == Step(old(View()), e)
      ensures Marks() == old(Marks())[c.fd := Onward(old(Marks())[c.fd], old(View()).clients[c.fd].unread)]
      ensures net.table == old(net.table) && PollList.Kept(old(Watched()), Watched(), {})
    {
      hide Wired, View, Enabled, Step, Meaning, LineEnd, Onward, Protocol.HandleLine;
      LineStep(View(), c.fd, Meaning(line, c.fd), pid);
      Pass(c);
      HandleLine(line, c.fd, pid);
    }

    /** One line of handle_msg; children may exit before it. */
    method OneLine(c: Connection, line: string)
      requires Valid() && View().phase == DISPATCHING && net.Has(c) && c.fd in View().clients && c.fd in Marks()
      requires HasLine(View().clients[c.fd].unread) && line == FirstLine(View().clients[c.fd].unread)
      modifies this`parallel, this`accepted, this`os, this`past, this`states, this`events, Parts()
      ensures Valid() && OnlyNew() && Continues()
      ensures LineSince(old(events), events, c.fd, Meaning(line, c.fd)) && View().phase == DISPATCHING
      ensures c.fd in View().clients && View().clients[c.fd].unread == AfterLine(old(View()).clients[c.fd].unread)
      ensures Marks() == old(Marks())[c.fd := Onward(old(Marks())[c.fd], old(View()).clients[c.fd].unread)]
      ensures net.table == old(net.table) && View().os.pipe >= old(View()).os.pipe
      ensures PollList.Kept(old(Watched()), Watched(), {})
    {
      hide Wired, View, IsRun, Enabled, Step, Meaning, LineEnd, Onward, Writing, Watched, Marks, FailedWrites;
      Meanwhile();
      var pid := NewPid();
      LineStep(View(), c.fd, Meaning(line, c.fd), pid);
      WritingOnward(Marks(), c.fd, View().clients[c.fd].unread);
      PassAndHandle(c, line, pid);
      Record(Line(c.fd, Meaning(line, c.fd), pid));
    }

    method FindLine(c: Connection, start: int, max: int) returns (cur: int, line: string)
      requires Wired() && net.Has(c) && c.fd in View().clients && c.fd in Marks()
      requires start == Marks()[c.fd].passed && max == start + |View().clients[c.fd].unread|
      ensures var text := View().clients[c.fd].unread;
              if HasLine(text) then line == FirstLine(text) && cur == start + LineEnd(text) else cur == max
    {
      hide Network.Valid, Network.Conns, Network.Marks, Network.Members, Distinct, AsMap, LineEnd;
      cur, line := net.NextLine(c, start, max);
    }

    method BufferLength(c: Connection) returns (n: int)
      requires Wired() && net.Has(c) && c.fd in View().clients && c.fd in Marks() && Marks()[c.fd].passed == 0
      ensures n == |View().clients[c.fd].unread|
    {
      hide Network.Valid, Network.Conns, Network.Marks, Network.Members, Distinct, AsMap;
      n := net.Length(c);
    }

    method DropLines(c: Connection, size: int)
      requires Valid() && net.Has(c) && c.fd in Marks() && size == Marks()[c.fd].passed
      modifies net.Repr
      ensures Valid() && Parts() == old(Parts()) && View() == old(View()) && Watched() == old(Watched())
      ensures net.table == old(net.table) && Marks() == old(Marks())[c.fd := old(Marks())[c.fd].(passed := 0)]
    {
      hide Network.Valid, Network.Conns, Network.Marks, Network.Members, Distinct, AsMap, IsRun, Writing;
      WritingPassed(Marks(), c.fd, 0);
      net.DropPassed(c, size);
    }

    /** The loop of handle_msg is at the line that starts at this place. */
    ghost predicate Reading(c: Connection, text: string, lines: seq<string>, start: nat, max: int, before: seq<Event>,
                            marks: map<int, Mark>)
      requires Wired()
      reads this, c, net, net.Repr, queue, queue.data, processes, processes.key, processes.data
    {
      && net.Has(c) && View().phase == DISPATCHING && c.fd in View().clients && c.fd in Marks()
      && c.fd in marks && Marks() == marks[c.fd := marks[c.fd].(passed := start)]
      && max == start + |View().clients[c.fd].unread|
      && Taken(text, lines, View().clients[c.fd].unread) && LinesSince(before, events, c.fd)
      && MeaningsOf(Asked(events, |before|, |events|, c.fd), lines, c.fd)
    }

    /** The inner loop of handle_msg. */
    method FindNext(c: Connection, start: nat, max: int, ghost text: string, ghost lines: seq<string>,
                    ghost before: seq<Event>, ghost marks: map<int, Mark>)
        returns (cur: int, line: string)
      requires Wired() && Reading(c, text, lines, start, max, before, marks)
      ensures c.fd in View().clients && start <= cur <= max && (cur < max <==> HasLine(View().clients[c.fd].unread))
      ensures cur < max ==>
                line == FirstLine(View().clients[c.fd].unread) && cur == start + LineEnd(View().clients[c.fd].unread)
    {
      hide Wired, View, Taken, MeaningsOf, Asked;
      cur, line := FindLine(c, start, max);
    }

    /** One round of the outer loop of handle_msg. */
    method ScanOne(c: Connection, line: string, start: nat, max: int, ghost text: string, ghost lines: seq<string>,
                   ghost before: seq<Event>, ghost marks: map<int, Mark>)
        returns (ghost more: seq<string>)
      requires Valid() && Reading(c, text, lines, start, max, before, marks)
      requires HasLine(View().clients[c.fd].unread) && line == FirstLine(View().clients[c.fd].unread)
      modifies this`parallel, this`accepted, this`os, this`past, this`states, this`events, Parts()
      ensures Valid() && OnlyNew() && Continues()
      ensures Reading(c, text, more, start + LineEnd(old(View()).clients[c.fd].unread) + 1, max, before, marks)
      ensures net.table == old(net.table) && View().os.pipe >= old(View()).os.pipe
      ensures PollList.Kept(old(Watched()), Watched(), {})
    {
      hide Wired, View, Parts, OnlyNew, IsRun, Meaning, LineEnd, Taken, MeaningsOf, Asked, LineSince, Onward;
      hide PollList.Kept, Continues;
      ghost var rest := View().clients[c.fd].unread;
      MarkOnward(marks, c.fd, start, rest);
      more := lines + [line];
      OneLine(c, line);
      TakenLine(text, lines, rest);
      LineCounted(old(events), events, |before|, c.fd, line, lines);
    }

    /** The outer loop of handle_msg, which handles every complete line. */
    method ScanLoop(c: Connection, max: int, ghost text: string, ghost marks: map<int, Mark>)
        returns (start: nat, ghost lines: seq<string>)
      requires Valid() && Reading(c, text, [], 0, max, events, marks)
      modifies this`parallel, this`accepted, this`os, this`past, this`states, this`events, Parts()
      ensures Valid() && OnlyNew() && Continues()
      ensures Reading(c, text, lines, start, max, old(events), marks) && !HasLine(View().clients[c.fd].unread)
      ensures net.table == old(net.table) && View().os.pipe >= old(View()).os.pipe
      ensures PollList.Kept(old(Watched()), Watched(), {})
    {
      hide Wired, View, IsRun, Reading, HasLine, LineEnd, PollList.Kept, Parts;
      lines := [];
      PollList.KeptSelf(Watched(), {});
      var cur := 0;
      start := 0;
      while cur < max
        invariant Valid() && OnlyNew() && Continues()
        invariant Reading(c, text, lines, start, max, old(events), marks) && cur == start
        invariant net.table == old(net.table) && View().os.pipe >= old(View()).os.pipe
        invariant PollList.Kept(old(Watched()), Watched(), {})
      {
        var line;
        cur, line := FindNext(c, start, max, text, lines, old(events), marks);
        if cur == max {
          break;
        }
        ghost var watched := Watched();
        lines := ScanOne(c, line, start, max, text, lines, old(events), marks);
        PollList.KeptTwice(old(Watched()), watched, Watched(), {});
        cur := cur + 1;
        start := cur;
      }
      AtTheEnd(c, start, max, text, lines, old(events), marks);
    }

    lemma AtTheEnd(c: Connection, start: nat, max: int, text: string, lines: seq<string>, before: seq<Event>,
                   marks: map<int, Mark>)
      requires Wired() && Reading(c, text, lines, start, max, before, marks)
      ensures c.fd in View().clients && (max <= start ==> !HasLine(View().clients[c.fd].unread))
    {
    }

    /** handle_msg: the complete lines of the buffer are handled in order, each once, and then dropped. */
    method HandleMsg(c: Connection)
      requires Valid() && View().phase == DISPATCHING && net.Has(c) && c.fd in View().clients
      requires c.fd in Marks() && Marks()[c.fd].passed == 0
      modifies this`parallel, this`accepted, this`os, this`past, this`states, this`events, Parts()
      ensures Valid() && OnlyNew() && View().phase == DISPATCHING && Continues() &&
              LinesSince(old(events), events, c.fd)
      ensures MeaningsOf(Asked(events, |old(events)|, |events|, c.fd), Lines(old(View()).clients[c.fd].unread), c.fd)
      ensures c.fd in View().clients && View().clients[c.fd].unread == Tail(old(View()).clients[c.fd].unread)
      ensures net.table == old(net.table) && Marks() == old(Marks())
      ensures View().os.pipe >= old(View()).os.pipe && PollList.Kept(old(Watched()), Watched(), {})
    {
      hide Wired, View, IsRun, LineEnd, Taken, MeaningsOf, Asked, PollList.Kept, Lines, Tail, Marks, Watched;
      ghost var text, marks := View().clients[c.fd].unread, Marks();
      NothingRead(events, text, c.fd);
      SameMark(marks, c.fd);
      var max := BufferLength(c);
      var start, lines := ScanLoop(c, max, text, marks);
      AllRead(text, lines, View().clients[c.fd].unread);
      if start > 0 {
        DropLines(c, start);
      }
    }

    method Feed(c: Connection, chunk: string)
      requires Wired() && net.Has(c) && c.fd in View().clients && c.fd in Marks() && Marks()[c.fd].passed == 0
      requires |chunk| <= READ_ONCE
      modifies Parts()
      ensures Wired() && OnlyNew() && net.table == old(net.table)
      ensures View() == old(View()).(clients := old(View()).clients[c.fd := Fed(old(View()).clients[c.fd], chunk)])
      ensures Watched() == old(Watched()) && Marks() == old(Marks())
    {
      hide Network.Valid, Network.Conns, Network.Marks, Network.Members, Distinct, AsMap;
      net.Receive(c, chunk);
    }

    /** Bytes arrive for a client. */
    method TakeIn(c: Connection, chunk: string)
      requires Valid() && View().phase == DISPATCHING && net.Has(c) && c.fd in View().clients
      requires c.fd in Marks() && Marks()[c.fd].passed == 0 && |chunk| <= READ_ONCE
      modifies this`states, this`events, Parts()
      ensures Valid() && OnlyNew() && Continues() && events == old(events) + [Receive(c.fd, chunk)]
      ensures View() == old(View()).(clients := old(View()).clients[c.fd := Fed(old(View()).clients[c.fd], chunk)])
      ensures net.table == old(net.table) && Watched() == old(Watched()) && Marks() == old(Marks())
    {
      hide Wired, View, IsRun, Enabled, Step;
      ReceiveStep(View(), c.fd, chunk);
      Feed(c, chunk);
      Record(Receive(c.fd, chunk));
    }

    /** The part of read_on_client for bytes that have arrived. */
    method FeedAndHandle(c: Connection, ghost input: Input, chunk: string)
      requires Valid() && View().phase == DISPATCHING && net.Has(c) && c.fd in View().clients
      requires c.fd in Marks() && Marks()[c.fd].passed == 0
      requires chunk == input.chunk != "" && !input.failed && |chunk| <= READ_ONCE
      modifies this`parallel, this`accepted, this`os, this`past, this`states, this`events, Parts()
      ensures Valid() && OnlyNew() && View().phase == DISPATCHING && Continues()
      ensures ReadEvents(old(View()).clients[c.fd], events[|old(events)|..], c.fd, input)
      ensures c.fd in View().clients && View().clients[c.fd].unread == Tail(old(View()).clients[c.fd].unread + chunk)
      ensures net.table == old(net.table) && Marks() == old(Marks())
      ensures View().os.pipe >= old(View()).os.pipe && PollList.Kept(old(Watched()), Watched(), {})
    {
      hide Parts, Wired, View, IsRun, LineEnd, MeaningsOf, Asked, PollList.Kept, Lines, Tail, ReadEvents, LinesSince;
      TakeIn(c, chunk);
      ghost var middle := events;
      HandleMsg(c);
      ReadDone(old(events), middle, events, old(View()).clients[c.fd], c.fd, input);
    }

    /** No client is in the middle of handle_msg. */
    ghost predicate AtRest()
      requires Wired()
      reads this, net, net.Repr, queue, queue.data, processes, processes.key, processes.data
    {
      forall fd :: fd in Marks() ==> Marks()[fd].passed == 0
    }

    /** read_on_client: an error is ignored, an end of file closes, bytes are handled. */
    method ReadOnClient(c: Connection, input: Input)
      requires Valid() && AtRest() && View().phase == DISPATCHING
      requires net.Has(c) && c.fd in View().clients && c.fd in Marks() && |input.chunk| <= READ_ONCE
      modifies this`parallel, this`accepted, this`os, this`past, this`states, this`events, Parts()
      ensures Valid() && AtRest() && OnlyNew() && View().phase == DISPATCHING && Continues()
      ensures ReadEvents(old(View()).clients[c.fd], events[|old(events)|..], c.fd, input)
      ensures input.failed ==> events == old(events)
      ensures !input.failed && input.chunk == "" ==> events == old(events) + [Close(c.fd)]
      ensures !input.failed && input.chunk != "" ==>
                && c.fd in View().clients
                && View().clients[c.fd].unread == Tail(old(View()).clients[c.fd].unread + input.chunk)
      ensures View().os.pipe >= old(View()).os.pipe && PollList.Kept(old(Watched()), Watched(), {c.fd})
    {
      hide Wired, View, IsRun, LineEnd, MeaningsOf, Asked, PollList.Kept, Lines, Tail;
      PollList.KeptSelf(Watched(), {c.fd});
      if input.failed {
        return;
      }
      if input.chunk == "" {
        CloseClient(c);
        return;
      }
      hide ReadEvents;
      FeedAndHandle(c, input, input.chunk);
    }

    // ---- the main loop ----

    /** can_write(client->writebuf). */
    method IsFree(c: Connection) returns (free: bool)
      requires Valid() && net.Has(c)
      ensures free == c.writebuf.CanWrite() && (free <==> c.fd !in FailedWrites(events))
    {
      hide Connection.Valid, Distinct, AsMap, IsRun, FailedWrites;
      free := c.writebuf.CanWrite();
      assert Marks()[c.fd] == c.State();
    }

    /** The output part of the main loop for a client. */
    method ServeOutput(c: Connection, i: int, wrote: int)
      requires Valid() && View().phase == DISPATCHING && net.Has(c) && c.writebuf.CanWrite()
      requires 0 <= i < |Watched()| && Watched()[i].fd == c.fd
      requires c.fd in View().clients && View().clients[c.fd].pending != []
      modifies this`states, this`events, net.Repr
      ensures Valid() && OnlyNew() && View().phase == DISPATCHING && Continues()
      ensures events == old(events) + [if wrote < 0 then WriteError(c.fd)
                                       else Write(c.fd, Smaller(wrote, |old(View()).clients[c.fd].pending[0]|))]
      ensures View().os == old(View()).os && PollList.Kept(old(Watched()), Watched(), {c.fd})
      ensures Marks().Keys == old(Marks()).Keys
      ensures forall f :: f in Marks() ==> Marks()[f].passed == old(Marks())[f].passed
    {
      hide Wired, View, IsRun, PollList.Kept, Step;
      PollList.KeptSelf(Watched(), {c.fd});
      if wrote < 0 {
        WriteFails(c);
      } else {
        WriteEffect(View(), c.fd, Smaller(wrote, |View().clients[c.fd].pending[0]|));
        WriteToClient(c, i, wrote);
      }
    }

    /** What the main loop does for a client with a report. It stops, at the assertion of prepare_write, if and only if
        the client is to be written to and an earlier write to it has failed. */
    method ServeClient(c: Connection, i: int, report: PollList.Ready, input: Input) returns (ok: bool)
      requires Valid() && AtRest() && View().phase == DISPATCHING
      requires net.Has(c) && c.fd in View().clients && c.fd in Marks() && |input.chunk| <= READ_ONCE
      requires 0 <= i < |Watched()| && Watched()[i].fd == c.fd
      requires report.output ==> View().clients[c.fd].pending != []
      modifies this`parallel, this`accepted, this`os, this`past, this`states, this`events, Parts()
      ensures Valid() && AtRest() && OnlyNew() && View().phase == DISPATCHING && Continues()
      ensures !ok <==> !report.error && report.output && c.fd in FailedWrites(old(events))
      ensures ok ==> ClientEvents(old(View()).clients[c.fd], events[|old(events)|..], c.fd, report, input)
      ensures report.error ==> events == old(events) + [Close(c.fd)]
      ensures ok && !report.error && report.output ==>
                events == old(events) + [if input.wrote < 0 then WriteError(c.fd)
                                         else Write(c.fd, Smaller(input.wrote, |old(View()).clients[c.fd].pending[0]|))]
      ensures !ok ==> events == old(events)
      ensures View().os.pipe >= old(View()).os.pipe && PollList.Kept(old(Watched()), Watched(), {c.fd})
    {
      hide Wired, View, IsRun, PollList.Kept, ReadEvents, Step, FailedWrites;
      PollList.KeptSelf(Watched(), {c.fd});
      ok := true;
      if report.error {
        CloseEffect(View(), c.fd);
        CloseClient(c);
      } else if report.output {
        ok := IsFree(c);
        if ok {
          ServeOutput(c, i, input.wrote);
        }
      } else if report.input {
        ReadOnClient(c, input);
      }
    }

    /** The entry at place i of the poll list, and whose it is. */
    method EntryAt(i: int) returns (e: PollList.PollFd)
      requires Wired() && 0 <= i < |Watched()|
      ensures e == Watched()[i] && PollList.Once(Watched())
      ensures net.pipe != PollList.MARK && net.sock != PollList.MARK && net.sock != net.pipe
      ensures e.fd == PollList.MARK || e.fd == net.sock || e.fd == net.pipe || e.fd in View().clients
      ensures e.fd in View().clients && e.fd != PollList.MARK ==> (e.out <==> View().clients[e.fd].pending != [])
    {
      hide Network.Conns, Network.Members, Distinct, AsMap, PollList.Flags, Wanted;
      if net.poll.Entries()[i].fd != PollList.MARK { net.EntryOwner(i); }
      e := net.poll.data[i];
    }

    /** The read of one byte from the pipe. */
    method ReadByte()
      requires Valid() && View().phase == DISPATCHING && View().os.pipe > 0
      modifies this`os, this`phase, this`states, this`events
      ensures Valid() && Continues() && events == old(events) + [ReadPipe] && View().phase == REAPING
      ensures View().os == old(View()).os.(pipe := old(View()).os.pipe - 1)
      ensures Watched() == old(Watched()) && Marks() == old(Marks())
    {
      hide Network.Valid, Distinct, AsMap, IsRun;
      os := os.(pipe := os.pipe - 1);
      phase := REAPING;
      Record(ReadPipe);
    }

    /** What the main loop does for the listening socket; accept never yields a descriptor that is in use. */
    method ServeSocket(fd: int)
      requires Valid() && AtRest() && View().phase == DISPATCHING
      modifies this`states, this`events, net.Repr
      ensures Valid() && AtRest() && OnlyNew() && View().phase == DISPATCHING && Continues()
      ensures var yes := fd !in old(View()).clients && fd != PollList.MARK && fd != net.sock && fd != net.pipe;
              && events == old(events) + (if yes then [Accept(fd)] else [])
              && Watched() == old(Watched()) + (if yes then [PollList.PollFd(fd, false, PollList.IDLE)] else [])
      ensures View().os == old(View()).os
    {
      hide Wired, View, IsRun;
      var c := FindClient(fd);
      if c == null && fd != PollList.MARK && fd != net.sock && fd != net.pipe {
        AcceptClient(fd);
      }
    }

    /** What the main loop does for a byte in the pipe: every child that has exited is waited for. */
    method ServePipe()
      requires Valid() && AtRest() && View().phase == DISPATCHING && View().os.pipe > 0
      modifies this`os, this`past, this`phase, this`states, this`events, Parts()
      ensures Valid() && AtRest() && OnlyNew() && View().phase == DISPATCHING && Continues()
      ensures ReapEvents(events[|old(events)|..])
      ensures |events| > |old(events)| && events[|old(events)|] == ReadPipe && events[|events| - 1] == EndReap
      ensures forall p :: Exited(old(View()), p) ==> p !in View().processes
      ensures PollList.Kept(old(Watched()), Watched(), {})
    {
      hide Wired, View, IsRun, PollList.Kept, Watched, Marks, FailedWrites, Writing, Parts;
      ReadByte();
      HandleChildEvents();
    }

    /** A report that is not the listening socket's. */
    method ServeOther(i: nat, e: PollList.PollFd, input: Input) returns (ok: bool)
      requires Valid() && AtRest() && View().phase == DISPATCHING && |input.chunk| <= READ_ONCE
      requires i < |Watched()| && e == Watched()[i] && e.revents != PollList.IDLE
      requires PollList.CanServe(e, net.pipe, View().os.pipe) && e.fd != net.sock && net.pipe != PollList.MARK
      requires e.fd == net.pipe || (e.fd in View().clients && (e.out <==> View().clients[e.fd].pending != []))
      modifies this`parallel, this`accepted, this`os, this`past, this`phase, this`states, this`events, Parts()
      ensures Valid() && AtRest() && OnlyNew() && View().phase == DISPATCHING && Continues()
      ensures !ok <==> Stops(e, FailedWrites(old(events)), net.sock, net.pipe)
      ensures ok ==> EntryEvents(old(View()), events[|old(events)|..], e, input, net.sock, net.pipe)
      ensures !ok ==> events == old(events)
      ensures PollList.Kept(old(Watched()), Watched(), {e.fd})
      ensures View().os.pipe >= old(View()).os.pipe || e.fd == net.pipe
    {
      hide Wired, View, IsRun, PollList.Kept, FailedWrites, ClientEvents, ReapEvents;
      PollList.KeptSelf(Watched(), {e.fd});
      if e.fd == net.pipe {
        ok := true;
        ServePipe();
      } else {
        var c := FindClient(e.fd);
        ok := ServeClient(c, i, e.revents, input);
      }
    }

    /** One round of the loop over the poll list: the report of the entry, if there is one, is acted on. */
    method ServeEntry(i: nat, input: Input) returns (ok: bool)
      requires Valid() && AtRest() && View().phase == DISPATCHING && |input.chunk| <= READ_ONCE
      requires i < |Watched()| && PollList.CanServe(Watched()[i], net.pipe, View().os.pipe)
      modifies this`parallel, this`accepted, this`os, this`past, this`phase, this`states, this`events, Parts()
      ensures Valid() && AtRest() && OnlyNew() && View().phase == DISPATCHING && Continues()
      ensures !ok <==> Stops(old(Watched())[i], FailedWrites(old(events)), net.sock, net.pipe)
      ensures ok ==> EntryEvents(old(View()), events[|old(events)|..], old(Watched())[i], input, net.sock, net.pipe)
      ensures !ok ==> events == old(events)
      ensures PollList.Once(old(Watched())) && NextList(old(Watched()), Watched(), i)
      ensures View().os.pipe >= old(View()).os.pipe || old(Watched())[i].fd == net.pipe
    {
      hide Wired, View, IsRun, PollList.Kept, PollList.Once, FailedWrites, ClientEvents, ReapEvents;
      ok := true;
      var e := EntryAt(i);
      if e.revents != PollList.IDLE {
        if e.fd == net.sock {
          ServeSocket(input.fd);
        } else {
          ok := ServeOther(i, e, input);
        }
      }
    }

    /** poll_list_clean. */
    method CleanList()
      requires Valid()
      modifies net.Repr
      ensures Valid() && Continues() && events == old(events)
      ensures Parts() == old(Parts()) && View() == old(View()) && Marks() == old(Marks())
      ensures forall j :: 0 <= j < |Watched()| ==> Watched()[j].fd != PollList.MARK
    {
      hide Network.Valid, Network.Conns, Network.Marks, Network.Members, Distinct, AsMap, IsRun;
      net.Clean();
      forall j | 0 <= j < |Watched()| ensures Watched()[j].fd != PollList.MARK { assert Watched()[j] in Watched(); }
    }

    /** What poll reports: anything, except that the pipe is readable exactly if there are bytes in it. */
    method Reports(answers: int -> PollList.Ready) returns (rs: seq<PollList.Ready>)
      requires Wired()
      ensures |rs| == |Watched()|
      ensures forall j :: 0 <= j < |rs| ==>
                rs[j] == if Watched()[j].fd == net.pipe then PollList.Ready(false, false, View().os.pipe > 0)
                         else answers(j)
    {
      rs := [];
      var j := 0;
      while j < net.poll.num
        invariant 0 <= j == |rs| <= net.poll.num
        invariant forall k :: 0 <= k < j ==>
                    rs[k] == if Watched()[k].fd == net.pipe then PollList.Ready(false, false, os.pipe > 0)
                             else answers(k)
      {
        assert Watched()[j] == net.poll.data[j];
        rs := rs + [if net.poll.data[j].fd == net.pipe then PollList.Ready(false, false, os.pipe > 0) else answers(j)];
        j := j + 1;
      }
    }

    /** poll. */
    method Poll(answers: int -> PollList.Ready)
      requires Valid() && forall j :: 0 <= j < |Watched()| ==> Watched()[j].fd != PollList.MARK
      modifies net.Repr
      ensures Valid() && Continues() && events == old(events)
      ensures Parts() == old(Parts()) && View() == old(View()) && Marks() == old(Marks())
      ensures Polls(View(), Watched(), answers, net.sock, net.pipe)
    {
      hide Network.Conns, Network.Marks, Network.Members, Distinct, AsMap, IsRun, PollList.Once, PollList.Flags, Wanted;
      var rs := Reports(answers);
      net.Report(rs);
    }

    /** Sweep the poll list and wait; meanwhile children may exit. */
    method Sleep(answers: int -> PollList.Ready)
      requires Valid() && View().phase == POLLING
      modifies this`os, this`phase, this`states, this`events, Parts()
      ensures Valid() && Parts() == old(Parts()) && Continues() && Marks() == old(Marks()) &&
              View().phase == DISPATCHING
      ensures |events| > |old(events)| && events[|events| - 1] == Wake && PreludeSince(old(events), events)
      ensures Polls(View(), Watched(), answers, net.sock, net.pipe)
    {
      hide Wired, View, IsRun, Polls, Step, Enabled, Watched, Marks, FailedWrites, Writing;
      CleanList();
      Meanwhile();
      WakeStep(View());
      Turn(Wake);
      Poll(answers);
    }

    /** poll_num. */
    method ListLength() returns (n: nat)
      requires Wired()
      ensures n == |Watched()|
    {
      n := net.poll.num;
    }

    /** The loop over the poll list is at entry i: the entries before it were served, the reports from it on stand. */
    ghost predicate Serving(polled: seq<PollList.PollFd>, cuts: seq<nat>, inputs: int -> Input, i: nat)
      requires Wired() && |states| == |events| + 1
      reads this, net, net.Repr, queue, queue.data, processes, processes.key, processes.data
    {
      && PollList.Ahead(polled, Watched(), i) && i <= |Watched()|
      && Served(states, events, polled, cuts, inputs, net.sock, net.pipe)
      && |cuts| == Smaller(i, |polled|) + 1 && cuts[|cuts| - 1] == |events|
      && PollList.Once(polled) && net.pipe != PollList.MARK
      && forall j :: i <= j < |polled| ==> PollList.CanServe(polled[j], net.pipe, View().os.pipe)
    }

    lemma ServingStarts(polled: seq<PollList.PollFd>, inputs: int -> Input)
      requires Valid() && polled == Watched() && PollList.Once(polled) && net.pipe != PollList.MARK
      requires forall j :: 0 <= j < |polled| ==> PollList.CanServe(polled[j], net.pipe, View().os.pipe)
      ensures Serving(polled, [|events|], inputs, 0)
    {
      hide Wired, View, IsRun, PollList.Once, FailedWrites, Served;
      NothingServed(states, events, polled, inputs, net.sock, net.pipe);
    }

    lemma ServingMeans(polled: seq<PollList.PollFd>, cuts: seq<nat>, inputs: int -> Input, i: nat)
      requires Valid() && Serving(polled, cuts, inputs, i)
      ensures Served(states, events, polled, cuts, inputs, net.sock, net.pipe) && |polled| <= |Watched()|
      ensures i <= |Watched()| && |cuts| == Smaller(i, |polled|) + 1 && cuts[|cuts| - 1] == |events|
    {
      hide Wired, View, IsRun, PollList.Once, FailedWrites, Served;
    }

    /** One round of the loop; an entry that came after poll has no report. */
    method ServeNext(i: nat, input: Input, ghost polled: seq<PollList.PollFd>, ghost cuts: seq<nat>,
                     ghost inputs: int -> Input)
        returns (ok: bool, n: nat, ghost cuts': seq<nat>)
      requires Valid() && AtRest() && View().phase == DISPATCHING && |input.chunk| <= READ_ONCE
      requires Serving(polled, cuts, inputs, i) && i < |Watched()| && input == inputs(i)
      modifies this`parallel, this`accepted, this`os, this`past, this`phase, this`states, this`events, Parts()
      ensures Valid() && AtRest() && OnlyNew() && View().phase == DISPATCHING && Continues()
      ensures ok ==> Serving(polled, cuts', inputs, i + 1) && cuts <= cuts'
      ensures !ok ==>
                && i < |polled| && cuts' == cuts && |cuts| == i + 1 && cuts[i] == |events|
                && Served(states, events, polled, cuts, inputs, net.sock, net.pipe)
                && Stops(polled[i], FailedWrites(events), net.sock, net.pipe)
      ensures n == |Watched()| && (i >= |polled| ==> n == |old(Watched())|)
    {
      hide Wired, View, IsRun, Served, EntryEvents, FailedWrites, PollList.Kept, PollList.Once, AtRest, Stops;
      ghost var states0, events0, watched, bytes := states, events, Watched(), View().os.pipe;
      SameReport(polled, watched, i, net.pipe, bytes, View(), input, net.sock);
      ok := ServeEntry(i, input);
      n := ListLength();
      cuts' := cuts;
      if ok && i < |polled| {
        cuts' := cuts + [|events|];
        ServedMore(states0, events0, states, events, polled, cuts, inputs, net.sock, net.pipe);
      }
      if events == events0 { assert states == states0; }
      ListNext(polled, watched, Watched(), i, net.pipe, bytes, View().os.pipe);
    }

    /** The loop over the poll list: it ends at the end of the list, or at an entry at which the server stops. */
    method ServeAll(inputs: int -> Input, ghost polled: seq<PollList.PollFd>, ghost cuts0: seq<nat>)
        returns (ok: bool, i: nat, ghost cuts: seq<nat>)
      requires Valid() && AtRest() && View().phase == DISPATCHING && forall i :: |inputs(i).chunk| <= READ_ONCE
      requires Serving(polled, cuts0, inputs, 0)
      modifies this`parallel, this`accepted, this`os, this`past, this`phase, this`states, this`events, Parts()
      ensures Valid() && AtRest() && OnlyNew() && View().phase == DISPATCHING && Continues() && cuts0 <= cuts
      ensures if ok then i >= |Watched()| && Serving(polled, cuts, inputs, i)
              else
                && i < |polled| && |cuts| == i + 1 && cuts[i] == |events|
                && Served(states, events, polled, cuts, inputs, net.sock, net.pipe)
                && Stops(polled[i], FailedWrites(events), net.sock, net.pipe)
    {
      hide Wired, View, IsRun, Served, Serving, FailedWrites, AtRest, Parts, Stops, Watched, Marks, Writing;
      ok, i, cuts := true, 0, cuts0;
      var n := ListLength();
      while i < n
        invariant Valid() && AtRest() && OnlyNew() && View().phase == DISPATCHING && Continues()
        invariant ok && n == |Watched()| && Serving(polled, cuts, inputs, i) && cuts0 <= cuts
        decreases if i < |polled| then |polled| - i else 0, n - i
      {
        ok, n, cuts := ServeNext(i, inputs(i), polled, cuts, inputs);
        if !ok { return; }
        i := i + 1;
      }
    }

    /** The loop over the poll list, which clients that connect make longer. Every report that poll has made is acted
        on, each once and in list order, up to an entry at which the server stops. */
    method Dispatch(inputs: int -> Input, ghost polled: seq<PollList.PollFd>) returns (ok: bool, ghost cuts: seq<nat>)
      requires Valid() && AtRest() && View().phase == DISPATCHING && forall i :: |inputs(i).chunk| <= READ_ONCE
      requires polled == Watched() && PollList.Once(polled) && net.pipe != PollList.MARK
      requires forall j :: 0 <= j < |polled| ==> PollList.CanServe(polled[j], net.pipe, View().os.pipe)
      modifies this`parallel, this`accepted, this`os, this`past, this`phase, this`states, this`events, Parts()
      ensures Valid() && AtRest() && OnlyNew() && View().phase == DISPATCHING && Continues()
      ensures Served(states, events, polled, cuts, inputs, net.sock, net.pipe)
      ensures cuts[0] == |old(events)| && cuts[|cuts| - 1] == |events|
      ensures if ok then |cuts| == |polled| + 1
              else |cuts| <= |polled| && Stops(polled[|cuts| - 1], FailedWrites(events), net.sock, net.pipe)
    {
      hide Wired, View, IsRun, Served, Serving, FailedWrites, AtRest, PollList.Once, Parts, Stops, Watched, Marks;
      ServingStarts(polled, inputs);
      var i;
      ok, i, cuts := ServeAll(inputs, polled, [|events|]);
      if ok { ServingMeans(polled, cuts, inputs, i); }
    }

    /** The second half: dispatch. */
    method Finish(inputs: int -> Input, ghost polled: seq<PollList.PollFd>)
        returns (ok: bool, ghost cuts: seq<nat>, ghost states': seq<State>, ghost events': seq<Event>)
      requires Valid() && AtRest() && View().phase == DISPATCHING && forall i :: |inputs(i).chunk| <= READ_ONCE
      requires polled == Watched() && PollList.Once(polled) && net.pipe != PollList.MARK
      requires forall j :: 0 <= j < |polled| ==> PollList.CanServe(polled[j], net.pipe, View().os.pipe)
      modifies this`parallel, this`accepted, this`os, this`past, this`phase, this`states, this`events, Parts()
      ensures Valid() && AtRest() && OnlyNew() && Continues() && (ok ==> View().phase == SCHEDULING)
      ensures |states'| == |events'| + 1 && old(events) <= events' && old(states) <= states' <= states
      ensures events == events' + (if ok then [EndDispatch] else [])
      ensures Served(states', events', polled, cuts, inputs, net.sock, net.pipe)
      ensures cuts[0] == |old(events)| && cuts[|cuts| - 1] == |events'|
      ensures if ok then |cuts| == |polled| + 1
              else |cuts| <= |polled| && Stops(polled[|cuts| - 1], FailedWrites(events'), net.sock, net.pipe)
      ensures NoErrors(old(events)) && (forall i :: inputs(i).wrote >= 0) ==> ok && NoErrors(events)
    {
      hide Wired, View, IsRun, Served, FailedWrites, Parts, PollList.Once, Stops, Watched, Marks, Writing;
      ok, cuts := Dispatch(inputs, polled);
      states', events' := states, events;
      if NoErrors(old(events)) && forall i :: inputs(i).wrote >= 0 {
        ErrorsSince(old(events), states, events, polled, cuts, ok, inputs, net.sock, net.pipe);
      }
      if ok {
        Turn(EndDispatch);
      }
    }

    /** The first half of a round: schedule, sweep the poll list and wait. */
    method Prepare(answers: int -> PollList.Ready)
      requires Valid() && AtRest() && View().phase == SCHEDULING
      modifies this, Parts()
      ensures Valid() && AtRest() && OnlyNew() && Continues() && View().phase == DISPATCHING
      ensures |events| > |old(events)| && events[|events| - 1] == Wake && PreludeSince(old(events), events)
      ensures Polls(View(), Watched(), answers, net.sock, net.pipe) && net.pipe != PollList.MARK
    {
      hide Wired, View, IsRun, Polls, Watched, Marks, FailedWrites, Writing, Parts;
      ScheduleNewJobs();
      Sleep(answers);
      Descriptors();
    }

    lemma Descriptors()
      requires Wired()
      ensures net.pipe != PollList.MARK && net.sock != PollList.MARK && net.sock != net.pipe
    {
    }

    /** One round of the main loop: schedule, sweep the poll list, wait, dispatch. */
    method Round(answers: int -> PollList.Ready, inputs: int -> Input) returns (ok: bool, ghost r: RoundLog)
      requires Valid() && AtRest() && View().phase == SCHEDULING && forall i :: |inputs(i).chunk| <= READ_ONCE
      modifies this, Parts()
      ensures Valid() && AtRest() && OnlyNew() && Continues() && (ok ==> View().phase == SCHEDULING)
      ensures Performed(states, events, r, ok, answers, inputs, net.sock, net.pipe)
      ensures r.start == |old(events)| && r.end == |events|
      ensures ok && states[r.woke].os.pipe > 0 ==>
                forall pid :: Exited(states[r.woke], pid) ==> ReapedSince(states[r.woke], View(), pid)
      ensures NoErrors(old(events)) && (forall i :: inputs(i).wrote >= 0) ==> ok && NoErrors(events)
    {
      hide Wired, View, IsRun, Polls, Served, FailedWrites, AtRest, Performed, Parts, PollList.Once, Stops, NoErrors;
      hide PreludeSince;
      Prepare(answers);
      ghost var woke, polled, states0, events0 := |events|, Watched(), states, events;
      if NoErrors(old(events)) { PreludeErrors(old(events), events); }
      PollsServe(View(), polled, answers, net.sock, net.pipe);
      ghost var cuts, states1, events1;
      ok, cuts, states1, events1 := Finish(inputs, polled);
      r := RoundLog(|old(events)|, woke, polled, cuts, |events|);
      RoundDone(old(events), states0, events0, states1, events1, states, events, r, ok, answers, inputs, net.sock,
                net.pipe);
      if ok && states[r.woke].os.pipe > 0 {
        AllReaped(states, events, r, answers, inputs, net.sock, net.pipe, |events|);
      }
    }
  }

  /** server_init_listening. */
  method Start(sock: int, pipe: int, limit: int) returns (s: Server)
    requires sock != pipe && sock != PollList.MARK && pipe != PollList.MARK && limit >= 1
    ensures fresh(s) && fresh(s.Parts()) && s.Valid() && s.net.sock == sock && s.net.pipe == pipe
    ensures s.View().phase == SCHEDULING && s.events == [] && s.Marks() == map[]
    ensures s.parallel == limit && s.states[0].parallel == limit
  {
    hide Network.Valid;
    var net := new Network(sock, pipe, limit);
    var queue := new Queue<Job>(100);
    var processes := new List<Proc>(limit);
    s := new Server(net, queue, processes, limit);
  }

  /** The whole program, for any number of rounds, whatever the operating system answers: what it does is a run of the
      protocol, made of one round for each poll, in which every report is acted on. */
  method Serve(sock: int, pipe: int, limit: int, answers: seq<int -> PollList.Ready>, inputs: seq<int -> Input>)
      returns (s: Server, ok: bool, ghost rounds: seq<RoundLog>)
    requires sock != pipe && sock != PollList.MARK && pipe != PollList.MARK && limit >= 1 && |answers| == |inputs|
    requires forall n, i :: 0 <= n < |inputs| ==> |inputs[n](i).chunk| <= READ_ONCE
    ensures s.Valid() && s.states[0].parallel == limit
    ensures ok ==> |rounds| == |inputs| && s.View().phase == SCHEDULING
    ensures AllPerformed(s.states, s.events, rounds, ok, answers, inputs, sock, pipe)
    ensures (forall n, i :: 0 <= n < |inputs| ==> inputs[n](i).wrote >= 0) ==> ok
  {
    hide Server.Wired, Server.View, Server.Watched, Server.Marks;
    hide IsRun, AllPerformed, Performed, NoErrors, FailedWrites;
    s := Start(sock, pipe, limit);
    ok, rounds := true, [];
    NoRounds(s.states, answers, inputs, sock, pipe);
    var n := 0;
    while n < |inputs|
      invariant 0 <= n == |rounds| <= |inputs| && ok && fresh(s) && fresh(s.Parts()) && s.net.sock == sock &&
                s.net.pipe == pipe
      invariant s.Valid() && s.AtRest() && s.View().phase == SCHEDULING && s.states[0].parallel == limit
      invariant AllPerformed(s.states, s.events, rounds, true, answers, inputs, sock, pipe)
      invariant (forall n, i :: 0 <= n < |inputs| ==> inputs[n](i).wrote >= 0) ==> NoErrors(s.events)
    {
      ghost var states, events, r := s.states, s.events, RoundLog(0, 0, [], [], 0);
      ok, r := s.Round(answers[n], inputs[n]);
      OneMoreRound(states, events, s.states, s.events, rounds, r, ok, answers, inputs, sock, pipe);
      rounds := rounds + [r];
      if !ok {
        break;
      }
      n := n + 1;
    }
  }

  /** The failing input of prepare_write: a client with messages to which a write fails, and which is then reported for
      output again. */
  method WriteAgain(s: Server, c: Connection, i: int, input: Input) returns (ok: bool)
    requires s.Valid() && s.AtRest() && s.View().phase == DISPATCHING && s.net.Has(c) && c.writebuf.CanWrite()
    requires c.fd in s.View().clients && c.fd in s.Marks() && s.View().clients[c.fd].pending != []
    requires 0 <= i < |s.Watched()| && s.Watched()[i].fd == c.fd && |input.chunk| <= READ_ONCE
    modifies s, s.Parts()
    ensures s.Valid() && s.events == old(s.events) + [WriteError(c.fd)] && !ok
  {
    hide Server.Wired, Server.View, IsRun;
    FailedSnoc(s.events, WriteError(c.fd));
    s.WriteFails(c);
    ok := s.ServeClient(c, i, PollList.Ready(false, true, false), input);
  }

  lemma {:induction false} NoRounds(states: seq<State>, answers: seq<int -> PollList.Ready>, inputs: seq<int -> Input>,
                                    sock: int, pipe: int)
    requires |states| == 1
    ensures AllPerformed(states, [], [], true, answers, inputs, sock, pipe) && NoErrors([])
  {
  }

  /** The keys of the first n elements that have the identifier. */
  ghost function WithId(items: seq<(int, Proc)>, n: nat, id: string): (pids: set<int>)
    requires n <= |items|
  {
    set i | 0 <= i < n && items[i].1.id == id :: items[i].0
  }

  lemma {:induction false} NextWithId(items: seq<(int, Proc)>, n: nat, id: string)
    requires n < |items|
    ensures WithId(items, n + 1, id) == WithId(items, n, id) + if items[n].1.id == id then {items[n].0} else {}
  {
    var old', new' := WithId(items, n, id), WithId(items, n + 1, id);
    forall p | p in new' ensures p in old' || (p == items[n].0 && items[n].1.id == id) {}
  }

  lemma {:induction false} AllWithId(items: seq<(int, Proc)>, id: string)
    requires Distinct(items)
    ensures WithId(items, |items|, id) == Victims(AsMap(items), id)
  {
    var m := AsMap(items);
    forall p | p in WithId(items, |items|, id) ensures p in Victims(m, id) {
      var i :| 0 <= i < |items| && items[i].1.id == id && items[i].0 == p;
      MapHas(items, i);
    }
    forall p | p in Victims(m, id) ensures p in WithId(items, |items|, id) {
      MapPairs(items, p, m[p]);
      var i :| 0 <= i < |items| && items[i] == (p, m[p]);
    }
  }

  /** The clients to which a write was begun and not finished. */
  ghost function Writing(m: map<int, Mark>): (fds: set<int>) { set fd | fd in m && m[fd].writing }

  lemma {:induction false} WritingOnward(m: map<int, Mark>, fd: int, text: string)
    requires fd in m
    ensures Writing(m[fd := Onward(m[fd], text)]) == Writing(m)
  {
  }

  lemma {:induction false} WritingFailed(m: map<int, Mark>, fd: int)
    ensures fd in m ==> Writing(m[fd := m[fd].(writing := true)]) == Writing(m) + {fd}
  {
  }

  lemma {:induction false} WritingAccept(m: map<int, Mark>, fd: int)
    ensures Writing(m[fd := Mark(0, false)]) == Writing(m) - {fd} && Writing(m - {fd}) == Writing(m) - {fd}
  {
  }

  lemma {:induction false} WritingPassed(m: map<int, Mark>, fd: int, n: nat)
    requires fd in m
    ensures Writing(m[fd := m[fd].(passed := n)]) == Writing(m)
  {
  }

  /** Only the operating system has acted. */
  ghost predicate OuterSince(before: seq<Event>, after: seq<Event>) {
    before <= after && forall k :: |before| <= k < |after| ==> Outside(after[k])
  }

  ghost predicate PreludeSince(before: seq<Event>, after: seq<Event>) {
    before <= after && forall k :: |before| <= k < |after| ==> Prelude(after[k])
  }

  /** Children were waited for. */
  ghost predicate ReapsSince(before: seq<Event>, after: seq<Event>) {
    before <= after && forall k :: |before| <= k < |after| ==> Outside(after[k]) || after[k].Reap?
  }

  /** Lines of the client were handled. */
  ghost predicate LinesSince(before: seq<Event>, after: seq<Event>, fd: int) {
    before <= after && forall k :: |before| <= k < |after| ==>
      Outside(after[k]) || (after[k].Line? && after[k].key == fd)
  }

  /** The operating system acts on its own side only, and takes no byte out of the pipe. */
  ghost predicate SameButSystem(s: State, r: State) {
    && r == s.(os := r.os) && r.os.children.Keys == s.os.children.Keys && r.os.killed == s.os.killed
    && s.os.pipe <= r.os.pipe && (forall p :: p in s.os.children && s.os.children[p] ==> r.os.children[p])
  }

  lemma {:induction false} FreshExists(m: map<int, bool>)
    ensures exists pid :: pid > 0 && pid !in m
  {
    var above := HigherThan(m.Keys);
    assert above > 0 && above !in m;
  }

  lemma {:induction false} HigherThan(s: set<int>) returns (n: int)
    ensures n > 0 && forall x :: x in s ==> x < n
    decreases |s|
  {
    if x :| x in s {
      n := HigherThan(s - {x});
      assert forall y :: y in s ==> y == x || y in s - {x};
      n := if x < n then n else x + 1;
    } else {
      n := 1;
    }
  }

  lemma {:induction false} QueuedRuns(s: State)
    requires Inv(s) && s.queue != []
    ensures s.queue[0].request.Run?
  {
  }

  lemma {:induction false} ScheduleStep(s: State, job: Job, pid: int)
    requires s.phase == SCHEDULING && |s.processes| < s.parallel && s.queue != [] && job == s.queue[0] && Fresh(s, pid)
    ensures Enabled(s, Schedule(pid)) && Step(s, Schedule(pid)) == StartJob(s.(queue := s.queue[1..]), job, pid)
    ensures Step(s, Schedule(pid)).phase == SCHEDULING && |Step(s, Schedule(pid)).queue| == |s.queue| - 1
  {
  }

  lemma {:induction false} EndOfSchedule(s: State)
    requires s.phase == SCHEDULING && !(|s.processes| < s.parallel && s.queue != [])
    ensures Enabled(s, EndSchedule) && Step(s, EndSchedule) == s.(phase := POLLING)
  {
  }

  ghost predicate NoneExited(s: State) { forall p :: p in s.os.children ==> !s.os.children[p] }

  /** The child is gone. */
  ghost predicate Reaped(s: State, r: State, pid: int) {
    && r.phase == s.phase && r.os == s.os.(children := s.os.children - {pid}, killed := s.os.killed - {pid})
    && |r.processes| < |s.processes|
  }

  /** Children that had exited are gone or still to be waited for. */
  ghost predicate Reaping(s: State, r: State) {
    && r.phase == REAPING && s.os.pipe <= r.os.pipe && r.os.children.Keys <= s.os.children.Keys
    && (forall p :: Exited(s, p) && p in r.os.children ==> Exited(r, p))
  }

  lemma {:induction false} ReapStep(s: State, pid: int, detail: string)
    requires s.phase == REAPING && Inv(s) && Exited(s, pid)
    ensures pid in s.processes && Enabled(s, Reap(pid, detail)) &&
            Step(s, Reap(pid, detail)) == ReapChild(s, pid, detail)
    ensures Reaped(s, ReapChild(s, pid, detail), pid)
  {
    OneLess(s.processes, pid);
  }

  lemma {:induction false} EndOfReaping(s: State, r: State)
    requires Reaping(s, r) && NoneExited(r) && Inv(r)
    ensures Enabled(r, EndReap) && Step(r, EndReap) == r.(phase := DISPATCHING)
    ensures forall p :: Exited(s, p) ==> p !in r.processes
  {
  }

  /** The operating system has acted, and then one line was handled. */
  ghost predicate LineSince(before: seq<Event>, after: seq<Event>, key: int, asked: Parsed) {
    && |after| > |before| && OuterSince(before, after[..|after| - 1])
    && after[|after| - 1].Line? && after[|after| - 1].key == key && after[|after| - 1].asked == asked
  }

  lemma {:induction false} LineStep(s: State, key: int, asked: Parsed, pid: int)
    requires s.phase == DISPATCHING && key in s.clients && Says(s.clients[key].unread, key, asked) && Fresh(s, pid)
    ensures Enabled(s, Line(key, asked, pid))
    ensures Step(s, Line(key, asked, pid)) == Protocol.HandleLine(LineTaken(s, key), asked, pid)
    ensures var r := Step(s, Line(key, asked, pid));
            && r.phase == DISPATCHING && key in r.clients && r.clients[key].unread == AfterLine(s.clients[key].unread)
            && r.os.pipe == s.os.pipe
  {
    LineUnread(LineTaken(s, key), asked, pid, key);
  }

  lemma {:induction false} AskedOuter(before: seq<Event>, after: seq<Event>, lo: nat, fd: int)
    requires OuterSince(before, after) && lo <= |before|
    ensures Asked(after, lo, |after|, fd) == Asked(before, lo, |before|, fd)
    decreases |after|
  {
    if |after| == |before| {
      assert after == before;
    } else {
      var n := |after| - 1;
      AskedOuter(before, after[..n], lo, fd);
      AskedPrefix(after, lo, n, fd);
    }
  }

  lemma {:induction false} AskedPrefix(events: seq<Event>, lo: nat, n: nat, fd: int)
    requires lo <= n <= |events|
    ensures Asked(events[..n], lo, n, fd) == Asked(events, lo, n, fd)
    decreases n
  {
    if n > lo {
      AskedPrefix(events, lo, n - 1, fd);
      AskedPrefix(events[..n], lo, n - 1, fd);
      assert events[..n][..n - 1] == events[..n - 1];
    }
  }

  lemma {:induction false} AskedSkip(events: seq<Event>, lo: nat, hi: nat, fd: int)
    requires lo < hi <= |events| && !events[lo].Line?
    ensures Asked(events, lo, hi, fd) == Asked(events, lo + 1, hi, fd)
    decreases hi
  {
    if hi > lo + 1 { AskedSkip(events, lo, hi - 1, fd); }
  }

  lemma {:induction false} LineCounted(before: seq<Event>, after: seq<Event>, lo: nat, fd: int, line: string,
                                       lines: seq<string>)
    requires LineSince(before, after, fd, Meaning(line, fd)) && lo <= |before|
    requires MeaningsOf(Asked(before, lo, |before|, fd), lines, fd)
    ensures before <= after && MeaningsOf(Asked(after, lo, |after|, fd), lines + [line], fd)
    ensures forall base :: LinesSince(base, before, fd) ==> LinesSince(base, after, fd)
  {
    hide Meaning;
    var n := |after| - 1;
    AskedOuter(before, after[..n], lo, fd);
    AskedPrefix(after, lo, n, fd);
  }

  lemma {:induction false} ReceiveStep(s: State, fd: int, chunk: string)
    requires s.phase == DISPATCHING && fd in s.clients
    ensures Enabled(s, Receive(fd, chunk))
    ensures Step(s, Receive(fd, chunk)) == s.(clients := s.clients[fd := Fed(s.clients[fd], chunk)])
  {
  }

  lemma {:induction false} NothingRead(events: seq<Event>, text: string, fd: int)
    ensures Taken(text, [], text) && MeaningsOf(Asked(events, |events|, |events|, fd), [], fd)
  {
  }

  lemma {:induction false} AllRead(text: string, lines: seq<string>, left: string)
    requires Taken(text, lines, left) && !HasLine(left)
    ensures lines == Lines(text) && left == Tail(text)
  {
  }

  lemma {:induction false} MarkOnward(m: map<int, Mark>, fd: int, start: nat, text: string)
    requires fd in m
    ensures var m' := m[fd := m[fd].(passed := start)];
            m'[fd := Onward(m'[fd], text)] == m[fd := m[fd].(passed := start + LineEnd(text) + 1)]
  {
  }

  lemma {:induction false} SameMark(m: map<int, Mark>, fd: int)
    requires fd in m && m[fd].passed == 0
    ensures m[fd := m[fd].(passed := 0)] == m
  {
  }


  lemma {:induction false} CloseEffect(s: State, fd: int)
    ensures Step(s, Close(fd)).phase == s.phase && Step(s, Close(fd)).os == s.os
  {
  }

  lemma {:induction false} WriteEffect(s: State, fd: int, n: nat)
    ensures Step(s, Write(fd, n)).phase == s.phase && Step(s, Write(fd, n)).os == s.os
  {
  }

  /** The entry still has the report that poll made, or came later and has none. */
  lemma {:induction false} SameReport(polled: seq<PollList.PollFd>, now: seq<PollList.PollFd>, i: nat, pipe: int,
                                      bytes: int, s: State, input: Input, sock: int)
    requires PollList.Ahead(polled, now, i) && i < |now|
    requires i < |polled| ==> PollList.CanServe(polled[i], pipe, bytes)
    ensures PollList.CanServe(now[i], pipe, bytes)
    ensures i >= |polled| ==>
              && now[i].revents == PollList.IDLE && (forall failed :: !Stops(now[i], failed, sock, pipe))
              && (forall seg :: EntryEvents(s, seg, now[i], input, sock, pipe) ==> seg == [])
    ensures i < |polled| ==>
              && now[i].fd == polled[i].fd
              && (forall seg :: EntryEvents(s, seg, now[i], input, sock, pipe) ==>
                                EntryEvents(s, seg, polled[i], input, sock, pipe))
              && (forall failed :: Stops(now[i], failed, sock, pipe) <==> Stops(polled[i], failed, sock, pipe))
  {
    hide ClientEvents, ReapEvents;
  }

  lemma {:induction false} ListNext(polled: seq<PollList.PollFd>, s: seq<PollList.PollFd>, t: seq<PollList.PollFd>,
                                    i: nat, pipe: int, bytes: int, bytes': int)
    requires PollList.Ahead(polled, s, i) && i < |s| && PollList.Once(s) && PollList.Once(polled) && NextList(s, t, i)
    requires pipe != PollList.MARK && (bytes <= bytes' || s[i].fd == pipe)
    requires forall j :: i <= j < |polled| ==> PollList.CanServe(polled[j], pipe, bytes)
    ensures PollList.Ahead(polled, t, i + 1) && i + 1 <= |t| && (i >= |polled| ==> t == s)
    ensures forall j :: i + 1 <= j < |polled| ==> PollList.CanServe(polled[j], pipe, bytes')
  {
    if t != s && |t| == |s| + 1 && t == s + [t[|s|]] {
      PollList.AheadMore(polled, s, t[|s|], i);
    } else {
      PollList.AheadNext(polled, s, t, i);
    }
  }

  lemma {:induction false} NothingServed(states: seq<State>, events: seq<Event>, polled: seq<PollList.PollFd>,
                                         inputs: int -> Input, sock: int, pipe: int)
    requires |states| == |events| + 1
    ensures Served(states, events, polled, [|events|], inputs, sock, pipe) && PollList.Ahead(polled, polled, 0)
  {
  }

  lemma {:induction false} PreludeErrors(before: seq<Event>, after: seq<Event>)
    requires PreludeSince(before, after) && NoErrors(before)
    ensures NoErrors(after)
  {
  }

  lemma {:induction false} PollsServe(s: State, polled: seq<PollList.PollFd>, answers: int -> PollList.Ready, sock: int,
                                      pipe: int)
    requires Polls(s, polled, answers, sock, pipe)
    ensures PollList.Once(polled) && forall j :: 0 <= j < |polled| ==> PollList.CanServe(polled[j], pipe, s.os.pipe)
  {
    forall j | 0 <= j < |polled| ensures PollList.CanServe(polled[j], pipe, s.os.pipe) {
      assert Reported(polled[j], answers(j), pipe, s.os.pipe);
    }
  }

  /** The parts of a round make a round. */
  lemma {:induction false} RoundDone(before: seq<Event>, states0: seq<State>, events0: seq<Event>, states1: seq<State>,
                                     events1: seq<Event>, states: seq<State>, events: seq<Event>, r: RoundLog, ok: bool,
                                     answers: int -> PollList.Ready, inputs: int -> Input, sock: int, pipe: int)
    requires |states0| == |events0| + 1 && |states1| == |events1| + 1 && |states| == |events| + 1
    requires events0 <= events1 && states0 <= states1 <= states && |before| < |events0|
    requires PreludeSince(before, events0) && events0[|events0| - 1] == Wake
    requires Polls(states0[|events0|], r.polled, answers, sock, pipe)
    requires Served(states1, events1, r.polled, r.cuts, inputs, sock, pipe)
    requires r.cuts[0] == |events0| && r.cuts[|r.cuts| - 1] == |events1|
    requires r.start == |before| && r.woke == |events0| && r.end == |events|
    requires events == if ok then events1 + [EndDispatch] else events1
    requires if ok then |r.cuts| == |r.polled| + 1
             else |r.cuts| <= |r.polled| && Stops(r.polled[|r.cuts| - 1], FailedWrites(events1), sock, pipe)
    ensures Performed(states, events, r, ok, answers, inputs, sock, pipe)
  {
    hide Served, Stops, FailedWrites, Polls, PreludeSince;
    assert events0 <= events && states0 <= states;
    RoundBegins(before, states0, events0, states, events, r, answers, sock, pipe);
    RoundEnds(states1, events1, states, events, r, ok, inputs, sock, pipe);
  }

  lemma {:induction false} RoundBegins(before: seq<Event>, states0: seq<State>, events0: seq<Event>,
                                       states: seq<State>, events: seq<Event>, r: RoundLog,
                                       answers: int -> PollList.Ready, sock: int, pipe: int)
    requires |states0| == |events0| + 1 && events0 <= events && states0 <= states && |before| < |events0|
    requires PreludeSince(before, events0) && events0[|events0| - 1] == Wake
    requires Polls(states0[|events0|], r.polled, answers, sock, pipe)
    requires r.start == |before| && r.woke == |events0|
    ensures events[r.woke - 1] == Wake && forall k :: r.start <= k < r.woke ==> Prelude(events[k])
    ensures Polls(states[r.woke], r.polled, answers, sock, pipe)
  {
    hide Polls, Prelude;
    assert states[r.woke] == states0[r.woke];
  }

  lemma {:induction false} RoundEnds(states1: seq<State>, events1: seq<Event>, states: seq<State>, events: seq<Event>,
                                     r: RoundLog, ok: bool, inputs: int -> Input, sock: int, pipe: int)
    requires |states1| == |events1| + 1 && |states| == |events| + 1 && states1 <= states
    requires Served(states1, events1, r.polled, r.cuts, inputs, sock, pipe) && r.cuts[|r.cuts| - 1] == |events1|
    requires events == if ok then events1 + [EndDispatch] else events1
    requires if ok then |r.cuts| == |r.polled| + 1
             else |r.cuts| <= |r.polled| && Stops(r.polled[|r.cuts| - 1], FailedWrites(events1), sock, pipe)
    ensures Served(states, events, r.polled, r.cuts, inputs, sock, pipe)
    ensures var n := |r.cuts| - 1;
            if ok then n == |r.polled| && |events| == r.cuts[n] + 1 && events[r.cuts[n]] == EndDispatch
            else
              && n < |r.polled| && |events| == r.cuts[n]
              && Stops(r.polled[n], FailedWrites(events[..r.cuts[n]]), sock, pipe)
  {
    ServedLater(states1, events1, states, events, r.polled, r.cuts, inputs, sock, pipe);
    hide Served, Stops, FailedWrites;
    assert events1[..|events1|] == events1;
  }

  lemma {:induction false} StopsOnError(events: seq<Event>, e: PollList.PollFd, sock: int, pipe: int)
    requires Stops(e, FailedWrites(events), sock, pipe)
    ensures !NoErrors(events)
  {
    if NoErrors(events) { NoneFailed(events); }
  }

  lemma {:induction false} ErrorsSince(before: seq<Event>, states: seq<State>, events: seq<Event>,
                                       polled: seq<PollList.PollFd>, cuts: seq<nat>, ok: bool, inputs: int -> Input,
                                       sock: int, pipe: int)
    requires |states| == |events| + 1 && Served(states, events, polled, cuts, inputs, sock, pipe)
    requires before <= events && cuts[0] == |before| && cuts[|cuts| - 1] == |events|
    requires !ok ==> |cuts| <= |polled| && Stops(polled[|cuts| - 1], FailedWrites(events), sock, pipe)
    requires NoErrors(before) && forall i :: inputs(i).wrote >= 0
    ensures ok && NoErrors(events)
  {
    hide EntryEvents, Stops, FailedWrites;
    assert events[..|before|] == before && events[..|events|] == events;
    DispatchWithoutError(states, events, polled, cuts, inputs, sock, pipe, |cuts| - 1);
    if !ok { StopsOnError(events, polled[|cuts| - 1], sock, pipe); }
  }

  /** What becomes of the poll list when entry i is served. */
  ghost predicate NextList(s: seq<PollList.PollFd>, t: seq<PollList.PollFd>, i: nat)
    requires i < |s|
  {
    || t == s
    || (s[i].revents != PollList.IDLE && s[i].fd != PollList.MARK && PollList.Kept(s, t, {s[i].fd}))
    || (s[i].revents != PollList.IDLE && |t| == |s| + 1 && t[|s|].revents == PollList.IDLE && t == s + [t[|s|]])
  }

  lemma {:induction false} WakeStep(s: State)
    requires s.phase == POLLING
    ensures Enabled(s, Wake) && Step(s, Wake) == s.(phase := DISPATCHING)
  {
  }

  lemma {:induction false} ReadDone(before: seq<Event>, middle: seq<Event>, after: seq<Event>, c: Client, fd: int,
                                    input: Input)
    requires input.chunk != "" && !input.failed && middle == before + [Receive(fd, input.chunk)]
    requires LinesSince(middle, after, fd)
    requires MeaningsOf(Asked(after, |middle|, |after|, fd), Lines(c.unread + input.chunk), fd)
    ensures before <= after && ReadEvents(c, after[|before|..], fd, input)
  {
    hide MeaningsOf, Lines;
    AskedSkip(after, |before|, |after|, fd);
    AskedSegment(after, |before|, |after|, fd);
    assert after[|before|..|after|] == after[|before|..];
  }

  lemma {:induction false} AskedSegment(events: seq<Event>, lo: nat, hi: nat, fd: int)
    requires lo <= hi <= |events|
    ensures Asked(events[lo..hi], 0, hi - lo, fd) == Asked(events, lo, hi, fd)
    decreases hi
  {
    if hi > lo {
      AskedSegment(events, lo, hi - 1, fd);
      AskedPrefix(events[lo..hi], 0, hi - lo - 1, fd);
      assert events[lo..hi][..hi - lo - 1] == events[lo..hi - 1];
    }
  }

  lemma {:induction false} StartRun(s: State)
    requires Initial(s)
    ensures |[s]| == 1 && IsRun([s], [])
  {
  }

  lemma {:induction false} EmptyList<T>()
    ensures Distinct<T>([]) && AsMap<T>([]) == map[]
  {
  }

  lemma {:induction false} MapLength<T>(items: seq<(int, T)>)
    requires Distinct(items)
    ensures |AsMap(items)| == |items|
    decreases |items|
  {
    if items != [] {
      var n := |items| - 1;
      MapLength(items[..n]);
      MapLacks(items[..n], items[n].0);
    }
  }
}
