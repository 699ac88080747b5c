/** The list of watched file descriptors; closed ones are marked and swept later. */
module PollList {

  /** What poll reports about a descriptor. */
  datatype Ready = Ready(error: bool, output: bool, input: bool)

  const IDLE := Ready(false, false, false)

  /** A watched descriptor, whether output is awaited besides input, and what poll last reported; -1 marks a
      removed entry. */
  datatype PollFd = PollFd(fd: int, out: bool, revents: Ready)

  const MARK := -1

  /** The watched descriptors. */
  ghost function Fds(s: seq<PollFd>): (fds: set<int>) { set i | 0 <= i < |s| && s[i].fd != MARK :: s[i].fd }

  /** No descriptor has two entries. */
  ghost predicate Once(s: seq<PollFd>) { forall i, j :: 0 <= i < j < |s| && s[i].fd != MARK ==> s[i].fd != s[j].fd }

  ghost predicate AsksOutput(s: seq<PollFd>, fd: int) { exists i :: 0 <= i < |s| && s[i].fd == fd && s[i].out }

  /** For every watched descriptor, whether output is awaited. */
  ghost function Flags(s: seq<PollFd>): (m: map<int, bool>) { map fd | fd in Fds(s) :: AsksOutput(s, fd) }

  lemma {:induction false} FlagsAdd(s: seq<PollFd>, e: PollFd)
    requires Once(s) && e.fd != MARK && e.fd !in Fds(s)
    ensures Once(s + [e]) && Flags(s + [e]) == Flags(s)[e.fd := e.out]
  {
    var t := s + [e];
    assert t[|s|] == e;
    forall fd ensures fd in Fds(t) <==> fd in Fds(s) || fd == e.fd {
      if fd in Fds(s) {
        var i :| 0 <= i < |s| && s[i].fd == fd;
        assert t[i].fd == fd;
      }
    }
    forall fd | fd in Fds(t) ensures AsksOutput(t, fd) == if fd == e.fd then e.out else AsksOutput(s, fd) {
      if AsksOutput(s, fd) {
        var i :| 0 <= i < |s| && s[i].fd == fd && s[i].out;
        assert t[i].fd == fd;
      }
    }
  }

  /** An entry gets other data for the same descriptor. */
  lemma {:induction false} FlagsSet(s: seq<PollFd>, i: nat, e: PollFd)
    requires Once(s) && i < |s| && s[i].fd == e.fd != MARK
    ensures Once(s[i := e]) && Flags(s[i := e]) == Flags(s)[e.fd := e.out] && e.fd in Flags(s)
  {
    var t := s[i := e];
    assert t[i] == e && s[i].fd in Fds(s);
    assert forall k :: 0 <= k < |s| ==> t[k].fd == s[k].fd;
    forall fd | fd in Fds(s) ensures AsksOutput(t, fd) == if fd == e.fd then e.out else AsksOutput(s, fd) {
      if fd != e.fd && AsksOutput(s, fd) {
        var k :| 0 <= k < |s| && s[k].fd == fd && s[k].out;
        assert t[k].fd == fd;
      }
    }
  }

  lemma {:induction false} FlagsMark(s: seq<PollFd>, i: nat, e: PollFd)
    requires Once(s) && i < |s| && s[i].fd != MARK && e.fd == MARK
    ensures Once(s[i := e]) && Flags(s[i := e]) == Flags(s) - {s[i].fd}
  {
    var t := s[i := e];
    forall fd ensures fd in Fds(t) <==> fd in Fds(s) && fd != s[i].fd {
      if fd in Fds(s) && fd != s[i].fd {
        var k :| 0 <= k < |s| && s[k].fd == fd;
        assert t[k].fd == fd;
      }
    }
    forall fd | fd in Fds(t) ensures AsksOutput(t, fd) == AsksOutput(s, fd) {
      if AsksOutput(s, fd) {
        var k :| 0 <= k < |s| && s[k].fd == fd && s[k].out;
        assert t[k].fd == fd;
      }
    }
  }

  /** The last entry moved over a marked one. */
  lemma {:induction false} FlagsMove(s: seq<PollFd>, i: nat)
    requires Once(s) && i < |s| && s[i].fd == MARK
    ensures var t := s[i := s[|s| - 1]][..|s| - 1]; Once(t) && Flags(t) == Flags(s)
  {
    var n := |s| - 1;
    var t := s[i := s[n]][..n];
    forall k | 0 <= k < |s| && s[k].fd != MARK
      ensures 0 <= (if k == n then i else k) < n && t[if k == n then i else k] == s[k] {}
    forall k | 0 <= k < n ensures t[k] == s[if k == i then n else k] {}
    forall fd ensures fd in Fds(t) <==> fd in Fds(s) {
      if fd in Fds(s) {
        var k :| 0 <= k < |s| && s[k].fd == fd;
        assert t[if k == n then i else k].fd == fd;
      }
    }
    forall fd | fd in Fds(t) ensures AsksOutput(t, fd) == AsksOutput(s, fd) {
      if AsksOutput(s, fd) {
        var k :| 0 <= k < |s| && s[k].fd == fd && s[k].out;
        assert t[if k == n then i else k].fd == fd;
      }
    }
  }

  lemma {:induction false} EntryFlag(s: seq<PollFd>, i: nat)
    requires Once(s) && i < |s| && s[i].fd != MARK
    ensures s[i].fd in Flags(s) && Flags(s)[s[i].fd] == s[i].out
  {
    assert s[i].fd in Fds(s);
  }

  /** The entry at place i is the only one of the descriptor, and asks for output or not. */
  ghost predicate EntryOf(s: seq<PollFd>, i: int, fd: int, out: bool)
    requires 0 <= i < |s|
  {
    s[i].fd == fd && s[i].out == out && forall j :: 0 <= j < |s| && j != i ==> s[j].fd != fd
  }

  lemma {:induction false} FlagEntry(s: seq<PollFd>, fd: int)
    requires Once(s) && fd in Flags(s)
    ensures exists i :: 0 <= i < |s| && EntryOf(s, i, fd, Flags(s)[fd])
  {
    var i :| 0 <= i < |s| && s[i].fd == fd;
    EntryFlag(s, i);
    assert EntryOf(s, i, fd, Flags(s)[fd]);
  }

  /** The reports do not matter. */
  lemma {:induction false} FlagsReported(s: seq<PollFd>, t: seq<PollFd>)
    requires |s| == |t| && forall i :: 0 <= i < |s| ==> t[i].fd == s[i].fd && t[i].out == s[i].out
    ensures Flags(t) == Flags(s) && (Once(s) ==> Once(t))
  {
    forall fd ensures AsksOutput(t, fd) == AsksOutput(s, fd) {
      if AsksOutput(t, fd) {
        var i :| 0 <= i < |t| && t[i].fd == fd && t[i].out;
        assert s[i].fd == fd;
      }
    }
    assert Fds(t) == Fds(s);
  }

  /** The report stands, and output is still asked for if it was. */
  predicate EntryKept(a: PollFd, b: PollFd) { b.fd == a.fd && b.revents == a.revents && (a.out ==> b.out) }

  /** All reports stand, except for some descriptors. */
  ghost predicate Kept(s: seq<PollFd>, t: seq<PollFd>, skip: set<int>) {
    |s| == |t| && forall j :: 0 <= j < |s| && s[j].fd !in skip ==> EntryKept(s[j], t[j])
  }

  lemma {:induction false} KeptSelf(s: seq<PollFd>, skip: set<int>)
    ensures Kept(s, s, skip)
    ensures forall t :: Kept(s, t, {}) ==> Kept(s, t, skip)
  {
  }

  lemma {:induction false} KeptTwice(s: seq<PollFd>, t: seq<PollFd>, u: seq<PollFd>, skip: set<int>)
    requires Kept(s, t, skip) && Kept(t, u, skip)
    ensures Kept(s, u, skip)
  {
  }

  /** The report of an entry can be acted on: the entry is not marked, output is reported only where it is awaited,
      and for the pipe only if there are bytes in it. */
  predicate CanServe(e: PollFd, pipe: int, bytes: int) {
    e.revents != IDLE ==> e.fd != MARK && (e.revents.output ==> e.out) && (e.fd == pipe ==> bytes > 0)
  }

  /** From place i on the reports of poll stand; entries that came later have none. */
  ghost predicate Ahead(polled: seq<PollFd>, now: seq<PollFd>, i: nat) {
    && |polled| <= |now| && (forall j :: i <= j < |polled| ==> EntryKept(polled[j], now[j]))
    && (forall j :: |polled| <= j < |now| ==> now[j].revents == IDLE)
  }

  lemma {:induction false} AheadNext(polled: seq<PollFd>, s: seq<PollFd>, t: seq<PollFd>, i: nat)
    requires Ahead(polled, s, i) && i < |s| && Once(s) && (t == s || (s[i].fd != MARK && Kept(s, t, {s[i].fd})))
    requires i < |polled| || t == s
    ensures Ahead(polled, t, i + 1)
  {
  }

  lemma {:induction false} AheadMore(polled: seq<PollFd>, s: seq<PollFd>, e: PollFd, i: nat)
    requires Ahead(polled, s, i) && e.revents == IDLE
    ensures Ahead(polled, s + [e], i + 1)
  {
  }

  /** The entries that are not marked. */
  ghost function Live(s: seq<PollFd>): (m: multiset<PollFd>) {
    if s == [] then multiset{} else
      var last := s[|s| - 1];
      if last.fd == MARK then Live(s[..|s| - 1]) else Live(s[..|s| - 1]) + multiset{last}
  }

  lemma {:induction false} LiveAppend(s: seq<PollFd>, t: seq<PollFd>)
    ensures Live(s + t) == Live(s) + Live(t)
    decreases |t|
  {
    if t == [] {
      assert s + t == s;
    } else {
      assert (s + t)[..|s + t| - 1] == s + t[..|t| - 1];
      LiveAppend(s, t[..|t| - 1]);
    }
  }

  lemma {:induction false} LiveOne(e: PollFd)
    ensures Live([e]) == if e.fd == MARK then multiset{} else multiset{e}
  {
    assert [e][..0] == [];
  }

  /** Replacing one entry. */
  lemma {:induction false} LiveUpdate(s: seq<PollFd>, i: nat, e: PollFd)
    requires i < |s|
    ensures Live(s[i := e]) + Live([s[i]]) == Live(s) + Live([e])
  {
    var a, b := s[..i], s[i + 1..];
    assert s == a + [s[i]] + b && s[i := e] == a + [e] + b;
    LiveAppend(a + [s[i]], b); LiveAppend(a, [s[i]]);
    LiveAppend(a + [e], b); LiveAppend(a, [e]);
  }

  /** The last entry moved over a marked one: the same live entries. */
  lemma {:induction false} MoveLastLive(s: seq<PollFd>, i: nat)
    requires i < |s| && s[i].fd == MARK
    ensures Live(s[i := s[|s| - 1]][..|s| - 1]) == Live(s)
  {
    var n := |s| - 1;
    var last := s[n];
    var t := s[i := last][..n];
    LiveUpdate(s, i, last);
    LiveOne(s[i]);
    assert s[i := last] == t + [last];
    LiveAppend(t, [last]);
    Cancel(Live(t), Live(s), Live([last]));
  }

  lemma Cancel(a: multiset<PollFd>, b: multiset<PollFd>, c: multiset<PollFd>)
    requires a + c == b + c
    ensures a == b
  {
    forall e ensures a[e] == b[e] { assert (a + c)[e] == (b + c)[e]; }
  }

  function Answered(e: PollFd, answer: Ready): (r: PollFd)
    ensures r.fd == e.fd && r.out == e.out
  {
    if e.fd == MARK then e.(revents := IDLE) else e.(revents := answer.(output := answer.output && e.out))
  }

  class List {
    var data: array<PollFd>
    var num: int

    ghost predicate Valid()
      reads this
    {
      0 <= num <= data.Length && 0 < data.Length
    }

    ghost function Entries(): (s: seq<PollFd>)
      requires Valid()
      reads this, data
    {
      data[..num]
    }

    constructor (capacity: int)
      requires 0 < capacity
      ensures Valid() && Entries() == [] && Flags(Entries()) == map[] && fresh(data)
    {
      data := new PollFd[capacity];
      num := 0;
    }

    /** add_to_poll_list: a descriptor that is watched for input. */
    method Add(fd: int)
      requires Valid() && Once(Entries()) && fd != MARK && fd !in Flags(Entries())
      modifies this, data
      ensures Valid() && Entries() == old(Entries()) + [PollFd(fd, false, IDLE)] && (data == old(data) || fresh(data))
      ensures Once(Entries()) && Flags(Entries()) == old(Flags(Entries()))[fd := false]
    {
      FlagsAdd(Entries(), PollFd(fd, false, IDLE));
      ghost var s := Entries();
      if num == data.Length {
        var bigger := new PollFd[2 * data.Length];
        forall i | 0 <= i < num { bigger[i] := data[i]; }
        data := bigger;
      }
      data[num] := PollFd(fd, false, IDLE);
      num := num + 1;
      assert Entries() == s + [PollFd(fd, false, IDLE)];
    }

    /** poll_list_lookup: the first entry for fd, or -1. */
    method Lookup(fd: int) returns (i: int)
      requires Valid()
      ensures -1 <= i < num
      ensures i == -1 ==> forall j :: 0 <= j < num ==> data[j].fd != fd
      ensures i >= 0 ==> data[i].fd == fd && forall j :: 0 <= j < i ==> data[j].fd != fd
    {
      i := 0;
      while i < num
        invariant 0 <= i <= num && forall j :: 0 <= j < i ==> data[j].fd != fd
      {
        if data[i].fd == fd {
          return;
        }
        i := i + 1;
      }
      i := -1;
    }

    /** entry->events |= POLLOUT, for the entry of fd if there is one. */
    method AskOutput(fd: int)
      requires Valid() && Once(Entries()) && fd != MARK
      modifies data
      ensures Valid() && Once(Entries())
      ensures Flags(Entries()) == if fd in old(Flags(Entries())) then old(Flags(Entries()))[fd := true]
                                  else old(Flags(Entries()))
      ensures Kept(old(Entries()), Entries(), {})
    {
      ghost var s := Entries();
      var i := Lookup(fd);
      if i != -1 {
        FlagsSet(s, i, s[i].(out := true));
        data[i] := data[i].(out := true);
        assert Entries() == s[i := s[i].(out := true)];
      }
    }

    /** entry->events &= ~POLLOUT, for the entry at place i. */
    method AskNoOutput(i: int)
      requires Valid() && Once(Entries()) && 0 <= i < num && data[i].fd != MARK
      modifies data
      ensures Valid() && Once(Entries())
      ensures Flags(Entries()) == old(Flags(Entries()))[old(data[i].fd) := false]
      ensures Kept(old(Entries()), Entries(), {old(Entries())[i].fd})
    {
      ghost var s := Entries();
      FlagsSet(s, i, s[i].(out := false));
      data[i] := data[i].(out := false);
      assert Entries() == s[i := s[i].(out := false)];
    }

    /** poll_list_remove: marks the entry of fd. */
    method Remove(fd: int)
      requires Valid() && Once(Entries()) && fd != MARK
      modifies data
      ensures Valid() && Once(Entries()) && Flags(Entries()) == old(Flags(Entries())) - {fd}
      ensures Kept(old(Entries()), Entries(), {fd})
    {
      ghost var s := Entries();
      var i := Lookup(fd);
      if i != -1 {
        FlagsMark(s, i, PollFd(MARK, s[i].out, IDLE));
        data[i] := data[i].(fd := MARK, revents := IDLE);
        assert Entries() == s[i := PollFd(MARK, s[i].out, IDLE)];
      }
    }

    /** poll: reports for all entries; output only where it is awaited, nothing for marked ones. */
    method Report(answers: seq<Ready>)
      requires Valid() && Once(Entries()) && |answers| == num
      modifies data
      ensures Valid() && Once(Entries()) && Flags(Entries()) == old(Flags(Entries()))
      ensures forall j :: 0 <= j < num ==> data[j] == Answered(old(data[j]), answers[j])
    {
      ghost var s := Entries();
      forall j | 0 <= j < num { data[j] := Answered(data[j], answers[j]); }
      FlagsReported(s, Entries());
    }

    /** poll_list_clean: sweeps the marked entries and keeps all others. */
    method Clean()
      requires Valid() && Once(Entries())
      modifies this`num, data
      ensures Valid() && data == old(data) && num <= old(num)
      ensures Once(Entries()) && Flags(Entries()) == old(Flags(Entries()))
      ensures forall e :: e in Entries() ==> e.fd != MARK
      ensures multiset(Entries()) == old(Live(Entries()))
    {
      var i := 0;
      while i < num
        invariant 0 <= i <= num <= old(num) <= data.Length
        invariant forall j :: 0 <= j < i ==> data[j].fd != MARK
        invariant Live(Entries()) == old(Live(Entries()))
        invariant Once(Entries()) && Flags(Entries()) == old(Flags(Entries()))
        decreases num - i
      {
        if data[i].fd == MARK {
          MoveLast(i);
        } else {
          i := i + 1;
        }
      }
      AllLive(Entries());
    }

    /** The last entry replaces a marked one. */
    method MoveLast(i: int)
      requires Valid() && 0 <= i < num && data[i].fd == MARK && Once(Entries())
      modifies this`num, data
      ensures Valid() && Once(Entries()) && Flags(Entries()) == old(Flags(Entries()))
      ensures num == old(num) - 1 && Live(Entries()) == old(Live(Entries()))
      ensures forall j :: 0 <= j < i ==> data[j] == old(data[j])
    {
      ghost var s := Entries();
      MoveLastLive(s, i);
      FlagsMove(s, i);
      data[i] := data[num - 1];
      num := num - 1;
      assert Entries() == s[i := s[num]][..num];
    }
  }

  /** The list that the server starts with: the listening socket and the pipe. */
  method NewList(sock: int, pipe: int, capacity: int) returns (p: List)
    requires sock != pipe && sock != MARK && pipe != MARK && 0 < capacity
    ensures p.Valid() && fresh(p) && fresh(p.data) && Once(p.Entries())
    ensures Flags(p.Entries()) == map[sock := false, pipe := false]
  {
    p := new List(capacity);
    p.Add(sock);
    p.Add(pipe);
  }

  lemma {:induction false} AllLive(s: seq<PollFd>)
    requires forall i :: 0 <= i < |s| ==> s[i].fd != MARK
    ensures Live(s) == multiset(s)
    decreases |s|
  {
    if s != [] {
      AllLive(s[..|s| - 1]);
      assert s == s[..|s| - 1] + [s[|s| - 1]];
    }
  }
}
