/** The clients of the server and the descriptors it watches. */
module Network {
  import Framing
  import opened Protocol
  import opened ProtocolRounds
  import opened Connections
  import opened KeyedList
  import PollList
  import opened Strings

  class Network {
    const clients: List<Connection?>
    const poll: PollList.List
    const sock: int
    const pipe: int
    /** The list of clients as a map. */
    ghost var table: map<int, Connection?>
    ghost var Repr: set<object>

    /** The objects of the network itself. */
    ghost function Frame(): (own: set<object>)
      reads this, clients, poll
    {
      {this, clients, poll, clients.key, clients.data, poll.data}
    }

    ghost predicate Owned()
      reads this, Repr
    {
      && {this, clients, poll} <= Repr && Frame() <= Repr
      && clients.data as object != poll.data as object && clients.key as object != poll.data as object
      && clients.Valid() && poll.Valid()
      && sock != pipe && sock != PollList.MARK && pipe != PollList.MARK
    }

    /** The clients are good connections with nothing in common. */
    ghost predicate Members()
      reads this, Repr
    {
      && {clients, poll} <= Repr
      && (forall fd :: fd in table ==>
            && table[fd] != null && table[fd] in Repr && table[fd] in table[fd].Repr && table[fd].Repr <= Repr
            && table[fd].Repr !! Frame() && table[fd].Valid() && table[fd].fd == fd)
      && (forall fd :: fd in table ==> fd != PollList.MARK && fd != sock && fd != pipe)
      && (forall f, g :: f in table && g in table && f != g ==> table[f].Repr !! table[g].Repr)
    }

    ghost predicate Listed()
      reads this, Repr
    {
      Owned() && Members() && Distinct(clients.Items()) && AsMap(clients.Items()) == table
    }

    /** The connections as the protocol sees them. */
    ghost function Conns(): (m: map<int, Client>)
      requires Members()
      reads this, Repr
    {
      map fd | fd in table :: table[fd].Abs()
    }

    ghost function Marks(): (m: map<int, Mark>)
      requires Members()
      reads this, Repr
    {
      map fd | fd in table :: table[fd].State()
    }

    /** The list holds the clients, and the poll list one entry for each, which asks for output exactly when bytes
        are pending; besides, the listening socket and the pipe are watched. */
    ghost predicate Valid()
      reads this, Repr
    {
      Listed() && Members() && PollList.Once(poll.Entries()) &&
        PollList.Flags(poll.Entries()) == Wanted(Conns(), sock, pipe)
    }

    ghost predicate Has(c: Connection)
      reads this
    {
      c.fd in table && table[c.fd] == c
    }

    constructor (sock: int, pipe: int, limit: int)
      requires sock != pipe && sock != PollList.MARK && pipe != PollList.MARK && limit >= 1
      ensures Valid() && fresh(Repr) && Conns() == map[] && this.sock == sock && this.pipe == pipe
    {
      this.sock, this.pipe := sock, pipe;
      clients := new List<Connection?>(limit);
      var watched := PollList.NewList(sock, pipe, 2 + limit);
      poll := watched;
      table := map[];
      new;
      hide PollList.Flags, PollList.Once;
      Repr := {this, clients, clients.key, clients.data, poll, poll.data};
    }

    /** list_lookup(clients, key). */
    method Find(key: int) returns (c: Connection?)
      requires Valid()
      ensures c == null <==> key !in table
      ensures c != null ==> key in table && table[key] == c && Has(c)
    {
      var r := clients.Find(key);
      c := match r case Missing => null case Found(x) => x;
    }

    // ---- frames ----

    /** A method of one client leaves the list, the poll list and all other clients alone. */
    twostate lemma OneChanged(c: Connection)
      requires old(Listed()) && old(Has(c)) && table == old(table) && Repr == old(Repr) + c.Repr
      requires fresh(c.Repr - old(c.Repr)) && c in c.Repr && c.Valid()
      requires forall o :: o in old(Repr) && o !in old(c.Repr) && o != this ==> unchanged(o)
      ensures Listed() && poll.Entries() == old(poll.Entries()) && Has(c) && Members()
      ensures Conns() == old(Conns())[c.fd := c.Abs()] && Marks() == old(Marks())[c.fd := c.State()]
    {
      hide Connection.Valid, Connection.Abs, Connection.State;
      assert old(c.Repr) !! old(Frame());
      forall f | f in table && f != c.fd ensures table[f].Same() {
        assert old(table[f].Repr) !! old(c.Repr);
      }
    }

    /** A change of the poll list leaves the clients alone. */
    twostate lemma PollChanged()
      requires old(Listed()) && table == old(table) && Repr == old(Repr) + {poll.data} && poll.Valid()
      requires poll.data == old(poll.data) || fresh(poll.data)
      requires forall o :: o in old(Repr) && o != this && o != poll && o != old(poll.data) ==> unchanged(o)
      ensures Listed() && Members() && Conns() == old(Conns()) && Marks() == old(Marks())
    {
      hide Connection.Valid, Connection.Abs, Connection.State;
      forall f | f in table ensures table[f].Same() {
        assert old(table[f].Repr) !! old(Frame());
      }
    }

    /** The list gets a new client. */
    twostate lemma ListGrown(c: Connection)
      requires old(Listed()) && old(Members()) && c.fd !in old(table) && table == old(table)[c.fd := c]
      requires c in c.Repr && c.Repr !! old(Repr) && c.Repr == old(c.Repr) && c.Valid()
      requires c.fd != PollList.MARK && c.fd != sock && c.fd != pipe
      requires Repr == old(Repr) + {clients.key, clients.data} + c.Repr && clients.Valid()
      requires (clients.key == old(clients.key) && clients.data == old(clients.data))
            || (fresh(clients.key) && fresh(clients.data))
      requires forall o :: o in old(Repr) && o !in {this, clients, old(clients.key), old(clients.data)} ==> unchanged(o)
      requires Distinct(clients.Items()) && AsMap(clients.Items()) == table
      ensures Listed() && Members() && poll.Entries() == old(poll.Entries())
      ensures Conns() == old(Conns())[c.fd := c.Abs()] && Marks() == old(Marks())[c.fd := c.State()]
    {
      hide Connection.Valid, Connection.Abs, Connection.State, Distinct, AsMap;
      forall f | f in old(table) ensures table[f].Same() {
        assert old(table[f].Repr) !! old(Frame());
      }
      GrownMembers(c);
    }

    twostate lemma GrownMembers(c: Connection)
      requires old(Listed()) && old(Members()) && c.fd !in old(table) && table == old(table)[c.fd := c]
      requires c in c.Repr && c.Repr !! old(Repr) && c.Repr == old(c.Repr) && c.Valid()
      requires c.fd != PollList.MARK && c.fd != sock && c.fd != pipe
      requires Repr == old(Repr) + {clients.key, clients.data} + c.Repr && clients.Valid()
      requires (clients.key == old(clients.key) && clients.data == old(clients.data))
            || (fresh(clients.key) && fresh(clients.data))
      requires forall o :: o in old(Repr) && o !in {this, clients, old(clients.key), old(clients.data)} ==> unchanged(o)
      requires forall f :: f in old(table) ==> table[f].Repr == old(table[f].Repr) && table[f].Valid()
      ensures Members()
    {
      hide Connection.Valid, Distinct, AsMap;
      forall f | f in old(table) ensures old(table[f].Repr) !! Frame() && old(table[f].Repr) !! c.Repr {
        assert old(table[f].Repr) !! old(Frame());
      }
    }

    /** The list loses a client. */
    twostate lemma ListShrunk(fd: int)
      requires old(Listed()) && table == old(table) - {fd} && Repr == old(Repr) && clients.Valid()
      requires clients.key == old(clients.key) && clients.data == old(clients.data)
      requires forall o :: o in old(Repr) && o !in {this, clients, old(clients.key), old(clients.data)} ==> unchanged(o)
      requires Distinct(clients.Items()) && AsMap(clients.Items()) == table
      ensures Listed() && Members() && poll.Entries() == old(poll.Entries())
      ensures Conns() == old(Conns()) - {fd} && Marks() == old(Marks()) - {fd}
    {
      hide Connection.Valid, Connection.Abs, Connection.State;
      forall f | f in table ensures table[f].Same() {
        assert old(table[f].Repr) !! old(Frame());
      }
    }

    // ---- handlers ----

    method PushTo(c: Connection, msg: string)
      requires Listed() && Members() && Has(c)
      modifies Repr
      ensures Listed() && Members() && fresh(Repr - old(Repr)) && table == old(table)
      ensures Conns() == old(Conns())[c.fd := Send(old(Conns())[c.fd], msg)] && Marks() == old(Marks())
      ensures poll.Entries() == old(poll.Entries())
    {
      hide Connection.Valid, Connection.Abs, Connection.State;
      ghost var marks := Marks();
      c.Push(msg);
      Repr := Repr + c.Repr;
      OneChanged(c);
      assert marks[c.fd := c.State()] == marks;
    }

    method AskOutput(fd: int)
      requires Listed() && PollList.Once(poll.Entries()) && fd in table
      modifies Repr
      ensures Listed() && Members() && Repr == old(Repr) && table == old(table)
      ensures Conns() == old(Conns()) && Marks() == old(Marks())
      ensures PollList.Once(poll.Entries())
      ensures var flags := old(PollList.Flags(poll.Entries()));
              PollList.Flags(poll.Entries()) == if fd in flags then flags[fd := true] else flags
      ensures PollList.Kept(old(poll.Entries()), poll.Entries(), {})
    {
      poll.AskOutput(fd);
      PollChanged();
    }

    /** queue_write: the message joins the client's buffer, and the poll list asks for output. */
    method QueueWrite(c: Connection, msg: string)
      requires Valid() && Has(c)
      modifies Repr
      ensures Valid() && fresh(Repr - old(Repr)) && table == old(table)
      ensures Conns() == old(Conns())[c.fd := Send(old(Conns())[c.fd], msg)] && Marks() == old(Marks())
      ensures PollList.Kept(old(poll.Entries()), poll.Entries(), {})
    {
      hide Listed, Members, Connection.Valid, Connection.Abs, Connection.State, PollList.Once, PollList.Flags, Wanted;
      WantedSend(Conns(), sock, pipe, c.fd, msg);
      PushTo(c, msg);
      AskOutput(c.fd);
    }

    method Enlist(c: Connection)
      requires Listed() && c.fd !in table && c.fd != PollList.MARK && c.fd != sock && c.fd != pipe
      requires c.Valid() && c in c.Repr && c.Repr !! Repr
      modifies Repr
      ensures Listed() && Members() && fresh(Repr - old(Repr) - c.Repr) && c.Valid()
      ensures poll.Entries() == old(poll.Entries())
      ensures table == old(table)[c.fd := c] && Conns() == old(Conns())[c.fd := c.Abs()] && c.Abs() == old(c.Abs())
      ensures Marks() == old(Marks())[c.fd := c.State()] && c.State() == old(c.State())
    {
      hide Connection.Valid, Connection.Abs, Connection.State;
      clients.Append(c.fd, c);
      table := table[c.fd := c];
      Repr := Repr + {clients.key, clients.data} + c.Repr;
      ListGrown(c);
    }

    method AddClient(fd: int, parallel: int)
      requires Listed() && Members() && fd !in table && fd != PollList.MARK && fd != sock && fd != pipe && parallel >= 1
      modifies Repr
      ensures Listed() && Members() && fresh(Repr - old(Repr)) && poll.Entries() == old(poll.Entries())
      ensures table.Keys == old(table.Keys) + {fd} && Conns() == old(Conns())[fd := Client("", "", [])]
      ensures Marks() == old(Marks())[fd := Mark(0, false)]
    {
      hide Listed, Members, Connection.Abs;
      var c := new Connection(fd, parallel);
      Enlist(c);
    }

    method Watch(fd: int)
      requires Listed() && PollList.Once(poll.Entries()) && fd != PollList.MARK && fd !in PollList.Flags(poll.Entries())
      modifies Repr
      ensures Listed() && Members() && fresh(Repr - old(Repr)) && table == old(table)
      ensures Conns() == old(Conns()) && Marks() == old(Marks())
      ensures PollList.Once(poll.Entries())
      ensures PollList.Flags(poll.Entries()) == old(PollList.Flags(poll.Entries()))[fd := false]
      ensures poll.Entries() == old(poll.Entries()) + [PollList.PollFd(fd, false, PollList.IDLE)]
    {
      poll.Add(fd);
      Repr := Repr + {poll.data};
      PollChanged();
    }

    method AddWatched(fd: int, parallel: int)
      requires Listed() && Members() && PollList.Once(poll.Entries()) && fd !in table && fd != PollList.MARK
      requires fd != sock && fd != pipe && fd !in PollList.Flags(poll.Entries()) && parallel >= 1
      modifies Repr
      ensures Listed() && Members() && fresh(Repr - old(Repr)) && PollList.Once(poll.Entries())
      ensures Conns() == old(Conns())[fd := Client("", "", [])] && Marks() == old(Marks())[fd := Mark(0, false)]
      ensures PollList.Flags(poll.Entries()) == old(PollList.Flags(poll.Entries()))[fd := false]
      ensures poll.Entries() == old(poll.Entries()) + [PollList.PollFd(fd, false, PollList.IDLE)]
    {
      hide Listed, Members, Conns, Marks, PollList.Once, PollList.Flags;
      AddClient(fd, parallel);
      Watch(fd);
    }

    /** server_accept_client: a new client with empty buffers, watched for input. */
    method Accept(fd: int, parallel: int)
      requires Valid() && fd !in Conns() && fd != PollList.MARK && fd != sock && fd != pipe && parallel >= 1
      modifies Repr
      ensures Valid() && fresh(Repr - old(Repr))
      ensures Conns() == old(Conns())[fd := Client("", "", [])]
      ensures Marks() == old(Marks())[fd := Mark(0, false)]
      ensures poll.Entries() == old(poll.Entries()) + [PollList.PollFd(fd, false, PollList.IDLE)]
    {
      assert fd !in table;
      WantedAccept(Conns(), sock, pipe, fd);
      hide Listed, Members, Conns, Marks, PollList.Once, PollList.Flags, Wanted;
      AddWatched(fd, parallel);
    }

    method DropClient(fd: int)
      requires Listed()
      modifies Repr
      ensures Listed() && Members() && Repr == old(Repr) && poll.Entries() == old(poll.Entries())
      ensures table == old(table) - {fd} && Conns() == old(Conns()) - {fd} && Marks() == old(Marks()) - {fd}
    {
      clients.Remove(fd);
      table := table - {fd};
      ListShrunk(fd);
    }

    method Unwatch(fd: int)
      requires Listed() && PollList.Once(poll.Entries()) && fd != PollList.MARK
      modifies Repr
      ensures Listed() && Members() && Repr == old(Repr) && table == old(table)
      ensures Conns() == old(Conns()) && Marks() == old(Marks())
      ensures PollList.Once(poll.Entries())
      ensures PollList.Flags(poll.Entries()) == old(PollList.Flags(poll.Entries())) - {fd}
      ensures PollList.Kept(old(poll.Entries()), poll.Entries(), {fd})
    {
      poll.Remove(fd);
      PollChanged();
    }

    /** close_client: the client leaves the list, and its entry is marked. */
    method Close(c: Connection)
      requires Valid() && Has(c)
      modifies Repr
      ensures Valid() && Repr == old(Repr) && c.fd in old(Conns())
      ensures Conns() == old(Conns()) - {c.fd} && Marks() == old(Marks()) - {c.fd}
      ensures PollList.Kept(old(poll.Entries()), poll.Entries(), {c.fd})
    {
      assert c.fd != sock && c.fd != pipe && c.fd != PollList.MARK;
      WantedClose(Conns(), sock, pipe, c.fd);
      hide Listed, Members, Connection.Valid, Connection.Abs, Connection.State, PollList.Once, PollList.Flags, Wanted;
      DropClient(c.fd);
      Unwatch(c.fd);
    }

    method TakeFrom(c: Connection, n: nat) returns (k: nat)
      requires Listed() && Members() && Has(c) && c.writebuf.CanWrite() && Conns()[c.fd].pending != []
      modifies Repr
      ensures Listed() && Members() && Repr == old(Repr) && table == old(table) && poll.Entries() == old(poll.Entries())
      ensures k == Smaller(n, |old(Conns())[c.fd].pending[0]|)
      ensures Conns() == old(Conns())[c.fd := Wrote(old(Conns())[c.fd], k)] && Marks() == old(Marks())
      ensures c.writebuf.HasWriteData() <==> Conns()[c.fd].pending != []
    {
      hide Connection.Valid, Connection.Abs, Connection.State;
      ghost var marks := Marks();
      c.FlagMeansPending();
      k := c.WriteSome(n);
      OneChanged(c);
      assert marks[c.fd := c.State()] == marks;
      c.FlagMeansPending();
    }

    method AskNoOutput(i: int)
      requires Listed() && PollList.Once(poll.Entries())
      requires 0 <= i < |poll.Entries()| && poll.Entries()[i].fd != PollList.MARK
      modifies Repr
      ensures Listed() && Members() && Repr == old(Repr) && table == old(table)
      ensures Conns() == old(Conns()) && Marks() == old(Marks())
      ensures PollList.Once(poll.Entries())
      ensures PollList.Flags(poll.Entries()) == old(PollList.Flags(poll.Entries()))[old(poll.Entries())[i].fd := false]
      ensures PollList.Kept(old(poll.Entries()), poll.Entries(), {old(poll.Entries())[i].fd})
    {
      poll.AskNoOutput(i);
      PollChanged();
    }

    /** write_to_client for the entry at place i, with a write that takes up to n bytes. */
    method WriteToClient(c: Connection, i: int, n: nat) returns (k: nat)
      requires Valid() && Has(c) && 0 <= i < |poll.Entries()| && poll.Entries()[i].fd == c.fd
      requires c.writebuf.CanWrite() && Conns()[c.fd].pending != []
      modifies Repr
      ensures Valid() && Repr == old(Repr) && table == old(table) && k == Smaller(n, |old(Conns())[c.fd].pending[0]|)
      ensures Conns() == old(Conns())[c.fd := Wrote(old(Conns())[c.fd], k)] && Marks() == old(Marks())
      ensures PollList.Kept(old(poll.Entries()), poll.Entries(), {c.fd})
    {
      assert c.fd != PollList.MARK;
      ghost var conns := Conns();
      hide Listed, Members, Connection.Valid, Connection.Abs, Connection.State, PollList.Once, PollList.Flags, Wanted;
      k := TakeFrom(c, n);
      WantedWrote(conns, sock, pipe, c.fd, k);
      if !c.writebuf.HasWriteData() {
        AskNoOutput(i);
      }
    }

    method FeedTo(c: Connection, chunk: string)
      requires Listed() && Members() && Has(c) && Marks()[c.fd].passed == 0 && |chunk| <= Framing.READ_ONCE
      modifies Repr
      ensures Listed() && Members() && fresh(Repr - old(Repr)) && table == old(table)
      ensures poll.Entries() == old(poll.Entries())
      ensures Conns() == old(Conns())[c.fd := Fed(old(Conns())[c.fd], chunk)] && Marks() == old(Marks())
    {
      hide Connection.Abs, Distinct, AsMap;
      ghost var marks := Marks();
      c.Receive(chunk);
      Repr := Repr + c.Repr;
      OneChanged(c);
      assert marks[c.fd := c.State()] == marks;
    }

    /** prepare_read, read and have_read. */
    method Receive(c: Connection, chunk: string)
      requires Valid() && Has(c) && Marks()[c.fd].passed == 0 && |chunk| <= Framing.READ_ONCE
      modifies Repr
      ensures Valid() && fresh(Repr - old(Repr)) && table == old(table) && poll.Entries() == old(poll.Entries())
      ensures Conns() == old(Conns())[c.fd := Fed(old(Conns())[c.fd], chunk)] && Marks() == old(Marks())
    {
      WantedUnread(Conns(), sock, pipe, c.fd, Fed(Conns()[c.fd], chunk));
      hide Listed, Members, Connection.Valid, Connection.Abs, Connection.State, PollList.Once, PollList.Flags, Wanted;
      FeedTo(c, chunk);
    }

    /** write_to_client with a write that fails. */
    method WriteFails(c: Connection)
      requires Valid() && Has(c) && c.writebuf.CanWrite() && Conns()[c.fd].pending != []
      modifies Repr
      ensures Valid() && Repr == old(Repr) && table == old(table) && Conns() == old(Conns())
      ensures poll.Entries() == old(poll.Entries())
      ensures Marks() == old(Marks())[c.fd := old(Marks())[c.fd].(writing := true)]
    {
      hide PollList.Once, PollList.Flags, Wanted;
      ghost var conns := Conns();
      c.FlagMeansPending();
      c.WriteFails();
      OneChanged(c);
      assert conns[c.fd := c.Abs()] == conns;
    }

    /** The next line of the client, as handle_msg finds it. */
    method NextLine(c: Connection, start: int, max: int) returns (cur: int, line: string)
      requires Valid() && Has(c) && start == Marks()[c.fd].passed && max == start + |Conns()[c.fd].unread|
      ensures var text := Conns()[c.fd].unread;
              if HasLine(text) then line == FirstLine(text) && cur == start + Framing.LineEnd(text) else cur == max
    {
      cur, line := c.NextLine(start, max);
    }

    /** client->readbuf->len, before any line is handled. */
    method Length(c: Connection) returns (n: int)
      requires Valid() && Has(c) && Marks()[c.fd].passed == 0
      ensures n == |Conns()[c.fd].unread|
    {
      assert c.Valid();
      n := c.readbuf.len;
    }

    ghost method PassLine(c: Connection)
      requires Listed() && Members() && Has(c) && HasLine(Conns()[c.fd].unread)
      modifies Repr
      ensures Listed() && Members() && Repr == old(Repr) && table == old(table) && poll.Entries() == old(poll.Entries())
      ensures Conns() == old(Conns())[c.fd := Passed(old(Conns())[c.fd])]
      ensures Marks() == old(Marks())[c.fd := Onward(old(Marks())[c.fd], old(Conns())[c.fd].unread)]
    {
      hide Connection.Valid, Connection.Abs, Connection.State, Passed, Onward;
      c.Pass();
      OneChanged(c);
    }

    /** The first line of the client is handled. */
    ghost method Pass(c: Connection)
      requires Valid() && Has(c) && HasLine(Conns()[c.fd].unread)
      modifies Repr
      ensures Valid() && Repr == old(Repr) && table == old(table) && poll.Entries() == old(poll.Entries())
      ensures Conns() == old(Conns())[c.fd := Passed(old(Conns())[c.fd])]
      ensures Marks() == old(Marks())[c.fd := Onward(old(Marks())[c.fd], old(Conns())[c.fd].unread)]
    {
      WantedUnread(Conns(), sock, pipe, c.fd, Passed(Conns()[c.fd]));
      hide Listed, Members, Conns, Marks, PollList.Once, PollList.Flags, Wanted, Passed, Onward;
      PassLine(c);
    }

    /** have_taken for the handled lines. */
    method DropPassed(c: Connection, size: int)
      requires Valid() && Has(c) && size == Marks()[c.fd].passed
      modifies Repr
      ensures Valid() && Repr == old(Repr) && table == old(table) && Conns() == old(Conns())
      ensures poll.Entries() == old(poll.Entries()) && Marks() == old(Marks())[c.fd := old(Marks())[c.fd].(passed := 0)]
    {
      hide PollList.Once, PollList.Flags, Wanted;
      ghost var conns := Conns();
      c.DropPassed(size);
      OneChanged(c);
      assert conns[c.fd := c.Abs()] == conns;
    }

    /** poll_list_clean. */
    method Clean()
      requires Valid()
      modifies Repr
      ensures Valid() && Repr == old(Repr) && table == old(table)
      ensures Conns() == old(Conns()) && Marks() == old(Marks())
      ensures forall e :: e in poll.Entries() ==> e.fd != PollList.MARK
    {
      poll.Clean();
      PollChanged();
    }

    /** poll. */
    method Report(answers: seq<PollList.Ready>)
      requires Valid() && |answers| == |poll.Entries()|
      modifies Repr
      ensures Valid() && Repr == old(Repr) && table == old(table)
      ensures Conns() == old(Conns()) && Marks() == old(Marks())
      ensures |poll.Entries()| == |answers|
      ensures forall j :: 0 <= j < |answers| ==>
              poll.Entries()[j] == PollList.Answered(old(poll.Entries())[j], answers[j])
    {
      poll.Report(answers);
      PollChanged();
    }

    /** Every entry is marked or belongs to the socket, the pipe or a client, and asks for output exactly when bytes
        for that client are pending. */
    lemma EntryOwner(i: int)
      requires Valid() && 0 <= i < |poll.Entries()| && poll.Entries()[i].fd != PollList.MARK
      ensures var e := poll.Entries()[i];
              if e.fd == sock || e.fd == pipe then e.fd !in Conns() && !e.out
              else e.fd in Conns() && (e.out <==> Conns()[e.fd].pending != [])
    {
      PollList.EntryFlag(poll.Entries(), i);
    }

    /** Every client has exactly one entry in the poll list, and that entry asks for output exactly when the client's
        write buffer has data. */
    lemma OneEntry(c: Connection)
      requires Valid() && Has(c)
      ensures exists i :: 0 <= i < |poll.Entries()|
                       && PollList.EntryOf(poll.Entries(), i, c.fd, c.writebuf.HasWriteData())
    {
      c.FlagMeansPending();
      assert c.fd in PollList.Flags(poll.Entries());
      PollList.FlagEntry(poll.Entries(), c.fd);
    }
  }

  lemma {:induction false} WantedSend(conns: map<int, Client>, sock: int, pipe: int, fd: int, msg: string)
    requires fd in conns
    ensures var w := Wanted(conns, sock, pipe);
            fd in w && Wanted(conns[fd := Send(conns[fd], msg)], sock, pipe) == w[fd := true]
  {
  }

  lemma {:induction false} WantedWrote(conns: map<int, Client>, sock: int, pipe: int, fd: int, k: nat)
    requires fd in conns && CanTake(conns[fd], k)
    ensures var c := Wrote(conns[fd], k);
            Wanted(conns[fd := c], sock, pipe) == Wanted(conns, sock, pipe)[fd := c.pending != []]
    ensures Wanted(conns, sock, pipe)[fd := true] == Wanted(conns, sock, pipe)
  {
  }

  lemma {:induction false} WantedUnread(conns: map<int, Client>, sock: int, pipe: int, fd: int, c: Client)
    requires fd in conns && c.pending == conns[fd].pending
    ensures Wanted(conns[fd := c], sock, pipe) == Wanted(conns, sock, pipe)
  {
  }

  lemma {:induction false} WantedAccept(conns: map<int, Client>, sock: int, pipe: int, fd: int)
    requires fd !in conns && fd != sock && fd != pipe
    ensures fd !in Wanted(conns, sock, pipe)
    ensures Wanted(conns[fd := Client("", "", [])], sock, pipe) == Wanted(conns, sock, pipe)[fd := false]
  {
  }

  lemma {:induction false} WantedClose(conns: map<int, Client>, sock: int, pipe: int, fd: int)
    requires fd != sock && fd != pipe
    ensures Wanted(conns - {fd}, sock, pipe) == Wanted(conns, sock, pipe) - {fd}
  {
  }
}
