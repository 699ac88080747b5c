/** A client of the server: its descriptor and its two buffers. */
module Connections {
  import opened Framing
  import opened Protocol
  import opened Strings
  import ReadBuf
  import WriteBuf

  /** How far handle_msg has gone in the read buffer, and whether a write was begun and not finished. */
  datatype Mark = Mark(passed: nat, writing: bool)

  /** The first line of the text is passed. */
  ghost function Onward(m: Mark, text: string): (r: Mark) { m.(passed := m.passed + LineEnd(text) + 1) }

  class Connection {
    const fd: int
    const readbuf: ReadBuf.Buffer
    const writebuf: WriteBuf.Buffer
    /** How many bytes of the read buffer belong to lines that were already handled. */
    ghost var passed: nat
    ghost var Repr: set<object>

    ghost predicate Valid()
      reads this, Repr
    {
      && {this, readbuf, writebuf, writebuf.writequeue} <= Repr
      && {readbuf.data, writebuf.writequeue.data} <= Repr
      && readbuf.data as object != writebuf.writequeue.data as object
      && readbuf.Valid() && writebuf.Valid() && passed <= readbuf.len
    }

    /** The connection as the protocol sees it. */
    ghost function Abs(): (c: Client)
      requires Valid()
      reads this, Repr
    {
      Client(readbuf.Contents()[passed..], writebuf.acknowledged, writebuf.Messages())
    }

    ghost function State(): (m: Mark)
      requires Valid()
      reads this, Repr
    {
      Mark(passed, writebuf.isWriting)
    }

    /** Nothing has happened to the connection. */
    twostate predicate Same()
      requires old(Valid())
      reads this, Repr
    {
      Repr == old(Repr) && Valid() && Abs() == old(Abs()) && State() == old(State())
    }

    constructor (fd: int, capacity: int)
      requires 0 < capacity
      ensures Valid() && fresh(Repr) && this.fd == fd && Abs() == Client("", "", []) && State() == Mark(0, false)
    {
      this.fd := fd;
      readbuf := new ReadBuf.Buffer(READ_ONCE);
      writebuf := new WriteBuf.Buffer(capacity);
      passed := 0;
      new;
      Repr := {this, readbuf, readbuf.data, writebuf, writebuf.writequeue, writebuf.writequeue.data};
    }

    /** push_write_data on the client's buffer. */
    method Push(msg: string)
      requires Valid()
      modifies Repr
      ensures Valid() && this in Repr && fresh(Repr - old(Repr))
      ensures Abs() == Send(old(Abs()), msg) && State() == old(State())
    {
      writebuf.Push(msg);
      Repr := Repr + {writebuf.writequeue.data};
    }

    /** A write that takes n bytes of the current message, or all of it. */
    method WriteSome(n: nat) returns (k: nat)
      requires Valid() && writebuf.CanWrite() && writebuf.HasWriteData()
      modifies Repr
      ensures Valid() && this in Repr && Repr == old(Repr) && old(Abs()).pending != []
      ensures k == Smaller(n, |old(Abs()).pending[0]|) && Abs() == Wrote(old(Abs()), k) && State() == old(State())
    {
      k := writebuf.WriteSome(n);
    }

    /** A write that fails: prepare_write was called, have_written is not. */
    method WriteFails()
      requires Valid() && writebuf.CanWrite() && writebuf.HasWriteData()
      modifies Repr
      ensures Valid() && this in Repr && Repr == old(Repr)
      ensures Abs() == old(Abs()) && State() == Mark(old(passed), true)
    {
      var _ := writebuf.PrepareWrite();
    }

    /** prepare_read, read and have_read. */
    method Receive(chunk: string)
      requires Valid() && |chunk| <= READ_ONCE && passed == 0
      modifies Repr
      ensures Valid() && this in Repr && fresh(Repr - old(Repr))
      ensures Abs() == Fed(old(Abs()), chunk) && State() == old(State())
    {
      ReadBuf.Receive(readbuf, chunk);
      Repr := Repr + {readbuf.data};
    }

    /** One line was handled. */
    ghost method Pass()
      requires Valid() && HasLine(Abs().unread)
      modifies this`passed
      ensures Valid() && this in Repr && Repr == old(Repr) && Abs() == Passed(old(Abs()))
      ensures State() == Onward(old(State()), old(Abs()).unread)
    {
      passed := passed + LineEnd(Abs().unread) + 1;
    }

    /** have_taken, for the lines that were handled. */
    method DropPassed(size: int)
      requires Valid() && size == passed
      modifies Repr
      ensures Valid() && this in Repr && Repr == old(Repr)
      ensures Abs() == old(Abs()) && State() == Mark(0, old(writebuf.isWriting))
    {
      hide WriteBuf.Buffer.Valid, WriteBuf.Buffer.Messages;
      readbuf.HaveTaken(size);
      passed := 0;
      assert readbuf.Contents()[0..] == readbuf.Contents();
    }

    /** The inner loop of handle_msg: the first line behind the handled ones, up to max, the end of the contents. */
    method NextLine(start: int, max: int) returns (cur: int, line: string)
      requires Valid() && start == passed && max == start + |Abs().unread|
      ensures var text := Abs().unread;
              if HasLine(text) then line == FirstLine(text) && cur == start + LineEnd(text) else cur == max
    {
      ghost var rest := Abs().unread;
      cur := readbuf.NextNewline(start, max);
      line := readbuf.data[start..cur];
      assert rest == readbuf.data[start..max];
      assert rest[..cur - start] == line;
      LineEndIs(rest, cur - start);
    }

    lemma FlagMeansPending()
      requires Valid()
      ensures writebuf.HasWriteData() <==> Abs().pending != []
    {
      writebuf.DataMeansMessages();
    }
  }
}
