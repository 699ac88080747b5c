/** The write buffer of a client: the message being written and a queue of further ones. */
module WriteBuf {
  import opened RingQueue
  import opened Strings

  datatype Message = Null | Data(text: string)

  class Buffer {
    var data: Message
    var len: int
    var pointer: int
    var isWriting: bool
    const writequeue: Queue<string>
    /** All bytes pushed so far, and all bytes that writes have acknowledged. */
    ghost var pushed: string
    ghost var acknowledged: string

    /** The queue is used only behind a current message. */
    ghost predicate Shape()
      reads this, writequeue, writequeue.data
    {
      && writequeue.Valid()
      && (data == Null ==> writequeue.Contents() == [] && !isWriting)
      && (data.Data? ==> len == |data.text| && 0 <= pointer <= len)
    }

    ghost predicate Valid()
      reads this, writequeue, writequeue.data
    {
      Shape() && acknowledged + Pending() == pushed
    }

    /** What is left of the current message, and the further ones. */
    ghost function Messages(): (ms: seq<string>)
      requires writequeue.Valid()
      reads this, writequeue, writequeue.data
    {
      match data
      case Null => []
      case Data(text) => if 0 <= pointer <= |text| then [text[pointer..]] + writequeue.Contents() else []
    }

    /** The bytes still to be written. */
    ghost function Pending(): (s: string)
      requires writequeue.Valid()
      reads this, writequeue, writequeue.data
    {
      Flatten(Messages())
    }

    constructor (capacity: int)
      requires 0 < capacity
      ensures Valid() && !isWriting && pushed == "" && acknowledged == "" && Messages() == []
      ensures fresh(writequeue) && fresh(writequeue.data)
    {
      data, len, pointer, isWriting := Null, 0, 0, false;
      writequeue := new Queue(capacity);
      pushed, acknowledged := "", "";
    }

    predicate CanWrite()
      reads this
    {
      !isWriting
    }

    predicate HasWriteData()
      reads this
    {
      data != Null
    }

    /** There is a current message exactly while there are messages. */
    lemma DataMeansMessages()
      requires Shape()
      ensures HasWriteData() <==> Messages() != []
    {
    }

    /** push_write_data. */
    method Push(msg: string)
      requires Valid()
      modifies this, writequeue, writequeue.data
      ensures Valid() && isWriting == old(isWriting) && Messages() == old(Messages()) + [msg]
      ensures pushed == old(pushed) + msg && acknowledged == old(acknowledged)
      ensures writequeue.data == old(writequeue.data) || fresh(writequeue.data)
    {
      hide Flatten;
      ghost var ms := Messages();
      if HasWriteData() {
        writequeue.Push(msg);
      } else {
        data := Data(msg);
        pointer := 0;
        len := |msg|;
      }
      assert Messages() == ms + [msg];
      FlattenSnoc(ms, msg);
      Regroup(acknowledged, Flatten(ms), msg);
      pushed := pushed + msg;
    }

    /** prepare_write: the part of the current message that is to be written. */
    method PrepareWrite() returns (buf: string)
      requires Valid() && CanWrite() && HasWriteData()
      modifies this`isWriting
      ensures Valid() && isWriting && HasWriteData() && Messages() == old(Messages())
      ensures buf == Messages()[0]
    {
      isWriting := true;
      buf := data.text[pointer..];
    }

    /** have_written: size bytes of the current message were written; at its end the next message is taken. */
    method HaveWritten(size: int)
      requires Valid() && isWriting && 0 <= size && pointer + size <= len
      modifies this, writequeue
      ensures Valid() && !isWriting && pushed == old(pushed) && writequeue.data == old(writequeue.data)
      ensures old(Messages()) != [] && size <= |old(Messages())[0]|
      ensures acknowledged == old(acknowledged) + old(Messages())[0][..size]
      ensures Messages() == Advanced(old(Messages()), size)
    {
      hide Flatten;
      ghost var ms := Messages();
      AdvancedFlatten(ms, size);
      Advance(size);
      Regroup(acknowledged, ms[0][..size], Flatten(Advanced(ms, size)));
      acknowledged := acknowledged + ms[0][..size];
    }

    method Advance(size: int)
      requires Shape() && data.Data? && 0 <= size && pointer + size <= len
      modifies this`data, this`len, this`pointer, this`isWriting, writequeue
      ensures Shape() && !isWriting && writequeue.data == old(writequeue.data)
      ensures Messages() == Advanced(old(Messages()), size)
    {
      ghost var ms := Messages();
      isWriting := false;
      if pointer + size < len {
        pointer := pointer + size;
        assert Messages() == [ms[0][size..]] + ms[1..];
      } else {
        assert ms[1..] == writequeue.Contents();
        TakeNext();
      }
    }

    /** The current message is done: the next one is taken from the queue. */
    method TakeNext()
      requires writequeue.Valid() && !isWriting
      modifies this`data, this`len, this`pointer, writequeue
      ensures Shape() && writequeue.data == old(writequeue.data)
      ensures Messages() == old(writequeue.Contents())
    {
      pointer := 0;
      if !writequeue.IsEmpty() {
        var next := writequeue.Pop();
        data := Data(next);
        len := |next|;
        assert next[0..] == next;
      } else {
        data := Null;
        len := 0;
      }
    }

    /** write_to_client, for a write that takes n bytes, or all that it is offered. */
    method WriteSome(n: nat) returns (k: nat)
      requires Valid() && CanWrite() && HasWriteData()
      modifies this, writequeue
      ensures Valid() && !isWriting && pushed == old(pushed) && writequeue.data == old(writequeue.data)
      ensures old(Messages()) != [] && k == Smaller(n, |old(Messages())[0]|)
      ensures acknowledged == old(acknowledged) + old(Messages())[0][..k]
      ensures Messages() == Advanced(old(Messages()), k)
    {
      var buf := PrepareWrite();
      k := Smaller(n, |buf|);
      HaveWritten(k);
    }

    /** What the receiver has is always a prefix of what was pushed; the rest is exactly what is pending. */
    lemma AcknowledgedIsPrefix()
      requires Valid()
      ensures acknowledged <= pushed && pushed[|acknowledged|..] == Pending()
    {
    }
  }

  /** One thing that happens to a client's buffer: a message, or a write that takes up to n bytes. */
  datatype Action = PushMessage(msg: string) | Write(n: nat)

  /** All bytes that a run of actions pushes. */
  function AllPushed(actions: seq<Action>): (s: string) {
    if actions == [] then "" else
      var n := |actions| - 1;
      AllPushed(actions[..n]) + match actions[n] case PushMessage(m) => m case Write(_) => ""
  }

  lemma NonePushed(actions: seq<Action>)
    ensures actions[..0] == [] && AllPushed([]) == ""
  {
  }

  lemma OneMorePushed(actions: seq<Action>, i: nat)
    requires i < |actions|
    ensures AllPushed(actions[..i + 1])
         == AllPushed(actions[..i]) + match actions[i] case PushMessage(m) => m case Write(_) => ""
  {
    assert actions[..i + 1][..i] == actions[..i];
  }

  /** A write, after which the flag for output goes down when there is no message left. */
  method WriteOut(b: Buffer, n: nat) returns (ghost sent: string, pollOut: bool)
    requires b.Valid() && b.CanWrite() && b.HasWriteData()
    modifies b, b.writequeue
    ensures b.Valid() && !b.isWriting && b.pushed == old(b.pushed) && b.writequeue.data == old(b.writequeue.data)
    ensures b.acknowledged == old(b.acknowledged) + sent && (pollOut <==> b.HasWriteData())
  {
    hide Flatten, Advanced;
    b.DataMeansMessages();
    ghost var next := b.Messages()[0];
    var k := b.WriteSome(n);
    sent := next[..k];
    pollOut := b.HasWriteData();
  }

  /** Any run of pushes and partial writes: the written bytes are a prefix of the pushed ones, and
      the flag for output is up exactly while there is a message. */
  method Drive(b: Buffer, actions: seq<Action>) returns (ghost written: string, pollOut: bool)
    requires b.Valid() && b.pushed == "" && b.acknowledged == "" && !b.HasWriteData()
    modifies b, b.writequeue, b.writequeue.data
    ensures b.Valid() && written + b.Pending() == AllPushed(actions)
    ensures pollOut <==> b.HasWriteData()
  {
    assert !b.isWriting;
    hide Flatten, Buffer.Shape, AllPushed;
    written, pollOut := "", false;
    assert actions[..0] == [] && AllPushed([]) == "" by { NonePushed(actions); }
    var i := 0;
    while i < |actions|
      invariant 0 <= i <= |actions| && b.Valid() && !b.isWriting
      invariant b.writequeue.data == old(b.writequeue.data) || fresh(b.writequeue.data)
      invariant b.pushed == AllPushed(actions[..i]) && b.acknowledged == written
      invariant pollOut <==> b.HasWriteData()
    {
      OneMorePushed(actions, i);
      match actions[i] {
        case PushMessage(msg) =>
          b.Push(msg);
          pollOut := true;
          b.DataMeansMessages();
        case Write(n) =>
          assert b.pushed + "" == b.pushed;
          if pollOut {
            ghost var sent;
            sent, pollOut := WriteOut(b, n);
            written := written + sent;
          }
      }
      i := i + 1;
    }
    assert actions[..i] == actions;
  }
}
