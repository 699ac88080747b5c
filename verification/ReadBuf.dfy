/** The read buffer of a client, and the loop that takes complete lines out of it. */
module ReadBuf {
  import opened Framing

  class Buffer {
    var data: array<char>
    var len: int

    ghost predicate Valid()
      reads this
    {
      0 <= len <= data.Length
    }

    ghost function Contents(): (s: string)
      requires Valid()
      reads this, data
    {
      data[..len]
    }

    constructor (capacity: int)
      requires 0 < capacity
      ensures Valid() && Contents() == "" && fresh(data)
    {
      len := 0;
      data := new char[capacity];
    }

    /** prepare_read: room for size more bytes. */
    method Prepare(size: int)
      requires Valid() && 0 <= size
      modifies this`data
      ensures Valid() && len + size <= data.Length && Contents() == old(Contents())
      ensures data == old(data) || fresh(data)
    {
      if len + size > data.Length {
        var bigger := new char[(data.Length + size) * 2];
        forall i | 0 <= i < len { bigger[i] := data[i]; }
        data := bigger;
      }
    }

    /** have_read, after the bytes of chunk were put behind the contents. */
    method HaveRead(chunk: string)
      requires Valid() && len + |chunk| <= data.Length && data[len..len + |chunk|] == chunk
      modifies this`len
      ensures Valid() && Contents() == old(Contents()) + chunk
    {
      len := len + |chunk|;
    }

    /** have_taken: drops the first size bytes. */
    method HaveTaken(size: int)
      requires Valid() && 0 <= size <= len
      modifies this`len, data
      ensures Valid() && data == old(data) && Contents() == old(Contents())[size..]
    {
      ghost var s := Contents();
      var n := len - size;
      var i := 0;
      while i < n
        invariant 0 <= i <= n && len == n + size == |s| <= data.Length
        invariant forall k :: 0 <= k < i ==> data[k] == s[size + k]
        invariant forall k :: i <= k < len ==> data[k] == s[k]
      {
        data[i] := data[i + size];
        i := i + 1;
      }
      len := n;
    }

    /** The loop of handle_msg: each complete line, and where the unfinished one starts. */
    method ScanLines() returns (lines: seq<string>, start: int)
      requires Valid()
      ensures 0 <= start <= len
      ensures lines == Lines(Contents()) && Contents()[start..] == Tail(Contents())
    {
      hide Lines, Tail, LineEnd;
      ghost var s := Contents();
      var cur, max := 0, len;
      start := 0;
      lines := [];
      assert s[0..] == s;
      while cur < max
        invariant 0 <= cur == start <= max
        invariant Lines(s) == lines + Lines(s[start..]) && Tail(s) == Tail(s[start..])
      {
        cur := NextNewline(cur, max);
        var line := data[start..cur];
        assert forall k :: 0 <= k < |line| ==> line[k] == s[start + k];
        assert line == s[start..cur];
        if cur == max {
          assert s[start..] == s[start..cur];
          break;
        }
        NextLine(s, start, cur, lines);
        lines := lines + [line];
        cur := cur + 1;
        start := cur;
      }
      if cur == start { assert s[start..] == ""; }
      LastPart(s, start);
    }

    /** handle_msg: hands out the complete lines, then drops them. */
    method TakeLines() returns (lines: seq<string>)
      requires Valid()
      modifies this`len, data
      ensures Valid() && data == old(data)
      ensures lines == Lines(old(Contents())) && Contents() == Tail(old(Contents()))
    {
      var start;
      lines, start := ScanLines();
      if start > 0 {
        HaveTaken(start);
      } else {
        assert Contents()[0..] == Contents();
      }
    }

    /** The inner loop: the next newline from cur on, or max. */
    method NextNewline(cur0: int, max: int) returns (cur: int)
      requires Valid() && 0 <= cur0 <= max <= len
      ensures cur0 <= cur <= max && '\n' !in data[cur0..cur] && (cur < max ==> data[cur] == '\n')
    {
      cur := cur0;
      while cur < max
        invariant cur0 <= cur <= max && '\n' !in data[cur0..cur]
      {
        if data[cur] == '\n' {
          break;
        }
        cur := cur + 1;
      }
    }
  }

  /** One line taken off. */
  lemma NextLine(s: string, start: nat, cur: nat, lines: seq<string>)
    requires start <= cur < |s| && '\n' !in s[start..cur] && s[cur] == '\n'
    ensures lines + Lines(s[start..]) == lines + [s[start..cur]] + Lines(s[cur + 1..])
    ensures Tail(s[start..]) == Tail(s[cur + 1..])
  {
    var t, k := s[start..], cur - start;
    assert t[..k] == s[start..cur] && t[k + 1..] == s[cur + 1..];
    LineEndIs(t, k);
  }

  /** No more newline. */
  lemma LastPart(s: string, start: nat)
    requires start <= |s| && '\n' !in s[start..]
    ensures Lines(s[start..]) == [] && Tail(s[start..]) == s[start..]
  {
    NoLineEnd(s[start..]);
  }

  /** The reading of read_on_client: the operating system puts a chunk behind the contents. */
  method Receive(b: Buffer, chunk: string)
    requires b.Valid() && |chunk| <= READ_ONCE
    modifies b, b.data
    ensures b.Valid() && (b.data == old(b.data) || fresh(b.data)) && b.Contents() == old(b.Contents()) + chunk
  {
    b.Prepare(READ_ONCE);
    ghost var s := b.Contents();
    forall i | 0 <= i < |chunk| { b.data[b.len + i] := chunk[i]; }
    assert |b.Contents()| == |s| && forall i :: 0 <= i < |s| ==> b.Contents()[i] == s[i];
    assert b.Contents() == s;
    assert b.data[b.len..b.len + |chunk|] == chunk;
    b.HaveRead(chunk);
  }

  /** read_on_client for one chunk. */
  method ReadChunk(b: Buffer, chunk: string) returns (lines: seq<string>)
    requires b.Valid() && |chunk| <= READ_ONCE
    modifies b, b.data
    ensures b.Valid() && (b.data == old(b.data) || fresh(b.data))
    ensures lines == Lines(old(b.Contents()) + chunk) && b.Contents() == Tail(old(b.Contents()) + chunk)
  {
    Receive(b, chunk);
    lines := b.TakeLines();
  }

  /** A whole connection: whatever the chunks, the lines of the stream come out, and its tail stays. */
  method ReadAll(b: Buffer, chunks: seq<string>) returns (lines: seq<string>)
    requires b.Valid() && b.Contents() == "" && forall i :: 0 <= i < |chunks| ==> |chunks[i]| <= READ_ONCE
    modifies b, b.data
    ensures b.Valid() && lines == Lines(Concat(chunks)) && b.Contents() == Tail(Concat(chunks))
  {
    lines := [];
    var i := 0;
    while i < |chunks|
      invariant 0 <= i <= |chunks| && b.Valid() && (b.data == old(b.data) || fresh(b.data))
      invariant (lines, b.Contents()) == Feed(chunks[..i])
    {
      assert chunks[..i + 1][..i] == chunks[..i];
      var more := ReadChunk(b, chunks[i]);
      lines := lines + more;
      i := i + 1;
    }
    assert chunks[..i] == chunks;
    FeedIsWhole(chunks);
  }
}
