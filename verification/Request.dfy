/** Requests of clients: one line, fields separated by semicolons. */
module Request {
  import opened RingQueue
  import opened Strings

  datatype Request =
    | Run(key: int, id: string, timeout: int, memlimit: int, usestdin: bool, cmd: string, args: seq<string>)
    | Interrupt(key: int, id: string)

  /** What a line asks for: nothing valid, a new limit of parallel processes, or a request. */
  datatype Parsed = Nothing | SetParallel(limit: int) | Accepted(request: Request)

  // ---- fields ----

  /** The place of the first semicolon, or the length. */
  function FieldEnd(s: string): (i: nat)
    ensures i <= |s|
  {
    if s == "" || s[0] == ';' then 0 else FieldEnd(s[1..]) + 1
  }

  lemma {:induction false} FieldEndIs(s: string, k: nat)
    requires k <= |s| && ';' !in s[..k] && (k < |s| ==> s[k] == ';')
    ensures FieldEnd(s) == k
    decreases k
  {
    if k > 0 {
      assert s[..k][0] == s[0];
      assert s[1..][..k - 1] == s[..k][1..];
      FieldEndIs(s[1..], k - 1);
    }
  }

  function Fields(s: string): (fs: seq<string>)
    ensures fs != []
  {
    var i := FieldEnd(s);
    if i == |s| then [s] else [s[..i]] + Fields(s[i + 1..])
  }

  function Join(fs: seq<string>): (s: string)
    requires fs != []
  {
    if |fs| == 1 then fs[0] else fs[0] + ";" + Join(fs[1..])
  }

  /** Joining and splitting are inverse on fields without semicolons. */
  lemma {:induction false} FieldsOfJoin(fs: seq<string>)
    requires fs != [] && forall i :: 0 <= i < |fs| ==> ';' !in fs[i]
    ensures Fields(Join(fs)) == fs
    decreases |fs|
  {
    var f := fs[0];
    if |fs| == 1 {
      assert f[..|f|] == f;
      FieldEndIs(f, |f|);
    } else {
      var rest := Join(fs[1..]);
      var s := f + ";" + rest;
      assert s[..|f|] == f && s[|f| + 1..] == rest;
      FieldEndIs(s, |f|);
      FieldsOfJoin(fs[1..]);
    }
  }

  // ---- C strings ----

  /** The text up to the first NUL. */
  function CString(f: string): (s: string) {
    if f == "" || f[0] == '\0' then "" else [f[0]] + CString(f[1..])
  }

  lemma {:induction false} CStringWhole(f: string)
    requires '\0' !in f
    ensures CString(f) == f
    decreases |f|
  {
    if f != "" {
      assert f[0] in f;
      CStringWhole(f[1..]);
    }
  }

  /** What follows a NUL does not matter. */
  lemma {:induction false} CStringCut(f: string, rest: string)
    requires '\0' !in f
    ensures CString(f + "\0" + rest) == f
    decreases |f|
  {
    var s := f + "\0" + rest;
    if f != "" {
      assert f[0] in f && s[1..] == f[1..] + "\0" + rest;
      CStringCut(f[1..], rest);
    }
  }

  /** strncmp(a, b, n) == 0, where both texts are followed by a NUL. */
  predicate SamePrefix(a: string, b: string, n: nat)
    decreases n
  {
    if n == 0 then true
    else if a == "" || a[0] == '\0' then b == "" || b[0] == '\0'
    else b != "" && b[0] == a[0] && SamePrefix(a[1..], b[1..], n - 1)
  }

  /** With a bound that covers the terminator the comparison is equality of C strings. */
  lemma {:induction false} SamePrefixIsEqual(a: string, b: string, n: nat)
    requires n > |a| && '\0' !in b
    ensures SamePrefix(a, b, n) <==> CString(a) == b
    decreases |a|
  {
    if a == "" || a[0] == '\0' {
      if b != "" { assert b[0] in b; }
    } else if b != "" {
      SamePrefixIsEqual(a[1..], b[1..], n - 1);
      assert b == [b[0]] + b[1..];
    }
  }

  function DigitsValue(s: string, acc: int): (n: int) {
    if s != "" && '0' <= s[0] <= '9' then DigitsValue(s[1..], 10 * acc + (s[0] as int - '0' as int)) else acc
  }

  /** atoi, without overflow: blanks, a sign, digits. */
  function Atoi(s: string): (n: int) {
    if s == "" then 0
    else if IsSpace(s[0]) then Atoi(s[1..])
    else if s[0] == '-' then -DigitsValue(s[1..], 0)
    else if s[0] == '+' then DigitsValue(s[1..], 0)
    else DigitsValue(s, 0)
  }

  // ---- parsing ----

  function CStrings(fs: seq<string>): (r: seq<string>)
    ensures |r| == |fs| && forall i :: 0 <= i < |fs| ==> r[i] == CString(fs[i])
  {
    seq(|fs|, i requires 0 <= i < |fs| => CString(fs[i]))
  }

  /** What a line means. */
  function Meaning(line: string, key: int): (p: Parsed) {
    var fs := Fields(line);
    if |fs| == 1 then Nothing
    else if |fs| == 2 then
      if CString(fs[0]) == "parallel" then
        if Atoi(fs[1]) >= 1 then SetParallel(Atoi(fs[1])) else Nothing
      else if CString(fs[0]) == "interrupt" then Accepted(Interrupt(key, CString(fs[1])))
      else Nothing
    else if |fs| < 5 then Nothing
    else if CString(fs[0]) == "run" || CString(fs[0]) == "runstdin" then
      Accepted(Run(key, CString(fs[1]), Atoi(fs[2]), Atoi(fs[3]), CString(fs[0]) == "runstdin",
                   CString(fs[4]), CStrings(fs[5..])))
    else Nothing
  }

  ghost predicate Plain(f: string) { ';' !in f && '\0' !in f }

  /** Fields joined with semicolons come back as kind, identifier, command and arguments. */
  lemma JoinedRunParses(fs: seq<string>, key: int)
    requires |fs| >= 5 && (fs[0] == "run" || fs[0] == "runstdin") && forall i :: 0 <= i < |fs| ==> Plain(fs[i])
    ensures Meaning(Join(fs), key)
         == Accepted(Run(key, fs[1], Atoi(fs[2]), Atoi(fs[3]), fs[0] == "runstdin", fs[4], fs[5..]))
  {
    FieldsOfJoin(fs);
    CStringWhole(fs[0]); CStringWhole(fs[1]); CStringWhole(fs[4]);
    WholeStrings(fs[5..]);
  }

  lemma WholeStrings(fs: seq<string>)
    requires forall i :: 0 <= i < |fs| ==> Plain(fs[i])
    ensures CStrings(fs) == fs
  {
    forall i | 0 <= i < |fs| ensures CString(fs[i]) == fs[i] { CStringWhole(fs[i]); }
  }

  lemma JoinedInterruptParses(id: string, key: int)
    requires Plain(id)
    ensures Meaning(Join(["interrupt", id]), key) == Accepted(Interrupt(key, id))
  {
    var fs := ["interrupt", id];
    FieldsOfJoin(fs);
    CStringWhole("interrupt"); CStringWhole(id);
    hide Fields, Join, CString;
  }

  /** Any other fields ask for nothing. */
  lemma JoinedOtherwise(fs: seq<string>, key: int)
    requires fs != [] && forall i :: 0 <= i < |fs| ==> Plain(fs[i])
    requires !(|fs| >= 5 && (fs[0] == "run" || fs[0] == "runstdin"))
    requires !(|fs| == 2 && (fs[0] == "interrupt" || fs[0] == "parallel"))
    ensures Meaning(Join(fs), key) == Nothing
  {
    FieldsOfJoin(fs);
    CStringWhole(fs[0]);
    hide Fields, Join, CString;
  }

  /** count_semicolons. */
  method CountSemicolons(buf: string) returns (cnt: nat)
    ensures cnt == |Fields(buf)| - 1
  {
    cnt := 0;
    assert buf[0..] == buf;
    for i := 0 to |buf|
      invariant cnt + |Fields(buf[i..])| == |Fields(buf)|
    {
      FieldsFront(buf, i);
      if buf[i] == ';' {
        cnt := cnt + 1;
      }
    }
  }

  /** One more character in front. */
  lemma FieldsFront(buf: string, i: nat)
    requires i < |buf|
    ensures |Fields(buf[i..])| == |Fields(buf[i + 1..])| + if buf[i] == ';' then 1 else 0
  {
    var s, t := buf[i..], buf[i + 1..];
    assert s[1..] == t && s[0] == buf[i];
    if buf[i] != ';' && FieldEnd(t) < |t| {
      assert s[FieldEnd(s) + 1..] == t[FieldEnd(t) + 1..];
    }
  }

  /** copy_up_to_semicolon: the field from begin on, and the place after its semicolon or 0 at the end. */
  method CopyUpToSemicolon(buf: string, begin: nat) returns (field: string, pos: nat)
    requires begin <= |buf|
    ensures pos <= |buf| && field == Fields(buf[begin..])[0]
    ensures pos == 0 ==> Fields(buf[begin..]) == [field]
    ensures pos > 0 ==> pos == begin + |field| + 1 && Fields(buf[begin..]) == [field] + Fields(buf[pos..])
  {
    var i := begin;
    while i < |buf|
      invariant begin <= i <= |buf| && ';' !in buf[begin..i]
    {
      if buf[i] == ';' {
        break;
      }
      i := i + 1;
    }
    field := buf[begin..i];
    FieldTaken(buf, begin, i);
    pos := if i == |buf| then 0 else i + 1;
  }

  lemma FieldTaken(buf: string, begin: nat, i: nat)
    requires begin <= i <= |buf| && ';' !in buf[begin..i] && (i < |buf| ==> buf[i] == ';')
    ensures Fields(buf[begin..]) == if i == |buf| then [buf[begin..i]] else [buf[begin..i]] + Fields(buf[i + 1..])
  {
    var t, k := buf[begin..], i - begin;
    assert t[..k] == buf[begin..i];
    FieldEndIs(t, k);
    if i == |buf| { assert t == buf[begin..i]; } else { assert t[k + 1..] == buf[i + 1..]; }
  }

  /** The rest of a run request, after the kind. */
  method ParseRun(buf: string, pos0: nat, key: int, stdin: bool, numargs: nat) returns (r: Request)
    requires pos0 <= |buf| && |Fields(buf[pos0..])| == numargs + 4
    ensures var fs := Fields(buf[pos0..]);
            r == Run(key, CString(fs[0]), Atoi(fs[1]), Atoi(fs[2]), stdin, CString(fs[3]), CStrings(fs[4..]))
  {
    hide Fields, CString, Atoi, CStrings;
    ghost var fs := Fields(buf[pos0..]);
    var id, timeout, memlimit, cmd, pos;
    id, pos := CopyUpToSemicolon(buf, pos0);
    timeout, pos := CopyUpToSemicolon(buf, pos);
    memlimit, pos := CopyUpToSemicolon(buf, pos);
    ghost var last := Fields(buf[pos..]);
    assert fs == [id, timeout, memlimit] + last;
    cmd, pos := CopyUpToSemicolon(buf, pos);
    var args := ParseArgs(buf, pos, numargs, last);
    r := Run(key, CString(id), Atoi(timeout), Atoi(memlimit), stdin, CString(cmd), args);
  }

  /** The loop over the arguments; last are the fields from the command on. */
  method ParseArgs(buf: string, pos0: nat, numargs: nat, ghost last: seq<string>) returns (args: seq<string>)
    requires |last| == numargs + 1 && pos0 <= |buf|
    requires numargs > 0 ==> last[1..] == Fields(buf[pos0..])
    ensures args == CStrings(last[1..])
  {
    hide Fields, CString;
    var pos: nat := pos0;
    args := [];
    for i := 0 to numargs
      invariant pos <= |buf| && args == CStrings(last[1..i + 1])
      invariant i < numargs ==> last[i + 1..] == Fields(buf[pos..])
    {
      var arg;
      arg, pos := CopyUpToSemicolon(buf, pos);
      assert last[i + 1..][1..] == last[i + 2..] && last[i + 1..][0] == last[i + 1];
      assert last[1..i + 2] == last[1..i + 1] + [arg];
      args := args + [CString(arg)];
    }
    assert last[1..numargs + 1] == last[1..];
  }

  /** parse_request. */
  method ParseRequest(buf: string, key: int) returns (p: Parsed)
    ensures p == Meaning(buf, key)
  {
    hide Fields, CString, Atoi, SamePrefix, CStrings;
    assert buf[0..] == buf;
    var semic: int := CountSemicolons(buf);
    if semic == 0 {
      return Nothing;
    }
    var tmp, pos := CopyUpToSemicolon(buf, 0);
    SamePrefixIsEqual(tmp, "parallel", pos); SamePrefixIsEqual(tmp, "interrupt", pos);
    SamePrefixIsEqual(tmp, "run", pos); SamePrefixIsEqual(tmp, "runstdin", pos);
    if semic == 1 {
      var arg, end := CopyUpToSemicolon(buf, pos);
      if SamePrefix(tmp, "parallel", pos) {
        return if Atoi(arg) >= 1 then SetParallel(Atoi(arg)) else Nothing;
      } else if SamePrefix(tmp, "interrupt", pos) {
        return Accepted(Interrupt(key, CString(arg)));
      }
      return Nothing;
    }
    var numargs := semic - 4;
    if numargs < 0 {
      return Nothing;
    }
    var stdin := false;
    if !SamePrefix(tmp, "run", pos) {
      if SamePrefix(tmp, "runstdin", pos) {
        stdin := true;
      } else {
        return Nothing;
      }
    }
    var r := ParseRun(buf, pos, key, stdin, numargs);
    p := Accepted(r);
  }

  // ---- interrupts ----

  /** A run request that was accepted, with the number that the model gives it: the n-th accepted one has number n. */
  datatype Job = Job(ticket: nat, request: Request)

  /** The requests with another identifier, in order. */
  function Without(q: seq<Job>, id: string): (r: seq<Job>) {
    if q == [] then [] else
      var rest := Without(q[..|q| - 1], id);
      if q[|q| - 1].request.id == id then rest else rest + [q[|q| - 1]]
  }

  lemma WithoutNone(q: seq<Job>, id: string)
    ensures Without(q[..0], id) == []
  {
  }

  lemma WithoutNext(q: seq<Job>, n: nat, id: string)
    requires n < |q|
    ensures Without(q[..n + 1], id) ==
            if q[n].request.id == id then Without(q[..n], id) else Without(q[..n], id) + [q[n]]
  {
    assert q[..n + 1][..n] == q[..n];
  }

  /** The first loop of remove_from_queue: what stays goes to tmp. */
  method Sift(queue: Queue<Job>, tmp: Queue<Job>, id: string)
    requires queue.Valid() && tmp.Valid() && tmp != queue && tmp.data != queue.data && tmp.Contents() == []
    modifies queue, tmp, tmp.data
    ensures queue.Valid() && tmp.Valid() && queue.data == old(queue.data) &&
            (tmp.data == old(tmp.data) || fresh(tmp.data))
    ensures queue.Contents() == [] && tmp.Contents() == Without(old(queue.Contents()), id)
  {
    hide Without, Queue.Contents;
    ghost var all := queue.Contents();
    ghost var done := 0;
    WithoutNone(all, id);
    while !queue.IsEmpty()
      invariant queue.Valid() && tmp.Valid() && queue.data == old(queue.data) &&
                (tmp.data == old(tmp.data) || fresh(tmp.data))
      invariant 0 <= done <= |all| && queue.Contents() == all[done..] && tmp.Contents() == Without(all[..done], id)
      decreases |queue.Contents()|
    {
      var r := queue.Pop();
      assert all[done..][1..] == all[done + 1..];
      WithoutNext(all, done, id);
      if r.request.id != id {
        tmp.Push(r);
      }
      done := done + 1;
    }
    assert all[..done] == all;
  }

  /** The second loop: everything back in order. */
  method MoveBack(tmp: Queue<Job>, queue: Queue<Job>)
    requires queue.Valid() && tmp.Valid() && tmp != queue && tmp.data != queue.data && queue.Contents() == []
    modifies tmp, queue, queue.data
    ensures queue.Valid() && queue.Contents() == old(tmp.Contents()) && tmp.Valid() && tmp.Contents() == []
    ensures queue.data == old(queue.data) || fresh(queue.data)
  {
    hide Queue.Contents;
    ghost var kept := tmp.Contents();
    ghost var moved := 0;
    while !tmp.IsEmpty()
      invariant queue.Valid() && tmp.Valid() && tmp.data == old(tmp.data)
      invariant queue.data == old(queue.data) || fresh(queue.data)
      invariant 0 <= moved <= |kept| && tmp.Contents() == kept[moved..] && queue.Contents() == kept[..moved]
      decreases |tmp.Contents()|
    {
      var r := tmp.Pop();
      assert kept[moved..][1..] == kept[moved + 1..];
      assert kept[..moved + 1] == kept[..moved] + [r];
      queue.Push(r);
      moved := moved + 1;
    }
    assert kept[..moved] == kept;
  }

  /** remove_from_queue: the remaining requests keep their order. */
  method RemoveFromQueue(queue: Queue<Job>, id: string)
    requires queue.Valid()
    modifies queue, queue.data
    ensures queue.Valid() && queue.Contents() == Without(old(queue.Contents()), id)
    ensures queue.data == old(queue.data) || fresh(queue.data)
  {
    var tmp := new Queue<Job>(queue.capacity);
    Sift(queue, tmp, id);
    MoveBack(tmp, queue);
  }
}
