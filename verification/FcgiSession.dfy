/**
 One request with its output and error streams, used in any order: what ends
 up on the connection is a sequence of whole records that carries exactly the
 bytes put, each stream's end, and one end of the request.
 */
module FcgiSession {
  import opened Bytes
  import opened FcgiRecord
  import opened FcgiWriter

  datatype Stream = Stdout | Stderr

  datatype Op =
    | Put(to: Stream, str: bytes)
    | PutByte(to: Stream, c: byte)
    | Flush(to: Stream)
    | Close(to: Stream)
    | SetExitStatus(status: int)

  /** What the operations mean: the bytes accepted on each stream, which streams
      are still open, and the status the request would end with. */
  datatype Meaning = Meaning(out: bytes, err: bytes, outOpen: bool, errOpen: bool, status: int)

  function Accept(m: Meaning, to: Stream, str: bytes): Meaning {
    match to
    case Stdout => if m.outOpen then m.(out := m.out + str) else m
    case Stderr => if m.errOpen then m.(err := m.err + str) else m
  }

  function Step(m: Meaning, op: Op): Meaning {
    match op
    case Put(to, str) => Accept(m, to, str)
    case PutByte(to, c) => Accept(m, to, [c])
    case Flush(_) => m
    case Close(to) => if to.Stdout? then m.(outOpen := false) else m.(errOpen := false)
    case SetExitStatus(status) => if m.outOpen || m.errOpen then m.(status := status) else m
  }

  function Steps(m: Meaning, ops: seq<Op>): Meaning
    decreases |ops|
  {
    if ops == [] then m else Steps(Step(m, ops[0]), ops[1..])
  }

  /** The parts of a stream that has ended: nonempty parts that add up to `put`,
      then an empty one; an error stream without content has no part at all. */
  ghost predicate Ended(parts: seq<bytes>, kind: byte, put: bytes) {
    if kind == STDERR && put == [] then parts == []
    else parts != [] && parts[|parts| - 1] == [] && Chunks(parts[..|parts| - 1])
         && Concat(parts[..|parts| - 1]) == put
  }

  /** A record of the request, padded with zeros to a multiple of eight bytes. */
  ghost predicate Member(r: Record, id: nat) {
    && r.id == id && r.kind in {STDOUT, STDERR, END_REQUEST}
    && (|r.content| + |r.padding|) % 8 == 0 && |r.padding| < 8 && r.padding == Zeros(|r.padding|)
  }

  /** A finished request on the wire. */
  ghost predicate Finished(rs: seq<Record>, id: nat, m: Meaning) {
    && Members(rs, id)
    && Ended(Parts(rs, STDOUT), STDOUT, m.out)
    && Ended(Parts(rs, STDERR), STDERR, m.err)
    && rs != [] && rs[|rs| - 1] == EndRecord(id, m.status, REQUEST_COMPLETE)
    && |Parts(rs, END_REQUEST)| == 1
  }

  lemma {:induction false} PartsData(kind: byte, id: nat, cs: seq<bytes>, k: byte)
    ensures Parts(DataRecords(kind, id, cs), k) == if k == kind then cs else []
  {
    if cs != [] {
      PartsData(kind, id, cs[1..], k);
      assert DataRecords(kind, id, cs)[1..] == DataRecords(kind, id, cs[1..]);
      assert [cs[0]] + cs[1..] == cs;
    }
  }

  /** How the parts sent for one stream relate to the bytes put on it. */
  ghost predicate StreamAt(w: Writer, parts: seq<bytes>, put: bytes, open: bool)
    reads w, w.buff
  {
    if open then
      && w.Open() && Chunks(parts) && Concat(parts) + w.Pending() == put
      && (w.isAnythingWritten <==> parts != [])
    else w.Closed() && Ended(parts, w.kind, put)
  }

  ghost predicate Members(rs: seq<Record>, id: nat) {
    forall i :: 0 <= i < |rs| ==> Member(rs[i], id)
  }

  /** The request is ended, once and last, exactly when no writer is open. */
  ghost predicate EndAt(rs: seq<Record>, id: nat, open: bool, status: int) {
    if open then Parts(rs, END_REQUEST) == []
    else rs != [] && rs[|rs| - 1] == EndRecord(id, status, REQUEST_COMPLETE) && |Parts(rs, END_REQUEST)| == 1
  }

  /** A stream and its sibling on the same request. */
  ghost predicate Siblings(w: Writer, o: Writer)
  {
    w != o && w.buff != o.buff && w.req == o.req && {w.kind, o.kind} == {STDOUT, STDERR}
  }

  /** The invariant of a request whose streams were put `pw` and `po`. */
  ghost predicate Pair(w: Writer, pw: bytes, ow: bool, o: Writer, po: bytes, oo: bool, status: int)
    reads w, w.buff, o, o.buff, w.req
  {
    && Siblings(w, o) && w.req.Valid() && Members(w.req.sent, w.req.requestId)
    && w.req.nWriters == (if ow then 1 else 0) + (if oo then 1 else 0)
    && StreamAt(w, Parts(w.req.sent, w.kind), pw, ow)
    && StreamAt(o, Parts(w.req.sent, o.kind), po, oo)
    && EndAt(w.req.sent, w.req.requestId, ow || oo, status)
    && (ow || oo ==> w.req.appStatus == status)
  }

  lemma PairSymmetric(w: Writer, pw: bytes, ow: bool, o: Writer, po: bytes, oo: bool, status: int)
    requires Pair(w, pw, ow, o, po, oo, status)
    ensures Pair(o, po, oo, w, pw, ow, status)
  {
  }

  /** What the parts of every kind become when chunks are framed. */
  lemma Framed(sent0: seq<Record>, kind: byte, id: nat, cs: seq<bytes>, k: byte)
    ensures var sent := sent0 + DataRecords(kind, id, cs);
      && Parts(sent, k) == Parts(sent0, k) + (if k == kind then cs else [])
      && (Members(sent0, id) && kind in {STDOUT, STDERR} ==> Members(sent, id))
  {
    hide Member, Parts;
    PartsAppend(sent0, DataRecords(kind, id, cs), k);
    PartsData(kind, id, cs, k);
    if kind in {STDOUT, STDERR} {
      forall i | 0 <= i < |cs| ensures Member(DataRecords(kind, id, cs)[i], id) { DataMember(kind, id, cs[i]); }
    }
  }

  lemma DataMember(kind: byte, id: nat, content: bytes)
    requires kind in {STDOUT, STDERR}
    ensures Member(DataRecord(kind, id, content), id)
  {
  }

  lemma CloseMembers(kind: byte, id: nat, status: int)
    requires kind in {STDOUT, STDERR}
    ensures Member(Record(kind, id, [], []), id) && Member(EndRecord(id, status, REQUEST_COMPLETE), id)
  {
  }

  /** Accepted content: the stream's parts and pending bytes still add up, and
      nothing else changed. */
  lemma FedPair(w: Writer, pw: bytes, o: Writer, po: bytes, oo: bool, status: int,
                sent0: seq<Record>, any0: bool, pending0: bytes, str: bytes, cs: seq<bytes>)
    requires Siblings(w, o) && w.Fed(sent0, any0, pending0 + str, cs)
    requires Members(sent0, w.req.requestId) && Parts(sent0, END_REQUEST) == []
    requires Chunks(Parts(sent0, w.kind)) && Concat(Parts(sent0, w.kind)) + pending0 == pw
    requires any0 <==> Parts(sent0, w.kind) != []
    requires StreamAt(o, Parts(sent0, o.kind), po, oo)
    requires w.req.nWriters == 1 + (if oo then 1 else 0) && w.req.appStatus == status
    ensures Pair(w, pw + str, true, o, po, oo, status)
  {
    hide EncodeAll, AllWellFormed, DataRecords, Parts, Members, Concat, Chunks;
    FedStream(w, pw, Parts(sent0, w.kind), sent0, any0, pending0, str, cs);
    Framed(sent0, w.kind, w.req.requestId, cs, w.kind);
    Framed(sent0, w.kind, w.req.requestId, cs, o.kind);
    Framed(sent0, w.kind, w.req.requestId, cs, END_REQUEST);
    assert Parts(sent0, o.kind) + [] == Parts(sent0, o.kind);
  }

  lemma FedStream(w: Writer, pw: bytes, parts: seq<bytes>,
                  sent0: seq<Record>, any0: bool, pending0: bytes, str: bytes, cs: seq<bytes>)
    requires w.Fed(sent0, any0, pending0 + str, cs)
    requires Chunks(parts) && Concat(parts) + pending0 == pw && (any0 <==> parts != [])
    ensures StreamAt(w, parts + cs, pw + str, true)
  {
    hide EncodeAll, AllWellFormed, DataRecords;
    ConcatAppend(parts, cs);
    assert Concat(parts) + (Concat(cs) + w.Pending()) == (Concat(parts) + pending0) + str;
  }

  /** Put a string or a byte on one of two sibling streams, or flush it. */
  method PutOn(w: Writer, ghost pw: bytes, ghost ow: bool, o: Writer, ghost po: bytes, ghost oo: bool,
               ghost status: int, str: bytes)
    requires Pair(w, pw, ow, o, po, oo, status)
    modifies w, w.buff, w.req
    ensures Pair(w, if ow then pw + str else pw, ow, o, po, oo, status)
  {
    hide EncodeAll, AllWellFormed, DataRecords, Concat, Chunks, Parts, Members;
    ghost var sent0, any0, pending0 := w.req.sent, w.isAnythingWritten, if ow then w.Pending() else [];
    var r, cs := w.PutStr(str);
    if ow { FedPair(w, pw, o, po, oo, status, sent0, any0, pending0, str, cs); }
  }

  method PutByteOn(w: Writer, ghost pw: bytes, ghost ow: bool, o: Writer, ghost po: bytes, ghost oo: bool,
                   ghost status: int, c: byte)
    requires Pair(w, pw, ow, o, po, oo, status)
    modifies w, w.buff, w.req
    ensures Pair(w, if ow then pw + [c] else pw, ow, o, po, oo, status)
  {
    hide EncodeAll, AllWellFormed, DataRecords, Concat, Chunks, Parts, Members;
    ghost var sent0, any0, pending0 := w.req.sent, w.isAnythingWritten, if ow then w.Pending() else [];
    var r, cs := w.PutChar(c);
    if ow { FedPair(w, pw, o, po, oo, status, sent0, any0, pending0, [c], cs); }
  }

  method FlushOn(w: Writer, ghost pw: bytes, ghost ow: bool, o: Writer, ghost po: bytes, ghost oo: bool,
                 ghost status: int)
    requires Pair(w, pw, ow, o, po, oo, status)
    modifies w, w.buff, w.req
    ensures Pair(w, pw, ow, o, po, oo, status)
  {
    hide EncodeAll, AllWellFormed, DataRecords, Concat, Chunks, Parts, Members;
    ghost var sent0, any0, pending0 := w.req.sent, w.isAnythingWritten, if ow then w.Pending() else [];
    var r, cs := w.FFlush();
    if ow {
      assert pending0 + [] == pending0 && pw + [] == pw;
      FedPair(w, pw, o, po, oo, status, sent0, any0, pending0, [], cs);
    }
  }

  /** Chunks add up to nothing only if there are none. */
  lemma ConcatChunks(cs: seq<bytes>)
    requires Chunks(cs)
    ensures Concat(cs) == [] <==> cs == []
  {
    if cs != [] { assert |cs[0]| > 0; }
  }

  /** The parts of a stream after it is closed are those of an ended stream. */
  lemma EndedParts(parts: seq<bytes>, kind: byte, id: nat, pending: bytes, put: bytes)
    requires Chunks(parts) && Concat(parts) + pending == put && Chunks(One(pending))
    ensures Ended(parts + One(pending) + Parts(EofRecords(kind, id, pending != [] || parts != []), kind), kind, put)
  {
    var all := parts + One(pending);
    ConcatChunks(parts);
    ConcatAppend(parts, One(pending));
    assert Concat(One(pending)) == pending;
    assert Chunks(all);
    if kind == STDERR && put == [] {
      assert all == [];
    } else {
      var eof := Record(kind, id, [], []);
      assert EofRecords(kind, id, pending != [] || parts != []) == [eof];
      assert Parts([eof], kind) == [[]];
      assert (all + [[]])[..|all|] == all;
    }
  }

  /** What closing appends contributes to the parts of each kind. */
  lemma ClosingParts(kind: byte, id: nat, started: bool, writers: int, status: int, k: byte)
    requires kind in {STDOUT, STDERR}
    ensures k != kind ==> Parts(EofRecords(kind, id, started), k) == []
    ensures k != END_REQUEST ==> Parts(EndRecords(id, writers, status), k) == []
    ensures |Parts(EndRecords(id, writers, status), END_REQUEST)| == if writers == 1 then 1 else 0
  {
    var eof, end := Record(kind, id, [], []), EndRecord(id, status, REQUEST_COMPLETE);
    assert Parts([eof], k) == if k == kind then [[]] else [];
    assert Parts([end], k) == if k == END_REQUEST then [end.content] else [];
    assert |Parts([end], END_REQUEST)| == 1;
  }

  /** The parts of kind `k` after a stream of kind `kind` was closed. */
  lemma ClosedParts(sent0: seq<Record>, kind: byte, id: nat, pending: bytes, started: bool,
                    writers: int, status: int, k: byte)
    requires kind in {STDOUT, STDERR}
    ensures Parts(Closing(sent0, kind, id, pending, started, writers, status), k)
         == Parts(sent0, k) + (if k == kind then One(pending) + Parts(EofRecords(kind, id, started), kind) else [])
            + (if k == END_REQUEST then Parts(EndRecords(id, writers, status), END_REQUEST) else [])
  {
    hide EofRecords, EndRecords, DataRecords, One, Parts;
    var data, eof, end := DataRecords(kind, id, One(pending)), EofRecords(kind, id, started), EndRecords(id, writers, status);
    PartsAppend(sent0 + data + eof, end, k);
    PartsAppend(sent0 + data, eof, k);
    PartsAppend(sent0, data, k);
    PartsData(kind, id, One(pending), k);
    ClosingParts(kind, id, started, writers, status, k);
  }

  /** All records sent, when closing a stream comes last. */
  function Closing(sent0: seq<Record>, kind: byte, id: nat, pending: bytes, started: bool,
                   writers: int, status: int): seq<Record>
  {
    sent0 + DataRecords(kind, id, One(pending)) + EofRecords(kind, id, started) + EndRecords(id, writers, status)
  }

  lemma ClosingMembers(sent0: seq<Record>, kind: byte, id: nat, pending: bytes, started: bool,
                       writers: int, status: int)
    requires Members(sent0, id) && kind in {STDOUT, STDERR}
    ensures Members(Closing(sent0, kind, id, pending, started, writers, status), id)
    ensures writers == 1 ==>
      var rs := Closing(sent0, kind, id, pending, started, writers, status);
      rs != [] && rs[|rs| - 1] == EndRecord(id, status, REQUEST_COMPLETE)
  {
    hide Member, Parts, DataRecords, EndRecord;
    Framed(sent0, kind, id, One(pending), kind);
    CloseMembers(kind, id, status);
  }

  /** Closing, seen on the records alone: the stream has ended, its sibling is
      untouched, and the request has ended if no writer is left. */
  lemma ClosingRecords(sent0: seq<Record>, kind: byte, id: nat, pending: bytes, put: bytes,
                       writers: int, status: int, other: byte)
    requires {kind, other} == {STDOUT, STDERR} && Members(sent0, id) && Parts(sent0, END_REQUEST) == []
    requires Chunks(Parts(sent0, kind)) && Concat(Parts(sent0, kind)) + pending == put && Chunks(One(pending))
    ensures var started := pending != [] || Parts(sent0, kind) != [];
      var rs := Closing(sent0, kind, id, pending, started, writers, status);
      && Ended(Parts(rs, kind), kind, put) && Parts(rs, other) == Parts(sent0, other)
      && Members(rs, id) && EndAt(rs, id, writers != 1, status)
  {
    var parts := Parts(sent0, kind);
    var started := pending != [] || parts != [];
    hide Concat, Chunks, Parts, Members, One, EofRecords, EndRecords, Ended, Closing;
    ClosedParts(sent0, kind, id, pending, started, writers, status, kind);
    ClosedParts(sent0, kind, id, pending, started, writers, status, other);
    ClosedParts(sent0, kind, id, pending, started, writers, status, END_REQUEST);
    ClosingMembers(sent0, kind, id, pending, started, writers, status);
    ClosingParts(kind, id, started, writers, status, END_REQUEST);
    EndedParts(parts, kind, id, pending, put);
    assert parts + (One(pending) + Parts(EofRecords(kind, id, started), kind)) + []
        == parts + One(pending) + Parts(EofRecords(kind, id, started), kind);
  }

  method CloseOn(w: Writer, ghost pw: bytes, ghost ow: bool, o: Writer, ghost po: bytes, ghost oo: bool,
                 ghost status: int)
    requires Pair(w, pw, ow, o, po, oo, status)
    modifies w, w.buff, w.req
    ensures Pair(w, pw, false, o, po, oo, status)
    ensures ow && !oo && w.kind == STDOUT ==> EndsWithOutput(w.req.sent)
  {
    ghost var sent0, id, n := w.req.sent, w.req.requestId, w.req.nWriters;
    ghost var pending := if ow then w.Pending() else [];
    hide EncodeAll, AllWellFormed, DataRecords, Concat, Chunks, Parts, Members, One, EofRecords, EndRecords, Ended, EndAt, Closing;
    ghost var any0 := w.isAnythingWritten;
    if ow { OpenEnd(sent0, id, status); }
    var r := w.FClose();
    if ow {
      assert w.req.sent == Closing(sent0, w.kind, id, pending, pending != [] || any0, n, status);
      ClosedPair(w, pw, o, po, oo, status, sent0, pending, n);
      if !oo && w.kind == STDOUT { ClosedOutput(sent0, id, pending, pending != [] || any0, status); }
    }
  }

  /** The output stream ends last, right before the request does. */
  ghost predicate EndsWithOutput(rs: seq<Record>) {
    |rs| > 1 && rs[|rs| - 2].kind == 6 && rs[|rs| - 2].content == []
  }

  lemma ClosedOutput(sent0: seq<Record>, id: nat, pending: bytes, started: bool, status: int)
    ensures EndsWithOutput(Closing(sent0, STDOUT, id, pending, started, 1, status))
  {
    hide DataRecords, EndRecord;
  }

  /** A stream that was closed last leaves its sibling alone. */
  lemma ClosedPair(w: Writer, pw: bytes, o: Writer, po: bytes, oo: bool, status: int,
                   sent0: seq<Record>, pending: bytes, n: int)
    requires Siblings(w, o) && w.req.Valid() && w.Closed() && n == 1 + (if oo then 1 else 0) && w.req.nWriters == n - 1
    requires Members(sent0, w.req.requestId) && Parts(sent0, END_REQUEST) == []
    requires Chunks(Parts(sent0, w.kind)) && Concat(Parts(sent0, w.kind)) + pending == pw && Chunks(One(pending))
    requires StreamAt(o, Parts(sent0, o.kind), po, oo) && w.req.appStatus == status
    requires w.req.sent == Closing(sent0, w.kind, w.req.requestId, pending, pending != [] || Parts(sent0, w.kind) != [], n, status)
    ensures Pair(w, pw, false, o, po, oo, status)
  {
    hide EncodeAll, AllWellFormed, Concat, Chunks, Parts, Members, One, Ended, EndAt, Closing;
    ClosingRecords(sent0, w.kind, w.req.requestId, pending, pw, n, status, o.kind);
  }

  lemma OpenEnd(sent: seq<Record>, id: nat, status: int)
    requires EndAt(sent, id, true, status)
    ensures Parts(sent, END_REQUEST) == []
  {
  }

  /** The invariant, seen from the output stream. */
  ghost predicate Session(out: Writer, err: Writer, m: Meaning)
    reads out, out.buff, err, err.buff, out.req
  {
    Pair(out, m.out, m.outOpen, err, m.err, m.errOpen, m.status) && out.kind == STDOUT
  }

  /** Perform one operation. */
  method Perform(out: Writer, err: Writer, ghost m: Meaning, op: Op)
    requires Session(out, err, m)
    modifies out, out.buff, err, err.buff, out.req
    ensures Session(out, err, Step(m, op))
  {
    hide Pair;
    if op.SetExitStatus? {
      SetStatus(out, err, m, op.status);
    } else if op.to == Stdout {
      match op {
        case Put(_, str) => PutOn(out, m.out, m.outOpen, err, m.err, m.errOpen, m.status, str);
        case PutByte(_, c) => PutByteOn(out, m.out, m.outOpen, err, m.err, m.errOpen, m.status, c);
        case Flush(_) => FlushOn(out, m.out, m.outOpen, err, m.err, m.errOpen, m.status);
        case Close(_) => CloseOn(out, m.out, m.outOpen, err, m.err, m.errOpen, m.status);
      }
    } else {
      PairSymmetric(out, m.out, m.outOpen, err, m.err, m.errOpen, m.status);
      SameRequest(out, m.out, m.outOpen, err, m.err, m.errOpen, m.status);
      match op {
        case Put(_, str) => PutOn(err, m.err, m.errOpen, out, m.out, m.outOpen, m.status, str);
        case PutByte(_, c) => PutByteOn(err, m.err, m.errOpen, out, m.out, m.outOpen, m.status, c);
        case Flush(_) => FlushOn(err, m.err, m.errOpen, out, m.out, m.outOpen, m.status);
        case Close(_) => CloseOn(err, m.err, m.errOpen, out, m.out, m.outOpen, m.status);
      }
      ghost var m' := Step(m, op);
      PairSymmetric(err, m'.err, m'.errOpen, out, m'.out, m'.outOpen, m'.status);
    }
  }

  lemma SameRequest(w: Writer, pw: bytes, ow: bool, o: Writer, po: bytes, oo: bool, status: int)
    requires Pair(w, pw, ow, o, po, oo, status)
    ensures w.req == o.req
  {
  }

  /** The exit status matters as long as a stream is open. */
  method SetStatus(out: Writer, err: Writer, ghost m: Meaning, status: int)
    requires Session(out, err, m)
    modifies out.req`appStatus
    ensures Session(out, err, Step(m, SetExitStatus(status)))
  {
    out.req.appStatus := status;
  }

  const IDLE := Meaning([], [], true, true, 0)

  /** Any operations on the two streams of a request, then closing what is still
      open: the wire is records of the request that carry the bytes put on stream 6
      (output) and stream 7 (errors), end each stream with an empty record, an error
      stream only if it carried anything, and end with the record that reports the
      exit status. */
  method RunRequest(id: nat, outSize: int, errSize: int, outMisaligned: bool, errMisaligned: bool, ops: seq<Op>)
    returns (wire: bytes, ghost rs: seq<Record>)
    requires id <= 0xffff
    ensures AllWellFormed(rs) && wire == EncodeAll(rs) && Decode(wire) == Whole(rs)
    ensures Finished(rs, id, Steps(IDLE, ops))
    ensures Close(Stdout) !in ops ==> |rs| > 1 && rs[|rs| - 2].kind == 6 && rs[|rs| - 2].content == []
    ensures forall i :: 0 <= i < |rs| ==>
      && rs[i].id == id && rs[i].kind in {3, 6, 7} && (rs[i].kind == 3 <==> i == |rs| - 1)
      && (8 + |rs[i].content| + |rs[i].padding|) % 8 == 0 && |rs[i].padding| < 8
    ensures var out := Parts(rs, 6);
      out != [] && out[|out| - 1] == [] && [] !in out[..|out| - 1] && Concat(out) == Steps(IDLE, ops).out
    ensures var err := Parts(rs, 7);
      && Concat(err) == Steps(IDLE, ops).err && (err == [] <==> Steps(IDLE, ops).err == [])
      && (err != [] ==> err[|err| - 1] == [] && [] !in err[..|err| - 1])
    ensures |wire| >= 16 && var e := wire[|wire| - 16..];
      && e[0] == 1 && e[1] == 3 && e[2] as int * 256 + e[3] == id && e[4] == 0 && e[5] == 8 && e[6] == e[7] == 0
      && e[8] as int * 0x100_0000 + e[9] as int * 0x1_0000 + e[10] as int * 0x100 + e[11]
         == Steps(IDLE, ops).status % 0x1_0000_0000
      && e[12] == e[13] == e[14] == e[15] == 0
  {
    hide Session, Pair, Finished, Decode, EncodeAll;
    var out, err := StartSession(id, outSize, errSize, outMisaligned, errMisaligned);
    ghost var m := IDLE;
    ghost var goal := Steps(m, ops);
    assert ops[0..] == ops;
    for i := 0 to |ops|
      invariant Session(out, err, m) && Steps(m, ops[i..]) == goal && out.req.requestId == id
    {
      assert ops[i..][1..] == ops[i + 1..];
      Perform(out, err, m, ops[i]);
      m := Step(m, ops[i]);
    }
    assert m == goal;
    StillOpen(ops);
    wire, rs := FinishSession(out, err, m);
    EndOnly(rs, id, m);
    StreamParts(Parts(rs, 6), 6, m.out);
    StreamParts(Parts(rs, 7), 7, m.err);
    LastBytes(rs, id, m);
  }

  /** The end record of a finished request is its last record and no other. */
  lemma EndOnly(rs: seq<Record>, id: nat, m: Meaning)
    requires Finished(rs, id, m)
    ensures forall i :: 0 <= i < |rs| ==>
      && rs[i].id == id && rs[i].kind in {3, 6, 7} && (rs[i].kind == 3 <==> i == |rs| - 1)
      && (8 + |rs[i].content| + |rs[i].padding|) % 8 == 0 && |rs[i].padding| < 8
    ensures Ended(Parts(rs, 6), 6, m.out) && Ended(Parts(rs, 7), 7, m.err)
  {
    hide Parts, Ended;
    forall i | 0 <= i < |rs|
      ensures rs[i].kind == 3 <==> i == |rs| - 1
    {
      if i < |rs| - 1 && rs[i].kind == 3 { TwoParts(rs, 3, i); }
    }
    assert forall i :: 0 <= i < |rs| ==> Member(rs[i], id);
  }

  /** Two records of a kind give two parts. */
  lemma TwoParts(rs: seq<Record>, kind: byte, i: nat)
    requires i < |rs| - 1 && rs[i].kind == kind && rs[|rs| - 1].kind == kind
    ensures |Parts(rs, kind)| >= 2
  {
    var a, b, c := rs[..i], [rs[i]], rs[i + 1..];
    assert rs == a + (b + c) && c == c[..|c| - 1] + [c[|c| - 1]];
    PartsAppend(a, b + c, kind);
    PartsAppend(b, c, kind);
    PartsAppend(c[..|c| - 1], [c[|c| - 1]], kind);
    assert |Parts([rs[i]], kind)| == 1 && |Parts([c[|c| - 1]], kind)| == 1;
  }

  /** An ended stream, part by part. */
  lemma StreamParts(parts: seq<bytes>, kind: byte, put: bytes)
    requires kind in {6, 7} && Ended(parts, kind, put)
    ensures Concat(parts) == put && (parts == [] <==> kind == 7 && put == [])
    ensures parts != [] ==> parts[|parts| - 1] == [] && [] !in parts[..|parts| - 1]
  {
    if parts != [] {
      var n := |parts| - 1;
      ConcatSnoc(parts[..n], parts[n]);
      assert parts[..n] + [parts[n]] == parts && Concat(parts[..n]) + [] == Concat(parts[..n]);
    }
  }

  /** The last sixteen bytes of a finished request. */
  lemma LastBytes(rs: seq<Record>, id: nat, m: Meaning)
    requires Finished(rs, id, m) && AllWellFormed(rs)
    ensures var wire := EncodeAll(rs); |wire| >= 16 && var e := wire[|wire| - 16..];
      && e[0] == 1 && e[1] == 3 && e[2] as int * 256 + e[3] == id && e[4] == 0 && e[5] == 8 && e[6] == e[7] == 0
      && e[8] as int * 0x100_0000 + e[9] as int * 0x1_0000 + e[10] as int * 0x100 + e[11] == m.status % 0x1_0000_0000
      && e[12] == e[13] == e[14] == e[15] == 0
  {
    hide EncodeAll, Encode, Parts, Ended, EndRequestBody;
    var n := |rs| - 1;
    var last := rs[n];
    EncodeSnoc(rs[..n], last);
    assert rs[..n] + [last] == rs;
    RecordOnWire(last);
    var wire, v := EncodeAll(rs), Encode(last);
    assert wire[|wire| - 16..] == v;
    assert forall i :: 0 <= i < 8 ==> v[8 + i] == v[8..16][i];
  }

  lemma {:induction false} StepsSnoc(m: Meaning, ops: seq<Op>, op: Op)
    ensures Steps(m, ops + [op]) == Step(Steps(m, ops), op)
    decreases |ops|
  {
    hide Step;
    if ops == [] {
      assert [] + [op] == [op] && [op][1..] == [];
    } else {
      assert (ops + [op])[1..] == ops[1..] + [op];
      StepsSnoc(Step(m, ops[0]), ops[1..], op);
    }
  }

  /** A stream is open until it is closed. */
  lemma {:induction false} StillOpen(ops: seq<Op>)
    ensures Steps(IDLE, ops).outOpen <==> Close(Stdout) !in ops
    ensures Steps(IDLE, ops).errOpen <==> Close(Stderr) !in ops
  {
    if ops != [] {
      var n := |ops| - 1;
      StillOpen(ops[..n]);
      StepsSnoc(IDLE, ops[..n], ops[n]);
      assert ops[..n] + [ops[n]] == ops;
      assert forall x :: x in ops <==> x in ops[..n] || x == ops[n];
    }
  }

  /** What one more operation means: bytes go to the end of their stream unless it
      was closed before, the other stream keeps what it has, and a status counts
      until both streams are closed. */
  lemma OneMore(ops: seq<Op>, op: Op)
    ensures Steps(IDLE, []) == Meaning([], [], true, true, 0)
    ensures var m, w := Steps(IDLE, ops), Steps(IDLE, ops + [op]);
      && (op.Put? && op.to == Stdout ==> w.out == (if Close(Stdout) in ops then m.out else m.out + op.str) && w.err == m.err)
      && (op.Put? && op.to == Stderr ==> w.err == (if Close(Stderr) in ops then m.err else m.err + op.str) && w.out == m.out)
      && (op.PutByte? && op.to == Stdout ==> w.out == (if Close(Stdout) in ops then m.out else m.out + [op.c]) && w.err == m.err)
      && (op.PutByte? && op.to == Stderr ==> w.err == (if Close(Stderr) in ops then m.err else m.err + [op.c]) && w.out == m.out)
      && (op.Flush? || op.Close? || op.SetExitStatus? ==> w.out == m.out && w.err == m.err)
      && w.status == if op.SetExitStatus? && !(Close(Stdout) in ops && Close(Stderr) in ops) then op.status else m.status
  {
    StepsSnoc(IDLE, ops, op);
    StillOpen(ops);
  }

  /** The streams of a new request. */
  method StartSession(id: nat, outSize: int, errSize: int, outMisaligned: bool, errMisaligned: bool)
    returns (out: Writer, err: Writer)
    requires id <= 0xffff
    ensures Session(out, err, IDLE) && out.req.requestId == id
    ensures fresh(out) && fresh(out.buff) && fresh(err) && fresh(err.buff) && fresh(out.req)
  {
    var req := new Request(id, 2);
    out := new Writer(req, outSize, STDOUT, outMisaligned);
    err := new Writer(req, errSize, STDERR, errMisaligned);
    assert forall k :: Parts(req.sent, k) == [];
  }

  /** Close the error stream, then the output stream, as finishing a request does. */
  method FinishSession(out: Writer, err: Writer, ghost m: Meaning) returns (wire: bytes, ghost rs: seq<Record>)
    requires Session(out, err, m)
    modifies out, out.buff, err, err.buff, out.req
    ensures AllWellFormed(rs) && wire == EncodeAll(rs) && Decode(wire) == Whole(rs)
    ensures Finished(rs, out.req.requestId, m) && (m.outOpen ==> EndsWithOutput(rs))
  {
    hide Pair, Decode, EncodeAll, EndsWithOutput;
    Perform(out, err, m, Close(Stderr));
    CloseOn(out, m.out, m.outOpen, err, m.err, false, m.status);
    wire, rs := out.req.wire, out.req.sent;
    SessionEnd(out, err, m.(outOpen := false, errOpen := false));
  }

  lemma SessionEnd(out: Writer, err: Writer, m: Meaning)
    requires Session(out, err, m) && !m.outOpen && !m.errOpen
    ensures var rs := out.req.sent;
      && AllWellFormed(rs) && out.req.wire == EncodeAll(rs) && Decode(out.req.wire) == Whole(rs)
      && Finished(rs, out.req.requestId, m)
  {
    hide EncodeAll, Decode;
    DecodeEncodeAll(out.req.sent);
  }
}
