/**
 The buffered output streams of fcgiapp.c. A stream collects content behind
 eight bytes reserved for a header; emptying the buffer turns it into one
 padded record. Closing a stream switches it to raw mode, in which the closing
 records themselves travel through the same buffer.
 */
module FcgiWriter {
  import opened Bytes
  import opened FcgiRecord

  /** Content framed the way the library pads it. */
  function DataRecord(kind: byte, id: nat, content: bytes): Record {
    Record(kind, id, content, Zeros((8 - |content| % 8) % 8))
  }

  function DataRecords(kind: byte, id: nat, cs: seq<bytes>): (rs: seq<Record>)
    ensures |rs| == |cs|
  {
    seq(|cs|, i requires 0 <= i < |cs| => DataRecord(kind, id, cs[i]))
  }

  lemma DataAppend(kind: byte, id: nat, a: seq<bytes>, b: seq<bytes>)
    ensures DataRecords(kind, id, a + b) == DataRecords(kind, id, a) + DataRecords(kind, id, b)
  {
  }

  /** Chunks that fit a record and are worth one. */
  ghost predicate Chunks(cs: seq<bytes>) {
    forall i :: 0 <= i < |cs| ==> 0 < |cs[i]| <= MAX_LENGTH
  }

  /** The request the streams belong to: its id, the number of open writers, the
      exit status to report, and the bytes written to the connection. `sent` is
      what those bytes are meant to be. */
  class Request {
    const requestId: nat
    var nWriters: int
    var appStatus: int
    var wire: bytes
    ghost var sent: seq<Record>

    ghost predicate Valid()
      reads this
    {
      requestId <= 0xffff && AllWellFormed(sent) && wire == EncodeAll(sent)
    }

    constructor (id: nat, writers: int)
      requires id <= 0xffff
      ensures Valid() && requestId == id && nWriters == writers && appStatus == 0
      ensures wire == [] && sent == []
    {
      requestId := id;
      nWriters := writers;
      appStatus := 0;
      wire := [];
      sent := [];
    }

    /** Write everything, however little the connection takes at a time. */
    method WriteItAll(buf: bytes)
      modifies this`wire
      ensures wire == old(wire) + buf
    {
      var done := 0;
      while done < |buf|
        invariant 0 <= done <= |buf| && wire == old(wire) + buf[..done]
      {
        var wrote :| 1 <= wrote <= |buf| - done;
        wire := wire + buf[done..done + wrote];
        done := done + wrote;
      }
      assert buf[..done] == buf;
    }
  }

  class Writer {
    const req: Request
    const kind: byte
    const buff: array<byte>
    var wrNext: nat
    var stop: nat
    var isClosed: bool
    var wasFCloseCalled: bool
    var rawWrite: bool
    var isAnythingWritten: bool

    /** The buffer is a whole number of eight-byte units, so padding fits, and
        no larger than the content of a record may be. */
    ghost predicate Shape()
      reads this
    {
      && 24 <= buff.Length <= MAX_LENGTH + 1 && buff.Length % 8 == 0
      && wrNext <= stop <= buff.Length
    }

    ghost predicate Open()
      reads this
    {
      Shape() && !isClosed && !wasFCloseCalled && !rawWrite && HEADER_LEN <= wrNext && stop == buff.Length
    }

    ghost predicate Raw()
      reads this
    {
      Shape() && !isClosed && rawWrite && stop == buff.Length
    }

    ghost predicate Closed()
      reads this
    {
      Shape() && isClosed && wasFCloseCalled && stop == wrNext
    }

    /** Content accepted and not yet framed. */
    ghost function Pending(): bytes
      requires Open()
      reads this, buff
    {
      buff[HEADER_LEN..wrNext]
    }

    /** Everything written and buffered, in raw mode. */
    ghost function Out(): bytes
      requires Raw()
      reads this, buff, req
    {
      req.wire + buff[..wrNext]
    }

    constructor (req: Request, bufflen: int, kind: byte, misaligned: bool)
      ensures Open() && fresh(buff) && Pending() == []
      ensures this.req == req && this.kind == kind && !isAnythingWritten
    {
      var size := AlignInt8(Min(Max(bufflen, 32), MAX_LENGTH + 1));
      this.req := req;
      this.kind := kind;
      var usable := if misaligned then size - 8 else size;
      buff := new byte[usable](_ => 0);
      wrNext := HEADER_LEN;
      stop := usable;
      isClosed := false;
      wasFCloseCalled := false;
      rawWrite := false;
      isAnythingWritten := false;
    }

    /** Turn the buffered content into a record in place, or reclaim the header
        space when there is none. */
    method Frame()
      requires Open() && req.requestId <= 0xffff
      modifies this`wrNext, buff
      ensures Shape() && stop == old(stop)
      ensures old(Pending()) == [] ==> wrNext == 0
      ensures old(Pending()) != [] ==>
        && |old(Pending())| <= MAX_LENGTH && wrNext > 0
        && buff[..wrNext] == Encode(DataRecord(kind, req.requestId, old(Pending())))
    {
      hide MakeHeader, AlignInt8;
      ghost var content := Pending();
      var cLen := wrNext - HEADER_LEN;
      if cLen > 0 {
        PaddingFits(cLen, buff.Length);
        var eLen := AlignInt8(cLen);
        Store(buff, wrNext, Zeros(eLen - cLen));
        wrNext := wrNext + (eLen - cLen);
        ghost var body := buff[HEADER_LEN..wrNext];
        assert body == content + DataRecord(kind, req.requestId, content).padding;
        Store(buff, 0, MakeHeader(kind, req.requestId, cLen, eLen - cLen));
        assert buff[..wrNext] == MakeHeader(kind, req.requestId, cLen, eLen - cLen) + body;
      } else {
        wrNext := 0;
      }
    }

    /** Hand the buffer to the connection. */
    method WriteBuffer()
      requires Shape()
      modifies this`wrNext, this`isAnythingWritten, req`wire
      ensures Shape() && wrNext == 0
      ensures req.wire == old(req.wire) + old(buff[..wrNext])
      ensures isAnythingWritten == (old(isAnythingWritten) || old(wrNext) != 0)
    {
      if wrNext != 0 {
        isAnythingWritten := true;
        req.WriteItAll(buff[..wrNext]);
        wrNext := 0;
      }
    }

    /** Empty the buffer of an open or raw stream. */
    method EmptyBuff()
      requires Open() || Raw()
      requires Open() ==> req.Valid()
      modifies this`wrNext, this`isAnythingWritten, buff, req`wire, req`sent
      ensures old(Raw()) ==> Raw() && wrNext == 0 && Out() == old(Out()) && req.sent == old(req.sent)
      ensures old(Open()) ==> Open() && req.Valid() && Pending() == []
      ensures old(Open()) ==> Chunks(One(old(Pending())))
      ensures old(Open()) ==> req.sent == old(req.sent) + DataRecords(kind, req.requestId, One(old(Pending())))
      ensures old(Open()) ==> isAnythingWritten == (old(isAnythingWritten) || old(Pending()) != [])
    {
      if !rawWrite {
        ghost var content := Pending();
        Frame();
        if content != [] {
          ghost var r := DataRecord(kind, req.requestId, content);
          EncodeSnoc(req.sent, r);
          req.sent := req.sent + [r];
          assert DataRecords(kind, req.requestId, One(content)) == [r];
        } else {
          assert req.sent + [] == req.sent;
        }
      }
      WriteBuffer();
      if !rawWrite {
        wrNext := wrNext + HEADER_LEN;
      }
    }

    /** Since `sent0` was sent, an open stream framed the chunks `cs`; together
        with what is pending they are `text`. */
    ghost predicate Fed(sent0: seq<Record>, any0: bool, text: bytes, cs: seq<bytes>)
      reads this, buff, req
    {
      && Open() && req.Valid() && Chunks(cs)
      && req.sent == sent0 + DataRecords(kind, req.requestId, cs)
      && Concat(cs) + Pending() == text
      && isAnythingWritten == (any0 || cs != [])
    }

    /** A raw stream has let out exactly `text`. */
    ghost predicate Drained(sent0: seq<Record>, text: bytes)
      reads this, buff, req
    {
      Raw() && Out() == text && req.sent == sent0
    }

    /** Put as much of `str` as fits into the buffer. */
    method PutSome(str: bytes) returns (m: nat)
      requires Shape()
      modifies this`wrNext, buff
      ensures Shape() && stop == old(stop)
      ensures m == Min(|str|, old(stop - wrNext)) && wrNext == old(wrNext) + m
      ensures buff[..wrNext] == old(buff[..wrNext]) + str[..m]
    {
      m := Min(|str|, stop - wrNext);
      Store(buff, wrNext, str[..m]);
      wrNext := wrNext + m;
    }

    lemma FedNothing()
      requires Open() && req.Valid()
      ensures Fed(req.sent, isAnythingWritten, Pending(), [])
    {
      assert req.sent + DataRecords(kind, req.requestId, []) == req.sent;
      assert [] + Pending() == Pending();
    }

    lemma DrainedNothing()
      requires Raw()
      ensures Drained(req.sent, Out())
    {
    }

    /** Copying moves bytes of the text into the buffer. */
    method Advance(str: bytes, ghost sent0: seq<Record>, ghost any0: bool, ghost text: bytes, ghost cs: seq<bytes>)
      returns (m: nat)
      requires Fed(sent0, any0, text, cs) || Drained(sent0, text)
      modifies this`wrNext, buff
      ensures m <= |str| && (m < |str| ==> wrNext == stop) && (str != [] && old(wrNext < stop) ==> m > 0)
      ensures old(Fed(sent0, any0, text, cs)) ==> Fed(sent0, any0, text + str[..m], cs)
      ensures old(Drained(sent0, text)) ==> Drained(sent0, text + str[..m])
    {
      hide Chunks, DataRecords, Concat, AllWellFormed, EncodeAll;
      ghost var before := buff[..wrNext];
      ghost var open := Open();
      ghost var pending := if open then Pending() else [];
      m := PutSome(str);
      if open {
        assert pending == before[HEADER_LEN..];
        assert Pending() == pending + str[..m];
        assert Concat(cs) + Pending() == text + str[..m];
      } else {
        assert Out() == text + str[..m];
      }
    }

    /** Emptying a full buffer makes one more chunk of it. */
    method MakeRoom(ghost sent0: seq<Record>, ghost any0: bool, ghost text: bytes, ghost cs: seq<bytes>)
      returns (ghost cs': seq<bytes>)
      requires Fed(sent0, any0, text, cs) || Drained(sent0, text)
      requires wrNext == stop
      modifies this`wrNext, this`isAnythingWritten, buff, req`wire, req`sent
      ensures wrNext < stop
      ensures old(Fed(sent0, any0, text, cs)) ==> Fed(sent0, any0, text, cs')
      ensures old(Drained(sent0, text)) ==> Drained(sent0, text)
    {
      hide EncodeAll, DataRecords, Concat, AllWellFormed;
      cs' := cs;
      if Open() {
        cs' := cs + [Pending()];
        ConcatSnoc(cs, Pending());
        DataAppend(kind, req.requestId, cs, [Pending()]);
        assert Concat(cs') == text && Concat(cs') + [] == text;
        assert req.sent + DataRecords(kind, req.requestId, [Pending()]) == sent0 + DataRecords(kind, req.requestId, cs');
      }
      EmptyBuff();
    }

    /** Put `str`, emptying the buffer whenever it is full. In an open stream the
        buffers emptied on the way become the records of the chunks `cs`. */
    method PutStr(str: bytes) returns (r: int, ghost cs: seq<bytes>)
      requires Open() || Raw() || Closed()
      requires Open() ==> req.Valid()
      modifies this`wrNext, this`isAnythingWritten, buff, req`wire, req`sent
      ensures old(Closed()) ==> Closed() && r == (if str == [] then 0 else -1)
      ensures old(Closed()) ==> req.wire == old(req.wire) && req.sent == old(req.sent)
      ensures old(Raw()) ==> r == |str| && Drained(old(req.sent), old(Out()) + str)
      ensures old(Open()) ==> r == |str| && Fed(old(req.sent), old(isAnythingWritten), old(Pending()) + str, cs)
    {
      hide Fed, Drained;
      cs := [];
      if isClosed {
        if |str| <= stop - wrNext {
          var m := PutSome(str);
          return |str|, [];
        }
        return -1, [];
      }
      ghost var sent0, any0, text := req.sent, isAnythingWritten, if rawWrite then Out() else Pending();
      if Open() { FedNothing(); } else { DrainedNothing(); }
      var moved := Advance(str, sent0, any0, text, cs);
      while moved < |str|
        invariant 0 <= moved <= |str| && (moved < |str| ==> wrNext == stop)
        invariant old(Open()) ==> Fed(sent0, any0, text + str[..moved], cs)
        invariant old(Raw()) ==> Drained(sent0, text + str[..moved])
      {
        ghost var done := text + str[..moved];
        cs := MakeRoom(sent0, any0, done, cs);
        var m := Advance(str[moved..], sent0, any0, done, cs);
        assert done + str[moved..][..m] == text + str[..moved + m];
        moved := moved + m;
      }
      assert str[..moved] == str;
      r := moved;
    }

    method PutChar(c: byte) returns (r: int, ghost cs: seq<bytes>)
      requires Open() || Closed()
      requires Open() ==> req.Valid()
      modifies this`wrNext, this`isAnythingWritten, buff, req`wire, req`sent
      ensures old(Closed()) ==> Closed() && r == -1
      ensures old(Closed()) ==> req.wire == old(req.wire) && req.sent == old(req.sent)
      ensures old(Open()) ==> r == c && Fed(old(req.sent), old(isAnythingWritten), old(Pending()) + [c], cs)
    {
      hide Fed, Drained;
      cs := [];
      if wrNext == stop && isClosed { return -1, []; }
      FedNothing();
      ghost var sent0, any0, text := req.sent, isAnythingWritten, Pending();
      if wrNext == stop {
        cs := MakeRoom(sent0, any0, text, cs);
      }
      var m := Advance([c], sent0, any0, text, cs);
      assert [c][..m] == [c];
      r := c;
    }

    /** Queue the records that end the stream, and the request if this is its
        last writer. The buffer may already hold the last content record. */
    method WriteCloseRecords()
      requires Shape() && !isClosed && !rawWrite && stop == buff.Length
      requires req.requestId <= 0xffff && AllWellFormed(req.sent)
      requires req.wire + buff[..wrNext] == EncodeAll(req.sent)
      modifies this`wrNext, this`isAnythingWritten, this`rawWrite, buff, req`wire, req`sent, req`nWriters
      ensures AllWellFormed(req.sent) && Drained(req.sent, EncodeAll(req.sent))
      ensures req.sent == old(req.sent)
              + EofRecords(kind, req.requestId, old(wrNext != 0 || isAnythingWritten))
              + EndRecords(req.requestId, old(req.nWriters), req.appStatus)
      ensures req.nWriters == old(req.nWriters) - 1
    {
      hide Fed, EncodeAll, Encode, AllWellFormed;
      ghost var id := req.requestId;
      ghost var started := wrNext != 0 || isAnythingWritten;
      rawWrite := true;
      if !(kind == STDERR && wrNext == 0 && !isAnythingWritten) {
        ghost var eof := Record(kind, id, [], []);
        EncodeSnoc(req.sent, eof);
        EncodeEmpty(kind, id);
        var _, _ := PutStr(MakeHeader(kind, req.requestId, 0, 0));
        req.sent := req.sent + [eof];
      }
      assert req.sent == old(req.sent) + EofRecords(kind, id, started);
      if req.nWriters == 1 {
        ghost var end := EndRecord(id, req.appStatus, REQUEST_COMPLETE);
        EncodeSnoc(req.sent, end);
        EncodeEnd(id, req.appStatus, REQUEST_COMPLETE);
        var _, _ := PutStr(MakeHeader(END_REQUEST, req.requestId, 8, 0) + EndRequestBody(req.appStatus, REQUEST_COMPLETE));
        req.sent := req.sent + [end];
      }
      req.nWriters := req.nWriters - 1;
    }

    /** Frame what is pending, without closing. */
    method FFlush() returns (r: int, ghost cs: seq<bytes>)
      requires Open() || Closed()
      requires Open() ==> req.Valid()
      modifies this`wrNext, this`isAnythingWritten, buff, req`wire, req`sent
      ensures r == 0
      ensures old(Closed()) ==> Closed() && req.wire == old(req.wire) && req.sent == old(req.sent)
      ensures old(Open()) ==> Open() && Pending() == []
      ensures old(Open()) ==> Fed(old(req.sent), old(isAnythingWritten), old(Pending()), cs)
    {
      hide EncodeAll;
      r, cs := 0, [];
      if isClosed { return; }
      cs := One(Pending());
      assert Concat(cs) == Pending() && Concat(cs) + [] == Concat(cs);
      EmptyBuff();
    }

    /** Frame what is pending, end the stream, and refuse further content. */
    method FClose() returns (r: int)
      requires Open() || Closed()
      requires Open() ==> req.Valid()
      modifies this, buff, req`wire, req`sent, req`nWriters
      ensures r == 0
      ensures old(Closed()) ==> Closed() && req.wire == old(req.wire) && req.sent == old(req.sent)
      ensures old(Closed()) ==> req.nWriters == old(req.nWriters)
      ensures old(Open()) ==> Closed() && req.Valid() && Chunks(One(old(Pending())))
      ensures old(Open()) ==> req.nWriters == old(req.nWriters) - 1
      ensures old(Open()) ==>
        req.sent == old(req.sent) + DataRecords(kind, req.requestId, One(old(Pending())))
                    + EofRecords(kind, req.requestId, old(Pending() != [] || isAnythingWritten))
                    + EndRecords(req.requestId, old(req.nWriters), req.appStatus)
    {
      hide EncodeAll, Encode, EofRecords, EndRecords;
      r := 0;
      if !wasFCloseCalled {
        ghost var content := Pending();
        Frame();
        if content != [] {
          ghost var rec := DataRecord(kind, req.requestId, content);
          EncodeSnoc(req.sent, rec);
          req.sent := req.sent + [rec];
          assert DataRecords(kind, req.requestId, One(content)) == [rec];
        } else {
          assert DataRecords(kind, req.requestId, One(content)) == [];
          assert req.wire + buff[..0] == req.wire;
        }
        WriteCloseRecords();
        WriteBuffer();
        wasFCloseCalled := true;
        isClosed := true;
        stop := wrNext;
      }
    }
  }

  /** The empty record that ends a stream; an error stream that never carried
      anything does without. */
  function EofRecords(kind: byte, id: nat, started: bool): seq<Record> {
    if kind == STDERR && !started then [] else [Record(kind, id, [], [])]
  }

  /** The record that ends the request, due from its last writer. */
  function EndRecords(id: nat, writers: int, appStatus: int): seq<Record> {
    if writers == 1 then [EndRecord(id, appStatus, REQUEST_COMPLETE)] else []
  }

  lemma EncodeEmpty(kind: byte, id: nat)
    requires id <= 0xffff
    ensures Encode(Record(kind, id, [], [])) == MakeHeader(kind, id, 0, 0)
  {
  }

  lemma EncodeEnd(id: nat, appStatus: int, protocolStatus: byte)
    requires id <= 0xffff
    ensures WellFormed(EndRecord(id, appStatus, protocolStatus))
    ensures Encode(EndRecord(id, appStatus, protocolStatus))
         == MakeHeader(END_REQUEST, id, 8, 0) + EndRequestBody(appStatus, protocolStatus)
  {
  }

  /** Padding to a multiple of eight stays inside a buffer that is one. */
  lemma PaddingFits(n: nat, size: nat)
    requires size % 8 == 0 && HEADER_LEN + n <= size <= MAX_LENGTH + 1
    ensures n <= AlignInt8(n) <= size - HEADER_LEN && AlignInt8(n) - n == (8 - n % 8) % 8
  {
    AlignInt8Spec(n);
  }

  /** The chunks a buffer of content makes: one, or none if it is empty. */
  function One(content: bytes): seq<bytes> {
    if content == [] then [] else [content]
  }
}
