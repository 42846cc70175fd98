/**
 What an input stream delivers, as a function of the bytes that arrive: the
 record structure is followed on the whole input, without a buffer. The
 function has the library's own behaviour on every input, including foreign
 records, attempts to multiplex, and all protocol errors.
 */
module FcgiInput {
  import opened Bytes
  import opened FcgiRecord

  const UNSUPPORTED_VERSION: int := -2
  const PROTOCOL_ERROR: int := -3

  /** The stream ends regularly, with an error code, or at a management record,
      which is not part of this model. */
  datatype End = Eof | Failed(errno: int) | Management

  /** Everything delivered from some point on: the content, how it ends, the
      input left after the end and the records sent back meanwhile. */
  datatype Delivery = Delivery(data: bytes, end: End, rest: bytes, replies: bytes)

  function Prepend(data: bytes, d: Delivery): (r: Delivery)
    ensures |r.data| == |data| + |d.data| && r.end == d.end && r.rest == d.rest && r.replies == d.replies
  {
    d.(data := data + d.data)
  }

  function Answer(reply: bytes, d: Delivery): Delivery {
    d.(replies := reply + d.replies)
  }

  lemma PrependAppend(a: bytes, b: bytes, d: Delivery)
    ensures Prepend(a, Prepend(b, d)) == Prepend(a + b, d)
  {
    assert a + (b + d.data) == a + b + d.data;
  }

  lemma PrependData(a: bytes, d: Delivery)
    ensures Prepend(a, d).data == a + d.data
  {
  }

  lemma PrependNothing(d: Delivery)
    ensures Prepend([], d) == d
  {
  }

  /** The stream being read: its record type and the id of its request. */
  datatype Source = Source(kind: byte, id: nat)

  /** Where in a record the reader is. */
  datatype Place = Place(content: nat, padding: nat, skip: bool)

  const BETWEEN: Place := Place(0, 0, false)

  /** The response to an attempt to start another request on the connection. */
  function Refusal(id: nat): bytes
    requires id <= 0xffff
  {
    Encode(EndRecord(id, 0, CANT_MPX_CONN))
  }

  function Deliver(s: Source, u: bytes, p: Place): (d: Delivery)
    decreases |u|, p.content + p.padding
  {
    if p.content > 0 then
      if |u| < p.content then Delivery(if p.skip then [] else u, Failed(PROTOCOL_ERROR), [], [])
      else Prepend(if p.skip then [] else u[..p.content], Deliver(s, u[p.content..], Place(0, p.padding, false)))
    else if p.padding > 0 then
      if |u| < p.padding then Delivery([], Failed(PROTOCOL_ERROR), [], [])
      else Deliver(s, u[p.padding..], Place(0, 0, p.skip))
    else if |u| < HEADER_LEN then Delivery([], Failed(PROTOCOL_ERROR), [], [])
    else AfterHeader(s, u[..HEADER_LEN], u[HEADER_LEN..], p.skip)
  }

  /** What follows the header `h`. */
  function AfterHeader(s: Source, h: bytes, u: bytes, skip: bool): (d: Delivery)
    requires |h| == HEADER_LEN
    decreases |u|, HEADER_LEN + HeaderContentLength(h) + h[6], 0
  {
    var id, c, p := HeaderId(h), HeaderContentLength(h), h[6];
    if h[0] != VERSION_1 then Delivery([], Failed(UNSUPPORTED_VERSION), u, [])
    else if h[1] == BEGIN_REQUEST then
      if id == 0 || c != 8 then Delivery([], Failed(PROTOCOL_ERROR), u, [])
      else Answer(Refusal(id), Deliver(s, u, Place(c, p, true)))
    else if id == 0 then Delivery([], Management, u, [])
    else if id != s.id then Deliver(s, u, Place(c, p, true))
    else if h[1] != s.kind then Delivery([], Failed(PROTOCOL_ERROR), u, [])
    else if c == 0 then Delivery([], Eof, u, [])
    else Deliver(s, u, Place(c, p, skip))
  }

  /** Content can be taken in any portions. */
  lemma TakeContent(s: Source, u: bytes, p: Place, n: nat)
    requires 0 < n <= p.content && n <= |u|
    ensures Deliver(s, u, p) ==
            Prepend(if p.skip then [] else u[..n],
                    Deliver(s, u[n..], Place(p.content - n, p.padding, p.skip && n < p.content)))
  {
    var v := u[n..];
    assert u[..n] + v == u;
    if p.content <= |u| {
      assert v[p.content - n..] == u[p.content..];
      assert u[..n] + v[..p.content - n] == u[..p.content];
    }
  }

  /** Padding can be skipped in any portions. */
  lemma TakePadding(s: Source, u: bytes, p: Place, n: nat)
    requires p.content == 0 && 0 < n <= p.padding && n <= |u|
    ensures Deliver(s, u, p) == Deliver(s, u[n..], p.(padding := p.padding - n))
  {
    if p.padding <= |u| {
      assert u[n..][p.padding - n..] == u[p.padding..];
    }
  }

  lemma HeaderComplete(s: Source, h: bytes, u: bytes, skip: bool)
    requires |h| == HEADER_LEN
    ensures Deliver(s, h + u, Place(0, 0, skip)) == AfterHeader(s, h, u, skip)
  {
    hide AfterHeader;
    assert (h + u)[..HEADER_LEN] == h && (h + u)[HEADER_LEN..] == u;
  }

  /** A content record of the stream being read. */
  predicate Own(s: Source, r: Record) {
    r.id == s.id && r.kind == s.kind
  }

  /** A record of another request, or an attempt to begin one. */
  predicate Foreign(s: Source, r: Record) {
    r.id != 0 && if r.kind == BEGIN_REQUEST then |r.content| == 8 else r.id != s.id
  }

  ghost predicate Readable(s: Source) {
    0 < s.id <= 0xffff && s.kind != BEGIN_REQUEST
  }

  /** The records of a stream before its end, with foreign ones in between. */
  ghost predicate Stream(s: Source, rs: seq<Record>) {
    AllWellFormed(rs) &&
    forall i :: 0 <= i < |rs| ==> (Own(s, rs[i]) && rs[i].content != []) || (!Own(s, rs[i]) && Foreign(s, rs[i]))
  }

  /** What the records say: the content of the stream's own records. */
  function OwnContent(s: Source, rs: seq<Record>): bytes {
    if rs == [] then [] else (if Own(s, rs[0]) then rs[0].content else []) + OwnContent(s, rs[1..])
  }

  lemma {:induction false} OwnMore(s: Source, rs: seq<Record>, r: Record)
    ensures OwnContent(s, rs + [r]) == OwnContent(s, rs) + if r.id == s.id && r.kind == s.kind then r.content else []
  {
    if rs == [] {
      assert rs + [r] == [r] && [r][1..] == [];
    } else {
      assert (rs + [r])[1..] == rs[1..] + [r];
      OwnMore(s, rs[1..], r);
    }
  }

  /** What the reader makes of them: an empty foreign record leaves it skipping,
      and the next record is lost. */
  function Surviving(s: Source, rs: seq<Record>, skip: bool): bytes {
    if rs == [] then []
    else if Own(s, rs[0]) then (if skip then [] else rs[0].content) + Surviving(s, rs[1..], false)
    else Surviving(s, rs[1..], rs[0].content == [])
  }

  function Refusals(s: Source, rs: seq<Record>): bytes {
    if rs == [] then []
    else (if rs[0].kind == BEGIN_REQUEST && rs[0].id <= 0xffff then Refusal(rs[0].id) else []) + Refusals(s, rs[1..])
  }

  /** The body of a record: content, padding and what comes after. */
  lemma PassBody(s: Source, content: bytes, padding: bytes, w: bytes, skip: bool)
    ensures Deliver(s, content + (padding + w), Place(|content|, |padding|, skip)) ==
            Prepend(if skip then [] else content, Deliver(s, w, Place(0, 0, skip && content == [])))
  {
    hide AfterHeader;
    var u := content + (padding + w);
    var v := padding + w;
    var skip' := skip && content == [];
    if content != [] {
      assert u[..|content|] == content && u[|content|..] == v;
    } else {
      assert u == v;
    }
    if padding != [] {
      assert v[|padding|..] == w;
    } else {
      assert v == w;
    }
    assert Deliver(s, v, Place(0, |padding|, skip')) == Deliver(s, w, Place(0, 0, skip'));
    var d := Deliver(s, w, Place(0, 0, skip'));
    assert [] + d.data == d.data;
  }

  /** One record of a stream in front of `w`. */
  lemma PassRecord(s: Source, r: Record, w: bytes, skip: bool)
    requires Readable(s) && WellFormed(r)
    requires (Own(s, r) && r.content != []) || (!Own(s, r) && Foreign(s, r))
    ensures Deliver(s, Encode(r) + w, Place(0, 0, skip)) ==
            Answer(if r.kind == BEGIN_REQUEST then Refusal(r.id) else [],
              if Own(s, r) then Prepend(if skip then [] else r.content, Deliver(s, w, BETWEEN))
              else Deliver(s, w, Place(0, 0, r.content == [])))
  {
    hide Deliver, MakeHeader;
    var h := MakeHeader(r.kind, r.id, |r.content|, |r.padding|);
    var body := r.content + (r.padding + w);
    HeaderRoundTrip(r.kind, r.id, |r.content|, |r.padding|);
    assert Encode(r) + w == h + body;
    HeaderComplete(s, h, body, skip);
    PassBody(s, r.content, r.padding, w, if Own(s, r) then skip else true);
    var d := Deliver(s, w, Place(0, 0, !Own(s, r) && r.content == []));
    assert [] + d.data == d.data && [] + d.replies == d.replies;
  }

  /** A stream, its end, and `w` behind it. */
  lemma {:induction false} StreamDelivers(s: Source, rs: seq<Record>, eof: Record, w: bytes, skip: bool)
    requires Readable(s) && Stream(s, rs)
    requires WellFormed(eof) && Own(s, eof) && eof.content == []
    ensures Deliver(s, EncodeAll(rs) + (Encode(eof) + w), Place(0, 0, skip))
         == Delivery(Surviving(s, rs, skip), Eof, eof.padding + w, Refusals(s, rs))
    decreases |rs|
  {
    hide Deliver, MakeHeader;
    if rs == [] {
      var h := MakeHeader(eof.kind, eof.id, 0, |eof.padding|);
      HeaderRoundTrip(eof.kind, eof.id, 0, |eof.padding|);
      assert EncodeAll(rs) + (Encode(eof) + w) == h + (eof.padding + w);
      HeaderComplete(s, h, eof.padding + w, skip);
    } else {
      hide Encode;
      var tail := EncodeAll(rs[1..]) + (Encode(eof) + w);
      assert EncodeAll(rs) + (Encode(eof) + w) == Encode(rs[0]) + tail;
      PassRecord(s, rs[0], tail, skip);
      StreamDelivers(s, rs[1..], eof, w, !Own(s, rs[0]) && rs[0].content == []);
    }
  }

  /** Somewhere an empty foreign record is directly followed by an own one. */
  ghost predicate Loses(s: Source, rs: seq<Record>) {
    exists i :: 0 < i < |rs| && Own(s, rs[i]) && !Own(s, rs[i - 1]) && rs[i - 1].content == []
  }

  lemma {:induction false} SurvivingOrNot(s: Source, rs: seq<Record>, skip: bool)
    requires Stream(s, rs)
    ensures |Surviving(s, rs, skip)| <= |OwnContent(s, rs)|
    ensures Surviving(s, rs, skip) == OwnContent(s, rs) <==>
            !Loses(s, rs) && !(skip && rs != [] && Own(s, rs[0]))
    decreases |rs|
  {
    if rs != [] {
      var r, rest := rs[0], rs[1..];
      var skip' := !Own(s, r) && r.content == [];
      SurvivingOrNot(s, rest, skip');
      LosesSplit(s, rs);
      if Own(s, r) && !skip && Surviving(s, rs, skip) == OwnContent(s, rs) {
        assert Surviving(s, rest, false) == Surviving(s, rs, skip)[|r.content|..];
        assert OwnContent(s, rest) == OwnContent(s, rs)[|r.content|..];
      }
    }
  }

  lemma LosesSplit(s: Source, rs: seq<Record>)
    requires rs != []
    ensures Loses(s, rs) <==>
      (Loses(s, rs[1..]) || (|rs| > 1 && Own(s, rs[1]) && !Own(s, rs[0]) && rs[0].content == []))
  {
    var rest := rs[1..];
    if Loses(s, rest) {
      var i :| 0 < i < |rest| && Own(s, rest[i]) && !Own(s, rest[i - 1]) && rest[i - 1].content == [];
      assert Own(s, rs[i + 1]) && rs[i] == rest[i - 1];
    }
    if Loses(s, rs) {
      var i :| 0 < i < |rs| && Own(s, rs[i]) && !Own(s, rs[i - 1]) && rs[i - 1].content == [];
      assert i > 1 ==> Own(s, rest[i - 1]) && rest[i - 2] == rs[i - 1];
    }
  }

  /** A stream is delivered intact exactly when no empty foreign record comes
      directly before one of its own. */
  lemma IntactIff(s: Source, rs: seq<Record>, eof: Record, w: bytes)
    requires Readable(s) && Stream(s, rs)
    requires WellFormed(eof) && Own(s, eof) && eof.content == []
    ensures Deliver(s, EncodeAll(rs) + (Encode(eof) + w), BETWEEN).end == Eof
    ensures Deliver(s, EncodeAll(rs) + (Encode(eof) + w), BETWEEN).data == OwnContent(s, rs) <==> !Loses(s, rs)
  {
    StreamDelivers(s, rs, eof, w, false);
    SurvivingOrNot(s, rs, false);
  }

  /** For example: an empty record of request 2 swallows the byte of request 1. */
  lemma LostByte()
    ensures var s, r, f := Source(STDIN, 1), Record(STDIN, 1, [65], []), Record(STDIN, 2, [], []);
      var eof := Record(STDIN, 1, [], []);
      && Stream(s, [f, r]) && OwnContent(s, [f, r]) == [65]
      && Deliver(s, EncodeAll([f, r]) + (Encode(eof) + []), BETWEEN).data == []
  {
    var s, r, f := Source(STDIN, 1), Record(STDIN, 1, [65], []), Record(STDIN, 2, [], []);
    var eof := Record(STDIN, 1, [], []);
    hide Deliver;
    StreamDelivers(s, [f, r], eof, [], false);
    assert [f, r][1..] == [r] && [r][1..] == [];
    assert OwnContent(s, [r]) == [65] && Surviving(s, [r], true) == [];
  }

  /** A header at the front of the input, byte by byte. */
  ghost predicate Headed(h: bytes, content: bytes, padding: bytes) {
    |h| == 8 && h[0] == 1 && |content| == h[4] as int * 256 + h[5] && |padding| == h[6]
  }

  /** A record of the stream being read: content is delivered, an empty record ends
      the stream, and another stream of the request is an error. */
  lemma OwnRead(s: Source, h: bytes, content: bytes, padding: bytes, w: bytes)
    requires Headed(h, content, padding) && Readable(s) && h[2] as int * 256 + h[3] == s.id && h[1] != 1
    ensures var d, e := Deliver(s, h + (content + (padding + w)), BETWEEN), Deliver(s, w, BETWEEN);
      && (h[1] == s.kind && content != [] ==> d == e.(data := content + e.data))
      && (h[1] == s.kind && content == [] ==> d == Delivery([], Eof, padding + w, []))
      && (h[1] != s.kind ==> d.data == [] && d.end == Failed(-3))
  {
    hide Deliver;
    HeaderComplete(s, h, content + (padding + w), false);
    PassBody(s, content, padding, w, false);
  }

  /** A record of another request: its content is skipped. Request 0 stands for the
      connection itself. */
  lemma OtherRead(s: Source, h: bytes, content: bytes, padding: bytes, w: bytes)
    requires Headed(h, content, padding) && Readable(s) && h[2] as int * 256 + h[3] != s.id && h[1] != 1
    ensures var id := h[2] as int * 256 + h[3];
      var d, e := Deliver(s, h + (content + (padding + w)), BETWEEN), Deliver(s, w, BETWEEN);
      && (id != 0 && content != [] ==> d == e)
      && (id == 0 ==> d.data == [] && d.end == Management)
  {
    hide Deliver;
    HeaderComplete(s, h, content + (padding + w), false);
    PassBody(s, content, padding, w, true);
    PrependNothing(Deliver(s, w, BETWEEN));
  }

  /** An attempt to begin a request is refused with an end record that says so, and
      skipped; without an id or with content of another size it is an error. */
  lemma BeginRead(s: Source, h: bytes, content: bytes, padding: bytes, w: bytes)
    requires Headed(h, content, padding) && Readable(s) && h[1] == 1
    ensures var d, e := Deliver(s, h + (content + (padding + w)), BETWEEN), Deliver(s, w, BETWEEN);
      if (h[2] == 0 && h[3] == 0) || |content| != 8 then d.data == [] && d.end == Failed(-3)
      else d == e.(replies := [1, 3, h[2], h[3], 0, 8, 0, 0, 0, 0, 0, 0, 1, 0, 0, 0] + e.replies)
  {
    hide Deliver, Refusal;
    HeaderComplete(s, h, content + (padding + w), false);
    PassBody(s, content, padding, w, true);
    RefusalBytes(h[2], h[3]);
    PrependNothing(Deliver(s, w, BETWEEN));
  }

  /** The refusal of a request, byte by byte. */
  lemma RefusalBytes(id1: byte, id0: byte)
    ensures Refusal(id1 as int * 256 + id0) == [1, 3, id1, id0, 0, 8, 0, 0, 0, 0, 0, 0, 1, 0, 0, 0]
  {
    var id := id1 as int * 256 + id0;
    assert (id / 256) % 256 == id1 && id % 256 == id0;
  }

  /** Input that does not start with the version, or ends inside a header. */
  lemma HeaderRefused(s: Source, u: bytes)
    ensures |u| < 8 ==> Deliver(s, u, BETWEEN) == Delivery([], Failed(-3), [], [])
    ensures |u| >= 8 && u[0] != 1 ==> Deliver(s, u, BETWEEN) == Delivery([], Failed(-2), u[8..], [])
  {
    if |u| >= 8 { assert u[..8][0] == u[0]; }
  }

  /** After the end of a stream the reader is switched to the next type without
      passing the padding of the end record. Unpadded, the switch is invisible.
      Otherwise the padding is taken for a header, and unless it happens to start
      like one the next stream fails at once. */
  lemma SwitchIff(s: Source, padding: bytes, w: bytes)
    ensures padding == [] ==> Deliver(s, padding + w, BETWEEN) == Deliver(s, w, BETWEEN)
    ensures padding != [] && padding[0] != VERSION_1 ==>
      var d := Deliver(s, padding + w, BETWEEN);
      d.data == [] && d.end == Failed(if |padding + w| < HEADER_LEN then PROTOCOL_ERROR else UNSUPPORTED_VERSION)
  {
    var u := padding + w;
    if padding == [] {
      assert u == w;
    } else if |u| >= HEADER_LEN {
      assert u[..HEADER_LEN][0] == u[0] == padding[0];
    }
  }
}
