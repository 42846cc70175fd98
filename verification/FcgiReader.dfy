/**
 The buffered input stream of fcgiapp.c. Bytes arrive in portions chosen by
 the connection; the reader removes the record structure in place and hands
 out content. Whatever the portions, it delivers what FcgiInput.Deliver says.
 */
module FcgiReader {
  import opened Bytes
  import opened FcgiRecord
  import opened FcgiInput

  datatype Status = StreamRecord | SkipRecord | Error(errno: int)

  class Reader {
    var src: Source
    const buff: array<byte>
    var rdNext: nat
    var stop: nat
    var buffStop: nat
    var contentLen: nat
    var paddingLen: nat
    var skip: bool
    var isClosed: bool
    var errno: int
    var input: bytes
    var replies: bytes

    ghost predicate Bounds()
      reads `rdNext, `buffStop
    {
      buff.Length > 0 && rdNext <= buffStop <= buff.Length
    }

    /** Bytes not yet passed, in the buffer and on the connection. */
    ghost function Unread(): (u: bytes)
      requires Bounds()
      reads `rdNext, `buffStop, `input, buff
      ensures |u| == buffStop - rdNext + |input|
    {
      buff[rdNext..buffStop] + input
    }

    ghost function Where(): Place
      reads this
    {
      Place(contentLen, paddingLen, skip)
    }

    ghost predicate Shape()
      reads this
    {
      Bounds() && (!isClosed ==> rdNext <= stop <= buffStop)
    }

    /** Everything this stream has still to deliver. */
    ghost function Ahead(): Delivery
      requires Shape()
      reads this, buff
    {
      if isClosed then Delivery([], if errno == 0 then Eof else Failed(errno), Unread(), replies)
      else Answer(replies, Prepend(buff[rdNext..stop], Deliver(src, buff[stop..buffStop] + input, Where())))
    }

    /** No management record is in the way of the stream's end. */
    ghost predicate Valid()
      reads this, buff
      ensures Valid() ==> Shape()
    {
      Shape() && Ahead().end != Management && (!isClosed ==> errno == 0)
    }

    /** Inside the fill loop: `hdr` is the part of a header read so far, and
        `goal` is what is still to be delivered. */
    ghost predicate Filling(hdr: bytes, goal: Delivery)
      reads this, buff
    {
      && Bounds() && !isClosed && errno == 0 && |hdr| < HEADER_LEN
      && (hdr != [] ==> contentLen == 0 && paddingLen == 0)
      && Answer(replies, Deliver(src, hdr + Unread(), Where())) == goal
      && goal.end != Management
    }

    constructor (src: Source, size: nat, input: bytes)
      requires size > 0
      requires Deliver(src, input, BETWEEN).end != Management
      ensures Valid() && fresh(buff)
      ensures Ahead() == Deliver(src, input, BETWEEN) && !isClosed && this.src == src
    {
      this.src := src;
      buff := new byte[size](_ => 0);
      rdNext, stop, buffStop := 0, 0, 0;
      contentLen, paddingLen, skip := 0, 0, false;
      isClosed := false;
      errno := 0;
      this.input := input;
      replies := [];
      new;
      hide Deliver;
      assert buff[0..0] + input == input;
    }

    /** Remember the first error and end the stream. */
    method SetError(code: int)
      modifies this`errno, this`isClosed
      ensures isClosed && errno == if old(errno) == 0 then code else old(errno)
    {
      if errno == 0 { errno := code; }
      isClosed := true;
    }

    /** Make sure the buffer is not empty: the connection delivers any portion
        that fits. */
    method ReadMore(ghost hdr: bytes, ghost goal: Delivery) returns (ok: bool)
      requires Filling(hdr, goal)
      modifies this`rdNext, this`buffStop, this`input, this`isClosed, this`errno, buff
      ensures ok ==> Filling(hdr, goal) && rdNext < buffStop && Unread() == old(Unread())
      ensures !ok ==> Shape() && isClosed && errno != 0 && Ahead() == goal
    {
      ghost var u := Unread();
      if rdNext == buffStop {
        if input == [] {
          SetError(PROTOCOL_ERROR);
          assert u == [] && hdr + u == hdr;
          return false;
        }
        var count :| 1 <= count <= buff.Length && count <= |input|;
        Store(buff, 0, input[..count]);
        input := input[count..];
        rdNext := 0;
        buffStop := count;
        assert Unread() == u;
      }
      return true;
    }

    lemma Window(n: nat)
      requires Bounds() && n <= buffStop - rdNext
      ensures Unread()[..n] == buff[rdNext..rdNext + n] && Unread()[n..] == buff[rdNext + n..buffStop] + input
    {
    }

    /** Deliver the content at hand. */
    method GiveContent(ghost goal: Delivery)
      requires Filling([], goal) && contentLen > 0 && rdNext < buffStop && !skip
      modifies this`contentLen, this`stop
      ensures Shape() && !isClosed && errno == 0 && rdNext < stop && Ahead() == goal
    {
      hide Deliver, Unread;
      var count := Min(contentLen, buffStop - rdNext);
      ghost var u := Unread();
      assert [] + u == u;
      TakeContent(src, u, Where(), count);
      contentLen := contentLen - count;
      stop := rdNext + count;
      Window(count);
    }

    /** Pass over the content at hand; a record is skipped until it ends. */
    method SkipContent(ghost goal: Delivery)
      requires Filling([], goal) && contentLen > 0 && rdNext < buffStop && skip
      modifies this`contentLen, this`rdNext, this`skip
      ensures Filling([], goal) && |Unread()| < |old(Unread())|
    {
      hide Deliver, Unread;
      var count := Min(contentLen, buffStop - rdNext);
      ghost var u := Unread();
      assert [] + u == u;
      TakeContent(src, u, Where(), count);
      contentLen := contentLen - count;
      Pass(count);
      if contentLen == 0 { skip := false; }
      assert [] + Unread() == Unread();
      ghost var d := Deliver(src, Unread(), Where());
      assert [] + d.data == d.data;
    }

    /** Pass over bytes of the buffer. */
    method Pass(count: nat)
      requires Bounds() && count <= buffStop - rdNext
      modifies `rdNext
      ensures Bounds() && Unread() == old(Unread())[count..]
    {
      rdNext := rdNext + count;
    }

    /** Pass over the padding at hand. */
    method PassPadding(ghost goal: Delivery)
      requires Filling([], goal) && contentLen == 0
      modifies this`paddingLen, this`rdNext
      ensures Filling([], goal)
      ensures |Unread()| <= |old(Unread())|
      ensures old(paddingLen > 0 && rdNext < buffStop) ==> |Unread()| < |old(Unread())|
    {
      hide Deliver, Answer, Unread;
      if paddingLen > 0 {
        var count := Min(paddingLen, buffStop - rdNext);
        ghost var u := Unread();
        assert [] + u == u;
        if count > 0 { TakePadding(src, u, Where(), count); }
        paddingLen := paddingLen - count;
        Pass(count);
        assert [] + Unread() == Unread();
      }
    }

    /** Move header bytes from the buffer behind those already collected. */
    method PassHeader(hdr: bytes) returns (h: bytes)
      requires Bounds() && |hdr| < HEADER_LEN
      modifies this`rdNext
      ensures Bounds() && |hdr| <= |h| <= HEADER_LEN && hdr + old(Unread()) == h + Unread()
      ensures |Unread()| <= |old(Unread())|
      ensures old(rdNext < buffStop) ==> |Unread()| < |old(Unread())|
    {
      hide Unread;
      var count := Min(HEADER_LEN - |hdr|, buffStop - rdNext);
      ghost var u := Unread();
      Window(count);
      h := hdr + buff[rdNext..rdNext + count];
      Pass(count);
      assert hdr + (u[..count] + u[count..]) == hdr + u[..count] + u[count..];
    }

    /** Interpret a complete header. */
    method ProcessHeader(h: bytes) returns (status: Status)
      requires |h| == HEADER_LEN && Bounds()
      requires AfterHeader(src, h, Unread(), skip).end != Management
      modifies this`contentLen, this`paddingLen, this`replies
      ensures status.Error? ==>
        AfterHeader(src, h, Unread(), skip) == Delivery([], Failed(status.errno), Unread(), []) && replies == old(replies)
      ensures status.Error? ==> status.errno != 0
      ensures status.StreamRecord? && contentLen == 0 ==>
        AfterHeader(src, h, Unread(), skip) == Delivery([], Eof, Unread(), []) && replies == old(replies)
      ensures status.SkipRecord? || (status.StreamRecord? && contentLen > 0) ==>
        Answer(old(replies), AfterHeader(src, h, Unread(), skip))
        == Answer(replies, Deliver(src, Unread(), Place(contentLen, paddingLen, skip || status.SkipRecord?)))
    {
      if h[0] != VERSION_1 { return Error(UNSUPPORTED_VERSION); }
      var requestId := HeaderId(h);
      contentLen := HeaderContentLength(h);
      paddingLen := h[6];
      ghost var d := Deliver(src, Unread(), Place(contentLen, paddingLen, true));
      if h[1] == BEGIN_REQUEST {
        if requestId == 0 || contentLen != 8 { return Error(PROTOCOL_ERROR); }
        replies := replies + Refusal(requestId);
        assert old(replies) + (Refusal(requestId) + d.replies) == replies + d.replies;
        return SkipRecord;
      }
      if requestId != src.id { return SkipRecord; }
      if h[1] != src.kind { return Error(PROTOCOL_ERROR); }
      return StreamRecord;
    }

    /** Act on a complete header: end the stream, or go on with its record. */
    method HandleHeader(h: bytes, ghost goal: Delivery) returns (ended: bool)
      requires |h| == HEADER_LEN && Bounds() && !isClosed && errno == 0
      requires Answer(replies, AfterHeader(src, h, Unread(), skip)) == goal && goal.end != Management
      modifies this`contentLen, this`paddingLen, this`replies, this`skip, this`stop, this`isClosed, this`errno
      ensures ended ==> Shape() && isClosed && Ahead() == goal
      ensures !ended ==> Filling([], goal)
    {
      hide Deliver, AfterHeader, Unread, Prepend, Ahead;
      stop := rdNext;
      var status := ProcessHeader(h);
      assert [] + Unread() == Unread() && replies + [] == replies;
      match status {
        case StreamRecord =>
          if contentLen == 0 {
            stop := rdNext;
            isClosed := true;
            ClosedAhead();
            return true;
          }
          return false;
        case SkipRecord =>
          skip := true;
          return false;
        case Error(code) =>
          SetError(code);
          ClosedAhead();
          return true;
      }
    }

    lemma ClosedAhead()
      requires Shape() && isClosed
      ensures Ahead() == Delivery([], if errno == 0 then Eof else Failed(errno), Unread(), replies)
    {
    }

    lemma StartFilling()
      requires Valid() && !isClosed && rdNext == stop
      ensures Filling([], Ahead())
    {
      hide Deliver;
      var d := Deliver(src, Unread(), Where());
      assert [] + Unread() == Unread() && buff[rdNext..stop] + d.data == d.data;
    }

    /** One round of the fill loop: deliver, end, or pass over some input. */
    method FillStep(hdr: bytes, ghost goal: Delivery) returns (done: bool, hdr': bytes)
      requires Filling(hdr, goal)
      modifies this, buff
      ensures src == old(src)
      ensures done ==> Valid() && Ahead() == goal && (!isClosed ==> rdNext < stop)
      ensures !done ==> Filling(hdr', goal) && |Unread()| < |old(Unread())|
    {
      hide Deliver, AfterHeader;
      hdr' := hdr;
      var ok := ReadMore(hdr, goal);
      if !ok { return true, hdr; }
      if contentLen > 0 {
        if !skip {
          GiveContent(goal);
          return true, hdr;
        }
        SkipContent(goal);
        if contentLen > 0 { return false, []; }
      }
      if paddingLen > 0 {
        PassPadding(goal);
        if paddingLen > 0 { return false, []; }
      }
      done, hdr' := FillHeader(hdr, goal);
    }

    /** Collect the header, and act on it when it is complete. */
    method FillHeader(hdr: bytes, ghost goal: Delivery) returns (done: bool, hdr': bytes)
      requires Filling(hdr, goal) && contentLen == 0 && paddingLen == 0
      modifies this, buff
      ensures src == old(src)
      ensures done ==> Valid() && Ahead() == goal && isClosed
      ensures !done ==> Filling(hdr', goal) && |Unread()| <= |old(Unread())|
      ensures !done && old(rdNext < buffStop) ==> |Unread()| < |old(Unread())|
    {
      hide Deliver, AfterHeader;
      var h := PassHeader(hdr);
      if |h| < HEADER_LEN { return false, h; }
      HeaderComplete(src, h, Unread(), skip);
      done := HandleHeader(h, goal);
      hdr' := [];
    }

    /** Find more content, or the end of the stream. */
    method FillBuffProc()
      requires Valid() && !isClosed && rdNext == stop
      modifies this, buff
      ensures Valid() && Ahead() == old(Ahead()) && src == old(src)
      ensures !isClosed ==> rdNext < stop
    {
      hide Deliver;
      ghost var goal := Ahead();
      StartFilling();
      var hdr: bytes, done := [], false;
      while !done
        invariant src == old(src)
        invariant done ==> Valid() && Ahead() == goal && (!isClosed ==> rdNext < stop)
        invariant !done ==> Filling(hdr, goal)
        decreases !done, if done then 0 else |Unread()|
      {
        done, hdr := FillStep(hdr, goal);
      }
    }

    /** Go on with records of another type; whatever is left of the current
        record is forgotten, its padding included. */
    method SetReaderType(kind: byte)
      requires Bounds() && errno == 0
      requires Deliver(src.(kind := kind), Unread(), BETWEEN).end != Management
      modifies this
      ensures Valid() && !isClosed && src == old(src).(kind := kind)
      ensures Ahead() == Answer(old(replies), Deliver(src, old(Unread()), BETWEEN))
    {
      hide Deliver;
      src := src.(kind := kind);
      skip := false;
      contentLen := 0;
      paddingLen := 0;
      stop := rdNext;
      isClosed := false;
      ghost var d := Deliver(src, Unread(), BETWEEN);
      assert [] + d.data == d.data;
    }

    /** Hand out the next `n` bytes of the window. */
    method Take(n: nat) returns (s: bytes)
      requires Valid() && !isClosed && rdNext + n <= stop
      modifies this`rdNext
      ensures Valid() && |s| == n && old(Ahead()) == Prepend(s, Ahead())
      ensures rdNext == old(rdNext) + n
    {
      hide Deliver;
      s := buff[rdNext..rdNext + n];
      ghost var window, d := buff[rdNext..stop], Deliver(src, buff[stop..buffStop] + input, Where());
      rdNext := rdNext + n;
      assert window == s + buff[rdNext..stop];
      assert window + d.data == s + (buff[rdNext..stop] + d.data);
    }

    /** The next byte, or -1 at the end of the stream. */
    method GetChar() returns (c: int)
      requires Valid()
      modifies this, buff
      ensures Valid() && src == old(src) && -1 <= c < 256
      ensures c >= 0 ==> old(Ahead()) == Prepend([c], Ahead())
      ensures c == -1 ==> isClosed && Ahead() == old(Ahead()) && Ahead().data == []
      ensures old(isClosed) ==> isClosed
    {
      hide Deliver;
      if isClosed { return -1; }
      if rdNext == stop {
        FillBuffProc();
        if isClosed { return -1; }
      }
      var s := Take(1);
      assert s == [s[0]];
      c := s[0];
    }

    /** Up to `n` bytes; fewer only at the end of the stream. */
    method GetStr(n: int) returns (str: bytes)
      requires Valid()
      modifies this, buff
      ensures Valid() && src == old(src)
      ensures old(Ahead()) == Prepend(str, Ahead())
      ensures |str| == (if n > 0 then n else 0) || (|str| < n && isClosed)
      ensures old(isClosed) ==> isClosed
    {
      hide Deliver, Prepend;
      str := [];
      ghost var all := Ahead();
      PrependNothing(all);
      if isClosed || n <= 0 { return; }
      if n <= stop - rdNext {
        str := Take(n);
        return;
      }
      while !isClosed
        invariant Valid() && src == old(src) && all == Prepend(str, Ahead()) && |str| < n
        decreases |Ahead().data| + |Ahead().replies| + (if isClosed then 0 else 1), n - |str|, if rdNext == stop then 1 else 0
      {
        if rdNext != stop {
          var m := Min(n - |str|, stop - rdNext);
          var s := Take(m);
          PrependAppend(str, s, Ahead());
          str := str + s;
          if |str| == n { return; }
        }
        FillBuffProc();
      }
    }
  }

  /** How a client may ask for content. */
  datatype Ask = OneByte | UpTo(n: int)

  /** The bytes a request asks for. */
  function Asked(ask: Ask): nat {
    if ask.OneByte? then 1 else Max(0, ask.n)
  }

  function AskedAll(asks: seq<Ask>): nat {
    if asks == [] then 0 else AskedAll(asks[..|asks| - 1]) + Asked(asks[|asks| - 1])
  }

  /** As much of `data` as was asked for. */
  function Front(data: bytes, n: nat): bytes {
    data[..Min(n, |data|)]
  }

  /** A request gets as much of what is ahead as it asks for, and falls short
      exactly when there is less. */
  method AskOnce(r: Reader, ask: Ask) returns (got: bytes, short: bool)
    requires r.Valid()
    modifies r, r.buff
    ensures r.Valid() && old(r.Ahead()) == Prepend(got, r.Ahead())
    ensures got == Front(old(r.Ahead()).data, Asked(ask)) && (short <==> Asked(ask) > |old(r.Ahead()).data|)
    ensures short || old(r.isClosed) ==> r.isClosed
  {
    hide Reader.Ahead, Reader.Valid;
    match ask {
      case OneByte =>
        var c := r.GetChar();
        got, short := if c >= 0 then [c] else [], c < 0;
        PrependNothing(r.Ahead());
      case UpTo(n) =>
        got := r.GetStr(n);
        short := |got| < n;
        if r.isClosed { Exhausted(r, got); }
    }
    Cut(got, r.Ahead().data);
  }

  lemma Cut(a: bytes, b: bytes)
    ensures (a + b)[..|a|] == a
  {
  }

  lemma Exhausted(r: Reader, got: bytes)
    requires r.Valid() && r.isClosed
    ensures r.Ahead().data == [] && Prepend(got, r.Ahead()).data == got
  {
  }

  /** Any mix of requests receives the stream's content from the front and
      without gaps, as much of it as was asked for in all. */
  method ReadMix(r: Reader, asks: seq<Ask>) returns (got: bytes, short: bool)
    requires r.Valid()
    modifies r, r.buff
    ensures r.Valid() && old(r.Ahead()) == Prepend(got, r.Ahead())
    ensures got == Front(old(r.Ahead()).data, AskedAll(asks)) && (short <==> AskedAll(asks) > |old(r.Ahead()).data|)
    ensures short ==> r.isClosed
  {
    hide Prepend, Reader.Ahead, Reader.Valid, Front;
    got, short := [], false;
    ghost var all := r.Ahead();
    PrependNothing(all);
    assert asks[..0] == [];
    FrontNothing(all.data);
    for i := 0 to |asks|
      invariant r.Valid() && all == Prepend(got, r.Ahead())
      invariant got == Front(all.data, AskedAll(asks[..i])) && (short <==> AskedAll(asks[..i]) > |all.data|)
      invariant short ==> r.isClosed
    {
      assert asks[..i + 1][..i] == asks[..i];
      ghost var d := r.Ahead();
      var s, less := AskOnce(r, asks[i]);
      PrependAppend(got, s, r.Ahead());
      PrependData(got, d);
      FrontStep(got, d.data, AskedAll(asks[..i]), Asked(asks[i]));
      got, short := got + s, short || less;
    }
    assert asks[..|asks|] == asks;
  }

  lemma FrontNothing(data: bytes)
    ensures Front(data, 0) == []
  {
  }

  /** Asking for `n` bytes and then `m` more is asking for their sum. */
  lemma FrontStep(got: bytes, rest: bytes, n: nat, m: nat)
    requires got == Front(got + rest, n)
    ensures got + Front(rest, m) == Front(got + rest, n + m)
    ensures n + m > |got + rest| <==> n > |got + rest| || m > |rest|
  {
  }

  /** Own and foreign records, read in any mix of requests through a buffer of
      any size: the content of the own records in order, as much of it as was
      asked for, and then the end of the stream without an error. */
  method ReadRecords(s: Source, rs: seq<Record>, eof: Record, w: bytes, size: nat, asks: seq<Ask>)
    returns (got: bytes, short: bool, r: Reader)
    requires size > 0 && Readable(s) && Stream(s, rs)
    requires WellFormed(eof) && Own(s, eof) && eof.content == []
    ensures var content := Surviving(s, rs, false);
      got == Front(content, AskedAll(asks)) && (short <==> AskedAll(asks) > |content|)
    ensures !Loses(s, rs) ==> got <= OwnContent(s, rs)
    ensures !Loses(s, rs) ==> |got| == if short then |OwnContent(s, rs)| else AskedAll(asks)
    ensures Surviving(s, rs, false) == OwnContent(s, rs) <==> !Loses(s, rs)
    ensures r.Valid() && r.Ahead().end == Eof && (short ==> r.isClosed && r.errno == 0)
  {
    hide Deliver, Surviving, OwnContent, Refusals, Encode, EncodeAll, Front, AskedAll;
    StreamDelivers(s, rs, eof, w, false);
    SurvivingOrNot(s, rs, false);
    r := new Reader(s, size, EncodeAll(rs) + (Encode(eof) + w));
    got, short := ReadMix(r, asks);
    FrontSize(Surviving(s, rs, false), AskedAll(asks));
  }

  lemma FrontSize(data: bytes, n: nat)
    ensures Front(data, n) <= data && |Front(data, n)| == if n > |data| then |data| else n
  {
  }

  /** The bytes asked for: one for each single byte, and as many as named otherwise,
      none for a negative number. */
  lemma AskedMore(asks: seq<Ask>, n: int)
    ensures AskedAll([]) == 0 && AskedAll(asks + [OneByte]) == AskedAll(asks) + 1
    ensures AskedAll(asks + [UpTo(n)]) == AskedAll(asks) + if n < 0 then 0 else n
  {
    assert (asks + [OneByte])[..|asks|] == asks && (asks + [UpTo(n)])[..|asks|] == asks;
  }
}
