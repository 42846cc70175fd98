/**
 The RESP2 reply grammar as a recursive-descent parser over the unread bytes
 of a stream. It is the reference that the slot-stack reader of read.c is compared
 with: it keeps no stack, no buffer positions and no reply objects.
 */
module Resp {
  import opened Bytes
  import opened CTypes

  const DOLLAR: byte := 36
  const STAR: byte := 42
  const PLUS: byte := 43
  const MINUS: byte := 45
  const COLON: byte := 58

  /** Nine task slots: eight arrays may be open above the item being read. */
  const MAX_DEPTH := 8

  /** A finished reply. `elements` is the count the server announced, which the
      client stores even when it is negative and no child follows. */
  datatype Reply =
    | Status(str: bytes)
    | Error(str: bytes)
    | Integer(value: int)
    | Str(str: bytes)
    | Nil
    | Array(elements: int, element: seq<Reply>)

  /** What stops a parser. The code reports the first two. A count changes its sign
      when it is cut to an int: the code would go on with an array that has no room
      for its children, or with children that never come. */
  datatype ProtocolError = BadTypeByte(b: byte) | NestingTooDeep | LostCount(n: int)

  /** An item is there, cut off, or refused; `rest` is what follows the last byte
      that mattered. */
  datatype Outcome = Done(reply: Reply, rest: bytes) | More | Bad(error: ProtocolError, rest: bytes)

  datatype ListOutcome =
    | ListDone(replies: seq<Reply>, rest: bytes)
    | ListMore
    | ListBad(error: ProtocolError, rest: bytes)

  predicate IsTypeByte(b: byte) {
    b in {MINUS, PLUS, COLON, DOLLAR, STAR}
  }

  predicate CrLfAt(s: bytes, i: int) {
    0 <= i < |s| - 1 && s[i] == CR && s[i+1] == LF
  }

  /** Index of the first CR LF, or -1. */
  function FindCrLf(s: bytes): (k: int)
    ensures k == -1 || CrLfAt(s, k)
    ensures forall i :: CrLfAt(s, i) ==> 0 <= k <= i
  {
    if |s| < 2 then -1
    else if CrLfAt(s, 0) then 0
    else
      var k := FindCrLf(s[1..]);
      assert forall i :: CrLfAt(s, i) ==> i > 0 && CrLfAt(s[1..], i - 1);
      if k < 0 then -1 else k + 1
  }

  /** More input does not move a line end that was already found. */
  lemma FindCrLfExtend(s: bytes, t: bytes)
    requires FindCrLf(s) >= 0
    ensures FindCrLf(s + t) == FindCrLf(s)
  {
    var k := FindCrLf(s);
    assert CrLfAt(s + t, k);
    var j := FindCrLf(s + t);
    assert CrLfAt(s, j);
  }

  /** The number spelled by the digits before the first CR, on top of `acc`;
      Malformed when another byte comes first. */
  datatype Number = Digits(value: int) | Malformed

  function DigitsToCr(s: bytes, acc: int): Number
    requires CR in s
  {
    if s[0] == CR then Digits(acc)
    else if '0' as int <= s[0] <= '9' as int then DigitsToCr(s[1..], acc * 10 + (s[0] - '0' as int))
    else Malformed
  }

  /** The value of a length or integer line: an optional sign, then digits up
      to the first CR, cut to 64 bits; anything else reads as -1. */
  function LongLong(s: bytes): int
    requires CR in s
  {
    var signed := s[0] == MINUS || s[0] == PLUS;
    var n := DigitsToCr(if signed then s[1..] else s, 0);
    if n.Malformed? then -1
    else AsLongLong(if s[0] == MINUS then -n.value else n.value)
  }

  /** The sign of a count survives the conversion to int. */
  predicate CountKept(n: int) {
    n > 0 <==> AsInt(n) > 0
  }

  /** One item whose type byte has not been read, inside `depth` open arrays. */
  function ParseItem(u: bytes, depth: nat): (o: Outcome)
    ensures o.More? || |o.rest| < |u|
    decreases |u|, 0, 0
  {
    if u == [] then More
    else if !IsTypeByte(u[0]) then Bad(BadTypeByte(u[0]), u[1..])
    else ParseBody(u[0], u[1..], depth)
  }

  /** One item whose type byte was `ty`. */
  function ParseBody(ty: byte, u: bytes, depth: nat): (o: Outcome)
    requires IsTypeByte(ty)
    ensures o.More? || |o.rest| <= |u|
    ensures o.Done? ==> |o.rest| < |u|
    decreases |u|, 1, 0
  {
    var k := FindCrLf(u);
    if ty == STAR && depth >= MAX_DEPTH then Bad(NestingTooDeep, u)
    else if k < 0 then More
    else
      assert u[..k+1][k] == CR;
      var n := LongLong(u[..k+1]);
      if ty == MINUS then Done(Error(u[..k]), u[k+2..])
      else if ty == PLUS then Done(Status(u[..k]), u[k+2..])
      else if ty == COLON then Done(Integer(n), u[k+2..])
      else if ty == DOLLAR then
        if n < 0 then Done(Nil, u[k+2..])
        else if k + 2 + n + 2 <= |u| then Done(Str(u[k+2..k+2+n]), u[k+2+n+2..])
        else More
      else if n == -1 then Done(Nil, u[k+2..])
      else if !CountKept(n) then Bad(LostCount(n), u[k+2..])
      else if n <= 0 then Done(Array(AsInt(n), []), u[k+2..])
      else
        match ParseList(u[k+2..], depth + 1, AsInt(n))
        case ListDone(rs, rest) => Done(Array(AsInt(n), rs), rest)
        case ListMore => More
        case ListBad(e, rest) => Bad(e, rest)
  }

  /** `n` items in a row. */
  function ParseList(u: bytes, depth: nat, n: nat): (o: ListOutcome)
    ensures o.ListMore? || |o.rest| <= |u|
    ensures o.ListDone? ==> |o.replies| == n
    decreases |u|, 2, n
  {
    if n == 0 then ListDone([], u)
    else
      match ParseItem(u, depth)
      case More => ListMore
      case Bad(e, rest) => ListBad(e, rest)
      case Done(r, rest) =>
        match ParseList(rest, depth, n - 1)
        case ListMore => ListMore
        case ListBad(e, rest') => ListBad(e, rest')
        case ListDone(rs, rest') => ListDone([r] + rs, rest')
  }

  /** How a drained stream ends: waiting for bytes, or stopped by an error. */
  datatype Ending = Waiting | Failed(error: ProtocolError)

  datatype Transcript = Transcript(replies: seq<Reply>, ending: Ending)

  /** The whole stream: replies back to back until the bytes run out or fail. */
  function ParseStream(u: bytes): Transcript
    decreases |u|
  {
    match ParseItem(u, 0)
    case More => Transcript([], Waiting)
    case Bad(e, _) => Transcript([], Failed(e))
    case Done(r, rest) =>
      var t := ParseStream(rest);
      Transcript([r] + t.replies, t.ending)
  }

  /** A reply with no missing child, whose arrays nest at most `levels` deep. */
  ghost predicate Complete(r: Reply, levels: nat)
    decreases levels, 0
  {
    r.Array? ==>
      && levels > 0
      && (if r.elements > 0 then |r.element| == r.elements else r.element == [])
      && AllComplete(r.element, levels - 1)
  }

  ghost predicate AllComplete(rs: seq<Reply>, levels: nat)
    decreases levels, 1
  {
    forall i :: 0 <= i < |rs| ==> Complete(rs[i], levels)
  }

  lemma CompleteFront(r: Reply, rs: seq<Reply>, levels: nat)
    requires Complete(r, levels) && AllComplete(rs, levels)
    ensures AllComplete([r] + rs, levels)
  {
    hide Complete;
  }

  /** Every item that parses is complete and stays within the nesting limit. */
  lemma {:induction false} ItemComplete(u: bytes, depth: nat)
    requires depth <= MAX_DEPTH
    ensures ParseItem(u, depth).Done? ==> Complete(ParseItem(u, depth).reply, MAX_DEPTH - depth)
    decreases |u|, 0, 0
  {
    hide AllComplete, LongLong, FindCrLf, ParseList, AsInt;
    NoneComplete(MAX_DEPTH - depth);
    if u != [] && IsTypeByte(u[0]) {
      var v := u[1..];
      var k := FindCrLf(v);
      if u[0] == STAR && depth < MAX_DEPTH && k >= 0 {
        assert v[..k+1][k] == CR;
        var n := LongLong(v[..k+1]);
        NoneComplete(MAX_DEPTH - depth - 1);
        if n > 0 && CountKept(n) {
          ListComplete(v[k+2..], depth + 1, AsInt(n));
        }
      }
    }
  }

  lemma NoneComplete(levels: nat)
    ensures AllComplete([], levels)
  {
  }

  lemma {:induction false} ListComplete(u: bytes, depth: nat, n: nat)
    requires depth <= MAX_DEPTH
    ensures ParseList(u, depth, n).ListDone? ==> AllComplete(ParseList(u, depth, n).replies, MAX_DEPTH - depth)
    decreases |u|, 1, n
  {
    hide AllComplete, Complete, ParseItem;
    if n == 0 {
      NoneComplete(MAX_DEPTH - depth);
    } else {
      ItemComplete(u, depth);
      var o := ParseItem(u, depth);
      if o.Done? {
        ListComplete(o.rest, depth, n - 1);
        var more := ParseList(o.rest, depth, n - 1);
        if more.ListDone? { CompleteFront(o.reply, more.replies, MAX_DEPTH - depth); }
      }
    }
  }

  /** Every reply a stream yields is complete. */
  lemma {:induction false} StreamComplete(u: bytes)
    ensures AllComplete(ParseStream(u).replies, MAX_DEPTH)
    decreases |u|
  {
    hide AllComplete, Complete, ParseItem;
    ItemComplete(u, 0);
    NoneComplete(MAX_DEPTH);
    var o := ParseItem(u, 0);
    if o.Done? {
      StreamComplete(o.rest);
      CompleteFront(o.reply, ParseStream(o.rest).replies, MAX_DEPTH);
    }
  }
}
