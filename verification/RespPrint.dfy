/**
 Replies as a server writes them (the RESP2 protocol of Redis): printing any reply
 and parsing it, or feeding it to the reader in any chunks, gives it back.
 */
module RespPrint {
  import opened Bytes
  import opened CTypes
  import opened Resp
  import opened Decimal
  import opened RespPrefix
  import RespReader

  /** `+text`, `-text` and `:number` lines, `$length` with the bytes, `$-1` for nil,
      and `*count` followed by the elements. */
  function Print(r: Reply): bytes
    decreases r, 0
  {
    match r
    case Status(s) => [43] + s + [13, 10]
    case Error(s) => [45] + s + [13, 10]
    case Integer(v) => [58] + Text(v) + [13, 10]
    case Str(s) => [36] + Dec(|s|) + [13, 10] + s + [13, 10]
    case Nil => [36, 45, 49, 13, 10]
    case Array(n, rs) => [42] + Text(n) + [13, 10] + PrintAll(rs)
  }

  function PrintAll(rs: seq<Reply>): bytes
    decreases rs, 1
  {
    if rs == [] then [] else Print(rs[0]) + PrintAll(rs[1..])
  }

  /** A reply a server can send: no line end inside a line, numbers of 64 bits, and
      arrays with all their children, at most `levels` deep. A count below zero
      announces no children; -1 would be nil. */
  ghost predicate Printable(r: Reply, levels: nat)
    decreases levels, 0, r
  {
    match r
    case Status(s) => FindCrLf(s) < 0
    case Error(s) => FindCrLf(s) < 0
    case Integer(v) => INT64_MIN <= v <= INT64_MAX
    case Str(s) => |s| <= INT64_MAX
    case Nil => true
    case Array(n, rs) =>
      && levels > 0 && INT_MIN <= n <= INT_MAX && n != -1
      && |rs| == (if n > 0 then n else 0) && AllPrintable(rs, levels - 1)
  }

  ghost predicate AllPrintable(rs: seq<Reply>, levels: nat)
    decreases levels, 1
  {
    forall i :: 0 <= i < |rs| ==> Printable(rs[i], levels)
  }

  /** The first line of anything that starts with text and a line end. */
  lemma FirstLine(s: bytes, rest: bytes)
    requires FindCrLf(s) < 0
    ensures var v := s + [13, 10] + rest;
      FindCrLf(v) == |s| && v[..|s|] == s && v[|s| + 2..] == rest && CR in v[..|s| + 1] && v[..|s| + 1] == s + [13]
  {
    hide FindCrLf, CrLfAt;
    var v := s + [13, 10] + rest;
    forall i | 0 <= i < |s| ensures !CrLfAt(v, i) { NoEarlier(s, rest, i); }
    LineSlices(s, rest);
    LineFound(v, |s|);
  }

  lemma NoEarlier(s: bytes, rest: bytes, i: nat)
    requires FindCrLf(s) < 0 && i < |s|
    ensures !CrLfAt(s + [13, 10] + rest, i)
  {
    hide FindCrLf;
    var v := s + [13, 10] + rest;
    assert v[i] == s[i] && v[i + 1] == if i + 1 < |s| then s[i + 1] else 13;
    assert !CrLfAt(s, i);
  }

  lemma LineFound(v: bytes, n: nat)
    requires CrLfAt(v, n) && forall i :: 0 <= i < n ==> !CrLfAt(v, i)
    ensures FindCrLf(v) == n
  {
    hide FindCrLf;
    assert CrLfAt(v, FindCrLf(v));
  }

  lemma LineSlices(s: bytes, rest: bytes)
    ensures var v := s + [13, 10] + rest;
      && CrLfAt(v, |s|) && v[..|s|] == s && v[|s| + 2..] == rest && CR in v[..|s| + 1] && v[..|s| + 1] == s + [13]
  {
    var v := s + [13, 10] + rest;
    assert v[..|s| + 1][|s|] == 13;
  }

  /** A number line is found and read as its number. */
  lemma NumberLine(v: int, rest: bytes)
    requires INT64_MIN <= v <= INT64_MAX
    ensures var t := Text(v) + [13, 10] + rest; var k := |Text(v)|;
      FindCrLf(t) == k && t[k + 2..] == rest && CR in t[..k + 1] && LongLong(t[..k + 1]) == v
  {
    hide Dec, LongLong;
    NoLineEnd(v);
    FirstLine(Text(v), rest);
    ReadText(v, [13]);
  }

  lemma NoLineEnd(v: int)
    ensures FindCrLf(Text(v)) < 0
  {
    hide Dec;
    var t := Text(v);
    assert forall i :: 0 <= i < |t| ==> t[i] != 13 by {
      if v < 0 { assert forall i :: 1 <= i < |t| ==> t[i] == t[1..][i - 1]; }
    }
  }

  /** A printed reply in front of anything parses to the reply. */
  lemma {:induction false} PrintParses(r: Reply, rest: bytes, depth: nat)
    requires depth <= 8 && Printable(r, 8 - depth)
    ensures ParseItem(Print(r) + rest, depth) == Done(r, rest)
    decreases 8 - depth, 0
  {
    hide FindCrLf, LongLong, Text, Dec, ParseList, PrintAll, AllPrintable, AsInt;
    match r {
      case Status(s) => LineParses(43, s, rest, depth);
      case Error(s) => LineParses(45, s, rest, depth);
      case Integer(v) => IntegerParses(v, rest, depth);
      case Str(s) => StringParses(s, rest, depth);
      case Nil => NilParses(rest, depth);
      case Array(n, rs) =>
        if n > 0 { AllParse(rs, rest, depth + 1); } else { NoReplies(rs); }
        ArrayParses(n, rs, rest, depth);
    }
  }

  /** Printed replies one after the other parse to those replies. */
  lemma {:induction false} AllParse(rs: seq<Reply>, rest: bytes, depth: nat)
    requires depth <= 8 && AllPrintable(rs, 8 - depth)
    ensures ParseList(PrintAll(rs) + rest, depth, |rs|) == ListDone(rs, rest)
    decreases 8 - depth, 1, |rs|
  {
    hide ParseItem, Print, Printable;
    if rs == [] {
      assert PrintAll(rs) + rest == rest;
    } else {
      assert Printable(rs[0], 8 - depth);
      assert PrintAll(rs) + rest == Print(rs[0]) + (PrintAll(rs[1..]) + rest);
      PrintParses(rs[0], PrintAll(rs[1..]) + rest, depth);
      assert AllPrintable(rs[1..], 8 - depth);
      AllParse(rs[1..], rest, depth);
      assert [rs[0]] + rs[1..] == rs;
    }
  }

  lemma NoReplies(rs: seq<Reply>)
    requires |rs| == 0
    ensures PrintAll(rs) == []
  {
  }

  lemma LineParses(ty: byte, s: bytes, rest: bytes, depth: nat)
    requires ty in {43, 45} && FindCrLf(s) < 0
    ensures ParseItem([ty] + s + [13, 10] + rest, depth) == Done(if ty == 43 then Status(s) else Error(s), rest)
  {
    hide FindCrLf, LongLong, ParseList;
    var u := [ty] + s + [13, 10] + rest;
    assert u[1..] == s + [13, 10] + rest;
    FirstLine(s, rest);
  }

  lemma IntegerParses(v: int, rest: bytes, depth: nat)
    requires INT64_MIN <= v <= INT64_MAX
    ensures ParseItem([58] + Text(v) + [13, 10] + rest, depth) == Done(Integer(v), rest)
  {
    hide FindCrLf, LongLong, Text, ParseList;
    assert ([58] + Text(v) + [13, 10] + rest)[1..] == Text(v) + [13, 10] + rest;
    NumberLine(v, rest);
  }

  lemma StringParses(s: bytes, rest: bytes, depth: nat)
    requires |s| <= INT64_MAX
    ensures ParseItem([36] + Dec(|s|) + [13, 10] + s + [13, 10] + rest, depth) == Done(Str(s), rest)
  {
    hide FindCrLf, LongLong, Dec, ParseList;
    var u := [36] + Dec(|s|) + [13, 10] + s + [13, 10] + rest;
    var body := s + [13, 10] + rest;
    assert u[1..] == Text(|s|) + [13, 10] + body;
    NumberLine(|s|, body);
    var v, k := u[1..], |Text(|s|)|;
    Body(v, k + 2, s, rest);
  }

  lemma Body(v: bytes, at: nat, s: bytes, rest: bytes)
    requires at <= |v| && v[at..] == s + [13, 10] + rest
    ensures at + |s| + 2 <= |v| && v[at..at + |s|] == s && v[at + |s| + 2..] == rest
  {
    assert v[at..at + |s|] == v[at..][..|s|] && v[at + |s| + 2..] == v[at..][|s| + 2..];
  }

  /** A string of any negative length is nil. */
  lemma NegativeLength(v: int, rest: bytes, depth: nat)
    requires INT64_MIN <= v < 0
    ensures ParseItem([36] + Text(v) + [13, 10] + rest, depth) == Done(Nil, rest)
  {
    hide FindCrLf, LongLong, Text, ParseList;
    assert ([36] + Text(v) + [13, 10] + rest)[1..] == Text(v) + [13, 10] + rest;
    NumberLine(v, rest);
  }

  /** A plus sign in front of a number changes nothing. */
  lemma PlusSign(v: nat, s: bytes)
    requires s != [] && s[0] == 13
    ensures LongLong([43] + Dec(v) + s) == AsLongLong(v)
  {
    hide Dec, DigitsToCr;
    assert ([43] + Dec(v) + s)[1..] == Dec(v) + s;
    ReadDec(v, s);
    EndOfDigits(s, v);
  }

  lemma NilParses(rest: bytes, depth: nat)
    ensures ParseItem([36, 45, 49, 13, 10] + rest, depth) == Done(Nil, rest)
    ensures depth < 8 ==> ParseItem([42, 45, 49, 13, 10] + rest, depth) == Done(Nil, rest)
  {
    hide FindCrLf, LongLong, ParseList, AsInt;
    assert Dec(1) == [49] && Text(-1) == [45, 49];
    assert ([36, 45, 49, 13, 10] + rest)[1..] == Text(-1) + [13, 10] + rest;
    assert ([42, 45, 49, 13, 10] + rest)[1..] == Text(-1) + [13, 10] + rest;
    NumberLine(-1, rest);
  }

  lemma ArrayParses(n: int, rs: seq<Reply>, rest: bytes, depth: nat)
    requires depth < 8 && INT_MIN <= n <= INT_MAX && n != -1
    requires n > 0 ==> |rs| == n && ParseList(PrintAll(rs) + rest, depth + 1, n) == ListDone(rs, rest)
    requires n <= 0 ==> rs == [] && PrintAll(rs) == []
    ensures ParseItem([42] + Text(n) + [13, 10] + PrintAll(rs) + rest, depth) == Done(Array(n, rs), rest)
  {
    hide FindCrLf, LongLong, Text, PrintAll, ParseList, AsInt;
    var u := [42] + Text(n) + [13, 10] + PrintAll(rs) + rest;
    assert u[1..] == Text(n) + [13, 10] + (PrintAll(rs) + rest);
    NumberLine(n, PrintAll(rs) + rest);
  }

  /** A reply that is cut off anywhere is waited for. */
  lemma CutOff(r: Reply, k: nat, depth: nat)
    requires depth <= 8 && Printable(r, 8 - depth) && k < |Print(r)|
    ensures ParseItem(Print(r)[..k], depth) == More
  {
    hide ParseItem, Print, Printable;
    var p, f := Print(r)[..k], Print(r)[k..];
    assert p + f == Print(r) == Print(r) + [];
    PrintParses(r, [], depth);
    ItemExtend(p, f, depth);
  }

  /** Anything but the five type bytes is refused. */
  lemma OtherType(b: byte, rest: bytes, depth: nat)
    requires b !in {36, 42, 43, 45, 58}
    ensures ParseItem([b] + rest, depth) == Bad(BadTypeByte(b), rest)
  {
    assert ([b] + rest)[1..] == rest;
  }

  /** `*1` lines, one inside the other. */
  function Opening(k: nat): bytes {
    if k == 0 then [] else [42, 49, 13, 10] + Opening(k - 1)
  }

  /** An array inside eight open ones is refused, before its count is read. */
  lemma {:induction false} NineDeep(k: nat, rest: bytes)
    requires k <= 8
    ensures ParseItem(Opening(k) + [42] + rest, 8 - k) == Bad(NestingTooDeep, rest)
  {
    hide FindCrLf, LongLong, AsInt;
    var u := Opening(k) + [42] + rest;
    if k == 0 {
      assert u == [42] + rest && u[1..] == rest;
    } else {
      var inner := Opening(k - 1) + [42] + rest;
      NineDeep(k - 1, rest);
      assert Text(1) == [49];
      assert u[1..] == Text(1) + [13, 10] + inner;
      NumberLine(1, inner);
      assert ParseList(inner, 9 - k, 1) == ListBad(NestingTooDeep, rest);
    }
  }

  /** A number with anything but digits in front of its line end reads as -1. */
  lemma Malformed(s: bytes, i: nat)
    requires i < |s| && CR in s && (forall x :: 0 <= x <= i ==> s[x] != 13) && !(48 <= s[i] <= 57) && (i == 0 ==> s[0] !in {43, 45})
    ensures LongLong(s) == -1
  {
    var signed := s[0] == 45 || s[0] == 43;
    var t, j := if signed then s[1..] else s, if signed then i - 1 else i;
    assert CR in t by {
      var k :| 0 <= k < |s| && s[k] == 13;
      assert t[if signed then k - 1 else k] == 13;
    }
    assert t[j] == s[i] && forall x :: 0 <= x <= j ==> t[x] == s[if signed then x + 1 else x];
    NotDigits(t, 0, j);
  }

  lemma {:induction false} NotDigits(t: bytes, acc: int, j: nat)
    requires j < |t| && CR in t && (forall x :: 0 <= x <= j ==> t[x] != 13) && !(48 <= t[j] <= 57)
    ensures DigitsToCr(t, acc) == Number.Malformed
  {
    if j > 0 && 48 <= t[0] <= 57 {
      NotDigits(t[1..], acc * 10 + (t[0] - 48), j - 1);
    }
  }

  /** Printed replies parse as a stream to those replies, with nothing left. */
  lemma {:induction false} StreamParses(rs: seq<Reply>)
    requires AllPrintable(rs, 8)
    ensures ParseStream(PrintAll(rs)) == Transcript(rs, Waiting) && After(PrintAll(rs), |rs|) == []
  {
    hide ParseItem, Print, Printable;
    if rs == [] {
      NothingThere();
    } else {
      assert Printable(rs[0], 8) && AllPrintable(rs[1..], 8);
      PrintParses(rs[0], PrintAll(rs[1..]), 0);
      StreamParses(rs[1..]);
      assert [rs[0]] + rs[1..] == rs;
    }
  }

  lemma NothingThere()
    ensures ParseItem([], 0) == More
  {
  }

  /** Any replies, as a server writes them, delivered in any chunks: the reader hands
      out exactly these replies and waits for more with an empty buffer. */
  method ReadReplies(rs: seq<Reply>, chunks: seq<bytes>)
    returns (r: RespReader.Reader, out: seq<Reply>, ending: Ending)
    requires AllPrintable(rs, 8) && Concat(chunks) == PrintAll(rs) && |PrintAll(rs)| <= INT_MAX
    ensures out == rs && ending == Waiting
    ensures r.Valid() && r.err.None? && r.Unread() == []
  {
    hide PrintAll, AllPrintable, ParseStream, RespReader.Reader.Valid, RespReader.Reader.Unread;
    StreamParses(rs);
    var k;
    r, k, out, ending := RespReader.ReadStream(chunks);
    assert chunks[..k] == chunks;
  }
}
