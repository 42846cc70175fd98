/**
 Name-value pairs (FastCGI Specification 1.0, section 3.4): the encoder of
 cgi-fcgi, the decoder of fcgiapp.c, and an environment sent through a writer
 and read back through a reader.
 */
module FcgiParams {
  import opened Bytes
  import opened CTypes
  import opened FcgiRecord
  import opened FcgiInput
  import opened FcgiReader
  import opened FcgiWriter

  const EQUALS: byte := '=' as int
  const MAX_PARAM: nat := 0x7fff_ffff
  const PARAMS_ERROR: int := -4

  /** A length: one byte below 128, otherwise four, high byte first, with the top
      bit set. */
  function LenBytes(n: nat): (s: bytes)
    requires n <= MAX_PARAM
    ensures n < 0x80 ==> s == [n]
    ensures n >= 0x80 ==> |s| == 4 && s[0] >= 0x80
    ensures n >= 0x80 ==> (s[0] - 0x80) * 0x100_0000 + s[1] as int * 0x1_0000 + s[2] as int * 0x100 + s[3] == n
  {
    FourBytes(n);
    if n < 0x80 then [n]
    else [n / 0x100_0000 + 0x80, (n / 0x1_0000) % 256, (n / 256) % 256, n % 256]
  }

  datatype Len = NoLen | Len(n: nat, size: nat)

  /** The length at the front of `d`, and the bytes it takes. */
  function ParseLen(d: bytes): (l: Len)
    ensures l.Len? ==> 0 < l.size <= |d|
    ensures d != [] && d[0] < 0x80 ==> l == Len(d[0], 1)
    ensures |d| >= 4 && d[0] >= 0x80 ==>
      l == Len((d[0] - 0x80) * 0x100_0000 + d[1] as int * 0x1_0000 + d[2] as int * 0x100 + d[3], 4)
    ensures l == NoLen <==> d == [] || (d[0] >= 0x80 && |d| < 4)
  {
    if d == [] then NoLen
    else if d[0] < 0x80 then Len(d[0], 1)
    else if |d| < 4 then NoLen
    else Len((d[0] - 0x80) * 0x100_0000 + d[1] as int * 0x1_0000 + d[2] as int * 256 + d[3], 4)
  }

  lemma LenRoundTrip(n: nat, w: bytes)
    requires n <= MAX_PARAM
    ensures ParseLen(LenBytes(n) + w) == Len(n, |LenBytes(n)|)
    ensures (LenBytes(n) + w)[|LenBytes(n)|..] == w
  {
    var b := LenBytes(n);
    if n < 0x80 {
      assert (b + w)[0] == n;
    } else {
      FourBytes(n);
      assert (b + w)[..4] == b;
    }
  }

  lemma FourBytes(n: nat)
    ensures n == n / 0x100_0000 * 0x100_0000 + (n / 0x1_0000) % 256 * 0x1_0000 + (n / 256) % 256 * 256 + n % 256
  {
    assert n / 0x1_0000 / 256 == n / 0x100_0000 && n / 256 / 256 == n / 0x1_0000;
  }

  function EncodePair(name: bytes, value: bytes): bytes
    requires |name| <= MAX_PARAM && |value| <= MAX_PARAM
  {
    LenBytes(|name|) + LenBytes(|value|) + name + value
  }

  datatype Pair = NoPair | Pair(entry: bytes, size: nat)

  /** The pair at the front of `d` as an environment entry `name=value`. */
  function ParsePair(d: bytes): (p: Pair)
    ensures p.Pair? ==> 0 < p.size <= |d|
  {
    match ParseLen(d)
    case NoLen => NoPair
    case Len(n, i) =>
      match ParseLen(d[i..])
      case NoLen => NoPair
      case Len(v, j) =>
        var at := i + j;
        if |d| < at + n + v then NoPair
        else Pair(d[at..at + n] + [EQUALS] + d[at + n..at + n + v], at + n + v)
  }

  /** There is an area for a name of `n` and a value of `v` bytes when `have` bytes
      of content follow: its size is an int, and the one sum of lengths that
      wraps to zero gives an empty area, which suffices at the end of the content. */
  predicate AreaSuffices(n: nat, v: nat, have: nat) {
    n + v + 2 <= INT_MAX || (n + v + 2 == UINT32 && have == 0)
  }

  /** There is an area for the pair at the front of `d`, if its lengths are there. */
  predicate PairRoom(d: bytes) {
    match ParseLen(d)
    case NoLen => true
    case Len(n, i) =>
      match ParseLen(d[i..])
      case NoLen => true
      case Len(v, j) => AreaSuffices(n, v, |d| - i - j)
  }

  /** So there is for every pair a decoder reaches. */
  predicate RoomForAll(d: bytes)
    decreases |d|
  {
    d == [] || (PairRoom(d) && (ParsePair(d).Pair? ==> RoomForAll(d[ParsePair(d).size..])))
  }

  datatype Decoded = Decoded(params: seq<bytes>, ok: bool)

  /** All pairs; not ok if the last one is incomplete. */
  function DecodeParams(d: bytes): Decoded
    decreases |d|
  {
    if d == [] then Decoded([], true)
    else
      match ParsePair(d)
      case NoPair => Decoded([], false)
      case Pair(entry, size) =>
        var more := DecodeParams(d[size..]);
        Decoded([entry] + more.params, more.ok)
  }

  /** Position of the first equals sign, -1 if there is none. */
  function FirstEquals(e: bytes): (k: int)
    ensures -1 <= k < |e|
    ensures k >= 0 ==> e[k] == 61 && 61 !in e[..k]
    ensures k < 0 ==> 61 !in e
  {
    if e == [] then -1
    else if e[0] == EQUALS then 0
    else
      var k := FirstEquals(e[1..]);
      assert e == [e[0]] + e[1..] && (k >= 0 ==> e[..k + 1] == [e[0]] + e[1..][..k]);
      if k < 0 then -1 else 1 + k
  }

  /** An environment entry has a name; its length fits a C int. */
  predicate Entry(e: bytes) {
    FirstEquals(e) >= 0 && |e| <= MAX_PARAM
  }

  ghost predicate Environment(env: seq<bytes>) {
    forall i :: 0 <= i < |env| ==> Entry(env[i])
  }

  ghost predicate Short(env: seq<bytes>) {
    forall i :: 0 <= i < |env| ==> |env[i]| <= MAX_PARAM
  }

  function EncodeEntry(e: bytes): bytes
    requires Entry(e)
  {
    EncodePair(e[..FirstEquals(e)], e[FirstEquals(e) + 1..])
  }

  function EncodeEnv(env: seq<bytes>): bytes
    requires Environment(env)
  {
    if env == [] then [] else EncodeEntry(env[0]) + EncodeEnv(env[1..])
  }

  /** A pair in front of anything is read back. */
  lemma PairRoundTrip(name: bytes, value: bytes, w: bytes)
    requires |name| <= MAX_PARAM && |value| <= MAX_PARAM
    ensures ParsePair(EncodePair(name, value) + w)
         == Pair(name + [61] + value, |EncodePair(name, value)|)
    ensures (EncodePair(name, value) + w)[|EncodePair(name, value)|..] == w
  {
    hide ParseLen, LenBytes;
    var a, b := LenBytes(|name|), LenBytes(|value|);
    var d := EncodePair(name, value) + w;
    assert d == a + (b + (name + value + w));
    LenRoundTrip(|name|, b + (name + value + w));
    LenRoundTrip(|value|, name + value + w);
    PairSlices(a + b, name, value, w);
    assert d[|a|..] == b + (name + value + w) && a + b + name + value + w == d;
  }

  /** A name and a value behind a header. */
  lemma PairSlices(h: bytes, name: bytes, value: bytes, w: bytes)
    ensures var d, n, v := h + name + value + w, |h| + |name|, |h| + |name| + |value|;
            d[|h|..n] == name && d[n..v] == value && d[v..] == w
  {
  }

  lemma EntryRoundTrip(e: bytes, w: bytes)
    requires Entry(e)
    ensures ParsePair(EncodeEntry(e) + w) == Pair(e, |EncodeEntry(e)|)
    ensures (EncodeEntry(e) + w)[|EncodeEntry(e)|..] == w
  {
    hide ParsePair, EncodePair, FirstEquals;
    var k := FirstEquals(e);
    PairRoundTrip(e[..k], e[k + 1..], w);
    assert e[..k] + [EQUALS] + e[k + 1..] == e;
  }

  lemma {:induction false} NameEnds(name: bytes, value: bytes)
    requires 61 !in name
    ensures FirstEquals(name + [61] + value) == |name|
  {
    if name != [] {
      assert (name + [61] + value)[1..] == name[1..] + [61] + value;
      NameEnds(name[1..], value);
    }
  }

  /** The bytes of an entry: the length of the name, the length of the value, the
      name, the value. The name ends at the first equals sign. */
  lemma EntryOnWire(name: bytes, value: bytes)
    requires 61 !in name && |name| + 1 + |value| <= MAX_PARAM
    ensures var e := name + [61] + value; Entry(e) && var s := EncodeEntry(e);
      var i, j := if |name| < 0x80 then 1 else 4, if |value| < 0x80 then 1 else 4;
      && |s| == i + j + |name| + |value|
      && (i == 1 ==> s[0] == |name|)
      && (i == 4 ==> (s[0] - 0x80) * 0x100_0000 + s[1] as int * 0x1_0000 + s[2] as int * 0x100 + s[3] == |name|)
      && (j == 1 ==> s[i] == |value|)
      && (j == 4 ==> (s[i] - 0x80) * 0x100_0000 + s[i + 1] as int * 0x1_0000 + s[i + 2] as int * 0x100 + s[i + 3] == |value|)
      && s[i + j..i + j + |name|] == name && s[i + j + |name|..] == value
  {
    hide LenBytes;
    var e := name + [61] + value;
    var k := FirstEquals(e);
    NameEnds(name, value);
    assert e[..k] == name && e[k + 1..] == value;
    var a, b := LenBytes(|name|), LenBytes(|value|);
    var s := EncodeEntry(e);
    assert s == a + b + name + value;
    assert forall t :: 0 <= t < |a| ==> s[t] == a[t];
    assert forall t :: 0 <= t < |b| ==> s[|a| + t] == b[t];
  }

  /** Decoding the encoding of an environment gives the environment. */
  lemma {:induction false} EnvRoundTrip(env: seq<bytes>)
    requires Environment(env)
    ensures DecodeParams(EncodeEnv(env)) == Decoded(env, true)
  {
    hide ParsePair, EncodeEntry, Entry;
    if env != [] {
      EntryRoundTrip(env[0], EncodeEnv(env[1..]));
      EnvRoundTrip(env[1..]);
      assert [env[0]] + env[1..] == env;
    }
  }

  /** Store a length into the header buffer at `pos`. */
  method PutLen(buf: array<byte>, pos: nat, n: nat) returns (next: nat)
    requires n <= MAX_PARAM && pos + |LenBytes(n)| <= buf.Length
    modifies buf
    ensures next == pos + |LenBytes(n)| && buf[..next] == old(buf[..pos]) + LenBytes(n)
  {
    if n < 0x80 {
      buf[pos] := n;
      next := pos + 1;
    } else {
      buf[pos] := n / 0x100_0000 + 0x80;
      buf[pos + 1] := (n / 0x1_0000) % 256;
      buf[pos + 2] := (n / 256) % 256;
      buf[pos + 3] := n % 256;
      next := pos + 4;
    }
  }

  /** The header of a pair, at most eight bytes. */
  method BuildNameValueHeader(nameLen: nat, valueLen: nat, headerBuff: array<byte>) returns (headerLen: nat)
    requires nameLen <= MAX_PARAM && valueLen <= MAX_PARAM && headerBuff.Length >= 8
    modifies headerBuff
    ensures headerLen <= 8 && headerBuff[..headerLen] == LenBytes(nameLen) + LenBytes(valueLen)
  {
    headerLen := PutLen(headerBuff, 0, nameLen);
    headerLen := PutLen(headerBuff, headerLen, valueLen);
  }

  /** Two deliveries that differ in their content only. */
  ghost predicate SameEnd(a: Delivery, b: Delivery) {
    a.end == b.end && a.rest == b.rest && a.replies == b.replies
  }

  /** Read the rest of a length whose first byte is `c`; -1 if it is cut off.
      `d` is the content from that byte on. */
  method ReadLen(r: Reader, c: byte, ghost d: bytes) returns (n: int)
    requires r.Valid() && d == [c] + r.Ahead().data
    modifies r, r.buff
    ensures r.Valid() && r.src == old(r.src) && SameEnd(old(r.Ahead()), r.Ahead())
    ensures n <= MAX_PARAM
    ensures n >= 0 ==> ParseLen(d).Len? && n == ParseLen(d).n && r.Ahead().data == d[ParseLen(d).size..]
    ensures n < 0 ==> ParseLen(d) == NoLen && r.isClosed
  {
    hide Deliver;
    if c < 0x80 {
      assert d[1..] == r.Ahead().data;
      return c;
    }
    var s := r.GetStr(3);
    assert d == [c] + s + r.Ahead().data;
    if |s| != 3 {
      assert r.Ahead().data == [];
      return -1;
    }
    assert d[1] == s[0] && d[2] == s[1] && d[3] == s[2] && d[4..] == r.Ahead().data;
    return (c - 0x80) * 0x100_0000 + s[0] as int * 0x1_0000 + s[1] as int * 256 + s[2];
  }

  datatype Item = Cut | NoRoom | Item(entry: bytes)

  /** The name and the value of a pair whose lengths are known, read into an area
      whose size is computed as an int; there is none of a negative size, and none
      is written beyond its end. */
  method ReadNameValue(r: Reader, n: nat, v: nat, ghost d: bytes) returns (e: Item)
    requires r.Valid() && d == r.Ahead().data && n <= MAX_PARAM && v <= MAX_PARAM
    modifies r, r.buff
    ensures r.Valid() && r.src == old(r.src) && SameEnd(old(r.Ahead()), r.Ahead())
    ensures e.NoRoom? <==> !AreaSuffices(n, v, |d|)
    ensures e.Cut? ==> |d| < n + v && r.isClosed
    ensures e.Item? ==> n + v <= |d| && e.entry == d[..n] + [EQUALS] + d[n..n + v] && r.Ahead().data == d[n + v..]
  {
    hide Reader.Valid, Reader.Ahead, AsInt;
    var size := AsInt(n + v + 2);
    AreaSize(n, v);
    if size < 0 { return NoRoom; }
    var name := r.GetStr(n);
    assert d == name + r.Ahead().data;
    if |name| > size { return NoRoom; }
    if |name| != n {
      NothingAhead(r);
      return Cut;
    }
    ghost var d' := r.Ahead().data;
    assert d' == d[n..] && name == d[..n];
    var value := r.GetStr(v);
    assert d' == value + r.Ahead().data;
    if |value| != v {
      NothingAhead(r);
      return Cut;
    }
    assert value == d'[..v] == d[n..n + v] && r.Ahead().data == d'[v..] == d[n + v..];
    return Item(name + [EQUALS] + value);
  }

  lemma NothingAhead(r: Reader)
    requires r.Valid() && r.isClosed
    ensures r.Ahead().data == []
  {
    hide Deliver;
  }

  lemma AreaSize(n: nat, v: nat)
    requires n <= MAX_PARAM && v <= MAX_PARAM
    ensures AsInt(n + v + 2) == if n + v + 2 <= INT_MAX then n + v + 2 else n + v + 2 - UINT32
  {
  }

  /** The rest of a pair whose first byte is `c`. */
  method ReadPair(r: Reader, c: byte, ghost d: bytes) returns (e: Item)
    requires r.Valid() && d == [c] + r.Ahead().data
    modifies r, r.buff
    ensures r.Valid() && r.src == old(r.src) && SameEnd(old(r.Ahead()), r.Ahead())
    ensures e.NoRoom? <==> !PairRoom(d)
    ensures e.Cut? ==> ParsePair(d) == NoPair && r.isClosed
    ensures e.Item? ==> ParsePair(d).Pair? && e.entry == ParsePair(d).entry && r.Ahead().data == d[ParsePair(d).size..]
  {
    hide Reader.Valid, Reader.Ahead, ParseLen, ParsePair, PairRoom;
    PairCut(d);
    var n := ReadLen(r, c, d);
    if n < 0 { return Cut; }
    ghost var d1 := d[ParseLen(d).size..];
    var c1 := r.GetChar();
    if c1 == -1 {
      ParseLenNothing();
      return Cut;
    }
    assert d1 == [c1] + r.Ahead().data;
    var v := ReadLen(r, c1, d1);
    if v < 0 { return Cut; }
    PairWhole(d);
    e := ReadNameValue(r, n, v, d1[ParseLen(d1).size..]);
  }

  lemma ParseLenNothing()
    ensures ParseLen([]) == NoLen
  {
  }

  lemma PairCut(d: bytes)
    ensures ParseLen(d) == NoLen ==> ParsePair(d) == NoPair && PairRoom(d)
    ensures ParseLen(d).Len? && ParseLen(d[ParseLen(d).size..]) == NoLen ==> ParsePair(d) == NoPair && PairRoom(d)
  {
  }

  /** A pair whose lengths are there, in terms of the bytes after them. */
  lemma PairWhole(d: bytes)
    requires ParseLen(d).Len? && ParseLen(d[ParseLen(d).size..]).Len?
    ensures var n, d1 := ParseLen(d).n, d[ParseLen(d).size..];
            var v, d2 := ParseLen(d1).n, d1[ParseLen(d1).size..];
            if |d2| < n + v then ParsePair(d) == NoPair
            else ParsePair(d).Pair? && ParsePair(d).entry == d2[..n] + [EQUALS] + d2[n..n + v]
                 && d[ParsePair(d).size..] == d2[n + v..]
    ensures var d1 := d[ParseLen(d).size..];
            PairRoom(d) <==> AreaSuffices(ParseLen(d).n, ParseLen(d1).n, |d1[ParseLen(d1).size..]|)
  {
    hide ParseLen;
    var i, d1 := ParseLen(d).size, d[ParseLen(d).size..];
    var j, n, v := ParseLen(d1).size, ParseLen(d).n, ParseLen(d1).n;
    var at := i + j;
    Behind(d, i, j, 0);
    if at + n + v <= |d| {
      Behind(d, at, n, 0);
      Behind(d, at, n, v);
      Behind(d, at, n + v, 0);
    }
  }

  /** A part of the bytes behind a position, as a part of the whole. */
  lemma Behind(d: bytes, at: nat, i: nat, n: nat)
    requires at + i + n <= |d|
    ensures d[at..][i..] == d[at + i..] && d[at..][..i] == d[at..at + i] && d[at..][i..i + n] == d[at + i..at + i + n]
  {
  }

  /** How decoding ends: it returns 0 or -1, or the area for a pair would have a
      size that no int holds. */
  datatype Ending = Returned(status: int) | Unsized

  /** Read pairs until the stream ends; -1 if a pair is cut off. */
  method ReadParams(r: Reader) returns (params: seq<bytes>, end: Ending)
    requires r.Valid()
    modifies r, r.buff
    ensures end.Returned? <==> RoomForAll(old(r.Ahead()).data)
    ensures end.Returned? ==> end.status in {0, -1} && Decoded(params, end.status == 0) == DecodeParams(old(r.Ahead()).data)
    ensures end == Returned(0) ==> r.Valid() && r.isClosed && r.src == old(r.src)
    ensures end == Returned(0) ==> r.Ahead() == old(r.Ahead()).(data := [])
    ensures end == Returned(-1) ==> r.isClosed && r.errno == if old(r.Ahead()).end == Eof then -4 else old(r.Ahead()).end.errno
  {
    hide Reader.Valid, Reader.Ahead, ParsePair, DecodeParams, PairRoom, RoomForAll;
    params := [];
    ghost var all, start := DecodeParams(r.Ahead().data), r.Ahead();
    var c := r.GetChar();
    ghost var d := if c == -1 then [] else [c] + r.Ahead().data;
    DecodeStep(d, params);
    while c != -1
      invariant r.Valid() && r.src == old(r.src) && SameEnd(start, r.Ahead()) && -1 <= c < 256
      invariant d == if c == -1 then [] else [c] + r.Ahead().data
      invariant c == -1 ==> r.isClosed && r.Ahead().data == []
      invariant all == Decoded(params + DecodeParams(d).params, DecodeParams(d).ok)
      invariant RoomForAll(d) <==> RoomForAll(start.data)
      decreases |d|
    {
      DecodeStep(d, params);
      RoomStep(d);
      var e := ReadPair(r, c, d);
      if e.NoRoom? { return params, Unsized; }
      if e.Cut? {
        EndedHow(r);
        r.SetError(PARAMS_ERROR);
        return params, Returned(-1);
      }
      ghost var d' := d[ParsePair(d).size..];
      params := params + [e.entry];
      c := r.GetChar();
      d := d';
    }
    DecodeStep(d, params);
    RoomStep(d);
    return params, Returned(0);
  }

  lemma EndedHow(r: Reader)
    requires r.Valid() && r.isClosed
    ensures r.Ahead().end == if r.errno == 0 then Eof else Failed(r.errno)
  {
  }

  lemma RoomStep(d: bytes)
    ensures d == [] ==> RoomForAll(d)
    ensures d != [] && !PairRoom(d) ==> !RoomForAll(d)
    ensures d != [] && PairRoom(d) && ParsePair(d) == NoPair ==> RoomForAll(d)
    ensures d != [] && PairRoom(d) && ParsePair(d).Pair? ==> (RoomForAll(d) <==> RoomForAll(d[ParsePair(d).size..]))
  {
    hide PairRoom, ParsePair;
  }

  /** Eight bytes that announce more than an int can hold: the area is empty, and
      there is room exactly if nothing follows. */
  lemma WideLengths(w: bytes)
    ensures var d: bytes := [0xff, 0xff, 0xff, 0xff] + ([0xff, 0xff, 0xff, 0xff] + w);
            (RoomForAll(d) <==> w == []) && (|w| < 0xffff_fffe ==> DecodeParams(d) == Decoded([], false))
  {
    var wide: bytes := [0xff, 0xff, 0xff, 0xff];
    assert LenBytes(MAX_PARAM) == wide;
    hide ParseLen, LenBytes;
    LenRoundTrip(MAX_PARAM, wide + w);
    LenRoundTrip(MAX_PARAM, w);
  }

  /** The pair of an environment entry has room exactly if the entry with its
      terminator fits an int. */
  lemma EntryRoom(e: bytes, w: bytes)
    requires Entry(e)
    ensures PairRoom(EncodeEntry(e) + w) <==> |e| < INT_MAX
  {
    hide LenBytes, ParseLen;
    var n, v := e[..FirstEquals(e)], e[FirstEquals(e) + 1..];
    var d := EncodeEntry(e) + w;
    assert d == LenBytes(|n|) + (LenBytes(|v|) + (n + (v + w)));
    LenRoundTrip(|n|, LenBytes(|v|) + (n + (v + w)));
    LenRoundTrip(|v|, n + (v + w));
  }

  lemma {:induction false} EnvRoom(env: seq<bytes>)
    requires Environment(env)
    ensures RoomForAll(EncodeEnv(env)) <==> forall i :: 0 <= i < |env| ==> |env[i]| < INT_MAX
  {
    hide ParsePair, EncodeEntry, PairRoom;
    if env != [] {
      var e, w := env[0], EncodeEnv(env[1..]);
      EntryRoundTrip(e, w);
      EntryRoom(e, w);
      EnvRoom(env[1..]);
      RoomStep(EncodeEntry(e) + w);
      assert forall i :: 1 <= i < |env| ==> env[i] == env[1..][i - 1];
    }
  }

  /** An environment has an equals sign in every entry. */
  lemma EnvironmentIff(env: seq<bytes>)
    requires Short(env)
    ensures Environment(env) <==> forall i :: 0 <= i < |env| ==> 61 in env[i]
  {
    hide FirstEquals;
    assert forall i :: 0 <= i < |env| ==> (Entry(env[i]) <==> 61 in env[i]);
  }

  /** Decoding by one pair, after `params` have been decoded. */
  lemma DecodeStep(d: bytes, params: seq<bytes>)
    ensures d == [] ==> params + DecodeParams(d).params == params && DecodeParams(d).ok
    ensures d != [] && ParsePair(d) == NoPair ==> params + DecodeParams(d).params == params && !DecodeParams(d).ok
    ensures d != [] && ParsePair(d).Pair? ==>
              var more := DecodeParams(d[ParsePair(d).size..]);
              params + DecodeParams(d).params == params + [ParsePair(d).entry] + more.params && DecodeParams(d).ok == more.ok
  {
    hide ParsePair;
    if d != [] && ParsePair(d).Pair? {
      var more := DecodeParams(d[ParsePair(d).size..]);
      assert params + ([ParsePair(d).entry] + more.params) == params + [ParsePair(d).entry] + more.params;
    }
  }

  /** Two successive puts, seen as one. */
  lemma FedCompose(w: Writer, sent0: seq<Record>, any0: bool, text: bytes, cs1: seq<bytes>,
                   sent1: seq<Record>, any1: bool, pending1: bytes, str: bytes, cs2: seq<bytes>)
    requires sent1 == sent0 + DataRecords(w.kind, w.req.requestId, cs1) && any1 == (any0 || cs1 != [])
    requires Chunks(cs1) && Concat(cs1) + pending1 == text
    requires w.Fed(sent1, any1, pending1 + str, cs2)
    ensures w.Fed(sent0, any0, text + str, cs1 + cs2)
  {
    hide EncodeAll, AllWellFormed, DataRecords, Concat;
    var id := w.req.requestId;
    DataAppend(w.kind, id, cs1, cs2);
    ConcatAppend(cs1, cs2);
    assert sent0 + (DataRecords(w.kind, id, cs1) + DataRecords(w.kind, id, cs2)) == w.req.sent;
    assert Concat(cs1) + (Concat(cs2) + w.Pending()) == (Concat(cs1) + pending1) + str;
  }

  /** Put `str` behind the text a fresh stream has taken so far. */
  method Extend(w: Writer, str: bytes, ghost text: bytes, ghost cs: seq<bytes>) returns (ghost cs': seq<bytes>)
    requires w.Fed([], false, text, cs)
    modifies w`wrNext, w`isAnythingWritten, w.buff, w.req`wire, w.req`sent
    ensures w.Fed([], false, text + str, cs')
  {
    hide Chunks, DataRecords, Concat, EncodeAll, AllWellFormed;
    ghost var sent1, any1, pending1 := w.req.sent, w.isAnythingWritten, w.Pending();
    ghost var more;
    var r;
    r, more := w.PutStr(str);
    FedCompose(w, [], false, text, cs, sent1, any1, pending1, str, more);
    cs' := cs + more;
  }

  /** Send one environment entry: the header of its pair, its name and its value. */
  method SendEntry(w: Writer, e: bytes, ghost text: bytes, ghost cs: seq<bytes>) returns (ghost cs': seq<bytes>)
    requires w.Fed([], false, text, cs) && Entry(e)
    modifies w`wrNext, w`isAnythingWritten, w.buff, w.req`wire, w.req`sent
    ensures w.Fed([], false, text + EncodeEntry(e), cs')
  {
    hide LenBytes, FirstEquals, Writer.Fed;
    var k := FirstEquals(e);
    var name, value := e[..k], e[k + 1..];
    var headerBuff := new byte[8](_ => 0);
    var headerLen := BuildNameValueHeader(|name|, |value|, headerBuff);
    var header := headerBuff[..headerLen];
    cs' := Extend(w, header, text, cs);
    cs' := Extend(w, name, text + header, cs');
    cs' := Extend(w, value, text + header + name, cs');
    assert text + header + name + value == text + EncodeEntry(e);
  }

  /** Send an environment over a parameter stream of any buffer size, and close
      it; an entry without an equals sign stops the program. The wire is a stream
      of data records that carry the encoding, and its end. */
  method SendEnvironment(id: nat, size: int, misaligned: bool, env: seq<bytes>)
    returns (ok: bool, wire: bytes, ghost cs: seq<bytes>)
    requires 0 < id <= 0xffff && Short(env)
    ensures ok <==> Environment(env)
    ensures ok ==> Chunks(cs) && Concat(cs) == EncodeEnv(env)
    ensures ok ==> AllWellFormed(DataRecords(4, id, cs))
    ensures ok ==> wire == EncodeAll(DataRecords(4, id, cs)) + Encode(Record(4, id, [], []))
  {
    hide Writer.Fed, EncodeEntry, FirstEquals;
    var req := new Request(id, 2);
    var w := new Writer(req, size, PARAMS, misaligned);
    w.FedNothing();
    cs := [];
    assert env[..0] == [] && w.Pending() == [];
    for i := 0 to |env|
      invariant forall j :: 0 <= j < i ==> Entry(env[j])
      invariant w.Fed([], false, EncodeEnv(env[..i]), cs) && req.nWriters == 2
    {
      if FirstEquals(env[i]) < 0 {
        assert !Entry(env[i]);
        return false, req.wire, cs;
      }
      assert env[..i] + [env[i]] == env[..i + 1];
      EncodeEnvAppend(env[..i], env[i]);
      cs := SendEntry(w, env[i], EncodeEnv(env[..i]), cs);
    }
    assert env[..|env|] == env;
    wire, cs := EndParams(w, EncodeEnv(env), cs);
    ok := true;
  }

  lemma {:induction false} EncodeEnvAppend(env: seq<bytes>, e: bytes)
    requires Environment(env) && Entry(e)
    ensures EncodeEnv(env + [e]) == EncodeEnv(env) + EncodeEntry(e)
  {
    hide EncodeEntry;
    if env == [] {
      assert EncodeEnv([e]) == EncodeEntry(e);
    } else {
      assert (env + [e])[1..] == env[1..] + [e];
      EncodeEnvAppend(env[1..], e);
    }
  }

  /** Close the parameter stream; the request has another writer, so no end of
      the request is sent. */
  method EndParams(w: Writer, ghost text: bytes, ghost cs: seq<bytes>) returns (wire: bytes, ghost cs': seq<bytes>)
    requires w.kind == PARAMS && w.req.nWriters == 2 && w.Fed([], false, text, cs)
    modifies w, w.buff, w.req
    ensures Chunks(cs') && Concat(cs') == text
    ensures AllWellFormed(DataRecords(PARAMS, w.req.requestId, cs'))
    ensures wire == EncodeAll(DataRecords(PARAMS, w.req.requestId, cs')) + Encode(Record(PARAMS, w.req.requestId, [], []))
  {
    ghost var id, pending := w.req.requestId, w.Pending();
    cs' := cs + One(pending);
    var r := w.FClose();
    wire := w.req.wire;
    ClosedStream(w, id, text, cs, pending);
  }

  lemma ClosedStream(w: Writer, id: nat, text: bytes, cs: seq<bytes>, pending: bytes)
    requires id <= 0xffff && w.req.Valid() && Chunks(cs) && Chunks(One(pending))
    requires Concat(cs) + pending == text
    requires w.req.sent == DataRecords(PARAMS, id, cs) + DataRecords(PARAMS, id, One(pending)) + [Record(PARAMS, id, [], [])]
    ensures Chunks(cs + One(pending)) && Concat(cs + One(pending)) == text
    ensures AllWellFormed(DataRecords(PARAMS, id, cs + One(pending)))
    ensures w.req.wire == EncodeAll(DataRecords(PARAMS, id, cs + One(pending))) + Encode(Record(PARAMS, id, [], []))
  {
    DataWellFormed(PARAMS, id, cs + One(pending));
    ConcatAppend(cs, One(pending));
    assert Concat(One(pending)) == pending;
    DataAppend(PARAMS, id, cs, One(pending));
    hide DataRecords, EncodeAll, Encode;
    EncodeSnoc(DataRecords(PARAMS, id, cs + One(pending)), Record(PARAMS, id, [], []));
  }

  lemma DataWellFormed(kind: byte, id: nat, cs: seq<bytes>)
    requires id <= 0xffff && Chunks(cs)
    ensures AllWellFormed(DataRecords(kind, id, cs))
  {
  }

  /** The records of a stream carry its chunks, and nothing is lost. */
  lemma {:induction false} DataDelivered(s: Source, cs: seq<bytes>)
    requires Readable(s) && Chunks(cs)
    ensures Stream(s, DataRecords(s.kind, s.id, cs))
    ensures Surviving(s, DataRecords(s.kind, s.id, cs), false) == Concat(cs)
    ensures Refusals(s, DataRecords(s.kind, s.id, cs)) == []
  {
    DataWellFormed(s.kind, s.id, cs);
    if cs != [] {
      DataDelivered(s, cs[1..]);
      assert DataRecords(s.kind, s.id, cs)[1..] == DataRecords(s.kind, s.id, cs[1..]);
    }
  }

  /** What a reader finds on the wire of an environment. */
  lemma EnvironmentDelivered(id: nat, cs: seq<bytes>, w: bytes)
    requires 0 < id <= 0xffff && Chunks(cs) && AllWellFormed(DataRecords(PARAMS, id, cs))
    ensures Deliver(Source(PARAMS, id), EncodeAll(DataRecords(PARAMS, id, cs)) + Encode(Record(PARAMS, id, [], [])) + w, BETWEEN)
         == Delivery(Concat(cs), Eof, w, [])
  {
    hide Deliver, Encode, EncodeAll, DataRecords;
    var s, eof := Source(PARAMS, id), Record(PARAMS, id, [], []);
    DataDelivered(s, cs);
    StreamDelivers(s, DataRecords(PARAMS, id, cs), eof, w, false);
    assert EncodeAll(DataRecords(PARAMS, id, cs)) + Encode(eof) + w == EncodeAll(DataRecords(PARAMS, id, cs)) + (Encode(eof) + w);
    assert eof.padding + w == w;
  }

  /** Any environment, sent through a writer with any buffer, received in any
      portions by a reader with any buffer and decoded, comes back unchanged
      exactly when the decoder can size every entry; the stream then ends without
      an error. What follows on the wire, `next`, is what the reader goes on with
      when it is switched to standard input. */
  method EnvironmentTrip(id: nat, size: int, misaligned: bool, readSize: nat, env: seq<bytes>, next: bytes)
    returns (sent: bool, params: seq<bytes>, end: Ending, r: Reader?)
    requires 0 < id <= 0xffff && Short(env) && readSize > 0
    requires Deliver(Source(5, id), next, BETWEEN).end != Management
    ensures sent <==> forall i :: 0 <= i < |env| ==> 61 in env[i]
    ensures sent ==> (end == Returned(0) <==> forall i :: 0 <= i < |env| ==> |env[i]| < INT_MAX)
    ensures sent && end == Returned(0) ==> params == env
    ensures sent && end == Returned(0) ==> r != null && r.Valid() && r.errno == 0
    ensures sent && end == Returned(0) ==> r.Ahead() == Deliver(Source(5, id), next, BETWEEN)
  {
    hide Deliver, DecodeParams, EncodeEnv, Encode, EncodeAll, DataRecords, RoomForAll, Environment;
    EnvironmentIff(env);
    params, end, r := [], Unsized, null;
    var wire;
    ghost var cs;
    sent, wire, cs := SendEnvironment(id, size, misaligned, env);
    if !sent { return; }
    EnvironmentDelivered(id, cs, next);
    EnvRoundTrip(env);
    EnvRoom(env);
    var reader := new Reader(Source(PARAMS, id), readSize, wire + next);
    params, end := ReadParams(reader);
    if end != Returned(0) { return; }
    SwitchToStdin(reader, next);
    r := reader;
  }

  /** The reader, at the end of its parameters with `next` unread. */
  method SwitchToStdin(r: Reader, ghost next: bytes)
    requires r.Valid() && r.isClosed && r.errno == 0 && r.Ahead() == Delivery([], Eof, next, [])
    requires Deliver(Source(STDIN, r.src.id), next, BETWEEN).end != Management
    modifies r
    ensures r.Valid() && r.errno == 0 && r.Ahead() == Deliver(Source(STDIN, old(r.src).id), next, BETWEEN)
  {
    hide Deliver;
    r.SetReaderType(STDIN);
    ghost var d := Deliver(Source(STDIN, r.src.id), next, BETWEEN);
    assert [] + d.replies == d.replies;
  }
}
