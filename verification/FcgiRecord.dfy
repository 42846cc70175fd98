/**
 Records of the FastCGI protocol (FastCGI Specification 1.0, section 3.3): an
 eight-byte header, content and padding.
 */
module FcgiRecord {
  import opened Bytes

  const VERSION_1: byte := 1
  const BEGIN_REQUEST: byte := 1
  const END_REQUEST: byte := 3
  const PARAMS: byte := 4
  const STDIN: byte := 5
  const STDOUT: byte := 6
  const STDERR: byte := 7

  const HEADER_LEN := 8
  const MAX_LENGTH := 0xffff
  const REQUEST_COMPLETE: byte := 0
  const CANT_MPX_CONN: byte := 1

  datatype Record = Record(kind: byte, id: nat, content: bytes, padding: bytes)

  predicate WellFormed(r: Record) {
    r.id <= 0xffff && |r.content| <= MAX_LENGTH && |r.padding| <= 0xff
  }

  function MakeHeader(kind: byte, id: int, contentLength: int, paddingLength: int): (h: bytes)
    requires 0 <= contentLength <= MAX_LENGTH && 0 <= paddingLength <= 0xff
    ensures |h| == 8 && h[0] == 1 && h[1] == kind && h[6] == paddingLength && h[7] == 0
    ensures 0 <= id <= 0xffff ==> h[2] as int * 256 + h[3] == id
    ensures h[4] as int * 256 + h[5] == contentLength
  {
    [VERSION_1, kind, (id / 256) % 256, id % 256,
     (contentLength / 256) % 256, contentLength % 256, paddingLength, 0]
  }

  /** The fields a reader takes from a header. */
  function HeaderId(h: bytes): nat
    requires |h| == HEADER_LEN
  {
    256 * h[2] as int + h[3]
  }

  function HeaderContentLength(h: bytes): nat
    requires |h| == HEADER_LEN
  {
    256 * h[4] as int + h[5]
  }

  /** The fields of any header, two bytes with the high one first. */
  lemma HeaderFields(kind: byte, id1: byte, id0: byte, len1: byte, len0: byte, padding: byte, reserved: byte)
    ensures var h: bytes := [1, kind, id1, id0, len1, len0, padding, reserved];
      HeaderId(h) == id1 as int * 256 + id0 && HeaderContentLength(h) == len1 as int * 256 + len0
  {
  }

  /** A header gives back every field it was made of. */
  lemma HeaderRoundTrip(kind: byte, id: nat, contentLength: nat, paddingLength: nat)
    requires id <= 0xffff && contentLength <= MAX_LENGTH && paddingLength <= 0xff
    ensures var h := MakeHeader(kind, id, contentLength, paddingLength);
      && h[0] == VERSION_1 && h[1] == kind && HeaderId(h) == id
      && HeaderContentLength(h) == contentLength && h[6] == paddingLength && h[7] == 0
  {
  }

  function Encode(r: Record): bytes
    requires WellFormed(r)
  {
    MakeHeader(r.kind, r.id, |r.content|, |r.padding|) + r.content + r.padding
  }

  ghost predicate AllWellFormed(rs: seq<Record>) {
    forall i :: 0 <= i < |rs| ==> WellFormed(rs[i])
  }

  function EncodeAll(rs: seq<Record>): bytes
    requires AllWellFormed(rs)
  {
    if rs == [] then [] else Encode(rs[0]) + EncodeAll(rs[1..])
  }

  lemma {:induction false} EncodeAppend(a: seq<Record>, b: seq<Record>)
    requires AllWellFormed(a) && AllWellFormed(b)
    ensures AllWellFormed(a + b) && EncodeAll(a + b) == EncodeAll(a) + EncodeAll(b)
  {
    hide Encode, WellFormed;
    if a == [] {
      assert a + b == b;
    } else {
      assert (a + b)[1..] == a[1..] + b;
      EncodeAppend(a[1..], b);
    }
  }

  lemma EncodeSnoc(a: seq<Record>, r: Record)
    requires AllWellFormed(a) && WellFormed(r)
    ensures AllWellFormed(a + [r]) && EncodeAll(a + [r]) == EncodeAll(a) + Encode(r)
  {
    EncodeAppend(a, [r]);
    assert EncodeAll([r]) == Encode(r);
  }

  /** Cut a byte stream into whole records; Broken if it does not divide. */
  datatype Records = Whole(rs: seq<Record>) | Broken

  function Decode(w: bytes): Records
    decreases |w|
  {
    if w == [] then Whole([])
    else if |w| < HEADER_LEN || w[0] != VERSION_1 || w[7] != 0 then Broken
    else
      var c, p := HeaderContentLength(w[..HEADER_LEN]), w[6];
      if |w| < HEADER_LEN + c + p then Broken
      else
        var r := Record(w[1], HeaderId(w[..HEADER_LEN]), w[HEADER_LEN..HEADER_LEN + c],
                        w[HEADER_LEN + c..HEADER_LEN + c + p]);
        match Decode(w[HEADER_LEN + c + p..])
        case Broken => Broken
        case Whole(rs) => Whole([r] + rs)
  }

  /** Where the parts of an encoded record lie, whatever follows it. */
  lemma EncodeLayout(r: Record, w: bytes)
    requires WellFormed(r)
    ensures var v, c, p := Encode(r) + w, |r.content|, |r.padding|;
      && |v| == HEADER_LEN + c + p + |w|
      && v[..HEADER_LEN] == MakeHeader(r.kind, r.id, c, p)
      && v[HEADER_LEN..] == r.content + (r.padding + w)
      && v[HEADER_LEN..HEADER_LEN + c] == r.content
      && v[HEADER_LEN + c..HEADER_LEN + c + p] == r.padding
      && v[HEADER_LEN + c + p..] == w
  {
  }

  /** The bytes of a record, one by one. */
  lemma RecordOnWire(r: Record)
    requires WellFormed(r)
    ensures var v, c, p := Encode(r), |r.content|, |r.padding|;
      && |v| == 8 + c + p && v[0] == 1 && v[1] == r.kind && v[2] as int * 256 + v[3] == r.id
      && v[4] as int * 256 + v[5] == c && v[6] == p && v[7] == 0
      && v[8..8 + c] == r.content && v[8 + c..] == r.padding
  {
    hide MakeHeader;
    var h := MakeHeader(r.kind, r.id, |r.content|, |r.padding|);
    EncodeLayout(r, []);
    assert Encode(r) + [] == Encode(r);
    assert forall i :: 0 <= i < 8 ==> Encode(r)[i] == Encode(r)[..8][i] == h[i];
  }

  lemma DecodeStep(r: Record, w: bytes)
    requires WellFormed(r)
    ensures Decode(Encode(r) + w) ==
            match Decode(w)
            case Broken => Broken
            case Whole(rs) => Whole([r] + rs)
  {
    hide Encode, MakeHeader;
    var v := Encode(r) + w;
    EncodeLayout(r, w);
    HeaderRoundTrip(r.kind, r.id, |r.content|, |r.padding|);
    assert v[0] == v[..HEADER_LEN][0] && v[1] == v[..HEADER_LEN][1];
    assert v[6] == v[..HEADER_LEN][6] && v[7] == v[..HEADER_LEN][7];
  }

  lemma DecodeNothing()
    ensures Decode([]) == Whole([])
  {
  }

  /** A stream of encoded records is cut back into those records. */
  lemma {:induction false} DecodeEncodeAll(rs: seq<Record>)
    requires AllWellFormed(rs)
    ensures Decode(EncodeAll(rs)) == Whole(rs)
  {
    hide Encode, Decode, WellFormed;
    if rs == [] {
      DecodeNothing();
    } else {
      DecodeStep(rs[0], EncodeAll(rs[1..]));
      DecodeEncodeAll(rs[1..]);
    }
  }

  /** The contents of the records of one kind, in order. */
  function Parts(rs: seq<Record>, kind: byte): seq<bytes> {
    if rs == [] then []
    else (if rs[0].kind == kind then [rs[0].content] else []) + Parts(rs[1..], kind)
  }

  lemma {:induction false} PartsAppend(a: seq<Record>, b: seq<Record>, kind: byte)
    ensures Parts(a + b, kind) == Parts(a, kind) + Parts(b, kind)
  {
    if a == [] {
      assert a + b == b;
    } else {
      assert (a + b)[1..] == a[1..] + b;
      PartsAppend(a[1..], b, kind);
    }
  }

  /** The content of an end record: the status in four bytes, high byte first. */
  function EndRequestBody(appStatus: int, protocolStatus: byte): (b: bytes)
    ensures |b| == 8 && b[4] == protocolStatus && b[5] == b[6] == b[7] == 0
    ensures b[0] as int * 0x100_0000 + b[1] as int * 0x1_0000 + b[2] as int * 0x100 + b[3] == appStatus % 0x1_0000_0000
  {
    StatusBytes(appStatus);
    [(appStatus / 0x100_0000) % 256, (appStatus / 0x1_0000) % 256, (appStatus / 256) % 256, appStatus % 256,
     protocolStatus, 0, 0, 0]
  }

  lemma Quotients(n: int)
    ensures n / 256 / 256 == n / 0x1_0000 && n / 0x1_0000 / 256 == n / 0x100_0000
  {
  }

  /** A number in base 256, down to its four last digits. */
  lemma FourDigits(n: int, a: int, b: int, c: int, d: int, n0: nat, a0: nat, b0: nat, c0: nat)
    requires n == 256 * a + n0 && a == 256 * b + a0 && b == 256 * c + b0 && c == 256 * d + c0
    requires n0 < 256 && a0 < 256 && b0 < 256 && c0 < 256
    ensures n % 0x1_0000_0000 == c0 * 0x100_0000 + b0 * 0x1_0000 + a0 * 0x100 + n0
  {
    var low := c0 * 0x100_0000 + b0 * 0x1_0000 + a0 * 0x100 + n0;
    assert b == 0x1_0000 * d + 0x100 * c0 + b0;
    assert n == 0x1_0000_0000 * d + low;
    LowWord(n, d, low);
  }

  lemma LowWord(n: int, d: int, low: nat)
    requires n == 0x1_0000_0000 * d + low && low < 0x1_0000_0000
    ensures n % 0x1_0000_0000 == low
  {
    var q, r := n / 0x1_0000_0000, n % 0x1_0000_0000;
    assert n == 0x1_0000_0000 * q + r && 0 <= r < 0x1_0000_0000;
    assert 0x1_0000_0000 * (q - d) == low - r;
  }

  lemma StatusBytes(n: int)
    ensures n % 0x1_0000_0000 ==
      (n / 0x100_0000) % 256 * 0x100_0000 + (n / 0x1_0000) % 256 * 0x1_0000 + (n / 256) % 256 * 0x100 + n % 256
  {
    var a, b, c := n / 256, n / 0x1_0000, n / 0x100_0000;
    Quotients(n);
    FourDigits(n, a, b, c, c / 256, n % 256, a % 256, b % 256, c % 256);
  }

  function EndRecord(id: nat, appStatus: int, protocolStatus: byte): Record {
    Record(END_REQUEST, id, EndRequestBody(appStatus, protocolStatus), [])
  }

  /** The next multiple of eight, in 32-bit unsigned arithmetic. */
  function AlignInt8(n: nat): nat {
    (n + 7) % 0x1_0000_0000 / 8 * 8
  }

  lemma AlignInt8Spec(n: nat)
    requires n < 0xffff_fff8
    ensures n <= AlignInt8(n) < n + 8 && AlignInt8(n) % 8 == 0
  {
  }
}
