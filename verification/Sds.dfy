/**
 Dynamic strings of sds.c: a header whose width depends on the string's size,
 a physical area after it, and a terminator byte. Every store into a header
 field is truncated to the field's width, so the width a string is given by
 the growth policy matters.
 */
module Sds {
  import opened Bytes
  import opened CTypes

  const MAX_PREALLOC: nat := 1024 * 1024

  /** Largest string an operation may be asked for: what the growth policy makes
      of it still fits a 64-bit size. */
  const MAX_STRING: nat := 0x2000_0000_0000_0000

  datatype HdrType = Type5 | Type8 | Type16 | Type32 | Type64

  /** Largest number the header's length and allocation fields can hold. */
  function Capacity(t: HdrType): nat {
    match t
    case Type5 => 31
    case Type8 => 0xff
    case Type16 => 0xffff
    case Type32 => 0xffff_ffff
    case Type64 => 0xffff_ffff_ffff_ffff
  }

  /** Header type wide enough for a string of the given size. */
  function ReqType(size: nat): (t: HdrType)
    ensures size <= Capacity(Type64) ==> size <= Capacity(t)
  {
    if size < 32 then Type5
    else if size < 0xff then Type8
    else if size < 0xffff then Type16
    else if size < 0xffff_ffff then Type32
    else Type64
  }

  /** The space asked for when a string has to grow to `n` bytes. */
  function Preallocated(n: nat): (size: nat)
    ensures n <= size <= n + MAX_PREALLOC
  {
    if n < MAX_PREALLOC then 2 * n else n + MAX_PREALLOC
  }

  /** Resolve an index counted from the end when it is negative. */
  function FromEnd(len: nat, i: int): nat {
    if i >= 0 then i else if len + i < 0 then 0 else len + i
  }

  /** The substring from `start` to `end`, both included. */
  function Slice(s: bytes, start: int, end: int): bytes {
    var lo, hi := FromEnd(|s|, start), FromEnd(|s|, end);
    if lo > hi || lo >= |s| then [] else s[lo..Min(hi + 1, |s|)]
  }

  /** Both ends count from the front, or from the end if they are negative; what lies
      outside the string is cut off. */
  lemma SliceBytes(s: bytes, i: nat, j: nat)
    requires i <= j < |s|
    ensures Slice(s, i, j) == s[i..j + 1] && Slice(s, i, -1) == s[i..] && Slice(s, i - |s|, j - |s|) == s[i..j + 1]
    ensures Slice(s, 0, |s| + i) == s && Slice(s, -|s| - i, -1) == s
    ensures Slice(s, |s| + i, -1) == [] && (i < j ==> Slice(s, j, i) == [])
  {
  }

  /** The part of a string that sdsrange can see: it converts the length to int. */
  function Kept(s: bytes): (k: bytes)
    ensures |s| <= INT_MAX ==> k == s
  {
    AsIntBelow(|s|);
    s[..Max(0, AsInt(|s|))]
  }

  /** An index counted from the end, in int arithmetic. */
  method IntIndex(len: nat, i: cint) returns (r: nat)
    ensures r <= INT_MAX && (AsInt(len) >= 0 ==> r == FromEnd(AsInt(len), i))
  {
    if i >= 0 { return i; }
    AsIntAdd(len, i);
    var j := AsInt(len + i);
    return if j < 0 then 0 else j;
  }

  /** The index arithmetic of sdsrange: where the kept part starts and how long
      it is. */
  method RangeBounds(len: nat, start: cint, end: cint) returns (lo: nat, newlen: nat)
    requires len > 0
    ensures lo + newlen <= len
    ensures forall s: bytes | |s| == len :: Slice(Kept(s), start, end) == s[lo..lo + newlen]
  {
    hide AsInt;
    AsIntBelow(len);
    AsIntAdd(len, -1);
    var first := IntIndex(len, start);
    var last: int := IntIndex(len, end);
    var n := Span(first, last);
    if n != 0 {
      if first >= AsInt(len) {
        n := 0;
      } else if last >= AsInt(len) {
        last := AsInt(len - 1);
        n := Span(first, last);
      }
    } else {
      first := 0;
    }
    lo, newlen := if n == 0 then 0 else first, n;
    forall s: bytes | |s| == len
      ensures Slice(Kept(s), start, end) == s[lo..lo + newlen]
    {
      KeptSlice(s, start, end, lo, newlen);
    }
  }

  /** The slice of the visible part, by its position in the string. */
  lemma KeptSlice(s: bytes, start: cint, end: cint, lo: nat, n: nat)
    requires var m := Max(0, AsInt(|s|));
             var from, to := FromEnd(m, start), FromEnd(m, end);
             && n == (if from > to || from >= m then 0 else Min(to + 1, m) - from)
             && (n > 0 ==> lo == from) && lo + n <= |s|
    ensures Slice(Kept(s), start, end) == s[lo..lo + n]
  {
    hide AsInt;
    AsIntBelow(|s|);
  }

  /** The number of bytes from `first` to `last`, in int arithmetic. */
  function Span(first: nat, last: int): (n: int)
    requires first <= INT_MAX && -1 <= last <= INT_MAX
    ensures n == 0 <==> first > last
    ensures last - first < INT_MAX ==> n == Max(0, last - first + 1)
  {
    if first > last then 0 else AsInt(last - first + 1)
  }

  /** sdsrange keeps the slice it is asked for, whatever it is asked for, exactly
      for strings whose length fits an int. */
  lemma RangeIff(s: bytes)
    ensures (forall start: cint, end: cint :: Slice(Kept(s), start, end) == Slice(s, start, end)) <==> |s| <= INT_MAX
  {
    if |s| > INT_MAX {
      AsIntBelow(|s|);
      assert |Slice(Kept(s), 0, -1)| < |Slice(s, 0, -1)|;
    }
  }

  /** One byte more than an int can count, and dropping the first byte drops all. */
  lemma LostText(s: bytes)
    requires |s| == INT_MAX + 1
    ensures Slice(Kept(s), 1, -1) == [] && Slice(s, 1, -1) == s[1..]
  {
  }

  class SdsString {
    var kind: HdrType
    var storedLen: nat
    var storedAlloc: nat
    var mem: array<byte>

    /** The header describes the area behind it. */
    ghost predicate Sound()
      reads this, mem
    {
      && storedLen <= Capacity(kind)
      && storedLen < mem.Length
      && (kind != Type5 ==> storedLen <= storedAlloc <= Capacity(kind) && storedAlloc < mem.Length)
    }

    /** Between operations the terminator is in place as well. */
    ghost predicate Valid()
      reads this, mem
      ensures Valid() ==> Sound()
    {
      Sound() && mem[storedLen] == NUL
    }

    /** The string the caller sees. */
    ghost function Content(): (s: bytes)
      requires Sound()
      reads this, mem
      ensures |s| == storedLen
    {
      mem[..storedLen]
    }

    function Len(): nat
      reads this
    {
      storedLen
    }

    function Alloc(): nat
      reads this
    {
      if kind == Type5 then storedLen else storedAlloc
    }

    function Avail(): nat
      requires kind != Type5 ==> storedLen <= storedAlloc
      reads this
    {
      if kind == Type5 then 0 else storedAlloc - storedLen
    }

    method SetLen(n: nat)
      modifies this`storedLen
      ensures storedLen == n % (Capacity(kind) + 1)
      ensures n <= Capacity(kind) ==> storedLen == n
    {
      storedLen := n % (Capacity(kind) + 1);
    }

    method SetAlloc(n: nat)
      modifies this`storedAlloc
      ensures kind == Type5 ==> storedAlloc == old(storedAlloc)
      ensures kind != Type5 ==> storedAlloc == n % (Capacity(kind) + 1)
      ensures kind != Type5 && n <= Capacity(kind) ==> storedAlloc == n
    {
      if kind != Type5 {
        storedAlloc := n % (Capacity(kind) + 1);
      }
    }

    constructor NewLen(init: bytes)
      requires |init| <= MAX_STRING
      ensures Valid() && fresh(mem)
      ensures Content() == init
      ensures Alloc() == |init|
    {
      var t := ReqType(|init|);
      kind := if t == Type5 && |init| == 0 then Type8 else t;
      storedLen := 0;
      storedAlloc := 0;
      mem := new byte[|init| + 1](_ => 0);
      new;
      SetLen(|init|);
      SetAlloc(|init|);
      Store(mem, 0, init);
      mem[|init|] := NUL;
      assert mem[..|init|] == init;
    }

    /** Move the string, terminator included, into an area of `size + 1` bytes
        behind a header of type `t`. */
    method Relocate(t: HdrType, size: nat)
      requires Sound()
      requires storedLen <= size <= Capacity(t)
      modifies this
      ensures Sound() && fresh(mem)
      ensures old(Valid()) ==> Valid()
      ensures kind == t && Content() == old(Content())
      ensures t != Type5 ==> storedAlloc == size
    {
      var len := storedLen;
      var area := new byte[size + 1](_ => 0);
      Store(area, 0, mem[..len + 1]);
      mem := area;
      if kind != t {
        kind := t;
        SetLen(len);
      }
      SetAlloc(size);
      assert mem[len] == old(mem[..storedLen + 1])[storedLen];
      assert mem[..len] == old(Content());
    }

    /** Enlarge the free space so that `addlen` more bytes fit. */
    method MakeRoomFor(addlen: nat)
      requires Sound()
      requires Len() + addlen <= MAX_STRING
      modifies this
      ensures Sound() && (mem == old(mem) || fresh(mem))
      ensures old(Valid()) ==> Valid()
      ensures Content() == old(Content())
      ensures Avail() >= addlen
      ensures kind == Type5 ==> addlen == 0
      ensures old(Avail()) >= addlen ==> mem == old(mem) && Alloc() == old(Alloc())
      ensures old(Avail()) < addlen ==> fresh(mem) && Alloc() == Preallocated(Len() + addlen)
    {
      if Avail() >= addlen { return; }
      var newlen := storedLen + addlen;
      if newlen < MAX_PREALLOC {
        newlen := newlen * 2;
      } else {
        newlen := newlen + MAX_PREALLOC;
      }
      var t := ReqType(newlen);
      if t == Type5 { t := Type8; }
      Relocate(t, newlen);
    }

    /** Give the free space back. */
    method RemoveFreeSpace()
      requires Valid()
      requires Len() <= MAX_STRING
      modifies this
      ensures Valid() && fresh(mem)
      ensures Content() == old(Content())
      ensures Avail() == 0
    {
      Relocate(ReqType(storedLen), storedLen);
    }

    method CatLen(t: bytes)
      requires Valid()
      requires Len() + |t| <= MAX_STRING
      modifies this, mem
      ensures Valid() && (mem == old(mem) || fresh(mem))
      ensures Content() == old(Content()) + t
    {
      var curlen := storedLen;
      MakeRoomFor(|t|);
      ghost var before := Content();
      Store(mem, curlen, t);
      SetLen(curlen + |t|);
      mem[curlen + |t|] := NUL;
      assert mem[..curlen + |t|] == before + t;
    }

    method CpyLen(t: bytes)
      requires Valid()
      requires Len() + |t| <= MAX_STRING
      modifies this, mem
      ensures Valid() && (mem == old(mem) || fresh(mem))
      ensures Content() == t
    {
      if Alloc() < |t| {
        MakeRoomFor(|t| - storedLen);
      }
      Store(mem, 0, t);
      mem[|t|] := NUL;
      SetLen(|t|);
      assert mem[..|t|] == t;
    }

    method GrowZero(len: nat)
      requires Valid()
      requires len <= MAX_STRING
      modifies this, mem
      ensures Valid() && (mem == old(mem) || fresh(mem))
      ensures Content() == if len <= |old(Content())| then old(Content())
                           else old(Content()) + Zeros(len - |old(Content())|)
    {
      var curlen := storedLen;
      if len <= curlen { return; }
      MakeRoomFor(len - curlen);
      ghost var before := Content();
      Store(mem, curlen, Zeros(len - curlen + 1));
      SetLen(len);
      assert mem[..len] == before + Zeros(len - curlen);
    }

    /** Move the `n` bytes at `lo` to the front and end the string there. */
    method KeepPart(lo: nat, n: nat)
      requires Valid() && lo + n <= Len()
      modifies this`storedLen, mem
      ensures Valid() && Content() == old(Content()[lo..lo + n])
    {
      ghost var kept := Content()[lo..lo + n];
      if lo != 0 && n != 0 {
        Store(mem, 0, mem[lo..lo + n]);
        assert mem[..n] == kept;
      }
      mem[n] := NUL;
      SetLen(n);
      assert mem[..n] == kept;
    }

    /** Keep only the bytes from `start` to `end`. */
    method Range(start: cint, end: cint)
      requires Valid()
      modifies this`storedLen, mem
      ensures Valid()
      ensures Content() == Slice(Kept(old(Content())), start, end)
    {
      if storedLen == 0 { return; }
      var lo, newlen := RangeBounds(storedLen, start, end);
      KeepPart(lo, newlen);
    }

    method Clear()
      requires Valid()
      modifies this`storedLen, mem
      ensures Valid() && Content() == []
    {
      SetLen(0);
      mem[0] := NUL;
    }
  }

  lemma ContentBytes(s: SdsString)
    requires s.Valid()
    ensures s.Len() <= s.mem.Length && s.Content() == s.mem[..s.Len()]
  {
  }

  /** The operations a client may perform, and what each does to the text. */
  datatype Op = Cat(t: bytes) | Cpy(t: bytes) | Grow(n: nat) | Keep(start: cint, end: cint)
              | Room(n: nat) | Shrink | Clear

  function Apply(s: bytes, op: Op): bytes {
    match op
    case Cat(t) => s + t
    case Cpy(t) => t
    case Grow(n) => if n <= |s| then s else s + Zeros(n - |s|)
    case Keep(start, end) => Slice(Kept(s), start, end)
    case Room(_) => s
    case Shrink => s
    case Clear => []
  }

  function ApplyAll(s: bytes, ops: seq<Op>): bytes
    decreases |ops|
  {
    if ops == [] then s else ApplyAll(Apply(s, ops[0]), ops[1..])
  }

  /** No request on the way exceeds the size the allocator can serve. */
  ghost predicate Fits(s: bytes, ops: seq<Op>)
    decreases |ops|
  {
    |s| <= MAX_STRING &&
    (ops != [] ==>
       && (ops[0].Cat? || ops[0].Cpy? ==> |s| + |ops[0].t| <= MAX_STRING)
       && (ops[0].Grow? || ops[0].Room? ==> |s| + ops[0].n <= MAX_STRING)
       && Fits(Apply(s, ops[0]), ops[1..]))
  }

  /** Any run of operations leaves the text the run describes, under a header
      that still satisfies its invariant. */
  method Run(init: bytes, ops: seq<Op>) returns (s: SdsString)
    requires Fits(init, ops)
    ensures s.Valid()
    ensures s.Content() == ApplyAll(init, ops)
  {
    s := new SdsString.NewLen(init);
    ghost var text := init;
    for i := 0 to |ops|
      invariant fresh(s) && fresh(s.mem) && s.Valid() && s.Content() == text
      invariant Fits(text, ops[i..])
      invariant ApplyAll(text, ops[i..]) == ApplyAll(init, ops)
    {
      assert ops[i..][1..] == ops[i + 1..];
      match ops[i] {
        case Cat(t) => s.CatLen(t);
        case Cpy(t) => s.CpyLen(t);
        case Grow(n) => s.GrowZero(n);
        case Keep(start, end) => s.Range(start, end);
        case Room(n) => s.MakeRoomFor(n);
        case Shrink => s.RemoveFreeSpace();
        case Clear => s.Clear();
      }
      text := Apply(text, ops[i]);
    }
  }
}
