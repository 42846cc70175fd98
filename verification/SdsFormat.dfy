/**
 sdscatfmt: the small printf of sds.c, which writes directly into the free
 space of the string and puts the terminator back only at the end.
 */
module SdsFormat {
  import opened Bytes
  import opened CTypes
  import opened Sds
  import opened Decimal

  const PERCENT: byte := '%' as int

  /** A variadic argument. */
  datatype Arg = AString(s: bytes) | AInt(i: int) | AUnsigned(u: nat)

  /** The text an argument contributes under the conversion letter `c`. The
      conversions `%i` and `%u` fetch an argument of C type int or unsigned
      int: only its low 32 bits arrive. */
  function Converted(c: byte, a: Arg): bytes {
    if c == 's' as int || c == 'S' as int then (if a.AString? then a.s else [])
    else if c == 'i' as int then (if a.AInt? then Text(AsInt(a.i)) else [])
    else if c == 'I' as int then (if a.AInt? then Text(a.i) else [])
    else if c == 'u' as int then (if a.AUnsigned? then Dec(Low32(a.u)) else [])
    else (if a.AUnsigned? then Dec(a.u) else [])
  }

  predicate IsConversion(c: byte) {
    c in {'s' as int, 'S' as int, 'i' as int, 'I' as int, 'u' as int, 'U' as int}
  }

  /** The argument has the type its conversion letter fetches. */
  predicate Matches(c: byte, a: Arg) {
    if c == 's' as int || c == 'S' as int then a.AString?
    else if c == 'i' as int || c == 'I' as int then a.AInt? && INT64_MIN <= a.i <= INT64_MAX
    else a.AUnsigned? && a.u < UINT64
  }

  /** The call is defined: the format is a C string, a letter follows every percent
      sign, and every conversion finds an argument of its type. */
  predicate WellFormed(f: bytes, args: seq<Arg>)
    decreases |f|
  {
    if f == [] then true
    else if f[0] == NUL then false
    else if f[0] != PERCENT then WellFormed(f[1..], args)
    else if |f| == 1 || f[1] == NUL then false
    else if IsConversion(f[1]) then args != [] && Matches(f[1], args[0]) && WellFormed(f[2..], args[1..])
    else WellFormed(f[2..], args)
  }

  /** The text a format stands for. */
  function Expand(f: bytes, args: seq<Arg>): bytes
    requires WellFormed(f, args)
    decreases |f|
  {
    if f == [] then []
    else if f[0] != PERCENT then [f[0]] + Expand(f[1..], args)
    else if IsConversion(f[1]) then Converted(f[1], args[0]) + Expand(f[2..], args[1..])
    else [f[1]] + Expand(f[2..], args)
  }

  /** Write `t` at the position `i`, the end of the text, growing the string if it
      does not fit. */
  method Put(s: SdsString, i: cint, t: bytes)
    requires s.Sound() && s.Len() + |t| <= MAX_STRING && i == s.Len()
    modifies s, s.mem
    ensures s.Sound() && (s.mem == old(s.mem) || fresh(s.mem))
    ensures s.Content() == old(s.Content()) + t
  {
    if s.Avail() < |t| {
      s.MakeRoomFor(|t|);
    }
    ghost var before := s.Content();
    Store(s.mem, i, t);
    s.SetLen(i + |t|);
    assert s.mem[..i + |t|] == before + t;
  }

  /** The text of one conversion, printed as sds.c prints it. */
  method Convert(c: byte, a: Arg) returns (t: bytes)
    requires IsConversion(c) && Matches(c, a)
    ensures t == Converted(c, a)
  {
    hide Dec;
    match a
    case AString(s) =>
      t := s;
    case AInt(i) =>
      var num := if c == 'i' as int then AsInt(i) else i;
      var buf := new byte[LLSTR_SIZE](_ => 0);
      var l := Ll2Str(buf, num);
      t := buf[..l];
    case AUnsigned(u) =>
      var unum := if c == 'u' as int then Low32(u) else u;
      var buf := new byte[LLSTR_SIZE](_ => 0);
      var l := Ull2Str(buf, unum);
      t := buf[..l];
  }

  /** The next piece of output: its text, and how much of the format and of the
      arguments it uses up. */
  method NextPiece(f: bytes, args: seq<Arg>) returns (t: bytes, k: nat, j: nat)
    requires f != [] && WellFormed(f, args)
    ensures 0 < k <= |f| && j <= |args|
    ensures WellFormed(f[k..], args[j..])
    ensures Expand(f, args) == t + Expand(f[k..], args[j..])
  {
    assert args[0..] == args;
    if f[0] != PERCENT {
      return [f[0]], 1, 0;
    } else if IsConversion(f[1]) {
      t := Convert(f[1], args[0]);
      return t, 2, 1;
    } else {
      return [f[1]], 2, 0;
    }
  }

  /** Append the expansion of a format. The write position is an int: it follows
      the end of the text exactly as long as the text's length fits one. */
  method CatFmt(s: SdsString, fmt: bytes, args: seq<Arg>) returns (ok: bool)
    requires s.Valid() && WellFormed(fmt, args)
    requires s.Len() + |Expand(fmt, args)| < MAX_STRING
    modifies s, s.mem
    ensures s.Sound() && (s.mem == old(s.mem) || fresh(s.mem))
    ensures ok <==> old(s.Len()) + |Expand(fmt, args)| <= INT_MAX
    ensures ok ==> s.Valid() && s.Content() == old(s.Content()) + Expand(fmt, args)
  {
    hide WellFormed, Expand, AsInt, SdsString.Content;
    var f, next := 0, 0;
    var i: int := AsInt(s.Len());
    ghost var before, rest := s.Content(), Expand(fmt, args);
    ghost var total := before + rest;
    assert fmt[0..] == fmt && args[0..] == args;
    while f < |fmt|
      invariant 0 <= f <= |fmt| && 0 <= next <= |args|
      invariant s.Sound() && (s.mem == old(s.mem) || fresh(s.mem))
      invariant WellFormed(fmt[f..], args[next..]) && rest == Expand(fmt[f..], args[next..])
      invariant s.Content() + rest == total && i == AsInt(s.Len())
    {
      if i != s.Len() { return false; }
      if s.Avail() == 0 {
        s.MakeRoomFor(1);
      }
      var t, k, j := NextPiece(fmt[f..], args[next..]);
      ghost var text := s.Content();
      Put(s, i, t);
      AsIntAdd(i, |t|);
      i := AsInt(i + |t|);
      assert fmt[f..][k..] == fmt[f + k..] && args[next..][j..] == args[next + j..];
      f, next := f + k, next + j;
      rest := Expand(fmt[f..], args[next..]);
      assert text + (t + rest) == (text + t) + rest;
    }
    ExpandNothing(args[next..]);
    assert fmt[f..] == [] && rest == [];
    assert s.Content() == total;
    if i != s.Len() { return false; }
    Terminate(s, i);
    return true;
  }

  method Terminate(s: SdsString, i: cint)
    requires s.Sound() && i == s.Len()
    modifies s.mem
    ensures s.Valid() && s.Content() == old(s.Content())
  {
    s.mem[i] := NUL;
  }

  lemma ExpandNothing(args: seq<Arg>)
    ensures WellFormed([], args) && Expand([], args) == []
  {
  }

  /** What each conversion prints, letter by letter: `%s` and `%S` their string, `%i`
      an int and `%I` a long long, `%u` an unsigned int and `%U` 64 bits; a percent
      sign in front of anything else is dropped. */
  lemma ExpandFirst(c: byte, a: Arg, f: bytes, args: seq<Arg>)
    requires WellFormed(f, args)
    ensures c == 115 || c == 83 ==> a.AString? ==> var g := [37, c] + f;
      WellFormed(g, [a] + args) && Expand(g, [a] + args) == a.s + Expand(f, args)
    ensures c == 105 || c == 73 ==> a.AInt? && INT64_MIN <= a.i <= INT64_MAX ==> var g := [37, c] + f;
      WellFormed(g, [a] + args) && Expand(g, [a] + args) == Text(if c == 105 then AsInt(a.i) else a.i) + Expand(f, args)
    ensures c == 117 || c == 85 ==> a.AUnsigned? && a.u < UINT64 ==> var g := [37, c] + f;
      WellFormed(g, [a] + args) && Expand(g, [a] + args) == Dec(if c == 117 then Low32(a.u) else a.u) + Expand(f, args)
    ensures c != 0 && c !in {115, 83, 105, 73, 117, 85} ==>
      WellFormed([37, c] + f, args) && Expand([37, c] + f, args) == [c] + Expand(f, args)
    ensures c != 0 && c != 37 ==> WellFormed([c] + f, args) && Expand([c] + f, args) == [c] + Expand(f, args)
  {
    hide Text, Dec, AsInt, Low32;
    assert ([37, c] + f)[2..] == f && ([a] + args)[1..] == args && ([c] + f)[1..] == f;
  }
}
