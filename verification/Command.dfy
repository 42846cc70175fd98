/**
 The command formatters of hiredis.c, and what the reply reader makes of a
 formatted command.
 */
module Command {
  import opened Bytes
  import opened CTypes
  import opened Resp
  import opened Decimal
  import opened Sds
  import opened SdsFormat
  import RespPrefix
  import RespPrint
  import RespReader

  const CRLF: bytes := [CR, LF]

  /** A length-prefixed string. */
  function Bulk(a: bytes): bytes {
    [DOLLAR] + Dec(|a|) + CRLF + a + CRLF
  }

  function Bulks(args: seq<bytes>): bytes {
    if args == [] then [] else Bulk(args[0]) + Bulks(args[1..])
  }

  /** A command: an array of bulk strings. */
  function Cmd(args: seq<bytes>): bytes {
    [STAR] + Dec(|args|) + CRLF + Bulks(args)
  }

  /** The size of any argument of the given length, once written. */
  method BulkLen(len: nat) returns (n: nat)
    ensures forall a: bytes :: |a| == len ==> n == |Bulk(a)|
  {
    var d := CountDigits(len);
    return 1 + d + 2 + len + 2;
  }

  lemma {:induction false} BulksSnoc(args: seq<bytes>, a: bytes)
    ensures Bulks(args + [a]) == Bulks(args) + Bulk(a)
  {
    if args == [] {
      assert Bulks([a]) == Bulk(a);
    } else {
      assert (args + [a])[1..] == args[1..] + [a];
      BulksSnoc(args[1..], a);
    }
  }

  /** The size the formatters reserve before writing anything. */
  method PredictLength(args: seq<bytes>) returns (totlen: nat)
    ensures totlen == |Cmd(args)|
  {
    var d := CountDigits(|args|);
    totlen := 1 + d + 2;
    for j := 0 to |args|
      invariant totlen == 1 + |Dec(|args|)| + 2 + |Bulks(args[..j])|
    {
      BulksSnoc(args[..j], args[j]);
      assert args[..j] + [args[j]] == args[..j + 1];
      var n := BulkLen(|args[j]|);
      totlen := totlen + n;
    }
    assert args[..|args|] == args;
  }

  /** Write `t` at `pos`; return the position after it. */
  method Write(a: array<byte>, pos: nat, t: bytes) returns (next: nat)
    requires pos + |t| <= a.Length
    modifies a
    ensures next == pos + |t| && a[..next] == old(a[..pos]) + t
  {
    Store(a, pos, t);
    next := pos + |t|;
  }

  /** Write one argument: its length line, its bytes and CR LF. */
  method WriteBulk(a: array<byte>, pos: nat, arg: bytes) returns (next: nat)
    requires pos + |Bulk(arg)| <= a.Length
    modifies a
    ensures next == pos + |Bulk(arg)| && a[..next] == old(a[..pos]) + Bulk(arg)
  {
    hide Dec;
    ghost var before := a[..pos];
    next := Write(a, pos, [DOLLAR] + Dec(|arg|) + CRLF);
    next := Write(a, next, arg);
    a[next] := CR;
    next := next + 1;
    a[next] := LF;
    next := next + 1;
    assert a[..next] == before + ([DOLLAR] + Dec(|arg|) + CRLF) + arg + CRLF;
  }

  /** The same prediction kept in an int, as the plain formatters do. */
  method PredictInt(args: seq<bytes>) returns (totlen: cint)
    ensures totlen == AsInt(|Cmd(args)|)
  {
    hide Bulk, Bulks, Dec, AsInt;
    var d := CountDigits(|args|);
    totlen := AsInt(1 + d + 2);
    NoBulks();
    for j := 0 to |args|
      invariant totlen == AsInt(1 + |Dec(|args|)| + 2 + |Bulks(args[..j])|)
    {
      BulksSnoc(args[..j], args[j]);
      assert args[..j] + [args[j]] == args[..j + 1];
      var n := BulkLen(|args[j]|);
      AsIntAdd(1 + |Dec(|args|)| + 2 + |Bulks(args[..j])|, n);
      totlen := AsInt(totlen + n);
    }
    assert args[..|args|] == args;
  }

  /** What becomes of a command whose size is kept in an int: it is written, no
      area of the computed size can be had, or the area is too small. */
  datatype Formatting = Whole | NoMemory | Overrun

  /** The fate of a command of `n` bytes: its area is asked for as an int too. */
  function Formatted(n: nat): Formatting {
    var size := AsInt(AsInt(n) + 1);
    if size < 0 then NoMemory else if n < size then Whole else Overrun
  }

  /** Commands are written exactly when they fit an int with their terminator;
      the first gigabytes beyond are refused. */
  lemma FormattedIff(n: nat)
    ensures Formatted(n) == Whole <==> n < INT_MAX
    ensures INT_MAX <= n < UINT32 - 1 ==> Formatted(n) == NoMemory
  {
    AsIntAdd(n, 1);
    AsIntBelow(n + 1);
  }

  /** A single argument of 2^31 bytes is shorter than what the other formatter's
      length conversion can take, and gets no command. */
  lemma LongArgument(a: bytes)
    requires |a| == INT_MAX + 1
    ensures |a| < UINT32 && Formatted(|Cmd([a])|) == NoMemory
  {
    hide Dec;
    Dec64(|a|);
    Dec64(1);
    assert Bulks([a]) == Bulk(a);
    FormattedIff(|Cmd([a])|);
  }

  /** Write the command into an area sized by a prediction, which is right about
      every command that fits an int. */
  method BuildCommand(args: seq<bytes>, totlen: cint) returns (f: Formatting, cmd: array<byte>)
    requires |Cmd(args)| < INT_MAX ==> totlen == |Cmd(args)|
    ensures fresh(cmd)
    ensures f == Whole <==> |Cmd(args)| < INT_MAX
    ensures f == NoMemory <==> AsInt(totlen + 1) < 0
    ensures f == Whole ==>
      cmd.Length == totlen + 1 && cmd[..totlen] == Cmd(args) && cmd[totlen] == NUL
  {
    hide Dec, Bulk, AsInt;
    cmd := new byte[0];
    var size := AsInt(totlen + 1);
    if size < 0 { return NoMemory, cmd; }
    cmd := new byte[size](_ => 0);
    ghost var head := [STAR] + Dec(|args|) + CRLF;
    if |[STAR] + Dec(|args|) + CRLF| > size { return Overrun, cmd; }
    var pos := Write(cmd, 0, [STAR] + Dec(|args|) + CRLF);
    assert args[0..] == args && cmd[..pos] == head;
    for j := 0 to |args|
      invariant pos + |Bulks(args[j..])| == |Cmd(args)| && 0 <= pos <= size
      invariant cmd[..pos] == head + Bulks(args[..j])
    {
      BulksSplit(args, j);
      if pos + |Bulk(args[j])| > size { return Overrun, cmd; }
      pos := WriteBulk(cmd, pos, args[j]);
    }
    assert args[..|args|] == args && cmd[..pos] == Cmd(args);
    if pos >= size { return Overrun, cmd; }
    assert pos == totlen;
    cmd[pos] := NUL;
    return Whole, cmd;
  }

  /** Predict the length, then write exactly that many bytes. */
  method FormatCommandArgv(args: seq<bytes>) returns (f: Formatting, cmd: array<byte>, totlen: cint)
    requires |args| <= INT_MAX
    ensures f == Formatted(|Cmd(args)|)
    ensures f == Whole ==> totlen == |Cmd(args)| && cmd.Length == totlen + 1
    ensures f == Whole ==> cmd[..totlen] == Cmd(args) && cmd[totlen] == NUL
  {
    hide Cmd, AsInt;
    totlen := PredictInt(args);
    f, cmd := BuildCommand(args, totlen);
    FormattedIff(|Cmd(args)|);
  }

  lemma BulksSplit(args: seq<bytes>, j: nat)
    requires j < |args|
    ensures Bulks(args[j..]) == Bulk(args[j]) + Bulks(args[j + 1..])
    ensures Bulks(args[..j + 1]) == Bulks(args[..j]) + Bulk(args[j])
  {
    assert args[j..][1..] == args[j + 1..];
    assert args[..j] + [args[j]] == args[..j + 1];
    BulksSnoc(args[..j], args[j]);
  }

  /** A decimal line is found, and reads as its number, cut to 64 bits. */
  lemma DecimalLine(n: nat, s: bytes)
    ensures var v, k := Dec(n) + CRLF + s, |Dec(n)|;
      && FindCrLf(v) == k && v[k + 2..] == s
      && CR in v[..k + 1] && LongLong(v[..k + 1]) == AsLongLong(n)
  {
    hide Dec, AsLongLong;
    var v, k := Dec(n) + CRLF + s, |Dec(n)|;
    assert CrLfAt(v, k);
    assert forall i :: 0 <= i < k ==> v[i] == Dec(n)[i] && v[i] != CR;
    assert v[..k + 1] == Dec(n) + [CR] && v[..k + 1][k] == CR;
    ReadText(n, [CR]);
  }

  /** A bulk string in front of anything parses to its bytes. */
  lemma BulkParses(a: bytes, rest: bytes, depth: nat)
    requires |a| <= INT64_MAX
    ensures ParseItem(Bulk(a) + rest, depth) == Done(Str(a), rest)
  {
    hide Dec, LongLong, FindCrLf, ParseList;
    var u := Bulk(a) + rest;
    assert u[1..] == Dec(|a|) + CRLF + (a + CRLF + rest);
    DecimalLine(|a|, a + CRLF + rest);
    var v, k := u[1..], |Dec(|a|)|;
    assert v[k + 2..k + 2 + |a|] == v[k + 2..][..|a|] == a;
    assert v[k + 2 + |a| + 2..] == v[k + 2..][|a| + 2..] == rest;
  }

  /** The length of every argument fits a long long. */
  ghost predicate Sized(args: seq<bytes>) {
    forall i :: 0 <= i < |args| ==> |args[i]| <= INT64_MAX
  }

  function Strings(args: seq<bytes>): (rs: seq<Reply>)
    ensures |rs| == |args|
  {
    seq(|args|, i requires 0 <= i < |args| => Str(args[i]))
  }

  lemma {:induction false} BulksParse(args: seq<bytes>, rest: bytes, depth: nat)
    requires Sized(args)
    ensures ParseList(Bulks(args) + rest, depth, |args|) == ListDone(Strings(args), rest)
  {
    if args == [] {
      assert Bulks(args) + rest == rest;
    } else {
      assert Bulks(args) + rest == Bulk(args[0]) + (Bulks(args[1..]) + rest);
      BulkParses(args[0], Bulks(args[1..]) + rest, depth);
      BulksParse(args[1..], rest, depth);
      assert Strings(args) == [Str(args[0])] + Strings(args[1..]);
    }
  }

  /** A formatted command parses to exactly the array of its arguments. */
  lemma CommandParses(args: seq<bytes>)
    requires |args| <= INT_MAX && Sized(args)
    ensures ParseItem(Cmd(args), 0) == Done(Array(|args|, Strings(args)), [])
    ensures ParseStream(Cmd(args)) == Transcript([Array(|args|, Strings(args))], Waiting)
  {
    hide Dec, Bulks, ParseList;
    var u := Cmd(args);
    assert u[1..] == Dec(|args|) + CRLF + Bulks(args);
    DecimalLine(|args|, Bulks(args));
    assert Bulks(args) + [] == Bulks(args);
    BulksParse(args, [], 1);
    if args == [] { NoBulks(); }
    assert ParseItem(u, 0) == Done(Array(|args|, Strings(args)), []);
    assert ParseStream([]) == Transcript([], Waiting);
  }

  /** A command is what a server would write for an array of strings. */
  lemma CommandPrinted(args: seq<bytes>)
    ensures Cmd(args) == RespPrint.Print(Array(|args|, Strings(args)))
  {
    hide Dec, Bulks, RespPrint.PrintAll;
    BulksPrinted(args);
  }

  lemma {:induction false} BulksPrinted(args: seq<bytes>)
    ensures Bulks(args) == RespPrint.PrintAll(Strings(args))
  {
    hide Dec;
    if args != [] {
      assert Strings(args)[1..] == Strings(args[1..]) && Strings(args)[0] == Str(args[0]);
      assert Bulk(args[0]) == RespPrint.Print(Str(args[0]));
      BulksPrinted(args[1..]);
    }
  }

  /** A count beyond an int is taken for its low 32 bits; where these are no count
      of children, the parser stops. */
  lemma WideCount(n: nat, s: bytes)
    requires INT_MAX < n <= INT64_MAX
    ensures var u, m := [STAR] + Dec(n) + CRLF + s, n % UINT32;
      ParseItem(u, 0) ==
      if 0 < m <= INT_MAX then ParseItem([STAR] + Dec(m) + CRLF + s, 0) else Bad(LostCount(n), s)
  {
    hide Dec, ParseList, LongLong, FindCrLf;
    var m := n % UINT32;
    assert ([STAR] + Dec(n) + CRLF + s)[1..] == Dec(n) + CRLF + s;
    assert ([STAR] + Dec(m) + CRLF + s)[1..] == Dec(m) + CRLF + s;
    DecimalLine(n, s);
    DecimalLine(m, s);
  }

  lemma NoBulks()
    ensures Bulks([]) == []
  {
  }

  /** A formatted command delivered in any chunks comes back as one array of its
      arguments, whatever bytes they contain, and nothing is left over. */
  method EchoCommand(args: seq<bytes>, chunks: seq<bytes>)
    returns (r: RespReader.Reader, out: seq<Reply>, ending: Ending)
    requires Concat(chunks) == Cmd(args) && |Cmd(args)| < INT_MAX
    ensures out == [Array(|args|, Strings(args))] && ending == Waiting
    ensures r.Valid() && r.err.None? && r.Unread() == []
  {
    hide Cmd, ParseStream, RespReader.Reader.Valid, RespReader.Reader.Unread;
    CommandSized(args);
    CommandParses(args);
    var k;
    r, k, out, ending := RespReader.ReadStream(chunks);
    assert chunks[..k] == chunks;
    NothingAfter(Cmd(args));
  }

  lemma CommandSized(args: seq<bytes>)
    requires |Cmd(args)| <= INT_MAX
    ensures |args| <= INT_MAX && Sized(args)
  {
    hide Dec, Bulk;
    forall i | 0 <= i < |args| ensures |args[i]| <= INT64_MAX { ArgumentInside(args, i); }
    RowLength(args);
  }

  lemma {:induction false} RowLength(args: seq<bytes>)
    ensures |args| <= |Bulks(args)|
  {
    hide Dec;
    if args != [] { RowLength(args[1..]); }
  }

  /** Behind the only reply of a stream there is what its item leaves. */
  lemma NothingAfter(u: bytes)
    requires ParseItem(u, 0).Done? && |ParseStream(u).replies| == 1
    ensures RespPrefix.After(u, 1) == ParseItem(u, 0).rest
  {
  }

  /** An argument as redisFormatSdsCommandArgv prints it: the length goes
      through `%u`, which keeps 32 bits of it. */
  function SdsBulk(a: bytes): bytes {
    [DOLLAR] + Dec(Low32(|a|)) + CRLF + a + CRLF
  }

  function SdsBulks(args: seq<bytes>): bytes {
    if args == [] then [] else SdsBulk(args[0]) + SdsBulks(args[1..])
  }

  function SdsCmd(args: seq<bytes>): bytes {
    [STAR] + Dec(|args|) + CRLF + SdsBulks(args)
  }

  const STAR_FORMAT: bytes := [STAR, PERCENT, 'i' as int, CR, LF]
  const DOLLAR_FORMAT: bytes := [DOLLAR, PERCENT, 'u' as int, CR, LF]

  /** A format made of one literal, one conversion and CR LF. */
  lemma LineFormat(b: byte, c: byte, a: Arg)
    requires b != PERCENT && b != NUL && IsConversion(c) && Matches(c, a)
    ensures WellFormed([b, PERCENT, c, CR, LF], [a])
    ensures Expand([b, PERCENT, c, CR, LF], [a]) == [b] + Converted(c, a) + CRLF
  {
    hide Converted;
    var f: bytes, lf: bytes, args := [b, PERCENT, c, CR, LF], [LF], [a];
    ExpandNothing([]);
    assert args[1..] == [];
    assert lf[1..] == [] && CRLF[1..] == lf;
    assert WellFormed(lf, []) && Expand(lf, []) == lf;
    assert WellFormed(CRLF, []) && Expand(CRLF, []) == CRLF;
    assert f[1..][2..] == CRLF && f[1..][0] == PERCENT && f[1..][1] == c;
    assert WellFormed(f[1..], args) && Expand(f[1..], args) == Converted(c, a) + CRLF;
  }

  /** The length line of an argument. */
  function SdsLine(a: bytes): bytes {
    [DOLLAR] + Dec(Low32(|a|)) + CRLF
  }

  /** Append one argument to a command under construction. Only the length line
      goes through the int position of the format routine. */
  method CatBulk(cmd: SdsString, a: bytes) returns (ok: bool)
    requires cmd.Valid() && cmd.Len() + |a| + 100 < MAX_STRING
    modifies cmd, cmd.mem
    ensures cmd.Sound() && (cmd.mem == old(cmd.mem) || fresh(cmd.mem))
    ensures ok <==> old(cmd.Len()) + |SdsLine(a)| <= INT_MAX
    ensures ok ==> cmd.Valid() && cmd.Content() == old(cmd.Content()) + SdsBulk(a)
  {
    hide Dec, Expand, WellFormed, SdsString.Valid, SdsString.Content, SdsString.Sound;
    ghost var before := cmd.Content();
    LineFormat(DOLLAR, 'u' as int, AUnsigned(|a|));
    Dec64(Low32(|a|));
    ok := CatFmt(cmd, DOLLAR_FORMAT, [AUnsigned(|a|)]);
    if !ok { return; }
    cmd.CatLen(a);
    cmd.CatLen(CRLF);
    assert cmd.Content() == before + SdsBulk(a);
  }

  /** How far into the arguments the int position has to reach: up to the body of
      the last one. */
  function LastLine(args: seq<bytes>): int {
    if args == [] then 0 else |SdsBulks(args)| - |args[|args| - 1]| - 2
  }

  method CatBulks(cmd: SdsString, args: seq<bytes>) returns (ok: bool)
    requires cmd.Valid() && cmd.Len() <= INT_MAX && cmd.Len() + |SdsBulks(args)| + 100 < MAX_STRING
    modifies cmd, cmd.mem
    ensures cmd.Sound() && (cmd.mem == old(cmd.mem) || fresh(cmd.mem))
    ensures ok <==> old(cmd.Len()) + LastLine(args) <= INT_MAX
    ensures ok ==> cmd.Valid() && cmd.Content() == old(cmd.Content()) + SdsBulks(args)
  {
    hide SdsBulk, SdsLine, SdsBulks, SdsString.Valid, SdsString.Content, SdsString.Sound;
    ghost var before, rest := cmd.Content(), SdsBulks(args);
    ghost var total := before + rest;
    assert args[0..] == args;
    for j := 0 to |args|
      invariant cmd.Valid() && (cmd.mem == old(cmd.mem) || fresh(cmd.mem))
      invariant rest == SdsBulks(args[j..]) && cmd.Content() + rest == total
      invariant j == |args| ==> old(cmd.Len()) + LastLine(args) <= INT_MAX
    {
      SdsSplit(args, j);
      ghost var text := cmd.Content();
      ok := CatBulk(cmd, args[j]);
      if !ok { return; }
      rest := SdsBulks(args[j + 1..]);
      assert text + (SdsBulk(args[j]) + rest) == (text + SdsBulk(args[j])) + rest;
    }
    SdsNothing();
    assert args[|args|..] == [] && cmd.Content() + [] == cmd.Content();
    return true;
  }

  lemma SdsNothing()
    ensures SdsBulks([]) == []
  {
  }

  /** The argument at `j`, what comes after it, and its distance from the end. */
  lemma SdsSplit(args: seq<bytes>, j: nat)
    requires j < |args|
    ensures SdsBulks(args[j..]) == SdsBulk(args[j]) + SdsBulks(args[j + 1..])
    ensures |SdsBulk(args[j])| == |SdsLine(args[j])| + |args[j]| + 2
    ensures j == |args| - 1 ==> SdsBulks(args[j + 1..]) == []
    ensures j < |args| - 1 ==> |SdsBulks(args[j + 1..])| >= |args[|args| - 1]| + 2
  {
    hide Dec;
    assert args[j..][1..] == args[j + 1..];
    if j < |args| - 1 { LastInside(args[j + 1..]); }
  }

  lemma {:induction false} LastInside(args: seq<bytes>)
    requires args != []
    ensures |SdsBulks(args)| >= |args[|args| - 1]| + 2
  {
    hide Dec;
    if |args| > 1 { LastInside(args[1..]); }
  }

  /** How the formatter over dynamic strings can end: it returns, it loses the
      end of the text, or its assertion on the length fails. */
  datatype SdsFormatting = Built | Astray | WrongLength

  /** The formatter that builds the command in a dynamic string. */
  method FormatSdsCommandArgv(args: seq<bytes>) returns (f: SdsFormatting, cmd: SdsString, totlen: cint)
    requires |args| <= INT_MAX
    requires |Cmd(args)| < MAX_STRING / 8
    ensures f == SdsFormatted(args)
    ensures f == Built ==> cmd.Valid() && cmd.Content() == SdsCmd(args) && totlen == AsInt(|Cmd(args)|)
  {
    hide Dec, Bulks, SdsBulks, Expand, WellFormed, SdsString.Valid, SdsString.Content, SdsString.Sound, LastLine;
    var n := PredictLength(args);
    totlen := AsInt(n);
    cmd := new SdsString.NewLen([]);
    cmd.MakeRoomFor(n);
    LineFormat(STAR, 'i' as int, AInt(|args|));
    SdsBulksSize(args);
    Dec64(|args|);
    var ok := CatFmt(cmd, STAR_FORMAT, [AInt(|args|)]);
    ok := CatBulks(cmd, args);
    if !ok { return Astray, cmd, totlen; }
    return if cmd.Len() == n then Built else WrongLength, cmd, totlen;
  }

  function SdsFormatted(args: seq<bytes>): SdsFormatting {
    if 1 + |Dec(|args|)| + 2 + LastLine(args) > INT_MAX then Astray
    else if |SdsCmd(args)| != |Cmd(args)| then WrongLength
    else Built
  }

  /** The truncated lengths do not make the command much longer. */
  lemma {:induction false} SdsBulksSize(args: seq<bytes>)
    ensures |SdsBulks(args)| <= 5 * |Bulks(args)|
  {
    if args != [] {
      Dec64(Low32(|args[0]|));
      SdsBulksSize(args[1..]);
    }
  }

  /** Two decimal lines in front of anything are equal only for equal numbers. */
  lemma DecimalLineInjective(m: nat, n: nat, s: bytes, t: bytes)
    requires Dec(m) + CRLF + s == Dec(n) + CRLF + t
    ensures m == n
  {
    hide Dec, DigitRun;
    assert Dec(m) + CRLF + s == Dec(m) + (CRLF + s) && Dec(n) + CRLF + t == Dec(n) + (CRLF + t);
    RunOfDec(m, CRLF + s);
    RunOfDec(n, CRLF + t);
    NoOverflow(m, |Dec(m)|);
    NoOverflow(n, |Dec(n)|);
  }

  /** The text of the formatter over dynamic strings is right exactly when every
      length line starts within an int and every length fits 32 bits. */
  lemma SdsTextIff(args: seq<bytes>)
    ensures SdsFormatted(args) == Built && SdsCmd(args) == Cmd(args) <==>
            1 + |Dec(|args|)| + 2 + LastLine(args) <= INT_MAX && forall i :: 0 <= i < |args| ==> |args[i]| < UINT32
  {
    hide Dec, SdsBulks, Bulks, LastLine;
    BulksAgree(args);
    var head := [STAR] + Dec(|args|) + CRLF;
    if SdsCmd(args) == Cmd(args) {
      assert SdsCmd(args)[|head|..] == SdsBulks(args) && Cmd(args)[|head|..] == Bulks(args);
    }
  }

  /** Both formatters return, and return the same bytes, exactly when the command
      with its terminator fits an int. */
  lemma FormattersAgree(args: seq<bytes>)
    ensures Formatted(|Cmd(args)|) == Whole && SdsFormatted(args) == Built && SdsCmd(args) == Cmd(args) <==>
            |Cmd(args)| < INT_MAX
  {
    hide Dec;
    FormattedIff(|Cmd(args)|);
    SdsTextIff(args);
    if |Cmd(args)| < INT_MAX {
      forall i | 0 <= i < |args|
        ensures |args[i]| < UINT32
      {
        ArgumentInside(args, i);
      }
      BulksAgree(args);
    }
  }

  lemma {:induction false} ArgumentInside(args: seq<bytes>, i: nat)
    requires i < |args|
    ensures |args[i]| <= |Bulks(args)|
  {
    hide Dec;
    if i > 0 { ArgumentInside(args[1..], i - 1); }
  }

  lemma {:induction false} BulksAgree(args: seq<bytes>)
    ensures SdsBulks(args) == Bulks(args) <==> forall i :: 0 <= i < |args| ==> |args[i]| < UINT32
  {
    hide Dec, SdsBulk, Bulk;
    if args != [] {
      var a, rest := args[0], args[1..];
      BulksAgree(rest);
      assert forall i :: 0 <= i < |rest| ==> rest[i] == args[i + 1];
      if SdsBulks(args) == Bulks(args) {
        BulkTail(a, SdsBulks(rest), Bulks(rest));
        assert forall i :: 1 <= i < |args| ==> args[i] == rest[i - 1];
      } else if |a| < UINT32 {
        SmallBulk(a);
      }
    }
  }

  lemma SmallBulk(a: bytes)
    requires |a| < UINT32
    ensures SdsBulk(a) == Bulk(a)
  {
  }

  lemma BulkTail(a: bytes, s: bytes, t: bytes)
    requires SdsBulk(a) + s == Bulk(a) + t
    ensures |a| < UINT32 && s == t
  {
    hide Dec;
    assert (SdsBulk(a) + s)[1..] == Dec(Low32(|a|)) + CRLF + (a + CRLF + s);
    assert (Bulk(a) + t)[1..] == Dec(|a|) + CRLF + (a + CRLF + t);
    DecimalLineInjective(Low32(|a|), |a|, a + CRLF + s, a + CRLF + t);
    assert s == (SdsBulk(a) + s)[|Bulk(a)|..] == (Bulk(a) + t)[|Bulk(a)|..] == t;
  }
}
