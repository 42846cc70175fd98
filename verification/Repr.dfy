/**
 Quoting and splitting of argument lines (sds.c): sdscatrepr prints any byte
 string in quotes, sdssplitargs reads a line of quoted and unquoted words.
 Character classes are those of the C locale.
 */
module Repr {
  import opened Bytes
  import opened Sds

  const QUOTE: byte := '\"' as int
  const TICK: byte := '\'' as int
  const BACKSLASH: byte := '\\' as int
  const TAB: byte := 9
  const BELL: byte := 7
  const BACKSPACE: byte := 8
  const LOWER_X: byte := 'x' as int

  predicate IsPrint(b: byte) { 32 <= b <= 126 }

  predicate IsSpace(b: byte) { 9 <= b <= 13 || b == SPACE }

  predicate IsHex(b: byte) {
    '0' as int <= b <= '9' as int || 'a' as int <= b <= 'f' as int || 'A' as int <= b <= 'F' as int
  }

  function HexValue(b: byte): (v: nat)
    ensures v < 16
  {
    if '0' as int <= b <= '9' as int then b - '0' as int
    else if 'a' as int <= b <= 'f' as int then b - 'a' as int + 10
    else if 'A' as int <= b <= 'F' as int then b - 'A' as int + 10
    else 0
  }

  function HexDigit(v: nat): (b: byte)
    requires v < 16
    ensures IsHex(b) && HexValue(b) == v
  {
    if v < 10 then '0' as int + v else 'a' as int + v - 10
  }

  /** The letter that stands for a control character after a backslash, or 0. */
  function EscapeLetter(b: byte): byte {
    if b == LF then 'n' as int
    else if b == CR then 'r' as int
    else if b == TAB then 't' as int
    else if b == BELL then 'a' as int
    else if b == BACKSPACE then 'b' as int
    else 0
  }

  /** How one byte is printed between quotes. */
  function Quoted(b: byte): (s: bytes)
    ensures 1 <= |s| <= 4
  {
    if b == BACKSLASH || b == QUOTE then [BACKSLASH, b]
    else if EscapeLetter(b) != 0 then [BACKSLASH, EscapeLetter(b)]
    else if IsPrint(b) then [b]
    else [BACKSLASH, LOWER_X, HexDigit(b / 16), HexDigit(b % 16)]
  }

  function Body(s: bytes): bytes {
    if s == [] then [] else Quoted(s[0]) + Body(s[1..])
  }

  function Printed(s: bytes): bytes {
    [QUOTE] + Body(s) + [QUOTE]
  }

  lemma {:induction false} BodySnoc(s: bytes, b: byte)
    ensures Body(s + [b]) == Body(s) + Quoted(b)
  {
    hide Quoted;
    if s == [] {
      assert Body([b]) == Quoted(b);
    } else {
      assert (s + [b])[1..] == s[1..] + [b];
      BodySnoc(s[1..], b);
    }
  }

  lemma {:induction false} BodyLength(s: bytes)
    ensures |s| <= |Body(s)| <= 4 * |s|
  {
    hide Quoted;
    if s != [] { BodyLength(s[1..]); }
  }

  /** Append the quoted form of `p`. */
  method CatRepr(s: SdsString, p: bytes)
    requires s.Valid() && s.Len() + 4 * |p| + 2 <= MAX_STRING
    modifies s, s.mem
    ensures s.Valid() && (s.mem == old(s.mem) || fresh(s.mem))
    ensures s.Content() == old(s.Content()) + Printed(p)
  {
    hide Quoted, Body, SdsString.Valid, SdsString.Content, SdsString.Sound;
    ghost var before := s.Content();
    s.CatLen([QUOTE]);
    assert p[..0] == [];
    NoBody();
    for i := 0 to |p|
      invariant s.Valid() && (s.mem == old(s.mem) || fresh(s.mem))
      invariant s.Content() == before + [QUOTE] + Body(p[..i])
    {
      BodySnoc(p[..i], p[i]);
      BodyLength(p[..i]);
      assert p[..i] + [p[i]] == p[..i + 1];
      s.CatLen(Quoted(p[i]));
    }
    assert p[..|p|] == p;
    BodyLength(p);
    s.CatLen([QUOTE]);
    assert s.Content() == before + Printed(p);
  }

  lemma NoBody()
    ensures Body([]) == []
  {
  }

  /** The byte at `k` of a C string: its terminator is at the end at the latest. */
  function At(u: bytes, k: nat): byte {
    if k < |u| then u[k] else NUL
  }

  function Unescape(b: byte): byte {
    if b == 'n' as int then LF
    else if b == 'r' as int then CR
    else if b == 't' as int then TAB
    else if b == 'b' as int then BACKSPACE
    else if b == 'a' as int then BELL
    else b
  }

  datatype Mode = Plain | Double | Single

  datatype Token = Token(text: bytes, rest: bytes) | Unbalanced

  /** One step inside a token: a literal or escaped byte, the end, or an error. */
  datatype Move = Take(b: byte, n: nat) | Enter(mode: Mode) | Stop(n: nat) | Fail

  /** What the scanner does at the front of `u`. */
  function Scan(u: bytes, mode: Mode): (m: Move)
    ensures m.Take? ==> 0 < m.n <= |u|
    ensures m.Enter? ==> u != []
    ensures m.Stop? ==> m.n <= |u|
  {
    var c, d := At(u, 0), At(u, 1);
    match mode
    case Double =>
      if c == BACKSLASH && d == LOWER_X && IsHex(At(u, 2)) && IsHex(At(u, 3)) then
        Take(HexValue(u[2]) * 16 + HexValue(u[3]), 4)
      else if c == BACKSLASH && d != NUL then Take(Unescape(d), 2)
      else if c == QUOTE then (if d != NUL && !IsSpace(d) then Fail else Stop(1))
      else if c == NUL then Fail
      else Take(c, 1)
    case Single =>
      if c == BACKSLASH && d == TICK then Take(TICK, 2)
      else if c == TICK then (if d != NUL && !IsSpace(d) then Fail else Stop(1))
      else if c == NUL then Fail
      else Take(c, 1)
    case Plain =>
      if c == NUL then Stop(0)
      else if c == SPACE || c == LF || c == CR || c == TAB then Stop(1)
      else if c == QUOTE then Enter(Double)
      else if c == TICK then Enter(Single)
      else Take(c, 1)
  }

  /** The rest of a token whose text so far is `cur`. */
  function ReadToken(u: bytes, mode: Mode, cur: bytes): (t: Token)
    ensures t.Token? ==> |t.rest| <= |u|
    ensures t.Token? && Scan(u, mode) != Stop(0) ==> |t.rest| < |u|
    decreases |u|
  {
    match Scan(u, mode)
    case Take(b, n) => ReadToken(u[n..], mode, cur + [b])
    case Enter(m) => ReadToken(u[1..], m, cur)
    case Stop(n) => Token(cur, u[n..])
    case Fail => Unbalanced
  }

  datatype Line = Args(argv: seq<bytes>) | BadLine

  /** A line: blanks, then words until the terminator. */
  function Split(u: bytes): Line
    decreases |u|
  {
    if At(u, 0) == NUL then Args([])
    else if IsSpace(u[0]) then Split(u[1..])
    else
      var t := ReadToken(u, Plain, []);
      if t.Unbalanced? then BadLine
      else
        match Split(t.rest)
        case BadLine => BadLine
        case Args(argv) => Args([t.text] + argv)
  }

  /** A byte read back inside quotes, whatever follows it. */
  lemma ScanQuoted(b: byte, rest: bytes)
    ensures Scan(Quoted(b) + rest, Double) == Take(b, |Quoted(b)|)
  {
    var u := Quoted(b) + rest;
    if b == BACKSLASH || b == QUOTE {
    } else if EscapeLetter(b) != 0 {
    } else if IsPrint(b) {
    } else {
      assert u[2] == HexDigit(b / 16) && u[3] == HexDigit(b % 16);
    }
  }

  /** The closing quote, followed by a blank or nothing. */
  lemma ScanClose(rest: bytes)
    requires At(rest, 0) == NUL || IsSpace(rest[0])
    ensures Scan([QUOTE] + rest, Double) == Stop(1)
  {
    assert At([QUOTE] + rest, 1) == At(rest, 0);
  }

  /** The printed form of `s`, from after its opening quote. */
  lemma {:induction false} ReadBody(s: bytes, rest: bytes, cur: bytes)
    requires At(rest, 0) == NUL || IsSpace(rest[0])
    ensures ReadToken(Body(s) + ([QUOTE] + rest), Double, cur) == Token(cur + s, rest)
  {
    hide Quoted, Scan;
    var u := Body(s) + ([QUOTE] + rest);
    if s == [] {
      ScanClose(rest);
      assert u == [QUOTE] + rest && u[1..] == rest && cur + [] == cur;
    } else {
      var v := Body(s[1..]) + ([QUOTE] + rest);
      assert u == Quoted(s[0]) + v;
      ScanQuoted(s[0], v);
      assert u[|Quoted(s[0])|..] == v;
      ReadBody(s[1..], rest, cur + [s[0]]);
      assert cur + [s[0]] + s[1..] == cur + s;
    }
  }

  /** A printed string in front of a blank or nothing is one word. */
  lemma ReadPrinted(s: bytes, rest: bytes)
    requires At(rest, 0) == NUL || IsSpace(rest[0])
    ensures ReadToken(Printed(s) + rest, Plain, []) == Token(s, rest)
  {
    hide Body;
    var u, v := Printed(s) + rest, Body(s) + ([QUOTE] + rest);
    assert u == [QUOTE] + v && u[1..] == v;
    assert Scan(u, Plain) == Enter(Double);
    hide Scan;
    ReadBody(s, rest, []);
    assert [] + s == s;
  }

  function Join(xs: seq<bytes>): bytes {
    if xs == [] then []
    else if |xs| == 1 then Printed(xs[0])
    else Printed(xs[0]) + [SPACE] + Join(xs[1..])
  }

  lemma SplitPrinted(x: bytes, rest: bytes)
    requires At(rest, 0) == NUL || IsSpace(rest[0])
    requires Split(rest).Args?
    ensures Split(Printed(x) + rest) == Args([x] + Split(rest).argv)
  {
    hide ReadToken, Body;
    assert (Printed(x) + rest)[0] == QUOTE;
    ReadPrinted(x, rest);
  }

  lemma SplitNothing()
    ensures Split([]) == Args([])
  {
  }

  lemma SplitBlank(u: bytes)
    ensures Split([SPACE] + u) == Split(u)
  {
    hide ReadToken;
    assert ([SPACE] + u)[1..] == u;
  }

  /** Printing any byte strings and splitting the line gives them back. */
  lemma {:induction false} SplitJoin(xs: seq<bytes>)
    ensures Split(Join(xs)) == Args(xs)
  {
    hide Split, Printed;
    SplitNothing();
    if xs != [] {
      SplitJoin(xs[1..]);
      var rest := if |xs| == 1 then [] else [SPACE] + Join(xs[1..]);
      SplitBlank(Join(xs[1..]));
      assert Join(xs) == Printed(xs[0]) + rest;
      SplitPrinted(xs[0], rest);
      assert [xs[0]] + xs[1..] == xs;
    }
  }

  /** Read one word of the line from position `p`. */
  method GetToken(line: bytes, p: nat) returns (t: Token, next: nat)
    requires p <= |line|
    ensures t == ReadToken(line[p..], Plain, [])
    ensures p <= next <= |line| && (t.Token? ==> line[next..] == t.rest)
  {
    hide Scan;
    var current: bytes, mode, done := [], Plain, false;
    next := p;
    ghost var goal := ReadToken(line[p..], Plain, []);
    while !done
      invariant p <= next <= |line|
      invariant !done ==> ReadToken(line[next..], mode, current) == goal
      invariant done ==> goal == Token(current, line[next..])
      decreases !done, |line| - next
    {
      var u := line[next..];
      assert forall n :: 0 <= n <= |u| ==> u[n..] == line[next + n..];
      match Scan(u, mode) {
        case Take(b, n) => current, next := current + [b], next + n;
        case Enter(m) => mode, next := m, next + 1;
        case Stop(n) => done, next := true, next + n;
        case Fail => return Unbalanced, next;
      }
    }
    t := Token(current, line[next..]);
  }

  /** Pass the blanks from position `p` on. */
  method SkipBlanks(line: bytes, p: nat) returns (next: nat)
    requires p <= |line|
    ensures p <= next <= |line| && Split(line[next..]) == Split(line[p..])
    ensures At(line, next) == NUL || !IsSpace(line[next])
  {
    hide ReadToken;
    next := p;
    while At(line, next) != NUL && IsSpace(At(line, next))
      invariant p <= next <= |line| && Split(line[next..]) == Split(line[p..])
      decreases |line| - next
    {
      assert line[next..][1..] == line[next + 1..];
      next := next + 1;
    }
  }

  /** The words of a line, given those of its rest. */
  function Before(argv: seq<bytes>, rest: Line): Line {
    if rest.BadLine? then BadLine else Args(argv + rest.argv)
  }

  lemma SplitWord(u: bytes, argv: seq<bytes>)
    requires At(u, 0) != NUL && !IsSpace(u[0])
    ensures var t := ReadToken(u, Plain, []);
      Before(argv, Split(u)) == if t.Unbalanced? then BadLine else Before(argv + [t.text], Split(t.rest))
    ensures var t := ReadToken(u, Plain, []); t.Token? ==> |t.rest| < |u|
  {
    var t := ReadToken(u, Plain, []);
    if t.Token? && Split(t.rest).Args? {
      assert argv + ([t.text] + Split(t.rest).argv) == argv + [t.text] + Split(t.rest).argv;
    }
  }

  lemma SplitEnd(u: bytes, argv: seq<bytes>)
    requires At(u, 0) == NUL
    ensures Before(argv, Split(u)) == Args(argv)
  {
  }

  /** Split a line into its words; an unbalanced quote spoils the line. */
  method SplitArgs(line: bytes) returns (r: Line)
    ensures r == Split(line)
  {
    var p, argv := 0, [];
    assert line[0..] == line && Before([], Split(line)) == Split(line);
    hide Split, ReadToken, Before;
    while true
      invariant 0 <= p <= |line| && Before(argv, Split(line[p..])) == Split(line)
      decreases |line| - p
    {
      p := SkipBlanks(line, p);
      assert At(line[p..], 0) == At(line, p);
      if At(line, p) == NUL {
        SplitEnd(line[p..], argv);
        return Args(argv);
      }
      SplitWord(line[p..], argv);
      var t, next := GetToken(line, p);
      if t.Unbalanced? { return BadLine; }
      argv := argv + [t.text];
      p := next;
    }
  }

  lemma {:induction false} JoinAppend(xs: seq<bytes>, x: bytes)
    ensures Join(xs + [x]) == Join(xs) + (if xs == [] then [] else [SPACE]) + Printed(x)
  {
    hide Printed;
    if xs == [] {
      assert xs + [x] == [x];
      assert [] + [] + Printed(x) == Printed(x);
    } else {
      var ys := xs[1..] + [x];
      assert (xs + [x])[1..] == ys;
      JoinAppend(xs[1..], x);
      if |xs| > 1 {
        assert Join(xs + [x]) == Printed(xs[0]) + [SPACE] + Join(ys);
      } else {
        assert ys == [x] && Join(ys) == Printed(x);
      }
    }
  }

  lemma JoinNothing()
    ensures Join([]) == []
  {
  }

  lemma JoinSnoc(xs: seq<bytes>, i: nat)
    requires i < |xs|
    ensures Join(xs[..i + 1]) == Join(xs[..i]) + (if i == 0 then [] else [SPACE]) + Printed(xs[i])
    ensures |Concat(xs[..i + 1])| == |Concat(xs[..i])| + |xs[i]| <= |Concat(xs)|
    ensures |Printed(xs[i])| <= 4 * |xs[i]| + 2
  {
    hide Join, Body;
    assert xs[..i] + [xs[i]] == xs[..i + 1] && xs[..i + 1] + xs[i + 1..] == xs;
    JoinAppend(xs[..i], xs[i]);
    ConcatSnoc(xs[..i], xs[i]);
    ConcatAppend(xs[..i + 1], xs[i + 1..]);
    BodyLength(xs[i]);
  }

  /** Print the strings behind each other, split the line again. */
  method PrintAndSplit(xs: seq<bytes>) returns (r: Line)
    requires 4 * |Concat(xs)| + 3 * |xs| <= MAX_STRING
    ensures r == Args(xs)
  {
    hide Join, Body, SdsString.Valid, SdsString.Content, SdsString.Sound;
    var s := new SdsString.NewLen([]);
    JoinNothing();
    assert xs[..0] == [];
    for i := 0 to |xs|
      invariant s.Valid() && fresh(s) && fresh(s.mem) && s.Content() == Join(xs[..i])
      invariant |Join(xs[..i])| <= 4 * |Concat(xs[..i])| + 3 * i
    {
      JoinSnoc(xs, i);
      if i > 0 {
        s.CatLen([SPACE]);
      }
      CatRepr(s, xs[i]);
    }
    assert xs[..|xs|] == xs;
    SplitJoin(xs);
    ContentBytes(s);
    r := SplitArgs(s.mem[..s.Len()]);
  }

  /** How bytes are printed, one by one: quotes and backslashes behind a backslash, five
      control characters by their letters, what is not printable in hexadecimal, and
      the rest as it is. */
  lemma QuotedBytes(b: byte)
    ensures Quoted(34) == [92, 34] && Quoted(92) == [92, 92] && Quoted(10) == [92, 110] && Quoted(13) == [92, 114]
    ensures Quoted(9) == [92, 116] && Quoted(7) == [92, 97] && Quoted(8) == [92, 98]
    ensures 32 <= b <= 126 && b !in {34, 92} ==> Quoted(b) == [b]
    ensures !(32 <= b <= 126) && b !in {7, 8, 9, 10, 13} ==>
      var x, y := b / 16, b % 16;
      Quoted(b) == [92, 120, if x < 10 then 48 + x else 87 + x, if y < 10 then 48 + y else 87 + y]
  {
  }

  /** A printed string is its bytes, printed one after the other between quotes. */
  lemma PrintedMore(s: bytes, b: byte)
    ensures Printed([]) == [34, 34]
    ensures var p, q := Printed(s), Printed(s + [b]); q == p[..|p| - 1] + Quoted(b) + [34]
  {
    hide Quoted;
    BodySnoc(s, b);
  }

  /** How a word may be written: bare, in quotes as it is printed, or in single quotes. */
  datatype Word = Bare(s: bytes) | Doubled(s: bytes) | Ticked(s: bytes)

  /** A bare word has no blanks, quotes or NUL in it, and starts with no white space. In
      single quotes there is no NUL, and no backslash at the end. */
  predicate Sayable(w: Word) {
    match w
    case Bare(s) => s != [] && s[0] !in {11, 12} && forall i :: 0 <= i < |s| ==> s[i] !in {0, 9, 10, 13, 32, 34, 39}
    case Doubled(_) => true
    case Ticked(s) => 0 !in s && (s != [] ==> s[|s| - 1] != 92)
  }

  /** Text between single quotes: a single quote needs a backslash. */
  function TickedBody(s: bytes): bytes {
    if s == [] then [] else (if s[0] == 39 then [92, 39] else [s[0]]) + TickedBody(s[1..])
  }

  function WordText(w: Word): bytes {
    match w
    case Bare(s) => s
    case Doubled(s) => Printed(s)
    case Ticked(s) => [39] + TickedBody(s) + [39]
  }

  /** White space that ends a word. */
  predicate IsGap(g: bytes) {
    g != [] && g[0] in {9, 10, 13, 32} && forall i :: 0 <= i < |g| ==> 9 <= g[i] <= 13 || g[i] == 32
  }

  /** Words with white space behind each but perhaps the last. */
  function LineText(ws: seq<Word>, gaps: seq<bytes>): bytes
    requires |gaps| == |ws|
  {
    if ws == [] then [] else WordText(ws[0]) + gaps[0] + LineText(ws[1..], gaps[1..])
  }

  ghost predicate SayableLine(ws: seq<Word>, gaps: seq<bytes>) {
    && |gaps| == |ws| && (forall i :: 0 <= i < |ws| ==> Sayable(ws[i]))
    && forall i :: 0 <= i < |gaps| ==> IsGap(gaps[i]) || (i == |gaps| - 1 && gaps[i] == [])
  }

  function Texts(ws: seq<Word>): (r: seq<bytes>)
    ensures |r| == |ws|
  {
    seq(|ws|, i requires 0 <= i < |ws| => ws[i].s)
  }

  /** The rest of a bare word. */
  lemma {:induction false} ReadBare(s: bytes, rest: bytes, cur: bytes)
    requires forall i :: 0 <= i < |s| ==> s[i] !in {0, 9, 10, 13, 32, 34, 39}
    requires rest == [] || rest[0] in {9, 10, 13, 32}
    ensures ReadToken(s + rest, Plain, cur) == Token(cur + s, if rest == [] then [] else rest[1..])
  {
    hide ReadToken;
    if s == [] {
      assert s + rest == rest && cur + s == cur;
      ReadStop(rest, Plain, cur);
    } else {
      var u := s + rest;
      assert u[1..] == s[1..] + rest && cur + [s[0]] + s[1..] == cur + s;
      ReadOne(u, Plain, cur);
      ReadBare(s[1..], rest, cur + [s[0]]);
    }
  }

  lemma ReadStop(u: bytes, mode: Mode, cur: bytes)
    requires Scan(u, mode).Stop?
    ensures ReadToken(u, mode, cur) == Token(cur, u[Scan(u, mode).n..])
  {
  }

  lemma ReadFail(u: bytes, mode: Mode, cur: bytes)
    requires Scan(u, mode).Fail?
    ensures ReadToken(u, mode, cur) == Unbalanced
  {
  }

  lemma ReadOne(u: bytes, mode: Mode, cur: bytes)
    requires Scan(u, mode).Take?
    ensures ReadToken(u, mode, cur) == ReadToken(u[Scan(u, mode).n..], mode, cur + [Scan(u, mode).b])
  {
  }

  /** The rest of a word in single quotes, up to the closing one. */
  lemma {:induction false} ReadTicked(s: bytes, rest: bytes, cur: bytes)
    requires 0 !in s && (s != [] ==> s[|s| - 1] != 92) && (At(rest, 0) == NUL || IsSpace(rest[0]))
    ensures ReadToken(TickedBody(s) + [39] + rest, Single, cur) == Token(cur + s, rest)
  {
    hide ReadToken;
    var u := TickedBody(s) + [39] + rest;
    if s == [] {
      assert u == [39] + rest && At(u, 1) == At(rest, 0) && u[1..] == rest && cur + [] == cur;
      ReadStop(u, Single, cur);
    } else {
      var v := TickedBody(s[1..]) + [39] + rest;
      var n := if s[0] == 39 then 2 else 1;
      assert u[n..] == v;
      TickedFront(s, rest);
      ReadOne(u, Single, cur);
      assert s[1..] != [] ==> s[1..][|s[1..]| - 1] == s[|s| - 1];
      ReadTicked(s[1..], rest, cur + [s[0]]);
      assert cur + [s[0]] + s[1..] == cur + s;
    }
  }

  /** What stands behind the first byte of a word in single quotes is no single quote
      that this byte could escape. */
  lemma TickedFront(s: bytes, rest: bytes)
    requires s != [] && 0 !in s && s[|s| - 1] != 92
    ensures Scan(TickedBody(s) + [39] + rest, Single) == Take(s[0], if s[0] == 39 then 2 else 1)
  {
    var u := TickedBody(s) + [39] + rest;
    if s[0] == 39 {
      assert u[0] == 92 && u[1] == 39;
    } else {
      assert u[0] == s[0];
      if s[0] == 92 {
        assert |s| > 1;
        var t := TickedBody(s[1..]);
        assert t != [] && t[0] == if s[1] == 39 then 92 else s[1];
        assert u[1] == t[0];
      }
    }
  }

  /** A word in front of white space or nothing is read as its text. */
  lemma ReadWord(w: Word, rest: bytes)
    requires Sayable(w) && (rest == [] || rest[0] in {9, 10, 13, 32})
    ensures WordText(w) != [] && At(WordText(w) + rest, 0) != NUL && !IsSpace((WordText(w) + rest)[0])
    ensures var t := ReadToken(WordText(w) + rest, Plain, []);
      t == Token(w.s, rest) || (w.Bare? && rest != [] && t == Token(w.s, rest[1..]))
  {
    hide ReadToken, Body, TickedBody;
    match w
    case Bare(s) =>
      ReadBare(s, rest, []);
      assert (s + rest)[0] == s[0] && [] + s == s;
    case Doubled(s) =>
      ReadPrinted(s, rest);
    case Ticked(s) =>
      var u := WordText(w) + rest;
      assert u[1..] == TickedBody(s) + [39] + rest;
      assert Scan(u, Plain) == Enter(Single);
      ReadEnter(u, []);
      ReadTicked(s, rest, []);
      assert [] + s == s;
  }

  lemma ReadEnter(u: bytes, cur: bytes)
    requires Scan(u, Plain).Enter?
    ensures ReadToken(u, Plain, cur) == ReadToken(u[1..], Scan(u, Plain).mode, cur)
  {
  }

  lemma {:induction false} SplitGap(g: bytes, u: bytes)
    requires forall i :: 0 <= i < |g| ==> 9 <= g[i] <= 13 || g[i] == 32
    ensures Split(g + u) == Split(u)
  {
    hide ReadToken;
    if g == [] {
      assert g + u == u;
    } else {
      assert (g + u)[1..] == g[1..] + u;
      SplitGap(g[1..], u);
    }
  }

  /** Words written bare, in quotes or in single quotes, with any white space between
      them, split to their texts. */
  lemma {:induction false} SplitWords(ws: seq<Word>, gaps: seq<bytes>)
    requires SayableLine(ws, gaps)
    ensures Split(LineText(ws, gaps)) == Args(Texts(ws))
  {
    hide ReadToken, WordText, Split, Sayable, IsGap;
    if ws == [] {
      SplitNothing();
    } else {
      var w, g, u := ws[0], gaps[0], LineText(ws[1..], gaps[1..]);
      assert Sayable(w) && (IsGap(g) || (|ws| == 1 && g == []));
      assert SayableLine(ws[1..], gaps[1..]) by {
        forall i | 0 <= i < |ws| - 1
          ensures Sayable(ws[1..][i]) && (IsGap(gaps[1..][i]) || (i == |gaps| - 2 && gaps[1..][i] == []))
        {
          var k := i + 1;
          assert Sayable(ws[k]) && (IsGap(gaps[k]) || (k == |gaps| - 1 && gaps[k] == []));
        }
      }
      SplitWords(ws[1..], gaps[1..]);
      FirstWord(w, g, u);
      assert LineText(ws, gaps) == WordText(w) + (g + u);
      assert Texts(ws) == [w.s] + Texts(ws[1..]);
    }
  }

  lemma FirstWord(w: Word, g: bytes, u: bytes)
    requires Sayable(w) && (IsGap(g) || (g == [] && u == [])) && Split(u).Args?
    ensures Split(WordText(w) + (g + u)) == Args([w.s] + Split(u).argv)
  {
    hide ReadToken, WordText, Sayable, Scan;
    var rest := g + u;
    assert rest != [] ==> rest[0] == g[0];
    ReadWord(w, rest);
    SplitGap(g, u);
    if g != [] {
      assert rest[1..] == g[1..] + u;
      SplitGap(g[1..], u);
    }
  }

  /** A quote that is never closed spoils the line. */
  lemma OpenQuote(s: bytes)
    requires forall i :: 0 <= i < |s| ==> s[i] !in {0, 34, 39, 92}
    ensures Split([34] + s) == BadLine && Split([39] + s) == BadLine
  {
    hide ReadToken;
    assert ([34] + s)[1..] == s && ([39] + s)[1..] == s;
    ReadEnter([34] + s, []);
    ReadEnter([39] + s, []);
    NeverClosed(s, []);
  }

  lemma {:induction false} NeverClosed(s: bytes, cur: bytes)
    requires forall i :: 0 <= i < |s| ==> s[i] !in {0, 34, 39, 92}
    ensures ReadToken(s, Double, cur) == Unbalanced && ReadToken(s, Single, cur) == Unbalanced
  {
    hide ReadToken;
    if s == [] {
      ReadFail(s, Double, cur);
      ReadFail(s, Single, cur);
    } else {
      ReadOne(s, Double, cur);
      ReadOne(s, Single, cur);
      NeverClosed(s[1..], cur + [s[0]]);
    }
  }

  /** What a backslash stands for in quotes: five letters for control characters, two
      hexadecimal digits of either case for a byte, and any other byte for itself. */
  lemma ScanEscapes(c: byte, d: byte, rest: bytes)
    ensures Scan([92, 110] + rest, Double) == Take(10, 2) && Scan([92, 114] + rest, Double) == Take(13, 2)
    ensures Scan([92, 116] + rest, Double) == Take(9, 2) && Scan([92, 98] + rest, Double) == Take(8, 2)
    ensures Scan([92, 97] + rest, Double) == Take(7, 2)
    ensures c !in {0, 97, 98, 110, 114, 116, 120} ==> Scan([92, c] + rest, Double) == Take(c, 2)
    ensures 48 <= c <= 57 && 97 <= d <= 102 ==> Scan([92, 120, c, d] + rest, Double) == Take((c - 48) * 16 + d - 87, 4)
    ensures 65 <= c <= 70 && 48 <= d <= 57 ==> Scan([92, 120, c, d] + rest, Double) == Take((c - 55) * 16 + d - 48, 4)
  {
  }
}
