/**
 redisvFormatCommand of hiredis.c for formats made of literals, `%s`, `%b`
 and `%%`: the words of the format become the arguments of the command, and
 interpolated bytes never split or merge words.
 */
module FormatString {
  import opened Bytes
  import opened CTypes
  import opened Decimal
  import opened SdsFormat
  import opened Command

  /** What a format is made of: separators, literal bytes and holes. */
  datatype Piece = Gap | Lit(b: byte) | Hole

  /** The piece at the front of a format and the bytes it takes; zero for a
      conversion that is left to the C library. */
  function FirstPiece(f: bytes): (r: (Piece, nat))
    requires f != []
    ensures r.1 <= |f|
  {
    if f[0] != PERCENT || |f| == 1 then (if f[0] == SPACE then (Gap, 1) else (Lit(f[0]), 1))
    else if f[1] == 's' as int || f[1] == 'b' as int then (Hole, 2)
    else if f[1] == PERCENT then (Lit(PERCENT), 2)
    else (Gap, 0)
  }

  /** A C string without conversions that are left to the C library. */
  predicate Supported(f: bytes)
    decreases |f|
  {
    f != [] ==> f[0] != NUL && FirstPiece(f).1 > 0 && Supported(f[FirstPiece(f).1..])
  }

  function Pieces(f: bytes): seq<Piece>
    requires Supported(f)
    decreases |f|
  {
    if f == [] then [] else [FirstPiece(f).0] + Pieces(f[FirstPiece(f).1..])
  }

  /** Length of the run of pieces before the next separator. */
  function WordLen(ps: seq<Piece>): (n: nat)
    ensures n <= |ps|
  {
    if ps == [] || ps[0].Gap? then 0 else 1 + WordLen(ps[1..])
  }

  /** The words of a format: its maximal runs of pieces without a separator. */
  function Words(ps: seq<Piece>): seq<seq<Piece>>
    decreases |ps|
  {
    if ps == [] then []
    else if ps[0].Gap? then Words(ps[1..])
    else [ps[..WordLen(ps)]] + Words(ps[WordLen(ps)..])
  }

  function Holes(ps: seq<Piece>): nat {
    if ps == [] then 0 else (if ps[0].Hole? then 1 else 0) + Holes(ps[1..])
  }

  /** A word with its holes filled from the front of the argument list. */
  function Fill(w: seq<Piece>, args: seq<bytes>): bytes
    requires Holes(w) <= |args|
  {
    if w == [] then []
    else
      match w[0]
      case Gap => Fill(w[1..], args)
      case Lit(b) => [b] + Fill(w[1..], args)
      case Hole => args[0] + Fill(w[1..], args[1..])
  }

  function HolesOf(ws: seq<seq<Piece>>): nat {
    if ws == [] then 0 else Holes(ws[0]) + HolesOf(ws[1..])
  }

  /** The arguments a list of words stands for; there is one for each word. */
  function FillAll(ws: seq<seq<Piece>>, args: seq<bytes>): (r: seq<bytes>)
    requires HolesOf(ws) <= |args|
    ensures |r| == |ws|
  {
    if ws == [] then [] else [Fill(ws[0], args)] + FillAll(ws[1..], args[Holes(ws[0])..])
  }

  lemma {:induction false} HolesSplit(ps: seq<Piece>, k: nat)
    requires k <= |ps|
    ensures Holes(ps) == Holes(ps[..k]) + Holes(ps[k..])
  {
    if k > 0 {
      HolesSplit(ps[1..], k - 1);
      assert ps[..k][1..] == ps[1..][..k - 1];
      assert ps[1..][k - 1..] == ps[k..];
    } else {
      assert ps[0..] == ps;
    }
  }

  /** Splitting into words keeps every hole. */
  lemma {:induction false} HolesOfWords(ps: seq<Piece>)
    ensures HolesOf(Words(ps)) == Holes(ps)
    decreases |ps|
  {
    if ps != [] {
      if ps[0].Gap? {
        HolesOfWords(ps[1..]);
      } else {
        HolesSplit(ps, WordLen(ps));
        HolesOfWords(ps[WordLen(ps)..]);
      }
    }
  }

  /** The arguments still to come when the current word has been read up to
      `cur`, if any piece of it has been read at all. */
  ghost function Remaining(cur: bytes, touched: bool, ps: seq<Piece>, args: seq<bytes>): seq<bytes>
    requires Holes(ps) <= |args|
  {
    HolesOfWords(ps);
    if !touched then FillAll(Words(ps), args)
    else
      var w := WordLen(ps);
      HolesSplit(ps, w);
      HolesOfWords(ps[w..]);
      [cur + Fill(ps[..w], args)] + FillAll(Words(ps[w..]), args[Holes(ps[..w])..])
  }

  /** A separator ends the current word, and is nothing otherwise. */
  lemma StepGap(cur: bytes, touched: bool, ps: seq<Piece>, args: seq<bytes>)
    requires ps != [] && ps[0].Gap? && Holes(ps) <= |args|
    ensures Remaining(cur, touched, ps, args) ==
            (if touched then [cur] else []) + Remaining([], false, ps[1..], args)
  {
    HolesOfWords(ps);
    HolesOfWords(ps[1..]);
    assert ps[0..] == ps && args[0..] == args;
    assert cur + [] == cur;
  }

  lemma FillFront(v: seq<Piece>, args: seq<bytes>)
    requires v != [] && !v[0].Gap? && Holes(v) <= |args|
    ensures var (t, used) := PieceText(v[0], args);
            Holes(v) == used + Holes(v[1..]) && Fill(v, args) == t + Fill(v[1..], args[used..])
  {
    assert args[0..] == args;
  }

  lemma HoleFirst(ps: seq<Piece>, args: seq<bytes>)
    requires ps != [] && Holes(ps) <= |args|
    ensures ps[0].Hole? ==> args != []
  {
  }

  lemma AppendTwice<T>(a: seq<T>, b: seq<T>, c: seq<T>)
    ensures a + (b + c) == a + b + c
  {
  }

  lemma DropTwice<T>(s: seq<T>, i: nat, j: nat)
    requires i + j <= |s|
    ensures s[i..][j..] == s[i + j..]
  {
  }

  lemma WordLenFront(ps: seq<Piece>)
    requires ps != [] && !ps[0].Gap?
    ensures WordLen(ps) == 1 + WordLen(ps[1..])
  {
  }

  lemma FrontSlices<T>(s: seq<T>, w: nat)
    requires 0 < w <= |s|
    ensures s[..w][0] == s[0]
    ensures s[..w][1..] == s[1..][..w - 1]
    ensures s[1..][w - 1..] == s[w..]
  {
  }

  /** A piece at the front of a word, and what the word leaves behind it. */
  lemma WordFront(ps: seq<Piece>)
    requires ps != [] && !ps[0].Gap?
    ensures var w := WordLen(ps);
            && w > 0 && WordLen(ps[1..]) == w - 1
            && ps[..w][0] == ps[0] && ps[..w][1..] == ps[1..][..w - 1] && ps[1..][w - 1..] == ps[w..]
  {
    hide WordLen;
    WordLenFront(ps);
    FrontSlices(ps, WordLen(ps));
  }

  /** A word that starts here may as well have been started before. */
  lemma StartWord(ps: seq<Piece>, args: seq<bytes>)
    requires ps != [] && !ps[0].Gap? && Holes(ps) <= |args|
    ensures Remaining([], false, ps, args) == Remaining([], true, ps, args)
  {
    hide Fill, Holes;
    var w := WordLen(ps);
    HolesOfWords(ps);
    HolesSplit(ps, w);
    HolesOfWords(ps[w..]);
    assert Words(ps)[1..] == Words(ps[w..]);
    assert [] + Fill(ps[..w], args) == Fill(ps[..w], args);
  }

  /** Any other piece extends the current word by its text. */
  lemma ExtendWord(cur: bytes, ps: seq<Piece>, args: seq<bytes>)
    requires ps != [] && !ps[0].Gap? && Holes(ps) <= |args|
    ensures var (t, used) := PieceText(ps[0], args);
            Holes(ps[1..]) <= |args| - used
            && Remaining(cur, true, ps, args) == Remaining(cur + t, true, ps[1..], args[used..])
  {
    hide Fill, Holes, HolesOf, Words, FillAll, WordLen, PieceText;
    HoleFirst(ps, args);
    var (t, used) := PieceText(ps[0], args);
    var w := WordLen(ps);
    HolesSplit(ps, w);
    WordFront(ps);
    FillFront(ps[..w], args);
    HolesSplit(ps[1..], w - 1);
    HolesOfWords(ps[w..]);
    DropTwice(args, used, Holes(ps[1..][..w - 1]));
    AppendTwice(cur, t, Fill(ps[1..][..w - 1], args[used..]));
  }

  lemma StepPiece(cur: bytes, touched: bool, ps: seq<Piece>, args: seq<bytes>)
    requires ps != [] && !ps[0].Gap? && Holes(ps) <= |args|
    requires !touched ==> cur == []
    ensures var (t, used) := PieceText(ps[0], args);
            Holes(ps[1..]) <= |args| - used
            && Remaining(cur, touched, ps, args) == Remaining(cur + t, true, ps[1..], args[used..])
  {
    hide Remaining, Holes;
    ExtendWord(cur, ps, args);
    if !touched { StartWord(ps, args); }
  }

  /** The text of a piece and the number of arguments it takes. */
  function PieceText(p: Piece, args: seq<bytes>): (r: (bytes, nat))
    requires p.Hole? ==> args != []
    ensures r.1 <= |args|
  {
    match p
    case Gap => ([], 0)
    case Lit(b) => ([b], 0)
    case Hole => (args[0], 1)
  }

  /** The separator, the literal or the conversion at the front of the rest of
      the format, as the formatter's loop tells them apart. */
  method NextFormatPiece(f: bytes, args: seq<bytes>) returns (gap: bool, t: bytes, k: nat, used: nat)
    requires f != [] && Supported(f) && Holes(Pieces(f)) <= |args|
    ensures 0 < k <= |f| && Supported(f[k..]) && Pieces(f) != [] && Pieces(f)[1..] == Pieces(f[k..])
    ensures (gap ==> used == 0) && gap == Pieces(f)[0].Gap? && (t, used) == PieceText(Pieces(f)[0], args)
    ensures used <= |args| && Holes(Pieces(f[k..])) <= |args| - used
  {
    if f[0] != PERCENT || |f| == 1 {
      if f[0] == SPACE {
        return true, [], 1, 0;
      } else {
        return false, [f[0]], 1, 0;
      }
    } else if f[1] == 's' as int || f[1] == 'b' as int {
      return false, args[0], 2, 1;
    } else {
      return false, [PERCENT], 2, 0;
    }
  }

  /** Collect the arguments word by word, with the bytes they will need. */
  method CollectArguments(fmt: bytes, args: seq<bytes>) returns (argv: seq<bytes>, total: cint)
    requires Supported(fmt) && Holes(Pieces(fmt)) <= |args|
    ensures HolesOf(Words(Pieces(fmt))) <= |args|
    ensures argv == FillAll(Words(Pieces(fmt)), args)
    ensures total == AsInt(|Bulks(argv)|)
  {
    hide AsInt, Remaining, FillAll, Words, Bulk, Bulks, Pieces, Supported, Holes, HolesOf, FirstPiece, PieceText;
    argv, total := [], 0;
    NoBulks();
    var cur: bytes, touched, c, a := [], false, 0, 0;
    ghost var goal := Remaining([], false, Pieces(fmt), args);
    assert fmt[0..] == fmt && args[0..] == args;
    while c < |fmt|
      invariant 0 <= c <= |fmt| && 0 <= a <= |args|
      invariant Supported(fmt[c..]) && Holes(Pieces(fmt[c..])) <= |args| - a
      invariant !touched ==> cur == []
      invariant argv + Remaining(cur, touched, Pieces(fmt[c..]), args[a..]) == goal
      invariant total == AsInt(|Bulks(argv)|)
    {
      ghost var ps, rest := Pieces(fmt[c..]), args[a..];
      var gap, t, k, used := NextFormatPiece(fmt[c..], args[a..]);
      assert fmt[c..][k..] == fmt[c + k..] && args[a..][used..] == args[a + used..];
      if gap {
        StepGap(cur, touched, ps, rest);
        ghost var more := Remaining([], false, ps[1..], rest);
        assert argv + ([cur] + more) == (argv + [cur]) + more && [] + more == more;
        if touched {
          argv, total := AddArgument(argv, total, cur);
          cur, touched := [], false;
        }
      } else {
        StepPiece(cur, touched, ps, rest);
        cur, touched := cur + t, true;
      }
      c, a := c + k, a + used;
    }
    assert fmt[c..] == [];
    RemainingNothing(cur, touched, args[a..]);
    if touched {
      argv, total := AddArgument(argv, total, cur);
    }
    RemainingAll(Pieces(fmt), args);
  }

  /** Put a finished argument behind the others and account for its bytes. */
  method AddArgument(argv: seq<bytes>, total: cint, cur: bytes) returns (argv': seq<bytes>, total': cint)
    requires total == AsInt(|Bulks(argv)|)
    ensures argv' == argv + [cur] && total' == AsInt(|Bulks(argv')|)
  {
    hide Bulk, AsInt;
    var n := BulkLen(|cur|);
    BulksSnoc(argv, cur);
    AsIntAdd(|Bulks(argv)|, n);
    return argv + [cur], AsInt(total + n);
  }

  lemma RemainingNothing(cur: bytes, touched: bool, args: seq<bytes>)
    ensures Supported([]) && Pieces([]) == [] && Remaining(cur, touched, [], args) == if touched then [cur] else []
  {
    assert args[0..] == args && cur + [] == cur;
  }

  lemma RemainingAll(ps: seq<Piece>, args: seq<bytes>)
    requires Holes(ps) <= |args|
    ensures HolesOf(Words(ps)) <= |args|
    ensures Remaining([], false, ps, args) == FillAll(Words(ps), args)
  {
    HolesOfWords(ps);
  }

  /** The formatted command is the command of the filled words: exactly as many
      arguments as the format has words, whatever is interpolated. It is written
      exactly when it fits an int with its terminator. */
  method VFormatCommand(fmt: bytes, args: seq<bytes>) returns (f: Formatting, cmd: array<byte>, totlen: cint)
    requires Supported(fmt) && Holes(Pieces(fmt)) <= |args|
    ensures HolesOf(Words(Pieces(fmt))) <= |args|
    ensures var argv := FillAll(Words(Pieces(fmt)), args);
      && (f == Whole <==> |Cmd(argv)| < INT_MAX)
      && (f == Whole ==> totlen == |Cmd(argv)| && cmd.Length == totlen + 1)
      && (f == Whole ==> cmd[..totlen] == Cmd(argv) && cmd[totlen] == NUL)
  {
    hide FillAll, Words, Bulks, Dec, AsInt;
    var argv, total := CollectArguments(fmt, args);
    var d := CountDigits(|argv|);
    AsIntAdd(|Bulks(argv)|, 1 + d + 2);
    var sum: int := total;
    totlen := AsInt(sum + (1 + d + 2));
    assert totlen == AsInt(|Cmd(argv)|);
    f, cmd := BuildCommand(argv, totlen);
  }

  /** Two argument lists make the same number of command arguments. */
  lemma ArgumentCount(fmt: bytes, args: seq<bytes>, args': seq<bytes>)
    requires Supported(fmt) && Holes(Pieces(fmt)) <= |args| && Holes(Pieces(fmt)) <= |args'|
    ensures HolesOf(Words(Pieces(fmt))) <= |args| && HolesOf(Words(Pieces(fmt))) <= |args'|
    ensures |FillAll(Words(Pieces(fmt)), args)| == |FillAll(Words(Pieces(fmt)), args')|
  {
    HolesOfWords(Pieces(fmt));
  }

  /** A word of a format as a programmer writes it: bytes that stand for themselves,
      a percent sign doubled, and conversions. */
  datatype Mark = Byte(b: byte) | Conversion(letter: byte)

  predicate Writable(m: Mark) {
    match m
    case Byte(b) => b != 0 && b != 32
    case Conversion(letter) => letter == 115 || letter == 98
  }

  /** A nonempty word. */
  predicate IsWord(w: seq<Mark>) {
    w != [] && forall i :: 0 <= i < |w| ==> Writable(w[i])
  }

  ghost predicate AreWords(ws: seq<seq<Mark>>) {
    forall i :: 0 <= i < |ws| ==> IsWord(ws[i])
  }

  /** How a mark is written: `%s` or `%b`, `%%`, or the byte itself. */
  function MarkText(m: Mark): bytes {
    match m
    case Conversion(letter) => [37, letter]
    case Byte(b) => if b == 37 then [37, 37] else [b]
  }

  function WordText(w: seq<Mark>): bytes {
    if w == [] then [] else MarkText(w[0]) + WordText(w[1..])
  }

  function Blanks(n: nat): (s: bytes)
    ensures |s| == n
  {
    if n == 0 then [] else [32] + Blanks(n - 1)
  }

  /** Words with blanks behind each of them, at least one between two words. */
  function WordsText(ws: seq<seq<Mark>>, gaps: seq<nat>): bytes
    requires |gaps| == |ws|
  {
    if ws == [] then [] else WordText(ws[0]) + Blanks(gaps[0]) + WordsText(ws[1..], gaps[1..])
  }

  ghost predicate Apart(gaps: seq<nat>) {
    forall i :: 0 <= i < |gaps| - 1 ==> gaps[i] > 0
  }

  function Conversions(w: seq<Mark>): nat {
    if w == [] then 0 else (if w[0].Conversion? then 1 else 0) + Conversions(w[1..])
  }

  function AllConversions(ws: seq<seq<Mark>>): nat {
    if ws == [] then 0 else Conversions(ws[0]) + AllConversions(ws[1..])
  }

  /** A word with each conversion replaced by the next argument. */
  function Substituted(w: seq<Mark>, args: seq<bytes>): bytes
    requires Conversions(w) <= |args|
  {
    if w == [] then []
    else if w[0].Byte? then [w[0].b] + Substituted(w[1..], args)
    else args[0] + Substituted(w[1..], args[1..])
  }

  /** The words in order, each taking its arguments behind those of the words before. */
  function AllSubstituted(ws: seq<seq<Mark>>, args: seq<bytes>): (r: seq<bytes>)
    requires AllConversions(ws) <= |args|
    ensures |r| == |ws|
  {
    if ws == [] then [] else [Substituted(ws[0], args)] + AllSubstituted(ws[1..], args[Conversions(ws[0])..])
  }

  function PieceOf(m: Mark): Piece {
    if m.Byte? then Lit(m.b) else Hole
  }

  function PiecesOf(w: seq<Mark>): (ps: seq<Piece>)
    ensures |ps| == |w|
  {
    seq(|w|, i requires 0 <= i < |w| => PieceOf(w[i]))
  }

  lemma PiecesOfFront(w: seq<Mark>)
    requires w != []
    ensures PiecesOf(w)[0] == PieceOf(w[0]) && PiecesOf(w)[1..] == PiecesOf(w[1..])
  {
  }

  /** A mark in front of anything is read as its piece. */
  lemma ReadMark(m: Mark, rest: bytes)
    requires Writable(m)
    ensures MarkText(m) != [] && FirstPiece(MarkText(m) + rest) == (PieceOf(m), |MarkText(m)|)
    ensures (MarkText(m) + rest)[|MarkText(m)|..] == rest && (MarkText(m) + rest)[0] != 0
  {
    var f := MarkText(m) + rest;
    assert f[..|MarkText(m)|] == MarkText(m);
    if m.Conversion? || m.b == 37 { assert f[0] == 37 && f[1] == MarkText(m)[1]; }
  }

  lemma OnePiece(f: bytes, rest: bytes, p: Piece, k: nat)
    requires f != [] && f[0] != 0 && 0 < k <= |f| && f[k..] == rest && FirstPiece(f) == (p, k) && Supported(rest)
    ensures Supported(f) && Pieces(f) == [p] + Pieces(rest)
  {
    hide FirstPiece;
  }

  lemma {:induction false} ReadWord(w: seq<Mark>, rest: bytes)
    requires (forall i :: 0 <= i < |w| ==> Writable(w[i])) && Supported(rest)
    ensures Supported(WordText(w) + rest) && Pieces(WordText(w) + rest) == PiecesOf(w) + Pieces(rest)
    decreases |w|
  {
    hide FirstPiece, Pieces, Supported, PiecesOf, MarkText, PieceOf, Writable;
    if w == [] {
      NoMarks();
      assert WordText(w) + rest == rest && PiecesOf(w) + Pieces(rest) == Pieces(rest);
    } else {
      var tail := WordText(w[1..]) + rest;
      assert WordText(w) + rest == MarkText(w[0]) + tail;
      ReadMark(w[0], tail);
      ReadWord(w[1..], rest);
      OnePiece(MarkText(w[0]) + tail, tail, PieceOf(w[0]), |MarkText(w[0])|);
      PiecesOfFront(w);
      assert PiecesOf(w) == [PieceOf(w[0])] + PiecesOf(w[1..]);
      assert PiecesOf(w) + Pieces(rest) == [PieceOf(w[0])] + (PiecesOf(w[1..]) + Pieces(rest));
    }
  }

  function Gaps(n: nat): (ps: seq<Piece>)
    ensures |ps| == n && forall i :: 0 <= i < n ==> ps[i] == Gap
  {
    seq(n, _ => Gap)
  }

  lemma {:induction false} ReadBlanks(n: nat, rest: bytes)
    requires Supported(rest)
    ensures Supported(Blanks(n) + rest) && Pieces(Blanks(n) + rest) == Gaps(n) + Pieces(rest)
  {
    hide Pieces, Supported;
    if n == 0 {
      assert Blanks(n) + rest == rest && Gaps(n) + Pieces(rest) == Pieces(rest);
    } else {
      var tail := Blanks(n - 1) + rest;
      assert Blanks(n) + rest == [32] + tail && ([32] + tail)[1..] == tail;
      ReadBlanks(n - 1, rest);
      OnePiece([32] + tail, tail, Gap, 1);
      assert Gaps(n) + Pieces(rest) == [Gap] + (Gaps(n - 1) + Pieces(rest));
    }
  }

  lemma {:induction false} WordsBehindGaps(n: nat, ps: seq<Piece>)
    ensures Words(Gaps(n) + ps) == Words(ps)
  {
    if n == 0 {
      assert Gaps(n) + ps == ps;
    } else {
      assert (Gaps(n) + ps)[1..] == Gaps(n - 1) + ps;
      WordsBehindGaps(n - 1, ps);
    }
  }

  /** A run of pieces without a separator, up to one or the end. */
  lemma {:induction false} WordLenIs(w: seq<Piece>, ps: seq<Piece>)
    requires (forall i :: 0 <= i < |w| ==> !w[i].Gap?) && (ps == [] || ps[0].Gap?)
    ensures WordLen(w + ps) == |w|
  {
    if w == [] {
      assert w + ps == ps;
    } else {
      assert (w + ps)[1..] == w[1..] + ps;
      WordLenIs(w[1..], ps);
    }
  }

  lemma OneWord(w: seq<Mark>, ps: seq<Piece>)
    requires w != [] && (ps == [] || ps[0].Gap?)
    ensures Words(PiecesOf(w) + ps) == [PiecesOf(w)] + Words(ps)
  {
    hide WordLen;
    var all := PiecesOf(w) + ps;
    WordLenIs(PiecesOf(w), ps);
    assert all[..|w|] == PiecesOf(w) && all[|w|..] == ps;
  }

  function PieceLists(ws: seq<seq<Mark>>): (r: seq<seq<Piece>>)
    ensures |r| == |ws|
  {
    seq(|ws|, i requires 0 <= i < |ws| => PiecesOf(ws[i]))
  }

  /** The words of a written format are the words that were written. */
  lemma {:induction false} ReadWords(ws: seq<seq<Mark>>, gaps: seq<nat>)
    requires AreWords(ws) && |gaps| == |ws| && Apart(gaps)
    ensures Supported(WordsText(ws, gaps)) && Words(Pieces(WordsText(ws, gaps))) == PieceLists(ws)
    ensures |ws| > 0 ==> WordsText(ws, gaps) != []
  {
    hide Pieces, Supported, Words, PiecesOf, WordText;
    if ws == [] {
      NoPieces();
    } else {
      var w, rest := ws[0], WordsText(ws[1..], gaps[1..]);
      assert IsWord(w) && AreWords(ws[1..]) && Apart(gaps[1..]);
      ReadWords(ws[1..], gaps[1..]);
      ReadBlanks(gaps[0], rest);
      ReadWord(w, Blanks(gaps[0]) + rest);
      assert WordsText(ws, gaps) == WordText(w) + (Blanks(gaps[0]) + rest);
      var ps := Gaps(gaps[0]) + Pieces(rest);
      if gaps[0] == 0 { assert |ws| == 1; NoPieces(); }
      OneWord(w, ps);
      WordsBehindGaps(gaps[0], Pieces(rest));
      assert PieceLists(ws) == [PiecesOf(w)] + PieceLists(ws[1..]);
      WordTextSize(w);
    }
  }

  lemma NoPieces()
    ensures Supported([]) && Pieces([]) == [] && Words([]) == []
  {
  }

  lemma WordTextSize(w: seq<Mark>)
    requires w != []
    ensures WordText(w) != []
  {
  }

  lemma {:induction false} FillIs(w: seq<Mark>, args: seq<bytes>)
    ensures Holes(PiecesOf(w)) == Conversions(w)
    ensures Conversions(w) <= |args| ==> Fill(PiecesOf(w), args) == Substituted(w, args)
    decreases |w|
  {
    hide PiecesOf;
    if w != [] {
      PiecesOfFront(w);
      FillIs(w[1..], if w[0].Conversion? && args != [] then args[1..] else args);
    } else {
      NoMarks();
    }
  }

  lemma NoMarks()
    ensures PiecesOf([]) == []
  {
  }

  lemma {:induction false} FillAllIs(ws: seq<seq<Mark>>, args: seq<bytes>)
    requires AllConversions(ws) <= |args|
    ensures HolesOf(PieceLists(ws)) == AllConversions(ws)
    ensures FillAll(PieceLists(ws), args) == AllSubstituted(ws, args)
    decreases |ws|
  {
    hide PiecesOf, Fill, Substituted, Holes, Conversions;
    if ws != [] {
      FillIs(ws[0], args);
      assert PieceLists(ws)[0] == PiecesOf(ws[0]) && PieceLists(ws)[1..] == PieceLists(ws[1..]);
      FillAllIs(ws[1..], args[Conversions(ws[0])..]);
    }
  }

  /** A percent sign at the very end stands for itself. */
  lemma LastPercent()
    ensures Supported([37]) && Pieces([37]) == [Lit(37)]
  {
    NoPieces();
    OnePiece([37], [], Lit(37), 1);
  }

  /** The format of any words, with blanks in front, between and behind: the command
      has one argument for each word, the word with each conversion replaced by its
      argument, in order. */
  method FormatWords(lead: nat, ws: seq<seq<Mark>>, gaps: seq<nat>, args: seq<bytes>)
    returns (f: Formatting, cmd: array<byte>, totlen: cint)
    requires AreWords(ws) && |gaps| == |ws| && Apart(gaps) && AllConversions(ws) <= |args|
    ensures var argv := AllSubstituted(ws, args);
      && (f == Whole <==> |Cmd(argv)| < INT_MAX)
      && (f == Whole ==> totlen == |Cmd(argv)| && cmd.Length == totlen + 1)
      && (f == Whole ==> cmd[..totlen] == Cmd(argv) && cmd[totlen] == 0)
  {
    hide Pieces, Supported, Words, PieceLists, WordsText, AllSubstituted, FillAll, Cmd, HolesOf, Holes;
    var text := WordsText(ws, gaps);
    var fmt := Blanks(lead) + text;
    ReadWords(ws, gaps);
    ReadBlanks(lead, text);
    WordsBehindGaps(lead, Pieces(text));
    FillAllIs(ws, args);
    HolesOfWords(Pieces(fmt));
    f, cmd, totlen := VFormatCommand(fmt, args);
  }
}
