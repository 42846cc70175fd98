/**
 nextArgument of async.c: walking over the arguments of a formatted command
 with C string functions, although arguments may contain any byte.
 */
module Arguments {
  import opened Bytes
  import opened CTypes
  import opened Resp
  import opened Decimal
  import opened Command

  datatype Found = NoArgument | Argument(str: nat, len: nat, next: nat)

  /** strchr: the first `c` at or after `p`, before the terminator; -1 if none. */
  method StrChr(s: bytes, p: nat, c: byte) returns (q: int)
    requires c != NUL && p <= |s| && NUL in s[p..]
    ensures q >= 0 ==> p <= q < |s| && s[q] == c && forall i :: p <= i < q ==> s[i] != c && s[i] != NUL
    ensures q < 0 ==> exists z :: p <= z < |s| && s[z] == NUL && forall i :: p <= i < z ==> s[i] != c
  {
    q := p;
    while s[q] != c
      invariant p <= q < |s| && NUL in s[q..]
      invariant forall i :: p <= i < q ==> s[i] != c && s[i] != NUL
      decreases |s| - q
    {
      if s[q] == NUL { return -1; }
      q := q + 1;
    }
  }

  /** strtol on digits that end in CR. */
  method Strtol(s: bytes, p: nat) returns (v: int)
    requires p < |s| && CR in s[p..] && DigitsToCr(s[p..], 0).Digits?
    ensures v == DigitsToCr(s[p..], 0).value
  {
    var i := p;
    v := 0;
    while '0' as int <= s[i] <= '9' as int
      invariant p <= i < |s| && CR in s[i..]
      invariant DigitsToCr(s[i..], v) == DigitsToCr(s[p..], 0)
      decreases |s| - i
    {
      assert s[i..][1..] == s[i + 1..];
      v := v * 10 + (s[i] - '0' as int);
      i := i + 1;
    }
  }

  /** From `start` on the text is the arguments `rest` and a terminator, or a
      whole command with those arguments. */
  ghost predicate Ahead(s: bytes, start: nat, rest: seq<bytes>) {
    start <= |s| && (s[start..] == Bulks(rest) + [NUL] || s[start..] == Cmd(rest) + [NUL])
  }

  /** The dollar sign of the next argument is the first one, wherever the scan
      starts; after the last argument there is none. */
  lemma DollarAhead(s: bytes, start: nat, rest: seq<bytes>) returns (d: nat)
    requires Ahead(s, start, rest)
    ensures start <= d < |s| && s[d..] == Bulks(rest) + [NUL]
    ensures forall i :: start <= i < d ==> s[i] != DOLLAR && s[i] != NUL
    ensures rest == [] ==> s[d] == NUL
    ensures rest != [] ==> s[d] == DOLLAR
  {
    hide Dec;
    if s[start..] == Bulks(rest) + [NUL] {
      d := start;
    } else {
      var head := [STAR] + Dec(|rest|) + CRLF;
      d := start + |head|;
      assert s[start..] == head + (Bulks(rest) + [NUL]);
      assert s[d..] == s[start..][|head|..];
      forall i | start <= i < d
        ensures s[i] != DOLLAR && s[i] != NUL
      {
        assert s[i] == s[start..][i - start] == head[i - start];
      }
    }
    assert s[d] == s[d..][0];
  }

  /** The next argument's position and length, and where to continue. */
  method NextArgument(s: bytes, start: nat, ghost rest: seq<bytes>) returns (r: Found)
    requires Ahead(s, start, rest)
    requires forall i :: 0 <= i < |rest| ==> |rest[i]| <= INT_MAX
    ensures rest == [] <==> r.NoArgument?
    ensures rest != [] ==> r.str + r.len <= |s| && s[r.str..r.str + r.len] == rest[0]
    ensures rest != [] ==> r.next <= |s| && s[r.next..] == Bulks(rest[1..]) + [NUL]
  {
    hide Dec, Cmd, Bulks;
    ghost var d := DollarAhead(s, start, rest);
    EndsInNul(s, start, d, Bulks(rest));
    var p: int := start;
    if s[p] != DOLLAR {
      p := StrChr(s, p, DOLLAR);
      if p < 0 { return NoArgument; }
    }
    assert p == d;
    r := TakeArgument(s, p, rest);
  }

  /** The argument whose dollar sign is at `p`. */
  method TakeArgument(s: bytes, p: nat, ghost rest: seq<bytes>) returns (r: Found)
    requires rest != [] && |rest[0]| <= INT_MAX
    requires p < |s| && s[p..] == Bulks(rest) + [NUL]
    ensures r.Argument? && r.str + r.len <= |s| && s[r.str..r.str + r.len] == rest[0]
    ensures r.next <= |s| && s[r.next..] == Bulks(rest[1..]) + [NUL]
  {
    hide Bulks, DigitsToCr;
    ghost var line := ArgumentAt(s, p, rest);
    var v := Strtol(s, p + 1);
    var len := AsInt(v);
    var q := StrChr(s, p, CR);
    LineEnd(s, p, line, q);
    return Argument(q + 2, len, q + 2 + len + 2);
  }

  /** Everything the scanner looks at behind a dollar sign: `line` is where the
      length line ends. */
  lemma ArgumentAt(s: bytes, p: nat, rest: seq<bytes>) returns (line: nat)
    requires rest != [] && p < |s| && s[p..] == Bulks(rest) + [NUL]
    ensures CR in s[p + 1..] && DigitsToCr(s[p + 1..], 0) == Digits(|rest[0]|) && NUL in s[p..]
    ensures p <= line < |s| && s[line] == CR && forall i :: p <= i < line ==> s[i] != CR && s[i] != NUL
    ensures var at := line + 2; var next := at + |rest[0]| + 2;
            next <= |s| && s[at..at + |rest[0]|] == rest[0] && s[next..] == Bulks(rest[1..]) + [NUL]
  {
    hide Dec, Bulks, DigitsToCr;
    line := p + 1 + |Dec(|rest[0]|)|;
    ArgumentLayout(s, p, rest);
    LengthAt(s, p, rest);
    Pieces(s, p, Dec(|rest[0]|), rest[0], Bulks(rest[1..]) + [NUL]);
    EndsInNul(s, p, p, Bulks(rest));
  }

  /** A search for CR that ends at the first CR or before a terminator. */
  lemma LineEnd(s: bytes, p: nat, line: nat, q: int)
    requires p <= line < |s| && s[line] == CR && forall i :: p <= i < line ==> s[i] != CR && s[i] != NUL
    requires q >= 0 ==> p <= q < |s| && s[q] == CR && forall i :: p <= i < q ==> s[i] != CR
    requires q < 0 ==> exists z :: p <= z < |s| && s[z] == NUL && forall i :: p <= i < z ==> s[i] != CR
    ensures q == line
  {
  }

  /** The digits behind the dollar sign spell the argument's length. */
  lemma LengthAt(s: bytes, p: nat, rest: seq<bytes>)
    requires rest != [] && p < |s| && s[p..] == Bulks(rest) + [NUL]
    ensures CR in s[p + 1..] && DigitsToCr(s[p + 1..], 0) == Digits(|rest[0]|)
  {
    hide Dec, Bulks, DigitsToCr;
    var a, more := rest[0], Bulks(rest[1..]) + [NUL];
    ArgumentLayout(s, p, rest);
    Pieces(s, p, Dec(|a|), a, more);
    LengthDigits(|a|, a + CRLF + more);
  }

  lemma LengthDigits(n: nat, more: bytes)
    ensures CR in Dec(n) + (CRLF + more) && DigitsToCr(Dec(n) + (CRLF + more), 0) == Digits(n)
  {
    hide Dec;
    assert (CRLF + more)[0] == CR;
    ReadDec(n, CRLF + more);
  }

  lemma EndsInNul(s: bytes, start: nat, d: nat, t: bytes)
    requires start <= d <= |s| && s[d..] == t + [NUL]
    ensures d < |s| && NUL in s[start..]
  {
    assert s[|s| - 1] == s[d..][|t|] == NUL;
    assert s[start..][|s| - 1 - start] == NUL;
  }

  /** Where the pieces of an argument at `d` lie, in any text. */
  lemma Pieces(s: bytes, d: nat, n: bytes, a: bytes, more: bytes)
    requires d <= |s| && s[d..] == [DOLLAR] + n + CRLF + a + CRLF + more
    ensures var q := d + 1 + |n|;
      && q + 2 + |a| + 2 <= |s| && s[q] == CR
      && s[d + 1..] == n + (CRLF + (a + CRLF + more))
      && s[q + 2..q + 2 + |a|] == a
      && s[q + 2 + |a| + 2..] == more
  {
    var t := s[d..];
    assert t[1..] == n + (CRLF + (a + CRLF + more));
    var q := d + 1 + |n|;
    assert s[q] == t[1 + |n|] == CR;
    assert s[q + 2..] == t[1 + |n| + 2..] == a + CRLF + more;
    assert s[q + 2..q + 2 + |a|] == s[q + 2..][..|a|] == a;
    assert s[q + 2 + |a| + 2..] == s[q + 2..][|a| + 2..] == more;
  }

  /** The argument at `d`: its length digits, and no CR or NUL before their end. */
  lemma ArgumentLayout(s: bytes, d: nat, rest: seq<bytes>)
    requires rest != [] && d < |s| && s[d..] == Bulks(rest) + [NUL]
    ensures var n, more := Dec(|rest[0]|), Bulks(rest[1..]) + [NUL];
      && s[d..] == [DOLLAR] + n + CRLF + rest[0] + CRLF + more
      && forall i :: d <= i < d + 1 + |n| ==> s[i] != CR && s[i] != NUL
  {
    hide Dec;
    var n := Dec(|rest[0]|);
    assert s[d..] == [DOLLAR] + n + CRLF + rest[0] + CRLF + (Bulks(rest[1..]) + [NUL]);
    forall i | d <= i < d + 1 + |n|
      ensures s[i] != CR && s[i] != NUL
    {
      assert s[i] == s[d..][i - d];
      assert i > d ==> s[d..][i - d] == n[i - d - 1];
    }
  }

  /** Format a command and walk over it: its arguments come back in order, if the
      formatter made the command at all. */
  method AllArguments(args: seq<bytes>) returns (made: bool, out: seq<bytes>)
    requires |args| <= INT_MAX
    ensures made <==> |Cmd(args)| < INT_MAX
    ensures made ==> out == args
  {
    hide Cmd, Bulks;
    var f, cmd, totlen := FormatCommandArgv(args);
    FormattedIff(|Cmd(args)|);
    if f != Whole { return false, []; }
    assert cmd[..] == Cmd(args) + [NUL];
    out := Walk(cmd[..], args);
    return true, out;
  }

  /** Walk over the command of `args`. */
  method Walk(s: bytes, ghost args: seq<bytes>) returns (out: seq<bytes>)
    requires s == Cmd(args) + [NUL] && |Cmd(args)| < INT_MAX
    ensures out == args
  {
    hide Bulks;
    assert forall i :: 0 <= i < |args| ==> |args[i]| <= INT_MAX by {
      forall i | 0 <= i < |args|
        ensures |args[i]| <= INT_MAX
      {
        ArgumentInside(args, i);
      }
    }
    hide Cmd;
    assert s[0..] == s;
    out := [];
    var found := NextArgument(s, 0, args);
    while found.Argument?
      invariant |out| <= |args| && out == args[..|out|]
      invariant |out| == |args| <==> found.NoArgument?
      invariant found.Argument? ==>
        && found.str + found.len <= |s| && s[found.str..found.str + found.len] == args[|out|]
        && found.next <= |s| && s[found.next..] == Bulks(args[|out| + 1..]) + [NUL]
      decreases |args| - |out|
    {
      ghost var k := |out|;
      out := out + [s[found.str..found.str + found.len]];
      assert out == args[..k + 1];
      found := NextArgument(s, found.next, args[k + 1..]);
      assert k + 1 < |args| ==> args[k + 1..][1..] == args[k + 2..];
    }
  }
}
