/**
 What a prefix of a stream decides: bytes that arrive later never change the
 meaning of those at hand, and a reply that is not there yet needs some of them.
 */
module RespPrefix {
  import opened Bytes
  import opened Resp
  import opened RespResume

  /** How the outcome on some bytes relates to the outcome when `f` follows them. */
  ghost predicate Extends(o: Outcome, after: Outcome, f: bytes) {
    match o
    case Done(r, rest) => after == Done(r, rest + f)
    case Bad(e, rest) => after == Bad(e, rest + f)
    case More => after.More? || |after.rest| < |f|
  }

  ghost predicate ListExtends(o: ListOutcome, after: ListOutcome, f: bytes) {
    match o
    case ListDone(rs, rest) => after == ListDone(rs, rest + f)
    case ListBad(e, rest) => after == ListBad(e, rest + f)
    case ListMore => after.ListMore? || |after.rest| < |f|
  }

  lemma {:induction false} ItemExtend(u: bytes, f: bytes, depth: nat)
    ensures Extends(ParseItem(u, depth), ParseItem(u + f, depth), f)
    decreases |u|, 0, 0
  {
    hide ParseBody;
    if u == [] {
      assert u + f == f;
    } else {
      assert (u + f)[1..] == u[1..] + f;
      if IsTypeByte(u[0]) { BodyExtend(u[0], u[1..], f, depth); }
    }
  }

  lemma {:induction false} BodyExtend(ty: byte, u: bytes, f: bytes, depth: nat)
    requires IsTypeByte(ty)
    ensures Extends(ParseBody(ty, u, depth), ParseBody(ty, u + f, depth), f)
    decreases |u|, 1, 0
  {
    hide FindCrLf, ParseBody, Extends;
    if FindCrLf(u) < 0 {
      BodyCut(ty, u, f, depth);
    } else if ty != STAR {
      ScalarExtend(ty, u, f, depth);
    } else {
      var k := FindCrLf(u);
      assert u[..k + 1][k] == CR;
      var n := LongLong(u[..k + 1]);
      if n > 0 && CountKept(n) { ListExtend(u[k + 2..], f, depth + 1, CTypes.AsInt(n)); }
      ArrayExtend(u, f, depth);
    }
  }

  lemma ScalarExtend(ty: byte, u: bytes, f: bytes, depth: nat)
    requires IsTypeByte(ty) && ty != STAR && FindCrLf(u) >= 0
    ensures Extends(ParseBody(ty, u, depth), ParseBody(ty, u + f, depth), f)
  {
    hide FindCrLf, LongLong;
    LineExtend(u, f);
    var k := FindCrLf(u);
    assert u[..k + 1][k] == CR;
    var n := LongLong(u[..k + 1]);
    if ty == DOLLAR && n >= 0 && k + 2 + n + 2 <= |u| { BulkExtend(u, f, k + 2, n); }
  }

  lemma ArrayExtend(u: bytes, f: bytes, depth: nat)
    requires FindCrLf(u) >= 0
    requires var k := FindCrLf(u);
      CR in u[..k + 1] && var n := LongLong(u[..k + 1]);
      n > 0 && CountKept(n) ==>
        ListExtends(ParseList(u[k + 2..], depth + 1, CTypes.AsInt(n)), ParseList(u[k + 2..] + f, depth + 1, CTypes.AsInt(n)), f)
    ensures Extends(ParseBody(STAR, u, depth), ParseBody(STAR, u + f, depth), f)
  {
    hide FindCrLf, LongLong, ParseList, CTypes.AsInt;
    LineExtend(u, f);
  }

  /** A body without a line end. */
  lemma BodyCut(ty: byte, u: bytes, f: bytes, depth: nat)
    requires IsTypeByte(ty) && FindCrLf(u) < 0
    ensures Extends(ParseBody(ty, u, depth), ParseBody(ty, u + f, depth), f)
  {
    hide FindCrLf, LongLong, ParseList, CTypes.AsInt;
    LineCut(u, f);
  }

  lemma {:induction false} ListExtend(u: bytes, f: bytes, depth: nat, n: nat)
    ensures ListExtends(ParseList(u, depth, n), ParseList(u + f, depth, n), f)
    decreases |u|, 2, n
  {
    hide ParseItem;
    if n > 0 {
      ItemExtend(u, f, depth);
      var o := ParseItem(u, depth);
      if o.Done? { ListExtend(o.rest, f, depth, n - 1); }
    }
  }

  /** A line that is not complete in `u` ends behind it. */
  lemma LineCut(u: bytes, f: bytes)
    requires FindCrLf(u) < 0
    ensures var k := FindCrLf(u + f); k < 0 || k + 2 > |u|
  {
    var k := FindCrLf(u + f);
    assert k >= 0 && k + 2 <= |u| ==> CrLfAt(u, k);
  }

  lemma BulkExtend(u: bytes, t: bytes, at: nat, n: nat)
    requires at + n + 2 <= |u|
    ensures (u + t)[at..at + n] == u[at..at + n]
    ensures (u + t)[at + n + 2..] == u[at + n + 2..] + t
  {
  }

  /** A line found in the unread bytes stays the same line as more arrive. */
  lemma LineExtend(u: bytes, t: bytes)
    requires FindCrLf(u) >= 0
    ensures var k := FindCrLf(u);
      && FindCrLf(u + t) == k
      && (u + t)[..k] == u[..k] && (u + t)[..k + 1] == u[..k + 1]
      && (u + t)[k + 2..] == u[k + 2..] + t
  {
    FindCrLfExtend(u, t);
  }

  /** The same for a reply that has been read half-way. */
  lemma {:induction false} ResumeExtend(fs: seq<Frame>, u: bytes, f: bytes)
    requires OpenFrames(fs)
    ensures Extends(Resume(fs, u), Resume(fs, u + f), f)
    decreases |u|, |fs|, 0
  {
    hide ParseItem, Unwind;
    ItemExtend(u, f, |fs|);
    var o := ParseItem(u, |fs|);
    if o.Done? { UnwindExtend(fs, o.reply, o.rest, f); }
  }

  lemma {:induction false} UnwindExtend(fs: seq<Frame>, r: Reply, u: bytes, f: bytes)
    requires OpenFrames(fs)
    ensures Extends(Unwind(fs, r, u), Unwind(fs, r, u + f), f)
    decreases |u|, |fs|, 1
  {
    hide Resume;
    if fs != [] {
      var top := fs[|fs| - 1];
      var kids := top.kids + [r];
      if |kids| == top.n {
        UnwindExtend(fs[..|fs| - 1], Array(top.n, kids), u, f);
      } else {
        ResumeExtend(fs[..|fs| - 1] + [Frame(top.n, kids)], u, f);
      }
    }
  }

  lemma ResumeBodyExtend(ty: byte, fs: seq<Frame>, u: bytes, f: bytes)
    requires OpenFrames(fs) && IsTypeByte(ty)
    ensures Extends(ResumeBody(ty, fs, u), ResumeBody(ty, fs, u + f), f)
  {
    hide ParseBody, Unwind;
    BodyExtend(ty, u, f, |fs|);
    var o := ParseBody(ty, u, |fs|);
    if o.Done? { UnwindExtend(fs, o.reply, o.rest, f); }
  }

  /** What follows the first `n` replies of a stream. */
  ghost function After(u: bytes, n: nat): bytes
    requires n <= |ParseStream(u).replies|
    decreases n
  {
    if n == 0 then u else After(ParseItem(u, 0).rest, n - 1)
  }

  /** The next reply of a stream is the item at the front of what follows the
      replies before it. */
  lemma {:induction false} AfterNext(u: bytes, n: nat)
    requires n <= |ParseStream(u).replies|
    ensures var o := ParseItem(After(u, n), 0);
      if o.Done? then
        n < |ParseStream(u).replies| && ParseStream(u).replies[n] == o.reply && After(u, n + 1) == o.rest
      else
        n == |ParseStream(u).replies| && ParseStream(u).ending == (if o.More? then Waiting else Failed(o.error))
    decreases n
  {
    hide ParseItem;
    if n > 0 { AfterNext(ParseItem(u, 0).rest, n - 1); }
  }

  /** The first `n` replies of a stream end before its last |f| bytes, and the next
      one is refused before these or needs some of them: then the bytes before
      these are parsed to exactly the `n` replies. */
  lemma {:induction false} PrefixParsed(p: bytes, f: bytes, n: nat)
    requires n <= |ParseStream(p + f).replies| && |After(p + f, n)| >= |f|
    requires var o := ParseItem(After(p + f, n), 0); o.Done? ==> |o.rest| < |f|
    ensures n == |ParseStream(p).replies| && ParseStream(p).replies == ParseStream(p + f).replies[..n]
    ensures After(p, n) + f == After(p + f, n)
    ensures var o := ParseItem(After(p + f, n), 0);
      ParseStream(p).ending == if o.Bad? && |o.rest| >= |f| then Failed(o.error) else Waiting
    decreases n
  {
    hide ParseItem;
    ItemExtend(p, f, 0);
    if n > 0 {
      AfterShrinks(ParseItem(p + f, 0).rest, n - 1);
      PrefixParsed(ParseItem(p, 0).rest, f, n - 1);
    }
  }

  lemma {:induction false} AfterShrinks(u: bytes, n: nat)
    requires n <= |ParseStream(u).replies|
    ensures |After(u, n)| <= |u|
    decreases n
  {
    hide ParseItem;
    if n > 0 { AfterShrinks(ParseItem(u, 0).rest, n - 1); }
  }

  /** `a` is the end of `b`. */
  ghost predicate IsTail(a: bytes, b: bytes) {
    |a| <= |b| && b[|b| - |a|..] == a
  }
}
