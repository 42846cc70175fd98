/**
 What remains to be parsed when a reply has been read half-way: a stack of
 open arrays, each with the children finished so far. Resuming from such a
 stack and the unread bytes gives the same outcome as the recursive parser.
 */
module RespResume {
  import opened Bytes
  import opened Resp

  /** An open array: the announced count and the finished children. */
  datatype Frame = Frame(n: int, kids: seq<Reply>)

  ghost predicate OpenFrame(f: Frame) {
    |f.kids| < f.n
  }

  ghost predicate OpenFrames(fs: seq<Frame>) {
    |fs| <= MAX_DEPTH && forall i :: 0 <= i < |fs| ==> OpenFrame(fs[i])
  }

  /** The item `r` is finished: close the arrays it completes, then go on. */
  ghost function Unwind(fs: seq<Frame>, r: Reply, u: bytes): (o: Outcome)
    requires OpenFrames(fs)
    ensures o.More? || |o.rest| <= |u|
    decreases |u|, |fs|, 1
  {
    if fs == [] then Done(r, u)
    else
      var f := fs[|fs| - 1];
      var kids := f.kids + [r];
      if |kids| == f.n then Unwind(fs[..|fs| - 1], Array(f.n, kids), u)
      else Resume(fs[..|fs| - 1] + [Frame(f.n, kids)], u)
  }

  /** The next item inside the open arrays `fs` starts at `u`. */
  ghost function Resume(fs: seq<Frame>, u: bytes): (o: Outcome)
    requires OpenFrames(fs)
    ensures o.More? || |o.rest| <= |u|
    decreases |u|, |fs|, 0
  {
    match ParseItem(u, |fs|)
    case Done(r, rest) => Unwind(fs, r, rest)
    case More => More
    case Bad(e, rest) => Bad(e, rest)
  }

  /** The type byte of the current item was read: its body starts at `u`. */
  ghost function ResumeBody(ty: byte, fs: seq<Frame>, u: bytes): Outcome
    requires OpenFrames(fs) && IsTypeByte(ty)
  {
    match ParseBody(ty, u, |fs|)
    case Done(r, rest) => Unwind(fs, r, rest)
    case More => More
    case Bad(e, rest) => Bad(e, rest)
  }

  /** A frame on top of the stack stands for the rest of a list of items. */
  lemma {:induction false} ResumeList(fs: seq<Frame>, n: int, kids: seq<Reply>, u: bytes)
    requires OpenFrames(fs) && |fs| < MAX_DEPTH && |kids| < n
    ensures Resume(fs + [Frame(n, kids)], u) ==
            match ParseList(u, |fs| + 1, n - |kids|)
            case ListDone(rs, rest) => Unwind(fs, Array(n, kids + rs), rest)
            case ListMore => More
            case ListBad(e, rest) => Bad(e, rest)
    decreases n - |kids|
  {
    var gs := fs + [Frame(n, kids)];
    match ParseItem(u, |fs| + 1) {
      case More =>
      case Bad(_, _) =>
      case Done(r, rest) =>
        assert gs[..|fs|] == fs;
        if |kids| + 1 < n {
          ResumeList(fs, n, kids + [r], rest);
          var more := ParseList(rest, |fs| + 1, n - |kids| - 1);
          assert more.ListDone? ==> kids + [r] + more.replies == kids + ([r] + more.replies);
        } else {
          assert [r] + [] == [r];
        }
    }
  }

  /** Opening an array on the stack is parsing it. */
  lemma ResumeArray(fs: seq<Frame>, n: int, u: bytes)
    requires OpenFrames(fs) && |fs| < MAX_DEPTH && n > 0
    ensures Resume(fs + [Frame(n, [])], u) ==
            match ParseList(u, |fs| + 1, n)
            case ListDone(rs, rest) => Unwind(fs, Array(n, rs), rest)
            case ListMore => More
            case ListBad(e, rest) => Bad(e, rest)
  {
    ResumeList(fs, n, [], u);
    var o := ParseList(u, |fs| + 1, n);
    assert o.ListDone? ==> [] + o.replies == o.replies;
  }
}
