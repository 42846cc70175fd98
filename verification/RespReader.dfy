/**
 The resumable reply reader of read.c: a growing, compacted buffer, nine task
 slots and reply objects filled in as bytes arrive. Methods that interpret
 bytes take a ghost parameter, the bytes still to come, and are proved to take
 the same decision the recursive parser takes on the whole stream.
 */
module RespReader {
  import opened Bytes
  import opened CTypes
  import opened Wrappers
  import opened Sds
  import opened Resp
  import Decimal
  import opened RespResume
  import opened RespPrefix
  import opened ReplyHeap
  import opened TaskStack

  const READER_MAX_BUF: nat := 1024 * 16
  const COMPACT_AT: nat := 1024

  /** The bytes the search for a line end looks at: the last position is an int. */
  function Seen(s: bytes): (v: bytes)
    ensures |s| <= INT_MAX + 1 ==> v == s
    ensures |s| > INT_MAX + 1 ==> |v| < |s|
  {
    if s == [] then []
    else
      AsIntBelow(|s| - 1);
      s[..Max(0, AsInt(|s| - 1) + 1)]
  }

  /** Position of the first CR LF among the bytes looked at, or -1. */
  method SeekNewline(s: bytes) returns (k: int)
    ensures k == FindCrLf(Seen(s))
  {
    hide AsInt;
    ghost var v := Seen(s);
    var pos := 0;
    var last: int := AsInt(|s| - 1);
    assert v == s[..Max(0, last + 1)];
    while pos < last
      invariant 0 <= pos && (pos <= last || pos == 0)
      invariant forall i :: CrLfAt(v, i) ==> pos <= i
    {
      while pos < last && s[pos] != CR
        invariant 0 <= pos <= last
        invariant forall i :: CrLfAt(v, i) ==> pos <= i
      {
        pos := pos + 1;
      }
      if pos == last {
        return -1;
      } else if s[pos + 1] == LF {
        assert CrLfAt(v, pos);
        return pos;
      } else {
        pos := pos + 1;
      }
    }
    return -1;
  }

  /** The search is right about every buffer of a length exactly up to 2^31. */
  lemma SeekIff(n: nat)
    ensures (forall s: bytes :: |s| == n ==> FindCrLf(Seen(s)) == FindCrLf(s)) <==> n <= INT_MAX + 1
  {
    if n > INT_MAX + 1 {
      var s := Zeros(n - 2) + [CR, LF];
      assert CrLfAt(s, n - 2);
      assert forall i :: 0 <= i < |Seen(s)| ==> Seen(s)[i] != LF;
      assert FindCrLf(Seen(s)) == -1 && FindCrLf(s) >= 0;
    }
  }

  /** The reply a line item in `s` makes and the bytes it takes, if the line
      is complete. */
  method ScanLine(kind: Kind, s: bytes, ghost future: bytes, ghost depth: nat) returns (r: Option<Reply>, c: nat)
    requires kind in {OfError, OfStatus, OfInteger} && |s| <= INT_MAX
    ensures r.None? ==> ParseBody(TypeByte(kind), s, depth) == More
    ensures r.Some? ==> 0 < c <= |s|
    ensures r.Some? ==> ParseBody(TypeByte(kind), s + future, depth) == Done(r.value, s[c..] + future)
  {
    var k := SeekNewline(s);
    if k < 0 { return None, 0; }
    LineExtend(s, future);
    assert s[..k + 1][k] == CR;
    if kind == OfInteger {
      var n, _ := Decimal.ReadLongLong(s[..k + 1]);
      return Some(Integer(n)), k + 2;
    } else if kind == OfError {
      return Some(Error(s[..k])), k + 2;
    } else {
      return Some(Status(s[..k])), k + 2;
    }
  }

  /** The same for a bulk string: its length line and its whole body. */
  method ScanBulk(s: bytes, ghost future: bytes, ghost depth: nat) returns (r: Option<Reply>, c: nat)
    requires |s| <= INT_MAX
    ensures r.None? ==> ParseBody(DOLLAR, s, depth) == More
    ensures r.Some? ==> 0 < c <= |s|
    ensures r.Some? ==> ParseBody(DOLLAR, s + future, depth) == Done(r.value, s[c..] + future)
  {
    hide LongLong, FindCrLf, ParseList;
    var k := SeekNewline(s);
    if k < 0 { return None, 0; }
    LineExtend(s, future);
    assert s[..k + 1][k] == CR;
    var n, _ := Decimal.ReadLongLong(s[..k + 1]);
    if n < 0 { return Some(Nil), k + 2; }
    if k + 2 + n + 2 > |s| { return None, 0; }
    BulkExtend(s, future, k + 2, n);
    return Some(Str(s[k + 2..k + 2 + n])), k + 2 + n + 2;
  }

  /** The count of an array, if its line is complete. */
  method ScanCount(s: bytes, ghost future: bytes, ghost depth: nat) returns (n: Option<int>, c: nat)
    requires depth < MAX_DEPTH && |s| <= INT_MAX
    ensures n.None? ==> ParseBody(STAR, s, depth) == More
    ensures n.Some? ==> 0 < c <= |s|
    ensures n.Some? && n.value == -1 ==> ParseBody(STAR, s + future, depth) == Done(Nil, s[c..] + future)
    ensures n.Some? && n.value != -1 && !CountKept(n.value) ==>
      ParseBody(STAR, s + future, depth) == Bad(LostCount(n.value), s[c..] + future)
    ensures n.Some? && n.value <= 0 && n.value != -1 && CountKept(n.value) ==>
      ParseBody(STAR, s + future, depth) == Done(Array(AsInt(n.value), []), s[c..] + future)
    ensures n.Some? && n.value > 0 && CountKept(n.value) ==>
      ParseBody(STAR, s + future, depth) ==
      match ParseList(s[c..] + future, depth + 1, AsInt(n.value))
      case ListDone(rs, rest) => Done(Array(AsInt(n.value), rs), rest)
      case ListMore => More
      case ListBad(e, rest) => Bad(e, rest)
  {
    hide LongLong, FindCrLf, ParseList, AsInt;
    var k := SeekNewline(s);
    if k < 0 { return None, 0; }
    LineExtend(s, future);
    assert s[..k + 1][k] == CR;
    var v, _ := Decimal.ReadLongLong(s[..k + 1]);
    return Some(v), k + 2;
  }

  /** The outcome of a reply read up to the open arrays `fs` and the type of
      the current item, when the rest of the input is `u`. */
  ghost function RestOf(fs: seq<Frame>, kind: Kind, u: bytes): Outcome
    requires OpenFrames(fs)
  {
    if kind == Unset then Resume(fs, u) else ResumeBody(TypeByte(kind), fs, u)
  }

  /** A complete item on top is handed to the arrays around it. */
  lemma RestOfBody(fs: seq<Frame>, kind: Kind, u: bytes, r: Reply, rest: bytes)
    requires OpenFrames(fs) && kind != Unset
    requires ParseBody(TypeByte(kind), u, |fs|) == Done(r, rest)
    ensures RestOf(fs, kind, u) == Unwind(fs, r, rest)
  {
  }

  /** A nonempty array on top is one more open array. */
  lemma RestOfArray(fs: seq<Frame>, u: bytes, n: int, rest: bytes)
    requires OpenFrames(fs) && |fs| < MAX_DEPTH && n > 0
    requires ParseBody(STAR, u, |fs|) ==
             match ParseList(rest, |fs| + 1, n)
             case ListDone(rs, rest') => Done(Array(n, rs), rest')
             case ListMore => More
             case ListBad(e, rest') => Bad(e, rest')
    ensures RestOf(fs, OfArray, u) == Resume(fs + [Frame(n, [])], rest)
  {
    ResumeArray(fs, n, rest);
  }

  lemma RestOfMore(fs: seq<Frame>, kind: Kind, u: bytes)
    requires OpenFrames(fs) && kind != Unset
    requires ParseBody(TypeByte(kind), u, |fs|) == More
    ensures RestOf(fs, kind, u) == More
  {
  }

  /** An array inside eight open ones is refused before its count is read. */
  lemma RestOfTooDeep(fs: seq<Frame>, u: bytes)
    requires OpenFrames(fs) && |fs| == MAX_DEPTH
    ensures RestOf(fs, OfArray, u) == Bad(NestingTooDeep, u)
  {
  }

  lemma RestOfBad(fs: seq<Frame>, kind: Kind, u: bytes, e: ProtocolError, rest: bytes)
    requires OpenFrames(fs) && kind != Unset
    requires ParseBody(TypeByte(kind), u, |fs|) == Bad(e, rest)
    ensures RestOf(fs, kind, u) == Bad(e, rest)
  {
  }

  /** What a reply read half-way comes to is not changed by later bytes. */
  lemma RestExtend(fs: seq<Frame>, kind: Kind, u: bytes, f: bytes)
    requires OpenFrames(fs)
    ensures Extends(RestOf(fs, kind, u), RestOf(fs, kind, u + f), f)
  {
    hide Resume, ResumeBody, Extends;
    if kind == Unset {
      ResumeExtend(fs, u, f);
    } else {
      ResumeBodyExtend(TypeByte(kind), fs, u, f);
    }
  }

  lemma RestOfNothing(fs: seq<Frame>, kind: Kind)
    requires OpenFrames(fs)
    requires kind == OfArray ==> |fs| < MAX_DEPTH
    ensures RestOf(fs, kind, []) == More
  {
  }

  /** The type byte decides: it is unknown, or the rest goes on after it. */
  lemma RestOfType(fs: seq<Frame>, u: bytes)
    requires OpenFrames(fs) && u != []
    ensures !IsTypeByte(u[0]) ==> RestOf(fs, Unset, u) == Bad(BadTypeByte(u[0]), u[1..])
    ensures IsTypeByte(u[0]) ==> RestOf(fs, Unset, u) == RestOf(fs, KindOf(u[0]), u[1..])
  {
    hide ParseBody, Unwind;
  }

  lemma RestOfIdle(u: bytes)
    ensures RestOf([], Unset, u) == ParseItem(u, 0)
  {
    var o := ParseItem(u, 0);
    assert o.Done? ==> Unwind([], o.reply, o.rest) == o;
  }

  class Reader {
    var err: Option<ProtocolError>
    var buf: SdsString?
    var pos: nat
    var len: nat
    var maxbuf: nat
    const rstack: array<Task>
    var ridx: int
    var reply: int
    var heap: Heap

    ghost function BufRepr(): set<object>
      reads `buf, buf
    {
      if buf == null then {} else var b: SdsString := buf; {b, b.mem}
    }

    /** The buffer holds `len` bytes, of which `pos` were consumed. It is searched
        and cut with int positions, so its length must fit an int. */
    ghost predicate BufferOk()
      reads `err, `buf, `pos, `len, buf, BufRepr()
    {
      && (err.None? <==> buf != null)
      && (buf != null ==> buf.Valid() && len == buf.Len())
      && (buf == null ==> len == 0)
      && pos <= len <= INT_MAX
    }

    ghost function Unread(): (u: bytes)
      requires BufferOk()
      reads `err, `buf, `pos, `len, buf, BufRepr()
      ensures |u| == len - pos
    {
      if buf == null then [] else buf.mem[pos..len]
    }

    /** A reply is being read: the slots in use are well formed. */
    ghost predicate Reading()
      reads this, rstack, buf, BufRepr()
    {
      && BufferOk() && err.None?
      && rstack.Length == SLOTS
      && Stack(rstack[..], ridx, heap, NULL)
      && reply == (if ridx == 0 then NULL else rstack[0].obj)
    }

    /** The reader stopped in the middle of a reply; it never does so at an
        array inside eight open ones. */
    ghost predicate Open()
      reads this, rstack, buf, BufRepr()
    {
      Reading() && (rstack[ridx].kind == OfArray ==> ridx < MAX_DEPTH)
    }

    /** No reply is being read. */
    ghost predicate Idle()
      reads this, rstack, buf, BufRepr()
    {
      && BufferOk()
      && rstack.Length == SLOTS
      && ridx == -1
    }

    /** What holds between two calls of the public functions. */
    ghost predicate Valid()
      reads this, rstack, buf, BufRepr()
      ensures Valid() ==> BufferOk() && (Reading() || Idle())
    {
      Open() || (Idle() && reply == NULL)
    }

    /** The arrays opened so far; none between two replies. */
    ghost function OpenArrays(): (fs: seq<Frame>)
      requires Reading() || Idle()
      ensures OpenFrames(fs)
      reads this, rstack, buf, BufRepr()
    {
      if ridx == -1 then [] else Frames(rstack[..], ridx, heap, NULL)
    }

    /** The type of the item on top, if its type byte was read. */
    ghost function Current(): Kind
      requires Reading() || Idle()
      reads this, rstack, buf, BufRepr()
    {
      if ridx == -1 then Unset else rstack[ridx].kind
    }

    /** The outcome of the reply under construction, were `future` to follow
        the unread bytes. */
    ghost function Rest(future: bytes): Outcome
      requires Reading() || Idle()
      reads this, rstack, buf, BufRepr()
    {
      RestOf(OpenArrays(), Current(), Unread() + future)
    }

    constructor ()
      ensures Valid() && err.None? && Unread() == [] && ridx == -1 && len == 0
      ensures fresh(rstack) && fresh(BufRepr())
    {
      hide Open, Stack;
      err := None;
      buf := new SdsString.NewLen([]);
      pos, len := 0, 0;
      maxbuf := READER_MAX_BUF;
      rstack := new Task[SLOTS](_ => FreshTask(-1, -1));
      ridx := -1;
      reply := NULL;
      heap := [];
    }

    /** Stop at a protocol error: drop the reply, the buffer and the stack. */
    method SetError(e: ProtocolError)
      requires rstack.Length == SLOTS
      modifies this
      ensures Valid() && err == Some(e) && Idle()
      ensures heap == old(heap) && pos == 0 && Unread() == []
    {
      reply := NULL;
      buf := null;
      pos, len := 0, 0;
      ridx := -1;
      err := Some(e);
    }

    /** Leave the finished item `obj` and go to the next one. `u` is the input
        after the item. */
    method MoveToNextTask(ghost obj: int, ghost u: bytes)
      requires rstack.Length == SLOTS
      requires Stack(rstack[..], ridx, heap, obj) && Built(heap, obj)
      modifies this`ridx, rstack
      ensures -1 <= ridx <= old(ridx) && rstack[0].obj == old(rstack[0].obj)
      ensures ridx == -1 ==>
        var root := if old(ridx) == 0 then obj else old(rstack[0].obj);
        Built(heap, root) &&
        old(Unwind(Frames(rstack[..], ridx, heap, obj), Tree(heap, obj), u)) == Done(Tree(heap, root), u)
      ensures ridx != -1 ==>
        && ridx > 0 && Stack(rstack[..], ridx, heap, NULL) && rstack[ridx].kind == Unset
        && old(Unwind(Frames(rstack[..], ridx, heap, obj), Tree(heap, obj), u))
           == Resume(Frames(rstack[..], ridx, heap, NULL), u)
    {
      ghost var p := obj;
      ghost var goal := Unwind(Frames(rstack[..], ridx, heap, obj), Tree(heap, obj), u);
      while ridx >= 0
        invariant 0 <= ridx <= old(ridx) && rstack[..] == old(rstack[..])
        invariant p == if ridx == old(ridx) then obj else rstack[ridx].obj
        invariant Stack(rstack[..], ridx, heap, p) && Built(heap, p)
        invariant Unwind(Frames(rstack[..], ridx, heap, p), Tree(heap, p), u) == goal
      {
        if ridx == 0 {
          ridx := ridx - 1;
          return;
        }
        assert Link(rstack[..], ridx, heap, p, ridx - 1);
        assert rstack[ridx - 1].kind == OfArray;
        if rstack[ridx].idx == rstack[ridx - 1].elements - 1 {
          PopStack(rstack[..], ridx, heap, p);
          ridx := ridx - 1;
          p := rstack[ridx].obj;
        } else {
          assert rstack[ridx].idx < rstack[ridx - 1].elements;
          AdvanceStack(rstack[..], ridx, heap, p);
          ghost var next := rstack[..][ridx := NextChild(rstack[ridx])];
          rstack[ridx] := rstack[ridx].(kind := Unset, elements := -1, idx := rstack[ridx].idx + 1);
          assert rstack[..] == next;
          return;
        }
      }
    }

    /** Allocate an object for the topmost slot and store it in its parent. */
    method Create(node: Node) returns (obj: int)
      requires rstack.Length == SLOTS
      requires Stack(rstack[..], ridx, heap, NULL)
      modifies this`heap
      ensures obj == |old(heap)| && |heap| == obj + 1 && heap[obj] == node
      ensures Evolves(old(heap), heap)
      ensures Stack(rstack[..], ridx, heap, obj)
      ensures Frames(rstack[..], ridx, heap, obj) == Frames(rstack[..], ridx, old(heap), NULL)
    {
      AttachStack(rstack[..], ridx, heap, node);
      obj := |heap|;
      var task := rstack[ridx];
      if task.parent != -1 {
        var a := rstack[task.parent].obj;
        heap := heap[a := heap[a].(element := heap[a].element[task.idx := obj])];
      }
      heap := heap + [node];
    }

    /** Consume the `c` bytes of a finished item and store the item. */
    method FinishItem(node: Node, c: nat, ghost r: Reply, ghost future: bytes)
      requires Reading()
      requires node == Leaf(r) || exists n: int :: node == Arr(n, []) && r == Array(n, [])
      requires 0 < c <= |Unread()|
      modifies this, rstack
      ensures Progress(old(Unwind(Frames(rstack[..], ridx, heap, NULL), r, Unread()[c..] + future)), future, true)
      ensures buf == old(buf) && len == old(len) && pos == old(pos) + c
    {
      ghost var u := Unread();
      var obj := Create(node);
      assert node.Arr? ==> Tree(heap, obj).element == [];
      pos := pos + c;
      assert Unread() == u[c..];
      if ridx == 0 { reply := obj; }
      MoveToNextTask(obj, Unread() + future);
    }

    /** Status, error and integer replies. */
    method ProcessLineItem(ghost future: bytes) returns (ok: bool)
      requires Open() && rstack[ridx].kind in {OfError, OfStatus, OfInteger}
      modifies this, rstack
      ensures Progress(old(Rest(future)), future, ok)
      ensures buf == old(buf) && len == old(len) && pos >= old(pos)
      ensures ok ==> pos > old(pos)
    {
      hide RestOf, Resume, Unwind, ParseBody, Link, Frames;
      assert Unread() + [] == Unread();
      var r, c := ScanLine(rstack[ridx].kind, buf.mem[pos..len], future, ridx);
      if r.None? {
        RestOfMore(OpenArrays(), Current(), Unread());
        return false;
      }
      RestOfBody(OpenArrays(), Current(), Unread() + future, r.value, Unread()[c..] + future);
      FinishItem(Leaf(r.value), c, r.value, future);
      return true;
    }

    /** Bulk strings: a length line, then that many bytes and two more. */
    method ProcessBulkItem(ghost future: bytes) returns (ok: bool)
      requires Open() && rstack[ridx].kind == OfString
      modifies this, rstack
      ensures Progress(old(Rest(future)), future, ok)
      ensures buf == old(buf) && len == old(len) && pos >= old(pos)
      ensures ok ==> pos > old(pos)
    {
      hide RestOf, Resume, Unwind, ParseBody, Link, Frames;
      assert Unread() + [] == Unread();
      var r, c := ScanBulk(buf.mem[pos..len], future, ridx);
      if r.None? {
        RestOfMore(OpenArrays(), Current(), Unread());
        return false;
      }
      RestOfBody(OpenArrays(), Current(), Unread() + future, r.value, Unread()[c..] + future);
      FinishItem(Leaf(r.value), c, r.value, future);
      return true;
    }

    /** In front of an item, the rest is what the resumable parser makes of it. */
    lemma AtItem(future: bytes)
      requires Reading() && rstack[ridx].kind == Unset
      ensures Open() && Rest(future) == Resume(Frames(rstack[..], ridx, heap, NULL), Unread() + future)
    {
      hide Resume, Link;
    }

    /** Record the array in its task and start a task for its first child. */
    method PushTask(n: int, obj: int)
      requires rstack.Length == SLOTS && 0 <= ridx < SLOTS - 1
      modifies `ridx, rstack
      ensures ridx == old(ridx) + 1
      ensures rstack[..] == old(rstack[..][ridx := rstack[ridx].(elements := n, obj := obj)][ridx + 1 := FreshTask(ridx, 0)])
    {
      rstack[ridx] := rstack[ridx].(elements := n, obj := obj);
      ridx := ridx + 1;
      rstack[ridx] := FreshTask(ridx - 1, 0);
    }

    /** Open an array of `n > 0` children whose count line took `c` bytes. */
    method OpenArray(n: int, c: nat, ghost future: bytes)
      requires Open() && rstack[ridx].kind == OfArray
      requires n > 0 && 0 < c <= |Unread()|
      modifies this, rstack
      ensures Open() && ridx > 0
      ensures Rest(future) == old(Resume(Frames(rstack[..], ridx, heap, NULL) + [Frame(n, [])], Unread()[c..] + future))
      ensures buf == old(buf) && len == old(len) && pos == old(pos) + c
    {
      hide Link, Frames, Resume, RestOf, Stack;
      ghost var u := Unread();
      var root := ridx == 0;
      var obj := Create(Arr(n, seq(n, _ => NULL)));
      pos := pos + c;
      assert Unread() == u[c..];
      PushStack(rstack[..], ridx, heap, obj, n);
      PushTask(n, obj);
      if root { reply := obj; }
      AtItem(future);
    }

    /** Arrays: a count line, then one more slot unless the array is empty. The
        count is cut to an int; the model stops where that changes its sign. */
    method ProcessMultiBulkItem(ghost future: bytes) returns (ok: bool)
      requires Reading() && rstack[ridx].kind == OfArray
      modifies this, rstack
      ensures Progress(old(Rest(future)), future, ok)
      ensures err.None? ==> buf == old(buf) && len == old(len) && pos >= old(pos)
      ensures ok ==> err.None? && pos > old(pos)
    {
      hide RestOf, Resume, Unwind, ParseBody, ParseList, Link, Frames, AsInt;
      ghost var fs, u := OpenArrays(), Unread();
      if ridx == 8 {
        RestOfTooDeep(fs, u + future);
        SetError(NestingTooDeep);
        return false;
      }
      assert u + [] == u;
      var count, c := ScanCount(buf.mem[pos..len], future, ridx);
      if count.None? {
        RestOfMore(fs, OfArray, u);
        return false;
      }
      var elements := count.value;
      if elements == -1 {
        RestOfBody(fs, OfArray, u + future, Nil, u[c..] + future);
        FinishItem(Leaf(Nil), c, Nil, future);
        return true;
      }
      var n := AsInt(elements);
      if !CountKept(elements) {
        RestOfBad(fs, OfArray, u + future, LostCount(elements), u[c..] + future);
        SetError(LostCount(elements));
        return false;
      }
      if elements > 0 {
        RestOfArray(fs, u + future, n, u[c..] + future);
        OpenArray(n, c, future);
      } else {
        RestOfBody(fs, OfArray, u + future, Array(n, []), u[c..] + future);
        FinishItem(Arr(n, []), c, Array(n, []), future);
      }
      return true;
    }

    /** Consume the type byte of the item on top. */
    method ReadType(ghost future: bytes) returns (ok: bool)
      requires Open() && rstack[ridx].kind == Unset
      modifies this, rstack
      ensures !ok ==> Progress(old(Rest(future)), future, false)
      ensures ok ==> Reading() && rstack[ridx].kind != Unset && Rest(future) == old(Rest(future))
      ensures err.None? ==> buf == old(buf) && len == old(len)
      ensures pos == if ok then old(pos) + 1 else if err.None? then old(pos) else 0
    {
      hide Link, Frames, Resume, ResumeBody, ParseItem;
      ghost var u := Unread();
      assert u + [] == u;
      if len == pos {
        RestOfNothing(OpenArrays(), Unset);
        return false;
      }
      var b := buf.mem[pos];
      assert u[0] == b && (u + future)[0] == b && (u + future)[1..] == u[1..] + future;
      RestOfType(OpenArrays(), u + future);
      if !IsTypeByte(b) {
        SetError(BadTypeByte(b));
        return false;
      }
      ghost var st := rstack[..];
      pos := pos + 1;
      rstack[ridx] := rstack[ridx].(kind := KindOf(b));
      KeepStack(st, ridx, heap, KindOf(b));
      assert rstack[..] == st[ridx := st[ridx].(kind := KindOf(b))];
      assert Unread() == u[1..];
      return true;
    }

    /** Read the type byte if it is still to be read, then the item. */
    method ProcessItem(ghost future: bytes) returns (ok: bool)
      requires Open()
      modifies this, rstack
      ensures Progress(old(Rest(future)), future, ok)
      ensures err.None? ==> buf == old(buf) && len == old(len) && pos >= old(pos)
      ensures ok ==> err.None? && pos > old(pos)
    {
      if rstack[ridx].kind == Unset {
        ok := ReadType(future);
        if !ok { return; }
      }
      if rstack[ridx].kind == OfString {
        ok := ProcessBulkItem(future);
      } else if rstack[ridx].kind == OfArray {
        ok := ProcessMultiBulkItem(future);
      } else {
        ok := ProcessLineItem(future);
      }
    }

    /** Append to the buffer; an empty oversized one is replaced first. */
    method AppendToBuffer(chunk: bytes)
      requires BufferOk() && err.None?
      requires len + |chunk| <= INT_MAX
      modifies this`buf, this`pos, this`len, BufRepr()
      ensures BufferOk() && fresh(BufRepr() - old(BufRepr()))
      ensures Unread() == old(Unread()) + chunk && len <= old(len) + |chunk|
    {
      ghost var u := Unread();
      if |chunk| >= 1 {
        if len == 0 && maxbuf != 0 && buf.Avail() > maxbuf {
          buf := new SdsString.NewLen([]);
          pos := 0;
        }
        assert Unread() == u;
        buf.CatLen(chunk);
        len := buf.Len();
        assert Unread() == u + chunk;
      }
    }

    /** Feed a chunk, unless the reader has failed. */
    method Feed(chunk: bytes, ghost future: bytes) returns (ok: bool)
      requires Valid()
      requires len + |chunk| <= INT_MAX
      modifies this, BufRepr()
      ensures Valid() && fresh(BufRepr() - old(BufRepr()))
      ensures err == old(err) && ok == err.None? && heap == old(heap)
      ensures ok ==> Unread() == old(Unread()) + chunk && len <= old(len) + |chunk|
      ensures ok ==> Rest(future) == old(Rest(chunk + future))
    {
      hide RestOf, Link, Frames;
      if err.Some? { return false; }
      ghost var u := Unread();
      AppendToBuffer(chunk);
      assert u + (chunk + future) == u + chunk + future;
      return true;
    }

    /** Drop the consumed bytes once there are at least a kilobyte of them. */
    method Compact()
      requires (Open() || Idle()) && err.None?
      modifies this`pos, this`len, BufRepr()
      ensures if ridx == -1 then Idle() else Open()
      ensures OpenArrays() == old(OpenArrays()) && Current() == old(Current())
      ensures Unread() == old(Unread()) && BufRepr() == old(BufRepr()) && len <= old(len)
    {
      hide Link, Frames;
      if pos >= COMPACT_AT {
        ghost var text := buf.Content();
        assert Unread() == text[pos..];
        buf.Range(pos, -1);
        pos := 0;
        len := buf.Len();
        assert Unread() == buf.Content();
      }
    }

    /** Process items until the reply is finished or no step is possible. */
    method ProcessItems(ghost future: bytes) returns (more: bool)
      requires Open()
      modifies this, rstack
      ensures Progress(old(Rest(future)), future, more) && (more ==> ridx == -1)
      ensures err.None? ==> buf == old(buf) && len == old(len) && pos >= old(pos)
      ensures more ==> err.None? && pos > old(pos)
      ensures err.None? ==> IsTail(Unread(), old(Unread()))
    {
      ghost var goal := Rest(future);
      ghost var mem := buf.mem[..];
      more := true;
      while ridx >= 0 && more
        invariant Progress(goal, future, more) && (more ==> err.None?)
        invariant err.None? ==> buf == old(buf) && len == old(len) && pos >= old(pos)
        invariant more && ridx == -1 ==> pos > old(pos)
        decreases more, len - pos
      {
        more := ProcessItem(future);
      }
      if err.None? {
        TailSlice(mem, old(pos), pos, len);
        assert buf.mem[..] == mem;
      }
    }

    /** Set the first item to process when the stack is empty. */
    method StartReply()
      requires Valid() && err.None?
      modifies this`ridx, rstack
      ensures Open()
      ensures OpenArrays() == old(OpenArrays()) && Current() == old(Current())
    {
      if ridx == -1 {
        rstack[0] := FreshTask(-1, -1);
        ridx := 0;
      }
    }

    /** After processing: compact the buffer, hand the reply over if it is done. */
    method EmitReply(ghost goal: Outcome, ghost future: bytes, ghost more: bool) returns (out: int)
      requires err.None? && (more <==> ridx == -1) && Progress(goal, future, more)
      modifies this, BufRepr()
      ensures Valid() && err.None? && BufRepr() == old(BufRepr()) && len <= old(len)
      ensures Unread() == old(Unread()) && heap == old(heap)
      ensures more ==> ridx == -1 && Built(heap, out) && goal == Done(Tree(heap, out), Unread() + future)
      ensures !more ==> out == NULL && Rest(future) == goal && Rest([]) == More
    {
      hide RestOf, Link, Frames, Stack, Built, Tree;
      Compact();
      out := NULL;
      if ridx == -1 {
        out := reply;
        reply := NULL;
      }
    }

    /** Try to finish a reply with the bytes at hand. */
    method GetReply(ghost future: bytes) returns (ok: bool, out: int)
      requires Valid()
      modifies this, rstack, BufRepr()
      ensures Valid() && fresh(BufRepr() - old(BufRepr())) && len <= old(len)
      ensures ok == err.None?
      ensures old(err).Some? ==> err == old(err)
      ensures old(err).None? && !ok ==> Refused(old(Rest(future)), err.value, future)
      ensures ok && out != NULL ==> Built(heap, out) && ridx == -1
      ensures ok && out != NULL ==> old(Rest(future)) == Done(Tree(heap, out), Unread() + future)
      ensures ok && out != NULL ==> |Unread()| < |old(Unread())|
      ensures ok ==> IsTail(Unread(), old(Unread()))
      ensures ok && out == NULL ==> Rest(future) == old(Rest(future)) && Rest([]) == More
    {
      hide RestOf, Link, Frames, IsTail;
      if err.Some? { return false, NULL; }
      TailSelf(Unread());
      assert Unread() + [] == Unread();
      if len == 0 {
        RestOfNothing(OpenArrays(), Current());
        return true, NULL;
      }
      StartReply();
      var more := ProcessItems(future);
      if err.Some? { return false, NULL; }
      out := EmitReply(old(Rest(future)), future, more);
      return true, out;
    }

    /** The bytes before `future` are enough to refuse the reply. */
    static ghost predicate Refused(o: Outcome, e: ProtocolError, future: bytes) {
      o.Bad? && o.error == e && |o.rest| >= |future|
    }

    /** How one processing step relates to the outcome promised before it. */
    ghost predicate Progress(before: Outcome, future: bytes, ok: bool)
      reads this, rstack, buf, BufRepr()
    {
      if ok && ridx == -1 then
        Idle() && err.None? && Built(heap, reply) && before == Done(Tree(heap, reply), Unread() + future)
      else if ok then
        Open() && Rest(future) == before
      else if err.Some? then
        Valid() && Refused(before, err.value, future)
      else
        Open() && Rest(future) == before && Rest([]) == More
    }
  }

  function KindOf(b: byte): (k: Kind)
    requires IsTypeByte(b)
    ensures k != Unset && TypeByte(k) == b
  {
    if b == MINUS then OfError
    else if b == PLUS then OfStatus
    else if b == COLON then OfInteger
    else if b == DOLLAR then OfString
    else OfArray
  }

  /** Recording the type of the item on top changes no open array. */
  lemma KeepStack(st: seq<Task>, m: int, h: Heap, kind: Kind)
    requires Stack(st, m, h, NULL)
    ensures Stack(st[m := st[m].(kind := kind)], m, h, NULL)
    ensures Frames(st[m := st[m].(kind := kind)], m, h, NULL) == Frames(st, m, h, NULL)
  {
    var st' := st[m := st[m].(kind := kind)];
    forall k | 0 <= k < m
      ensures Link(st', m, h, NULL, k)
      ensures FrameAt(st', m, h, NULL, k) == FrameAt(st, m, h, NULL, k)
    {
      assert Link(st, m, h, NULL, k);
    }
  }

  /** A reader that is to receive all of the stream `all` and has emitted `out`, when
      `future` has not been fed yet: what it emitted are the first replies of the
      stream, it will decide the next one as the recursive parser does, and its
      unread bytes are behind those replies. */
  ghost predicate Tracks(r: Reader, all: bytes, out: seq<Reply>, future: bytes)
    requires r.Valid()
    reads r, r.rstack, r.buf, r.BufRepr()
  {
    && out <= ParseStream(all).replies
    && var u := After(all, |out|);
       if r.err.Some? then Reader.Refused(ParseItem(u, 0), r.err.value, future)
       else ParseItem(u, 0) == r.Rest(future) && IsTail(r.Unread() + future, u)
  }

  /** The reader failed, or its bytes do not complete another reply. */
  ghost predicate Drained(r: Reader)
    requires r.Valid()
    reads r, r.rstack, r.buf, r.BufRepr()
  {
    r.err.Some? || r.Rest([]) == More
  }

  /** Ask for one reply of the stream. */
  method TakeReply(r: Reader, ghost all: bytes, ghost out: seq<Reply>, ghost future: bytes) returns (rs: seq<Reply>)
    requires r.Valid() && Tracks(r, all, out, future)
    modifies r, r.rstack, r.BufRepr()
    ensures r.Valid() && fresh(r.BufRepr() - old(r.BufRepr())) && r.len <= old(r.len)
    ensures Tracks(r, all, out + rs, future)
    ensures if rs == [] then Drained(r) else |r.Unread()| < |old(r.Unread())|
  {
    hide Reader.Valid, Reader.Rest, Built, Tree, ParseStream, ParseItem, After;
    AfterNext(all, |out|);
    assert out + [] == out;
    ghost var u := r.Unread();
    var ok, p := r.GetReply(future);
    if !ok { return []; }
    if p == NULL {
      TailAppend(r.Unread(), u, future, After(all, |out|));
      return [];
    }
    NextTracks(r, future);
    return [Tree(r.heap, p)];
  }

  /** A reader between two replies. */
  lemma NextTracks(r: Reader, future: bytes)
    requires r.Valid() && r.err.None? && r.ridx == -1
    ensures r.Rest(future) == ParseItem(r.Unread() + future, 0)
  {
    RestOfIdle(r.Unread() + future);
  }

  /** Take replies until there is none or the reader fails. */
  method Drain(r: Reader, ghost all: bytes, ghost before: seq<Reply>, ghost future: bytes) returns (out: seq<Reply>)
    requires r.Valid() && Tracks(r, all, before, future)
    modifies r, r.rstack, r.BufRepr()
    ensures r.Valid() && fresh(r.BufRepr() - old(r.BufRepr())) && r.len <= old(r.len)
    ensures Tracks(r, all, before + out, future) && Drained(r)
  {
    hide Reader.Valid, Reader.Unread, Tracks, Drained;
    out := [];
    assert before + [] == before;
    var more := true;
    while more
      invariant r.Valid() && fresh(r.BufRepr() - old(r.BufRepr())) && r.len <= old(r.len)
      invariant Tracks(r, all, before + out, future)
      invariant !more ==> Drained(r)
      decreases more, |r.Unread()|
    {
      var rs := TakeReply(r, all, before + out, future);
      assert before + out + rs == before + (out + rs);
      out := out + rs;
      more := rs != [];
    }
  }

  /** One delivery: feed a chunk, then take the replies it completes. */
  method Deliver(r: Reader, chunk: bytes, ghost all: bytes, ghost before: seq<Reply>, ghost future: bytes)
    returns (out: seq<Reply>)
    requires r.Valid() && r.len + |chunk| <= INT_MAX
    requires Tracks(r, all, before, chunk + future)
    modifies r, r.rstack, r.BufRepr()
    ensures r.Valid() && fresh(r.BufRepr() - old(r.BufRepr())) && r.len <= old(r.len) + |chunk|
    ensures Tracks(r, all, before + out, future) && Drained(r)
  {
    hide Reader.Valid, Reader.Rest, Drained, ParseStream, ParseItem, After;
    ghost var u := r.Unread();
    var ok := r.Feed(chunk, future);
    assert u + (chunk + future) == u + chunk + future;
    out := Drain(r, all, before, future);
  }

  /** A reader about to receive the stream `all`. */
  method Start(ghost all: bytes) returns (r: Reader)
    ensures r.Valid() && fresh(r) && fresh(r.rstack) && fresh(r.BufRepr()) && r.len == 0
    ensures Tracks(r, all, [], all) && Drained(r)
  {
    r := new Reader();
    NextTracks(r, all);
    RestOfNothing([], Unset);
    assert [] + all == all;
    assert r.Unread() + [] == [];
  }

  /** The status a drained reader reports. */
  method FinalStatus(r: Reader) returns (ending: Ending)
    ensures ending == StatusOf(r)
  {
    ending := if r.err.Some? then Failed(r.err.value) else Waiting;
  }

  function StatusOf(r: Reader): Ending
    reads r
  {
    if r.err.Some? then Failed(r.err.value) else Waiting
  }

  /** A drained reader has emitted exactly the replies in the bytes fed to it. */
  lemma SoFar(r: Reader, p: bytes, f: bytes, out: seq<Reply>)
    requires r.Valid() && Drained(r) && Tracks(r, p + f, out, f)
    ensures ParseStream(p) == Transcript(out, StatusOf(r)) && out <= ParseStream(p + f).replies
    ensures r.err.Some? ==> ParseStream(p + f) == Transcript(out, StatusOf(r))
    ensures r.err.None? ==> IsTail(r.Unread(), After(p, |out|))
  {
    hide Reader.Valid, Reader.Unread, Reader.Rest, ParseStream, ParseItem, After, IsTail, Extends, Reader.Refused;
    if r.err.Some? {
      RefusedSoFar(p, f, out, r.err.value);
    } else {
      RestLater(r, f);
      WaitingSoFar(p, f, out, r.Unread());
    }
  }

  /** A reader that waits for bytes needs some of those to come. */
  lemma RestLater(r: Reader, f: bytes)
    requires r.Valid() && r.err.None? && r.Rest([]) == More
    ensures Extends(More, r.Rest(f), f)
  {
    hide Reader.Valid, Reader.Unread, RestOf, Frames;
    RestExtend(r.OpenArrays(), r.Current(), r.Unread() + [], f);
    assert r.Unread() + [] + f == r.Unread() + f;
  }

  lemma RefusedSoFar(p: bytes, f: bytes, out: seq<Reply>, e: ProtocolError)
    requires out <= ParseStream(p + f).replies && Reader.Refused(ParseItem(After(p + f, |out|), 0), e, f)
    ensures ParseStream(p) == ParseStream(p + f) == Transcript(out, Failed(e))
  {
    hide ParseStream, ParseItem, After;
    PrefixParsed(p, f, |out|);
    AfterNext(p + f, |out|);
  }

  lemma WaitingSoFar(p: bytes, f: bytes, out: seq<Reply>, unread: bytes)
    requires out <= ParseStream(p + f).replies && Extends(More, ParseItem(After(p + f, |out|), 0), f)
    requires IsTail(unread + f, After(p + f, |out|))
    ensures ParseStream(p) == Transcript(out, Waiting) && IsTail(unread, After(p, |out|))
  {
    hide ParseStream, ParseItem, After;
    PrefixParsed(p, f, |out|);
    TailCut(unread, f, After(p, |out|));
  }

  lemma TailSelf(a: bytes)
    ensures IsTail(a, a)
  {
  }

  lemma TailSlice(m: bytes, i: nat, j: nat, n: nat)
    requires i <= j <= n <= |m|
    ensures IsTail(m[j..n], m[i..n])
  {
  }

  lemma TailAppend(a: bytes, b: bytes, f: bytes, u: bytes)
    requires IsTail(a, b) && IsTail(b + f, u)
    ensures IsTail(a + f, u)
  {
  }

  lemma TailCut(a: bytes, f: bytes, u: bytes)
    requires IsTail(a + f, u + f)
    ensures IsTail(a, u)
  {
    var d := |u| - |a|;
    assert (u + f)[d..] == u[d..] + f;
    assert u[d..] == (u + f)[d..][..|a|] == (a + f)[..|a|] == a;
  }

  /** A stream delivered in any chunks, drained after each: the replies and the
      final status are those of the recursive parser on the bytes delivered, and
      what is left in the buffer lies behind the replies. Delivery stops only in
      front of a chunk with which the buffer would outgrow an int. */
  method ReadStream(chunks: seq<bytes>) returns (r: Reader, k: nat, out: seq<Reply>, ending: Ending)
    ensures r.Valid() && k <= |chunks| && (k < |chunks| ==> r.len + |chunks[k]| > INT_MAX)
    ensures |Concat(chunks)| <= INT_MAX ==> k == |chunks|
    ensures Transcript(out, ending) == ParseStream(Concat(chunks[..k]))
    ensures ending == StatusOf(r)
    ensures k == |chunks| || ending.Failed? ==> Transcript(out, ending) == ParseStream(Concat(chunks))
    ensures out <= ParseStream(Concat(chunks)).replies && AllComplete(out, MAX_DEPTH)
    ensures ending == Waiting ==> IsTail(r.Unread(), After(Concat(chunks[..k]), |out|))
  {
    hide Tracks, Drained, ParseStream, Reader.Valid, Reader.Unread, AllComplete, IsTail, After;
    ghost var all := Concat(chunks);
    r := Start(all);
    k, out := 0, [];
    assert chunks[0..] == chunks;
    while k < |chunks| && r.len + |chunks[k]| <= INT_MAX
      invariant k <= |chunks| && r.Valid() && fresh(r) && fresh(r.rstack) && fresh(r.BufRepr())
      invariant r.len + |Concat(chunks[k..])| <= |all|
      invariant Tracks(r, all, out, Concat(chunks[k..])) && Drained(r)
    {
      assert chunks[k..][1..] == chunks[k + 1..];
      ghost var future := Concat(chunks[k + 1..]);
      var more := Deliver(r, chunks[k], all, out, future);
      out := out + more;
      k := k + 1;
    }
    if k < |chunks| { assert |chunks[k]| <= |Concat(chunks[k..])|; }
    ending := FinalStatus(r);
    Stopped(r, chunks, k, out);
  }

  /** Delivery has stopped in front of chunk `k`. */
  lemma Stopped(r: Reader, chunks: seq<bytes>, k: nat, out: seq<Reply>)
    requires r.Valid() && k <= |chunks| && Tracks(r, Concat(chunks), out, Concat(chunks[k..])) && Drained(r)
    ensures Transcript(out, StatusOf(r)) == ParseStream(Concat(chunks[..k]))
    ensures k == |chunks| || r.err.Some? ==> Transcript(out, StatusOf(r)) == ParseStream(Concat(chunks))
    ensures out <= ParseStream(Concat(chunks)).replies && AllComplete(out, MAX_DEPTH)
    ensures r.err.None? ==> IsTail(r.Unread(), After(Concat(chunks[..k]), |out|))
  {
    hide Reader.Valid, Reader.Unread, Tracks, IsTail, ParseStream, After, AllComplete, Concat, Drained;
    var p, f := Concat(chunks[..k]), Concat(chunks[k..]);
    ConcatAppend(chunks[..k], chunks[k..]);
    assert chunks[..k] + chunks[k..] == chunks;
    SoFar(r, p, f, out);
    StreamComplete(p);
    if k == |chunks| { assert chunks[..k] == chunks; }
  }
}
