/** The singly linked callback queue of async.c, with its head and tail. */
module CallbackList {

  /** A registered callback: `id` stands for its private data; a command may be
      sent without a function to call. */
  datatype Callback = Callback(id: nat, hasFn: bool)

  datatype Shifted = Nothing | Got(cb: Callback)

  class Node {
    const cb: Callback
    var next: Node?

    constructor (cb: Callback)
      ensures this.cb == cb && next == null
    {
      this.cb := cb;
      next := null;
    }
  }

  ghost function Successor(spine: seq<Node>, i: nat): Node?
    requires i < |spine|
  {
    if i + 1 < |spine| then spine[i + 1] else null
  }

  class Queue {
    var head: Node?
    var tail: Node?
    ghost var spine: seq<Node>

    ghost function Nodes(): set<Node>
      reads this
    {
      set n | n in spine
    }

    /** The nodes are distinct and chained in the order of `spine`. */
    ghost predicate Valid()
      reads this, Nodes()`next
    {
      && (forall i, j :: 0 <= i < j < |spine| ==> spine[i] != spine[j])
      && head == (if spine == [] then null else spine[0])
      && tail == (if spine == [] then null else spine[|spine| - 1])
      && (forall i :: 0 <= i < |spine| ==> spine[i].next == Successor(spine, i))
    }

    /** The callbacks in the order they were pushed. */
    ghost function Contents(): seq<Callback>
      reads this
    {
      seq(|spine|, i requires 0 <= i < |spine| reads this => spine[i].cb)
    }

    constructor ()
      ensures Valid() && Contents() == [] && Nodes() == {}
    {
      head := null;
      tail := null;
      spine := [];
    }

    method Push(source: Callback)
      requires Valid()
      modifies this, Nodes()
      ensures Valid() && fresh(Nodes() - old(Nodes()))
      ensures Contents() == old(Contents()) + [source]
    {
      var cb := new Node(source);
      if head == null { head := cb; }
      if tail != null { tail.next := cb; }
      tail := cb;
      spine := spine + [cb];
    }

    method Shift() returns (r: Shifted)
      requires Valid()
      modifies this
      ensures Valid() && Nodes() <= old(Nodes())
      ensures old(Contents()) == [] ==> r == Nothing && Contents() == []
      ensures old(Contents()) != [] ==> r == Got(old(Contents())[0]) && Contents() == old(Contents())[1..]
    {
      var cb := head;
      if cb == null { return Nothing; }
      assert cb == spine[0] && cb.next == Successor(spine, 0);
      head := cb.next;
      if cb == tail { tail := null; }
      spine := spine[1..];
      assert forall i :: 0 <= i < |spine| ==> Successor(spine, i) == Successor(old(spine), i + 1);
      return Got(cb.cb);
    }

    method IsEmpty() returns (b: bool)
      requires Valid()
      ensures b == (Contents() == [])
    {
      b := head == null;
    }
  }
}
