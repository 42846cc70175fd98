/**
 The reader's nine task slots together with the reply objects they point to:
 the invariant of every reachable stack, and what the three moves of read.c
 (attach an object, open an array, finish an item) do to it.
 */
module TaskStack {
  import opened Bytes
  import opened Resp
  import opened RespResume
  import opened ReplyHeap

  const SLOTS := 9

  datatype Kind = Unset | OfError | OfStatus | OfInteger | OfString | OfArray

  /** The type byte that announced an item of this kind. */
  function TypeByte(k: Kind): (b: byte)
    requires k != Unset
    ensures IsTypeByte(b)
  {
    match k
    case OfError => MINUS
    case OfStatus => PLUS
    case OfInteger => COLON
    case OfString => DOLLAR
    case OfArray => STAR
  }

  datatype Task = Task(kind: Kind, elements: int, idx: int, obj: int, parent: int)

  /** Slot `k < m` is an array task whose object has its children up to the
      index of slot `k + 1` complete, the object of that slot at the index
      (`current` for the slot on top), and nothing after it. */
  ghost predicate Link(st: seq<Task>, m: int, h: Heap, current: int, k: nat)
    requires k < m < |st|
  {
    var a, n, i := st[k].obj, st[k].elements, st[k + 1].idx;
    var c := if k + 1 < m then st[k + 1].obj else current;
    && st[k].kind == OfArray
    && 0 <= a < |h| && h[a].Arr? && h[a].elements == n == |h[a].element|
    && 0 <= i < n
    && (forall j :: 0 <= j < i ==> a < h[a].element[j] && Built(h, h[a].element[j]))
    && h[a].element[i] == c
    && (c != NULL ==> a < c)
    && (forall j :: i < j < n ==> h[a].element[j] == NULL)
  }

  /** Every stack the reader can reach with slot `m` on top, where `current` is
      the object of the item being read, or NULL before it exists. */
  ghost predicate Stack(st: seq<Task>, m: int, h: Heap, current: int) {
    && |st| == SLOTS
    && 0 <= m < SLOTS
    && st[0].idx == -1
    && (forall k :: 0 <= k <= m ==> st[k].parent == k - 1)
    && (forall k :: 0 <= k < m ==> Link(st, m, h, current, k))
  }

  ghost function FrameAt(st: seq<Task>, m: int, h: Heap, current: int, k: nat): (f: Frame)
    requires k < m < |st| && Link(st, m, h, current, k)
    ensures OpenFrame(f)
  {
    Frame(st[k].elements,
          seq(st[k + 1].idx, j requires 0 <= j < st[k + 1].idx => Tree(h, h[st[k].obj].element[j])))
  }

  /** The open arrays, outermost first, as the resumable parser sees them. */
  ghost function Frames(st: seq<Task>, m: int, h: Heap, current: int): (fs: seq<Frame>)
    requires Stack(st, m, h, current)
    ensures |fs| == m && OpenFrames(fs)
  {
    seq(m, k requires 0 <= k < m => FrameAt(st, m, h, current, k))
  }

  /** The object stored by the reply builders for a new object `node` of the
      task on top. */
  function Attach(st: seq<Task>, m: int, h: Heap, node: Node): Heap
    requires 0 <= m < |st|
    requires m > 0 ==> 0 <= st[m - 1].obj < |h| && h[st[m - 1].obj].Arr?
                       && 0 <= st[m].idx < |h[st[m - 1].obj].element|
  {
    if m == 0 then h + [node]
    else
      var a := st[m - 1].obj;
      h[a := h[a].(element := h[a].element[st[m].idx := |h|])] + [node]
  }

  /** An open array is older than the arrays opened inside it. */
  lemma {:induction false} ObjectsIncrease(st: seq<Task>, m: int, h: Heap, current: int, k: nat, l: nat)
    requires Stack(st, m, h, current)
    requires k < l < m
    ensures st[k].obj < st[l].obj
    decreases l - k
  {
    assert Link(st, m, h, current, k);
    assert Link(st, m, h, current, k + 1);
    if k + 1 < l {
      ObjectsIncrease(st, m, h, current, k + 1, l);
    }
  }

  /** Attaching fills the one slot the current item belongs to. */
  lemma AttachStack(st: seq<Task>, m: int, h: Heap, node: Node)
    requires Stack(st, m, h, NULL)
    ensures m > 0 ==> Link(st, m, h, NULL, m - 1)
    ensures Evolves(h, Attach(st, m, h, node))
    ensures Stack(st, m, Attach(st, m, h, node), |h|)
    ensures Frames(st, m, Attach(st, m, h, node), |h|) == Frames(st, m, h, NULL)
  {
    if m > 0 { assert Link(st, m, h, NULL, m - 1); }
    var h' := Attach(st, m, h, node);
    assert Evolves(h, h');
    forall k | 0 <= k < m
      ensures Link(st, m, h', |h|, k)
      ensures FrameAt(st, m, h', |h|, k) == FrameAt(st, m, h, NULL, k)
    {
      AttachLink(st, m, h, node, k);
    }
    hide Link, Attach, FrameAt;
  }

  /** Attaching, seen from the array in slot `k`. */
  lemma AttachLink(st: seq<Task>, m: int, h: Heap, node: Node, k: nat)
    requires Stack(st, m, h, NULL) && k < m && Link(st, m, h, NULL, m - 1) && Link(st, m, h, NULL, k)
    requires Evolves(h, Attach(st, m, h, node))
    ensures Link(st, m, Attach(st, m, h, node), |h|, k)
    ensures FrameAt(st, m, Attach(st, m, h, node), |h|, k) == FrameAt(st, m, h, NULL, k)
  {
    hide Built, Tree, Evolves;
    var h' := Attach(st, m, h, node);
    if k + 1 < m { ObjectsIncrease(st, m, h, NULL, k, m - 1); }
    var el := h[st[k].obj].element;
    forall j | 0 <= j < st[k + 1].idx
      ensures Built(h', el[j]) && Tree(h', el[j]) == Tree(h, el[j])
    {
      BuiltStable(h, h', el[j]);
    }
  }

  /** Finishing the last child of the innermost array completes that array. */
  lemma PopStack(st: seq<Task>, m: int, h: Heap, current: int)
    requires Stack(st, m, h, current) && m > 0 && Built(h, current)
    requires Link(st, m, h, current, m - 1)
    requires st[m].idx == st[m - 1].elements - 1
    ensures Stack(st, m - 1, h, st[m - 1].obj) && Built(h, st[m - 1].obj)
    ensures forall u ::
      Unwind(Frames(st, m, h, current), Tree(h, current), u)
      == Unwind(Frames(st, m - 1, h, st[m - 1].obj), Tree(h, st[m - 1].obj), u)
  {
    hide Resume, ParseItem;
    var l := m - 1;
    var a := st[l].obj;
    forall k | 0 <= k < l
      ensures Link(st, l, h, a, k)
      ensures FrameAt(st, l, h, a, k) == FrameAt(st, m, h, current, k)
    {
      assert Link(st, m, h, current, k);
      assert Link(st, m, h, current, k + 1);
    }
    var fs := Frames(st, m, h, current);
    assert Frames(st, l, h, a) == fs[..l];
    assert Tree(h, a).element == fs[m - 1].kids + [Tree(h, current)];
  }

  /** The topmost slot, moved on to the next child of its array. */
  function NextChild(t: Task): Task {
    t.(kind := Unset, elements := -1, idx := t.idx + 1)
  }

  /** Finishing an earlier child leaves the next slot to be read. */
  lemma AdvanceStack(st: seq<Task>, m: int, h: Heap, current: int)
    requires Stack(st, m, h, current) && m > 0 && Built(h, current)
    requires Link(st, m, h, current, m - 1)
    requires st[m].idx < st[m - 1].elements - 1
    ensures Stack(st[m := NextChild(st[m])], m, h, NULL)
    ensures forall u ::
      Unwind(Frames(st, m, h, current), Tree(h, current), u)
      == Resume(Frames(st[m := NextChild(st[m])], m, h, NULL), u)
  {
    hide Resume, ParseItem;
    var st' := st[m := NextChild(st[m])];
    forall k | 0 <= k < m
      ensures Link(st', m, h, NULL, k)
      ensures k < m - 1 ==> FrameAt(st', m, h, NULL, k) == FrameAt(st, m, h, current, k)
    {
      assert Link(st, m, h, current, k);
    }
    var fs, fs' := Frames(st, m, h, current), Frames(st', m, h, NULL);
    assert fs'[m - 1].kids == fs[m - 1].kids + [Tree(h, current)];
    assert fs' == fs[..m - 1] + [Frame(fs[m - 1].n, fs[m - 1].kids + [Tree(h, current)])];
  }

  function FreshTask(parent: int, idx: int): Task {
    Task(Unset, -1, idx, NULL, parent)
  }

  /** Opening an array of `n` children pushes an empty frame. */
  lemma PushStack(st: seq<Task>, m: int, h: Heap, obj: int, n: int)
    requires Stack(st, m, h, obj) && m < SLOTS - 1
    requires st[m].kind == OfArray
    requires 0 <= obj < |h| && n > 0 && h[obj] == Arr(n, seq(n, _ => NULL))
    ensures Stack(st[m := st[m].(elements := n, obj := obj)][m + 1 := FreshTask(m, 0)], m + 1, h, NULL)
    ensures Frames(st[m := st[m].(elements := n, obj := obj)][m + 1 := FreshTask(m, 0)], m + 1, h, NULL)
         == Frames(st, m, h, obj) + [Frame(n, [])]
  {
    var l := m + 1;
    var st' := st[m := st[m].(elements := n, obj := obj)][l := FreshTask(m, 0)];
    forall k | 0 <= k < l
      ensures Link(st', l, h, NULL, k)
      ensures k < m ==> FrameAt(st', l, h, NULL, k) == FrameAt(st, m, h, obj, k)
    {
      if k < m { assert Link(st, m, h, obj, k); }
    }
    assert forall k :: 0 <= k <= l ==> st'[k].parent == k - 1;
    assert FrameAt(st', l, h, NULL, m) == Frame(n, []);
  }
}
