/**
 Reply objects while they are being built. Objects are allocated one after
 the other and refer to each other by address; an array object is linked into
 its parent before its own children exist, so a tree becomes complete only
 when its last empty slot is filled.
 */
module ReplyHeap {
  import opened Bytes
  import opened Resp

  const NULL: int := -1

  datatype Node = Leaf(reply: Reply) | Arr(elements: int, element: seq<int>)

  type Heap = seq<Node>

  /** The object at `p` and everything below it has no empty slot. */
  predicate Built(h: Heap, p: int)
    decreases |h| - p
  {
    && 0 <= p < |h|
    && (h[p].Arr? ==> forall j :: 0 <= j < |h[p].element| ==>
          p < h[p].element[j] && Built(h, h[p].element[j]))
  }

  /** The reply a completed object stands for. */
  function Tree(h: Heap, p: int): Reply
    requires Built(h, p)
    decreases |h| - p
  {
    match h[p]
    case Leaf(r) => r
    case Arr(n, el) => Array(n, seq(|el|, j requires 0 <= j < |el| => Tree(h, el[j])))
  }

  /** New objects may appear, and an object may change while it has an empty slot. */
  ghost predicate Evolves(h: Heap, h': Heap) {
    && |h| <= |h'|
    && forall q :: 0 <= q < |h| ==> h'[q] == h[q] || (h[q].Arr? && NULL in h[q].element)
  }

  /** A completed reply is never disturbed by work on the unfinished ones. */
  lemma {:induction false} BuiltStable(h: Heap, h': Heap, p: int)
    requires Built(h, p) && Evolves(h, h')
    ensures Built(h', p) && Tree(h', p) == Tree(h, p)
    decreases |h| - p
  {
    if h[p].Arr? {
      var el := h[p].element;
      assert forall j :: 0 <= j < |el| ==> el[j] != NULL;
      assert h'[p] == h[p];
      forall j | 0 <= j < |el|
        ensures Built(h', el[j]) && Tree(h', el[j]) == Tree(h, el[j])
      {
        BuiltStable(h, h', el[j]);
      }
      assert Tree(h', p).element == Tree(h, p).element;
    }
  }
}
