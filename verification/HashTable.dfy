/**
 The chained hash table of dict.c: a power-of-two array of buckets whose
 entries are linked nodes, relinked in place when the table grows.
 */
module HashTable {
  import opened Bits
  import opened CTypes

  const INITIAL_SIZE: nat := 4
  const LONG_MAX: nat := 0x7fff_ffff_ffff_ffff

  /** Bucket numbers are C ints: 2^31 buckets can be told apart. */
  const MAX_BUCKETS: nat := 0x8000_0000

  class Entry<K, V> {
    const key: K
    var val: V
    var next: Entry?<K, V>

    constructor (key: K, val: V)
      ensures this.key == key && this.val == val && next == null
    {
      this.key := key;
      this.val := val;
      next := null;
    }
  }

  ghost function NodeAt<K, V>(c: seq<Entry<K, V>>, j: nat): Entry?<K, V> {
    if j < |c| then c[j] else null
  }

  ghost predicate NoneBefore<K, V>(c: seq<Entry<K, V>>, j: nat, key: K) {
    forall i :: 0 <= i < j && i < |c| ==> c[i].key != key
  }

  ghost predicate Distinct<K, V>(c: seq<Entry<K, V>>) {
    forall i, j :: 0 <= i < j < |c| ==> c[i] != c[j]
  }

  /** The list starting at `head` consists of the nodes `c`, in order. */
  ghost predicate Linked<K, V>(head: Entry?<K, V>, c: seq<Entry<K, V>>)
    reads (set e | e in c)`next
  {
    head == NodeAt(c, 0) && forall j :: 0 <= j < |c| ==> c[j].next == NodeAt(c, j + 1)
  }

  /** Every node hangs, once, in the one bucket its key hashes to. */
  ghost predicate PlacedIn<K(!new), V>(chains: seq<seq<Entry<K, V>>>, nodes: set<Entry<K, V>>, hash: K -> nat, mask: nat) {
    && (forall b :: 0 <= b < |chains| ==> Distinct(chains[b]))
    && (forall b, e :: 0 <= b < |chains| && e in chains[b] ==> e in nodes && And(hash(e.key), mask) == b)
    && (forall e :: e in nodes ==> And(hash(e.key), mask) < |chains| && e in chains[And(hash(e.key), mask)])
  }

  /** No two nodes have the same key. */
  ghost predicate KeyedIn<K, V>(nodes: set<Entry<K, V>>) {
    forall e, f :: e in nodes && f in nodes && e.key == f.key ==> e == f
  }

  ghost function MapOf<K, V>(nodes: set<Entry<K, V>>): map<K, V>
    requires KeyedIn(nodes)
    reads nodes`val
  {
    map e | e in nodes :: e.key := e.val
  }

  lemma MapInsert<K, V>(nodes: set<Entry<K, V>>, e: Entry<K, V>)
    requires KeyedIn(nodes) && forall f :: f in nodes ==> f.key != e.key
    ensures KeyedIn(nodes + {e}) && MapOf(nodes + {e}) == MapOf(nodes)[e.key := e.val]
  {
  }

  lemma Absent<K, V>(nodes: set<Entry<K, V>>, key: K)
    requires KeyedIn(nodes) && key !in MapOf(nodes)
    ensures forall f :: f in nodes ==> f.key != key
  {
    assert forall f :: f in nodes ==> f.key in MapOf(nodes);
  }

  lemma MapRemove<K, V>(nodes: set<Entry<K, V>>, e: Entry<K, V>)
    requires KeyedIn(nodes) && e in nodes
    ensures KeyedIn(nodes - {e}) && MapOf(nodes - {e}) == MapOf(nodes) - {e.key}
  {
  }

  /** A chain without its node number `j`. */
  ghost function Without<T>(c: seq<T>, j: nat): (r: seq<T>)
    requires j < |c|
    ensures |r| == |c| - 1
    ensures forall k :: 0 <= k < j ==> r[k] == c[k]
    ensures forall k :: j <= k < |r| ==> r[k] == c[k + 1]
  {
    c[..j] + c[j + 1..]
  }

  lemma WithoutMember<K, V>(c: seq<Entry<K, V>>, j: nat)
    requires j < |c| && Distinct(c)
    ensures Distinct(Without(c, j)) && forall x :: x in Without(c, j) <==> x in c && x != c[j]
  {
    var r := Without(c, j);
    forall x | x in c && x != c[j]
      ensures x in r
    {
      var k :| 0 <= k < |c| && c[k] == x;
      assert if k < j then r[k] == x else r[k - 1] == x;
    }
  }

  lemma PlacedOnce<K(!new), V>(chains: seq<seq<Entry<K, V>>>, nodes: set<Entry<K, V>>, hash: K -> nat, mask: nat,
                               i: nat, j: nat, b: nat, l: nat)
    requires PlacedIn(chains, nodes, hash, mask)
    requires i < |chains| && j < |chains[i]| && b < |chains| && l < |chains[b]| && chains[i][j] == chains[b][l]
    ensures i == b && j == l
  {
    var e := chains[i][j];
    assert e in chains[i] && e in chains[b];
    assert And(hash(e.key), mask) == b;
    assert Distinct(chains[i]);
  }

  lemma Member<K(!new), V>(chains: seq<seq<Entry<K, V>>>, nodes: set<Entry<K, V>>, hash: K -> nat, mask: nat,
                           i: nat, j: nat)
    requires PlacedIn(chains, nodes, hash, mask) && i < |chains| && j < |chains[i]|
    ensures chains[i][j] in nodes
  {
    assert chains[i][j] in chains[i];
  }

  lemma OneBucket<K(!new), V>(chains: seq<seq<Entry<K, V>>>, nodes: set<Entry<K, V>>, hash: K -> nat, mask: nat,
                              h: nat, j: nat)
    requires PlacedIn(chains, nodes, hash, mask) && h < |chains| && j < |chains[h]|
    ensures forall b :: 0 <= b < |chains| && b != h ==> chains[h][j] !in chains[b]
  {
    forall b | 0 <= b < |chains| && chains[h][j] in chains[b]
      ensures b == h
    {
      var l :| 0 <= l < |chains[b]| && chains[b][l] == chains[h][j];
      PlacedOnce(chains, nodes, hash, mask, h, j, b, l);
    }
  }

  lemma PlaceDrop<K(!new), V>(chains: seq<seq<Entry<K, V>>>, nodes: set<Entry<K, V>>, hash: K -> nat, mask: nat,
                              h: nat, j: nat)
    requires PlacedIn(chains, nodes, hash, mask) && h < |chains| && j < |chains[h]|
    ensures PlacedIn(chains[h := Without(chains[h], j)], nodes - {chains[h][j]}, hash, mask)
  {
    var e := chains[h][j];
    assert e in chains[h];
    WithoutMember(chains[h], j);
    hide Distinct, Without;
    OneBucket(chains, nodes, hash, mask, h, j);
  }

  /** Pointing the predecessor past a node takes it out of the list. */
  lemma LinkDrop<K, V>(head: Entry?<K, V>, c: seq<Entry<K, V>>, j: nat)
    requires j < |c|
    requires head == if j == 0 then NodeAt(c, 1) else c[0]
    requires j > 0 ==> c[j - 1].next == NodeAt(c, j + 1)
    requires forall k :: 0 <= k < |c| && k != j - 1 && k != j ==> c[k].next == NodeAt(c, k + 1)
    ensures Linked(head, Without(c, j))
  {
    var r := Without(c, j);
    forall k | 0 <= k < |r|
      ensures r[k].next == NodeAt(r, k + 1)
    {
      var m := if k < j then k else k + 1;
      assert r[k] == c[m];
    }
  }

  lemma KeyFront<K, V>(nodes: set<Entry<K, V>>, e: Entry<K, V>)
    requires KeyedIn(nodes) && forall f :: f in nodes ==> f.key != e.key
    ensures KeyedIn(nodes + {e})
  {
  }

  lemma PlaceFront<K(!new), V>(chains: seq<seq<Entry<K, V>>>, nodes: set<Entry<K, V>>, hash: K -> nat, mask: nat,
                         h: nat, e: Entry<K, V>)
    requires PlacedIn(chains, nodes, hash, mask) && e !in nodes
    requires h == And(hash(e.key), mask) < |chains|
    ensures PlacedIn(chains[h := [e] + chains[h]], nodes + {e}, hash, mask)
  {
    var c := [e] + chains[h];
    assert forall x :: x in c <==> x == e || x in chains[h];
    assert Distinct(chains[h]);
    assert Distinct(c);
  }

  /** Of the nodes in bucket order, those before node `j` of bucket `i` are in `moved`. */
  ghost predicate MovedIn<K, V>(chains: seq<seq<Entry<K, V>>>, nodes: set<Entry<K, V>>, i: nat, j: nat,
                                moved: set<Entry<K, V>>)
  {
    && moved <= nodes
    && (forall b, l :: 0 <= b < |chains| && 0 <= l < |chains[b]| ==>
                         (chains[b][l] in moved <==> b < i || (b == i && l < j)))
  }

  /** The next node to move is a new one. */
  lemma MoveStep<K(!new), V>(chains: seq<seq<Entry<K, V>>>, nodes: set<Entry<K, V>>, hash: K -> nat, mask: nat,
                             i: nat, j: nat, moved: set<Entry<K, V>>)
    requires PlacedIn(chains, nodes, hash, mask) && KeyedIn(nodes) && MovedIn(chains, nodes, i, j, moved)
    requires i < |chains| && j < |chains[i]|
    ensures var he := chains[i][j];
            && he in nodes && he !in moved && (forall f :: f in moved ==> f.key != he.key)
            && (forall b :: i < b < |chains| ==> he !in chains[b])
            && (forall l :: j < l < |chains[i]| ==> chains[i][l] != he)
            && MovedIn(chains, nodes, i, j + 1, moved + {he}) && |moved + {he}| == |moved| + 1 <= |nodes|
  {
    var he := chains[i][j];
    assert he in chains[i];
    forall b: nat, l: nat | b < |chains| && l < |chains[b]|
      ensures chains[b][l] == he <==> b == i && l == j
    {
      if chains[b][l] == he { PlacedOnce(chains, nodes, hash, mask, i, j, b, l); }
    }
    assert he in nodes;
    SubsetCard(moved + {he}, nodes);
    hide PlacedIn;
  }

  lemma ManyBuckets()
    ensures Pow2(31) == MAX_BUCKETS && IsPow2(MAX_BUCKETS)
  {
    assert Pow2(8) == 0x100;
    assert Pow2(16) == 0x1_0000;
    assert Pow2(24) == 0x100_0000;
    assert Pow2(31) == MAX_BUCKETS;
  }

  /** The least power of two that is at least 4 and at least `size`. */
  method NextPower(size: nat) returns (r: nat)
    ensures size >= LONG_MAX ==> r == LONG_MAX
    ensures size < LONG_MAX ==> IsPow2(r) && size <= r && INITIAL_SIZE <= r && (r == INITIAL_SIZE || r < 2 * size)
    ensures size < LONG_MAX && IsPow2(size) && INITIAL_SIZE <= size ==> r == size
  {
    var i := INITIAL_SIZE;
    if size >= LONG_MAX { return LONG_MAX; }
    assert INITIAL_SIZE == Pow2(2);
    while i < size
      invariant IsPow2(i) && INITIAL_SIZE <= i && (i == INITIAL_SIZE || i < 2 * size)
      invariant IsPow2(size) && INITIAL_SIZE <= size ==> i <= size
    {
      DoublePow2(i);
      if IsPow2(size) { NextPow2(i, size); }
      i := i * 2;
    }
    return i;
  }

  class Dict<K(==, !new), V> {
    const hash: K -> nat
    var table: array<Entry?<K, V>>
    var size: nat
    var sizemask: nat
    var used: nat
    ghost var chains: seq<seq<Entry<K, V>>>
    ghost var nodes: set<Entry<K, V>>

    ghost predicate Placed()
      reads `chains, `nodes, `size, `sizemask
    {
      |chains| == size && PlacedIn(chains, nodes, hash, sizemask)
    }

    ghost predicate Keyed()
      reads `nodes
    {
      KeyedIn(nodes)
    }

    /** The bucket array and the links of the nodes spell out the chains. */
    ghost predicate Wired()
      requires Placed()
      reads `chains, `nodes, `size, `sizemask, `table, table, nodes`next
    {
      table.Length == size && forall b :: 0 <= b < size ==> Linked(table[b], chains[b])
    }

    ghost predicate Valid()
      reads this, table, nodes
      ensures Valid() ==> Keyed()
    {
      && Placed() && Keyed() && Wired()
      && (size == 0 || (IsPow2(size) && size >= INITIAL_SIZE)) && sizemask == (if size == 0 then 0 else size - 1)
      && used == |nodes| <= size
    }

    /** A table with room for nodes: all of `Valid` but the count. */
    ghost predicate Ready()
      reads `chains, `nodes, `size, `sizemask, `table, table, nodes`next
    {
      Placed() && Keyed() && Wired() && IsPow2(size) && sizemask == size - 1
    }

    /** The map the table stands for. */
    ghost function Contents(): map<K, V>
      requires Keyed()
      reads `nodes, nodes`val
    {
      MapOf(nodes)
    }

    function Bucket(key: K): nat
      reads this
    {
      And(hash(key), sizemask)
    }

    constructor (hash: K -> nat)
      ensures Valid() && fresh(table) && Contents() == map[] && nodes == {} && used == size == 0
    {
      this.hash := hash;
      table := new Entry?<K, V>[0];
      size, sizemask, used := 0, 0, 0;
      chains, nodes := [], {};
    }

    /** Walk the bucket of a key. */
    method Search(key: K) returns (r: Entry?<K, V>)
      requires Ready()
      ensures r == null ==> key !in Contents()
      ensures r != null ==> r in nodes && r.key == key && key in Contents() && Contents()[key] == r.val
    {
      AndBelow(hash(key), size);
      var h := Bucket(key);
      ghost var c := chains[h];
      assert Linked(table[h], c);
      r := table[h];
      ghost var j := 0;
      while r != null
        invariant j <= |c| && r == NodeAt(c, j)
        invariant NoneBefore(c, j, key)
        decreases |c| - j
      {
        if r.key == key { return; }
        r := r.next;
        j := j + 1;
      }
    }

    /** The node with this key, or null. */
    method Find(key: K) returns (r: Entry?<K, V>)
      requires Valid()
      ensures r == null ==> key !in Contents()
      ensures r != null ==> r in nodes && r.key == key && key in Contents() && Contents()[key] == r.val
    {
      if size == 0 { return null; }
      r := Search(key);
    }

    /** A table of `n` empty buckets. */
    constructor Sized(hash: K -> nat, n: nat)
      requires IsPow2(n) && n >= INITIAL_SIZE
      ensures Ready() && fresh(table) && nodes == {}
      ensures this.hash == hash && size == n && sizemask == n - 1
    {
      this.hash := hash;
      table := new Entry?<K, V>[n](_ => null);
      size, sizemask, used := n, n - 1, 0;
      chains := seq(n, _ => []);
      nodes := {};
    }

    /** Put a node that is not in the table in front of its bucket. */
    method PushFront(e: Entry<K, V>)
      requires Ready()
      requires e !in nodes && forall f :: f in nodes ==> f.key != e.key
      modifies this`chains, this`nodes, table, e`next
      ensures Ready() && nodes == old(nodes) + {e}
    {
      hide PlacedIn, KeyedIn, And, Linked, IsPow2;
      FrontOk(e);
      var h := Bucket(e.key);
      ghost var c := chains[h];
      e.next := table[h];
      table[h] := e;
      chains := chains[h := [e] + c];
      nodes := nodes + {e};
      LinkFront(e, c);
    }

    /** What a new node finds in front of its bucket. */
    lemma FrontOk(e: Entry<K, V>)
      requires Ready()
      requires e !in nodes && forall f :: f in nodes ==> f.key != e.key
      ensures Bucket(e.key) < size && Linked(table[Bucket(e.key)], chains[Bucket(e.key)])
      ensures forall b :: 0 <= b < size ==> e !in chains[b]
      ensures PlacedIn(chains[Bucket(e.key) := [e] + chains[Bucket(e.key)]], nodes + {e}, hash, sizemask)
      ensures KeyedIn(nodes + {e})
    {
      AndBelow(hash(e.key), size);
      PlaceFront(chains, nodes, hash, sizemask, Bucket(e.key), e);
      KeyFront(nodes, e);
    }

    /** From bucket `i` on, skipping its first `j` nodes, the old lists are as they
        were before any node was moved. */
    ghost predicate Intact(i: nat, j: nat)
      requires Placed() && table.Length == size
      reads this, table, nodes
    {
      && (i < size && j == 0 ==> table[i] == NodeAt(chains[i], 0))
      && (i < size ==> forall l :: j <= l < |chains[i]| ==> chains[i][l].next == NodeAt(chains[i], l + 1))
      && (forall b :: i < b < size ==> Linked(table[b], chains[b]))
    }

    /** The state of a rehash: this table half emptied into `n`. */
    ghost predicate Rehashing(n: Dict<K, V>, i: nat, j: nat)
      reads this, table, nodes, n, n.table, n.nodes
    {
      && n != this && n.table != table && n.hash == hash
      && Placed() && Keyed() && table.Length == size
      && n.Ready()
      && Intact(i, j) && MovedIn(chains, nodes, i, j, n.nodes) && used == |nodes| - |n.nodes|
    }

    /** Move one node to the new table. */
    method MoveNode(n: Dict<K, V>, i: nat, ghost j: nat, he: Entry<K, V>)
      requires Rehashing(n, i, j) && i < size && j < |chains[i]| && he == chains[i][j]
      modifies this`used, n`chains, n`nodes, n.table, he`next
      ensures Rehashing(n, i, j + 1) && n.nodes == old(n.nodes) + {he}
    {
      hide PlacedIn, KeyedIn, MovedIn, And, IsPow2, Ready, Linked;
      MoveStep(chains, nodes, hash, sizemask, i, j, n.nodes);
      n.PushFront(he);
      used := used - 1;
    }

    /** A bucket moved to its end leaves the next one at its start. */
    lemma NextBucket(n: Dict<K, V>, i: nat)
      requires i < size && |chains| == size && Rehashing(n, i, |chains[i]|)
      ensures Rehashing(n, i + 1, 0)
    {
      hide PlacedIn, KeyedIn, And, IsPow2, Ready;
    }

    /** Move every node of a bucket. */
    method MoveBucket(n: Dict<K, V>, i: nat)
      requires Rehashing(n, i, 0) && i < size
      modifies this`used, n`chains, n`nodes, n.table, nodes`next
      ensures Rehashing(n, i + 1, 0)
    {
      hide PlacedIn, KeyedIn, MovedIn, And, IsPow2, Ready, Linked;
      var he := table[i];
      ghost var j := 0;
      while he != null
        invariant j <= |chains[i]| && he == NodeAt(chains[i], j) && Rehashing(n, i, j)
        decreases |chains[i]| - j
      {
        var nextHe := he.next;
        Member(chains, nodes, hash, sizemask, i, j);
        MoveNode(n, i, j, he);
        he := nextHe;
        j := j + 1;
      }
      NextBucket(n, i);
    }

    /** Counting down to zero and running out of buckets both mean that all is moved. */
    lemma AllMoved(n: Dict<K, V>, i: nat)
      requires Rehashing(n, i, 0) && i <= size && (i == size || used == 0)
      ensures n.nodes == nodes && used == 0
    {
      hide KeyedIn, And, IsPow2, Ready, Linked;
      if i == size {
        forall e | e in nodes
          ensures e in n.nodes
        {
          var b := And(hash(e.key), sizemask);
          var l :| 0 <= l < |chains[b]| && chains[b][l] == e;
        }
      } else {
        SubsetCard(n.nodes, nodes);
      }
    }

    lemma StartRehash(n: Dict<K, V>)
      requires Valid() && n.Ready() && n.nodes == {} && n != this && n.table != table && n.hash == hash
      ensures Rehashing(n, 0, 0)
    {
      hide PlacedIn, KeyedIn, And, IsPow2, Ready;
      assert forall b :: 0 <= b < size ==> Linked(table[b], chains[b]);
    }

    /** Move every bucket, until the count says that nothing is left. */
    method MoveAll(n: Dict<K, V>)
      requires Rehashing(n, 0, 0)
      modifies this`used, n`chains, n`nodes, n.table, nodes`next
      ensures n.Ready() && n.nodes == nodes && used == 0
    {
      hide PlacedIn, KeyedIn, MovedIn, And, IsPow2, Ready, Linked, Intact;
      var i := 0;
      while i < size && used > 0
        invariant i <= size && Rehashing(n, i, 0)
      {
        MoveBucket(n, i);
        i := i + 1;
      }
      AllMoved(n, i);
    }

    /** Become the table that was filled. */
    method Adopt(n: Dict<K, V>)
      requires n.Ready() && n.nodes == nodes && n.used == |nodes| <= n.size && INITIAL_SIZE <= n.size && n.hash == hash
      modifies this
      ensures Valid() && nodes == old(nodes) && size == old(n.size) && table == old(n.table)
    {
      hide PlacedIn, KeyedIn, And, IsPow2, Linked;
      table, size, sizemask, used := n.table, n.size, n.sizemask, n.used;
      chains, nodes := n.chains, n.nodes;
    }

    /** Grow to hold `newSize` entries, relinking every node into the new array. */
    method Expand(newSize: nat) returns (ok: bool)
      requires Valid() && newSize < LONG_MAX
      modifies this, nodes`next
      ensures ok <==> old(used) <= newSize
      ensures Valid() && nodes == old(nodes) && Contents() == old(Contents())
      ensures !ok ==> size == old(size)
      ensures ok ==> fresh(table) && newSize <= size && (size == INITIAL_SIZE || size < 2 * newSize)
      ensures ok && IsPow2(newSize) && INITIAL_SIZE <= newSize ==> size == newSize
    {
      hide PlacedIn, KeyedIn, And, IsPow2, Linked, Rehashing, Wired, Ready, MapOf;
      var realsize := NextPower(newSize);
      if used > newSize { return false; }
      var n := new Dict.Sized(hash, realsize);
      n.used := used;
      StartRehash(n);
      MoveAll(n);
      Adopt(n);
      return true;
    }

    /** Create the first table, or double a full one. */
    method ExpandIfNeeded() returns (ok: bool)
      requires Valid() && 2 * size < LONG_MAX
      modifies this, nodes`next
      ensures ok && Valid() && used == old(used) < size && nodes == old(nodes) && Contents() == old(Contents())
      ensures table == old(table) || fresh(table)
      ensures size == if old(size) == 0 then INITIAL_SIZE else if old(used) == old(size) then 2 * old(size) else old(size)
    {
      hide PlacedIn, KeyedIn, And, Linked, Wired;
      if size == 0 {
        assert INITIAL_SIZE == Pow2(2);
        ok := Expand(INITIAL_SIZE);
      } else if used == size {
        DoublePow2(size);
        ok := Expand(size * 2);
      } else {
        ok := true;
      }
    }

    /** Adding an entry needs no more buckets than bucket numbers. */
    predicate Roomy()
      reads this
    {
      size < MAX_BUCKETS || (size == MAX_BUCKETS && used < size)
    }

    /** The bucket for a new key, or -1 when the key is there already. */
    method KeyIndex(key: K) returns (index: cint)
      requires Valid() && Roomy()
      modifies this, nodes`next
      ensures Valid() && used < size && nodes == old(nodes) && Contents() == old(Contents())
      ensures table == old(table) || fresh(table)
      ensures used == old(used)
      ensures size <= MAX_BUCKETS
      ensures index == if key in old(Contents()) then -1 else Bucket(key)
    {
      hide PlacedIn, KeyedIn, And, IsPow2, Linked, Wired, Contents;
      if 0 < size < MAX_BUCKETS {
        ManyBuckets();
        NextPow2(size, MAX_BUCKETS);
      }
      index := -1;
      var ok := ExpandIfNeeded();
      if !ok { return; }
      AndBelow(hash(key), size);
      var he := Search(key);
      if he == null { index := Bucket(key); }
    }

    /** Link a new entry, in a table with room for it. */
    method Insert(key: K, val: V)
      requires Valid() && used < size && key !in Contents()
      modifies this, table, nodes`next
      ensures Valid() && Contents() == old(Contents())[key := val] && fresh(nodes - old(nodes))
      ensures table == old(table) && size == old(size) && used == old(used) + 1
    {
      hide PlacedIn, KeyedIn, And, IsPow2, Linked, Wired, MapOf;
      Absent(nodes, key);
      var entry := new Entry(key, val);
      PushFront(entry);
      MapInsert(old(nodes), entry);
      used := used + 1;
    }

    /** Add an entry, unless its key is there already. */
    method Add(key: K, val: V) returns (ok: bool)
      requires Valid() && Roomy()
      modifies this, table, nodes`next
      ensures ok <==> key !in old(Contents())
      ensures Valid() && Contents() == if ok then old(Contents())[key := val] else old(Contents())
      ensures fresh(nodes - old(nodes)) && (table == old(table) || fresh(table))
      ensures size <= MAX_BUCKETS
      ensures used == old(used) + if ok then 1 else 0
    {
      hide PlacedIn, KeyedIn, And, IsPow2, Linked, Wired, Contents, Valid;
      var index := KeyIndex(key);
      if index == -1 { return false; }
      Insert(key, val);
      return true;
    }

    /** Add an entry or overwrite its value. */
    method Replace(key: K, val: V) returns (added: bool)
      requires Valid() && Roomy()
      modifies this, table, nodes
      ensures added <==> key !in old(Contents())
      ensures Valid() && Contents() == old(Contents())[key := val]
      ensures fresh(nodes - old(nodes)) && (table == old(table) || fresh(table))
      ensures size <= MAX_BUCKETS
      ensures used == old(used) + if added then 1 else 0
    {
      hide PlacedIn, And, IsPow2, Linked, Wired;
      added := Add(key, val);
      if added { return; }
      var entry := Find(key);
      entry.val := val;
    }

    lemma BucketLinks(h: nat, j: nat)
      requires Valid() && h < size && j < |chains[h]|
      ensures var c := chains[h];
              table[h] == c[0] && (forall k :: 0 <= k < |c| ==> c[k].next == NodeAt(c, k + 1)) && Distinct(c)
      ensures j > 0 ==> chains[h][j - 1] in nodes && forall b :: 0 <= b < size && b != h ==> chains[h][j - 1] !in chains[b]
    {
      hide And, IsPow2, KeyedIn;
      assert Linked(table[h], chains[h]) && Distinct(chains[h]);
      hide PlacedIn;
      if j > 0 {
        Member(chains, nodes, hash, sizemask, h, j - 1);
        OneBucket(chains, nodes, hash, sizemask, h, j - 1);
      }
    }

    lemma DropOk(h: nat, j: nat)
      requires Valid() && h < size && j < |chains[h]|
      ensures var c := chains[h]; var de := c[j];
              && PlacedIn(chains[h := Without(c, j)], nodes - {de}, hash, sizemask) && KeyedIn(nodes - {de})
              && MapOf(nodes - {de}) == MapOf(nodes) - {de.key} && de in nodes
    {
      hide And, IsPow2, MapOf, KeyedIn, Without, PlacedIn, Linked;
      Member(chains, nodes, hash, sizemask, h, j);
      PlaceDrop(chains, nodes, hash, sizemask, h, j);
      MapRemove(nodes, chains[h][j]);
    }

    /** Point the predecessor of a node, or the bucket, past it. */
    method Bypass(h: nat, ghost j: nat, prevde: Entry?<K, V>, de: Entry<K, V>)
      requires Valid() && h < size && j < |chains[h]| && de == chains[h][j]
      requires prevde == if j == 0 then null else chains[h][j - 1]
      modifies table, nodes`next
      ensures Linked(table[h], Without(chains[h], j))
      ensures forall b :: 0 <= b < size && b != h ==> Linked(table[b], chains[b])
    {
      hide PlacedIn, KeyedIn, And, IsPow2, Linked, MapOf, Without;
      BucketLinks(h, j);
      if prevde != null {
        prevde.next := de.next;
      } else {
        table[h] := de.next;
      }
      LinkDrop(table[h], chains[h], j);
    }

    /** Take a node out of its bucket, given the node before it. */
    method Unlink(h: nat, ghost j: nat, prevde: Entry?<K, V>, de: Entry<K, V>)
      requires Valid() && h < size && j < |chains[h]| && de == chains[h][j]
      requires prevde == if j == 0 then null else chains[h][j - 1]
      modifies this, table, nodes`next
      ensures Valid() && nodes == old(nodes) - {de} && chains == old(chains)[h := Without(old(chains[h]), j)]
      ensures table == old(table) && size == old(size) && used == old(used) - 1
      ensures Contents() == old(Contents()) - {de.key}
    {
      hide PlacedIn, KeyedIn, And, IsPow2, Linked, MapOf, Without;
      DropOk(h, j);
      Bypass(h, j, prevde, de);
      used := used - 1;
      chains := chains[h := Without(chains[h], j)];
      nodes := nodes - {de};
    }

    lemma NotInBucket(key: K)
      requires Ready() && Bucket(key) < size && forall e :: e in chains[Bucket(key)] ==> e.key != key
      ensures key !in Contents()
    {
    }

    /** Remove the entry with this key. */
    method Delete(key: K) returns (ok: bool, ghost h: nat, ghost at: nat)
      requires Valid()
      modifies this, table, nodes`next
      ensures ok <==> key in old(Contents())
      ensures Valid() && Contents() == old(Contents()) - {key}
      ensures table == old(table) && size == old(size) && nodes <= old(nodes)
      ensures used == old(used) - if ok then 1 else 0
      ensures ok ==> h < old(size) && at < |old(chains[h])| && old(chains[h])[at].key == key
      ensures ok ==> chains == old(chains)[h := Without(old(chains[h]), at)] && nodes == old(nodes) - {old(chains[h])[at]}
    {
      hide PlacedIn, KeyedIn, And, IsPow2;
      if size == 0 { return false, 0, 0; }
      AndBelow(hash(key), size);
      var b := Bucket(key);
      ghost var c: seq<Entry<K, V>> := chains[b];
      assert Linked(table[b], c);
      var de, prevde: Entry?<K, V> := table[b], null;
      ghost var j := 0;
      while de != null
        invariant j <= |c| && de == NodeAt(c, j) && prevde == if j == 0 then null else c[j - 1]
        invariant NoneBefore(c, j, key)
        decreases |c| - j
      {
        if de.key == key {
          Member(chains, nodes, hash, sizemask, b, j);
          Unlink(b, j, prevde, de);
          return true, b, j;
        }
        prevde := de;
        de := de.next;
        j := j + 1;
      }
      NotInBucket(key);
      return false, b, 0;
    }
  }

  ghost function KeysOf<K, V>(nodes: set<Entry<K, V>>): set<K> {
    set e | e in nodes :: e.key
  }

  lemma {:induction false} KeysCount<K, V>(nodes: set<Entry<K, V>>)
    requires KeyedIn(nodes)
    ensures |KeysOf(nodes)| == |nodes|
  {
    if nodes == {} {
      assert KeysOf(nodes) == {};
    } else {
      var x :| x in nodes;
      KeysCount(nodes - {x});
      assert KeysOf(nodes) == KeysOf(nodes - {x}) + {x.key};
    }
  }

  /** The count of the table is the size of its map. */
  lemma UsedIsSize<K(!new), V>(d: Dict<K, V>)
    requires d.Valid()
    ensures d.used == |d.Contents()|
  {
    KeysCount(d.nodes);
    assert d.Contents().Keys == KeysOf(d.nodes);
  }

  lemma {:induction false} SubsetCard<T>(a: set<T>, b: set<T>)
    requires a <= b
    ensures |a| <= |b|
    ensures |a| == |b| ==> a == b
  {
    if a != {} {
      var x :| x in a;
      SubsetCard(a - {x}, b - {x});
    }
  }

  lemma LinkFront<K, V>(e: Entry<K, V>, c: seq<Entry<K, V>>)
    requires Linked(e.next, c)
    ensures Linked(e, [e] + c)
  {
    assert forall j :: 0 < j <= |c| + 1 ==> NodeAt([e] + c, j) == NodeAt(c, j - 1);
  }

  datatype Op<K, V> = Add(key: K, val: V) | Replace(key: K, val: V) | Delete(key: K) | Find(key: K)

  datatype Answer<V> = Status(ok: bool) | Found(val: V) | Missing

  /** What an operation does to a map. */
  function Apply<K, V>(m: map<K, V>, op: Op<K, V>): map<K, V> {
    match op
    case Add(key, val) => if key in m then m else m[key := val]
    case Replace(key, val) => m[key := val]
    case Delete(key) => m - {key}
    case Find(_) => m
  }

  /** What an operation answers on a map. */
  function Reply<K, V>(m: map<K, V>, op: Op<K, V>): Answer<V> {
    match op
    case Add(key, _) => Status(key !in m)
    case Replace(key, _) => Status(key !in m)
    case Delete(key) => Status(key in m)
    case Find(key) => if key in m then Found(m[key]) else Missing
  }

  function ApplyAll<K, V>(m: map<K, V>, ops: seq<Op<K, V>>): map<K, V> {
    if ops == [] then m else Apply(ApplyAll(m, ops[..|ops| - 1]), ops[|ops| - 1])
  }

  function Replies<K, V>(m: map<K, V>, ops: seq<Op<K, V>>): seq<Answer<V>> {
    if ops == [] then [] else
    var before := ops[..|ops| - 1];
    Replies(m, before) + [Reply(ApplyAll(m, before), ops[|ops| - 1])]
  }

  /** `w` is `m` without the key. */
  ghost predicate IsWithout<K, V>(w: map<K, V>, m: map<K, V>, key: K) {
    w.Keys == m.Keys - {key} && forall k :: k in w ==> k in m && w[k] == m[k]
  }

  /** A run answers as its last operation would on what the operations before left. */
  lemma OneMore<K, V>(ops: seq<Op<K, V>>, op: Op<K, V>, m: map<K, V>, w: map<K, V>, before: seq<Answer<V>>, a: Answer<V>)
    requires m == ApplyAll(map[], ops) && w == ApplyAll(map[], ops + [op])
    requires before + [a] == Replies(map[], ops + [op])
    ensures ops == [] ==> m == map[]
    ensures before == Replies(map[], ops)
    ensures op.Add? ==> w == (if op.key in m then m else m[op.key := op.val]) && a == Status(op.key !in m)
    ensures op.Replace? ==> w == m[op.key := op.val] && a == Status(op.key !in m)
    ensures op.Delete? ==> IsWithout(w, m, op.key) && a == Status(op.key in m)
    ensures op.Find? ==> w == m && a == if op.key in m then Found(m[op.key]) else Missing
  {
    assert (ops + [op])[..|ops|] == ops;
    assert (before + [a])[..|before|] == before && (before + [a])[|before|] == a;
  }

  /** An operation that may need a bucket for a new entry. */
  predicate MayGrow<K, V>(op: Op<K, V>) {
    op.Add? || op.Replace?
  }

  method Perform<K(==, !new), V>(d: Dict<K, V>, op: Op<K, V>) returns (a: Answer<V>)
    requires d.Valid() && d.size <= MAX_BUCKETS && (MayGrow(op) ==> d.Roomy())
    modifies d, d.table, d.nodes
    ensures d.Valid() && d.Contents() == Apply(old(d.Contents()), op) && a == Reply(old(d.Contents()), op)
    ensures op.Add? ==> var m := old(d.Contents());
      a == Status(op.key !in m) && d.Contents() == if op.key in m then m else m[op.key := op.val]
    ensures op.Replace? ==> var m := old(d.Contents()); a == Status(op.key !in m) && d.Contents() == m[op.key := op.val]
    ensures op.Delete? ==> a == Status(op.key in old(d.Contents())) && IsWithout(d.Contents(), old(d.Contents()), op.key)
    ensures op.Find? ==> var m := old(d.Contents()); a == (if op.key in m then Found(m[op.key]) else Missing) && d.Contents() == m
    ensures fresh(d.nodes - old(d.nodes)) && (d.table == old(d.table) || fresh(d.table))
    ensures d.size <= MAX_BUCKETS
  {
    hide Dict.Valid, Dict.Contents;
    match op
    case Add(key, val) =>
      var ok := d.Add(key, val);
      return Status(ok);
    case Replace(key, val) =>
      var ok := d.Replace(key, val);
      return Status(ok);
    case Delete(key) =>
      var ok, _, _ := d.Delete(key);
      return Status(ok);
    case Find(key) =>
      var e := d.Find(key);
      return if e == null then Missing else Found(e.val);
  }

  /** Any sequence of operations answers as it would on a map, growth included, as
      long as the table holds fewer entries than an int can number. */
  method Run<K(==, !new), V>(hash: K -> nat, ops: seq<Op<K, V>>) returns (d: Dict<K, V>, answers: seq<Answer<V>>)
    requires forall i :: 0 <= i < |ops| && MayGrow(ops[i]) ==> |ApplyAll<K, V>(map[], ops[..i])| < MAX_BUCKETS
    ensures d.Valid() && d.Contents() == ApplyAll(map[], ops) && answers == Replies(map[], ops)
    ensures d.used == |ApplyAll<K, V>(map[], ops)|
  {
    hide Dict.Valid, Dict.Contents, Apply, Reply;
    d := new Dict(hash);
    answers := [];
    for i := 0 to |ops|
      invariant d.Valid() && d.Contents() == ApplyAll(map[], ops[..i]) && answers == Replies(map[], ops[..i])
      invariant fresh(d) && fresh(d.table) && fresh(d.nodes)
      invariant d.size <= MAX_BUCKETS
    {
      UsedIsSize(d);
      var a := Perform(d, ops[i]);
      answers := answers + [a];
      assert ops[..i + 1][..i] == ops[..i];
    }
    assert ops[..|ops|] == ops;
    UsedIsSize(d);
  }
}
