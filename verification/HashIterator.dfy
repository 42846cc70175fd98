/**
 The iterator of dict.c, which remembers the successor of the entry it returned
 so that its user may delete that entry.
 */
module HashIterator {
  import opened HashTable
  import opened CTypes
  import Bits

  /** The nodes from bucket `i` on, in the order of the table. */
  ghost function Flat<K, V>(chains: seq<seq<Entry<K, V>>>, i: nat): seq<Entry<K, V>>
    decreases |chains| - i
  {
    if i < |chains| then chains[i] + Flat(chains, i + 1) else []
  }

  /** A change in an earlier bucket does not show. */
  lemma {:induction false} FlatSame<K, V>(a: seq<seq<Entry<K, V>>>, b: seq<seq<Entry<K, V>>>, i: nat)
    requires |a| == |b| && forall k :: i <= k < |a| ==> a[k] == b[k]
    ensures Flat(a, i) == Flat(b, i)
    decreases |a| - i
  {
    if i < |a| { FlatSame(a, b, i + 1); }
  }

  lemma {:induction false} FlatMembers<K(!new), V>(chains: seq<seq<Entry<K, V>>>, nodes: set<Entry<K, V>>,
                                                   hash: K -> nat, mask: nat, i: nat)
    requires PlacedIn(chains, nodes, hash, mask)
    ensures forall e :: e in Flat(chains, i) ==> e in nodes && Bits.And(hash(e.key), mask) >= i
    ensures forall e :: e in nodes && Bits.And(hash(e.key), mask) >= i ==> e in Flat(chains, i)
    ensures Distinct(Flat(chains, i))
    decreases |chains| - i
  {
    if i < |chains| {
      FlatMembers(chains, nodes, hash, mask, i + 1);
      var c, r := chains[i], Flat(chains, i + 1);
      assert Distinct(c);
      assert forall e :: e in c ==> Bits.And(hash(e.key), mask) == i;
      assert forall k, l :: 0 <= k < |c| && 0 <= l < |r| ==> c[k] in c && r[l] in r;
    }
  }

  /** Bucket by bucket, from the first to the last. */
  ghost predicate InBucketOrder<K(!new), V>(es: seq<Entry<K, V>>, hash: K -> nat, mask: nat) {
    forall k, l :: 0 <= k < l < |es| ==> Bits.And(hash(es[k].key), mask) <= Bits.And(hash(es[l].key), mask)
  }

  lemma {:induction false} FlatOrdered<K(!new), V>(chains: seq<seq<Entry<K, V>>>, nodes: set<Entry<K, V>>,
                                                   hash: K -> nat, mask: nat, i: nat)
    requires PlacedIn(chains, nodes, hash, mask)
    ensures InBucketOrder(Flat(chains, i), hash, mask)
    decreases |chains| - i
  {
    hide Bits.And;
    if i < |chains| {
      FlatOrdered(chains, nodes, hash, mask, i + 1);
      FlatMembers(chains, nodes, hash, mask, i + 1);
      var c, r := chains[i], Flat(chains, i + 1);
      assert forall e :: e in c ==> Bits.And(hash(e.key), mask) == i;
      forall k, l | 0 <= k < l < |c + r|
        ensures Bits.And(hash((c + r)[k].key), mask) <= Bits.And(hash((c + r)[l].key), mask)
      {
        if l < |c| {
          assert c[k] in c && c[l] in c;
        } else if k < |c| {
          assert c[k] in c && r[l - |c|] in r;
        } else {
          assert (c + r)[k] == r[k - |c|] && (c + r)[l] == r[l - |c|];
        }
      }
    }
  }

  /** The nodes from node `j` of bucket `i` on. */
  ghost function Rest<K, V>(chains: seq<seq<Entry<K, V>>>, i: nat, j: nat): seq<Entry<K, V>>
    requires i < |chains| && j <= |chains[i]|
  {
    chains[i][j..] + Flat(chains, i + 1)
  }

  lemma FlatStep<K, V>(chains: seq<seq<Entry<K, V>>>, i: nat)
    ensures i >= |chains| ==> Flat(chains, i) == []
    ensures i < |chains| ==> Flat(chains, i) == Rest(chains, i, 0)
  {
  }

  lemma RestStep<K, V>(chains: seq<seq<Entry<K, V>>>, i: nat, j: nat)
    requires i < |chains| && j <= |chains[i]|
    ensures j == |chains[i]| ==> Rest(chains, i, j) == Flat(chains, i + 1)
    ensures j < |chains[i]| ==> Rest(chains, i, j) == [chains[i][j]] + Rest(chains, i, j + 1)
  {
    if j < |chains[i]| {
      assert chains[i][j..] == [chains[i][j]] + chains[i][j + 1..];
    } else {
      assert chains[i][j..] == [];
    }
  }

  lemma {:induction false} ManyBits(k: nat)
    requires k >= 32
    ensures Low32(Bits.Pow2(k)) == 0
  {
    if k == 32 {
      assert Bits.Pow2(8) == 0x100;
      assert Bits.Pow2(16) == 0x1_0000;
      assert Bits.Pow2(24) == 0x100_0000;
      assert Bits.Pow2(32) == UINT32;
    } else {
      ManyBits(k - 1);
    }
  }

  /** A table size that does not fit an int converts to nothing or less. */
  lemma HugeTable(size: nat)
    requires Bits.IsPow2(size) && size > INT_MAX
    ensures AsInt(size) <= 0
  {
    var k: nat :| size == Bits.Pow2(k);
    if size > MAX_BUCKETS {
      ManyBuckets();
      if k <= 31 { Bits.Pow2Grows(k, 31); }
      ManyBits(k);
    }
  }

  /** The entries an iterator will return. */
  ghost function Visible<K(!new), V>(d: Dict<K, V>): seq<Entry<K, V>>
    reads d
  {
    if d.size <= INT_MAX then Flat(d.chains, 0) else []
  }

  class Iterator<K(==, !new), V> {
    const ht: Dict<K, V>
    var index: int
    var entry: Entry?<K, V>
    var nextEntry: Entry?<K, V>
    ghost var pos: nat

    /** `nextEntry` is the node to come in the bucket of the last entry. A table
        whose size does not fit an int looks empty to the iterator. */
    ghost predicate Valid()
      reads this, ht`chains, ht`size
    {
      && -1 <= index && |ht.chains| == ht.size
      && (ht.size > INT_MAX ==> entry == null)
      && (entry != null ==> 0 <= index < ht.size && pos <= |ht.chains[index]| && nextEntry == NodeAt(ht.chains[index], pos))
    }

    /** The nodes still to be returned. */
    ghost function Todo(): seq<Entry<K, V>>
      requires Valid()
      reads this, ht`chains, ht`size
    {
      if ht.size > INT_MAX then []
      else if entry == null then Flat(ht.chains, index + 1)
      else Rest(ht.chains, index, pos)
    }

    constructor (ht: Dict<K, V>)
      requires ht.Valid()
      ensures Valid() && this.ht == ht && Todo() == Visible(ht)
    {
      this.ht := ht;
      index, entry, nextEntry := -1, null, null;
    }

    /** Go to the saved successor, or to the next bucket after the end of one. */
    method Advance() returns (more: bool)
      requires ht.Valid() && Valid()
      modifies `index, `entry, `pos
      ensures !more ==> Valid() && old(Todo()) == [] && Todo() == []
      ensures more ==> 0 <= index < ht.size <= INT_MAX && pos <= |ht.chains[index]| && entry == NodeAt(ht.chains[index], pos)
      ensures more ==> old(Todo()) == Rest(ht.chains, index, pos)
      ensures if old(entry) == null then index == old(index) + 1 else index == old(index)
    {
      hide PlacedIn, KeyedIn, Bits.And, Bits.IsPow2, Flat, Rest;
      if entry != null {
        entry := nextEntry;
        return true;
      }
      index := index + 1;
      FlatStep(ht.chains, index);
      FlatStep(ht.chains, index + 1);
      if ht.size > INT_MAX { HugeTable(ht.size); }
      if index >= AsInt(ht.size) { return false; }
      assert Linked(ht.table[index], ht.chains[index]);
      entry := ht.table[index];
      pos := 0;
      return true;
    }

    /** Save the successor: the user may delete the entry being returned. */
    method Save()
      requires ht.Valid() && 0 <= index < ht.size <= INT_MAX && pos < |ht.chains[index]| && entry == ht.chains[index][pos]
      modifies `nextEntry, `pos
      ensures Valid() && pos == old(pos) + 1
    {
      hide PlacedIn, KeyedIn, Bits.And, Bits.IsPow2;
      assert Linked(ht.table[index], ht.chains[index]);
      nextEntry := entry.next;
      pos := pos + 1;
    }

    /** The next entry, or null at the end. */
    method Next() returns (r: Entry?<K, V>)
      requires ht.Valid() && Valid()
      modifies this
      ensures Valid()
      ensures r == null ==> old(Todo()) == [] && Todo() == []
      ensures r != null ==> old(Todo()) == [r] + Todo()
      ensures r != null ==> r == entry && 0 < pos && ht.chains[index][pos - 1] == r
    {
      hide Flat, Rest, Dict.Valid;
      while true
        invariant Valid() && Todo() == old(Todo())
        decreases ht.size - index, entry != null
      {
        var more := Advance();
        if !more { return null; }
        RestStep(ht.chains, index, pos);
        if entry != null {
          Save();
          return entry;
        }
      }
    }

    /** Delete the entry that was just returned. */
    method DeleteCurrent()
      requires ht.Valid() && Valid() && entry != null && 0 < pos && ht.chains[index][pos - 1] == entry
      modifies `pos, ht, ht.table, ht.nodes`next
      ensures ht.size == old(ht.size)
      ensures ht.Valid() && Valid() && Todo() == old(Todo())
      ensures ht.nodes == old(ht.nodes) - {entry} && ht.Contents() == old(ht.Contents()) - {entry.key}
      ensures ht.table == old(ht.table)
    {
      hide Flat, Rest, Without, Dict.Valid, Dict.Contents;
      ghost var j := pos - 1;
      Unique(ht, index, j);
      RestDrop(ht.chains, index, j);
      var ok, h, at := ht.Delete(entry.key);
      pos := j;
    }
  }

  /** A key names one node. */
  lemma Unique<K(!new), V>(d: Dict<K, V>, b: nat, j: nat)
    requires d.Valid() && b < |d.chains| && j < |d.chains[b]|
    ensures d.chains[b][j].key in d.Contents()
    ensures forall h, l :: 0 <= h < |d.chains| && 0 <= l < |d.chains[h]| && d.chains[h][l].key == d.chains[b][j].key ==>
                             h == b && l == j
  {
    hide PlacedIn, Bits.And, Bits.IsPow2, Linked;
    Member(d.chains, d.nodes, d.hash, d.sizemask, b, j);
    forall h, l | 0 <= h < |d.chains| && 0 <= l < |d.chains[h]| && d.chains[h][l].key == d.chains[b][j].key
      ensures h == b && l == j
    {
      Member(d.chains, d.nodes, d.hash, d.sizemask, h, l);
      PlacedOnce(d.chains, d.nodes, d.hash, d.sizemask, b, j, h, l);
    }
  }

  /** Deleting the node before a position leaves what follows. */
  lemma RestDrop<K, V>(chains: seq<seq<Entry<K, V>>>, i: nat, j: nat)
    requires i < |chains| && j < |chains[i]|
    ensures Rest(chains[i := Without(chains[i], j)], i, j) == Rest(chains, i, j + 1)
    ensures NodeAt(Without(chains[i], j), j) == NodeAt(chains[i], j + 1)
  {
    FlatSame(chains, chains[i := Without(chains[i], j)], i + 1);
    assert Without(chains[i], j)[j..] == chains[i][j + 1..];
  }

  lemma AllNodes<K(!new), V>(d: Dict<K, V>)
    requires d.Valid()
    ensures Distinct(Flat(d.chains, 0)) && (set e | e in Flat(d.chains, 0)) == d.nodes
    ensures InBucketOrder(Flat(d.chains, 0), d.hash, d.sizemask)
  {
    FlatOrdered(d.chains, d.nodes, d.hash, d.sizemask, 0);
    FlatMembers(d.chains, d.nodes, d.hash, d.sizemask, 0);
  }

  /** The keys that were visited and dropped. */
  ghost function Dropped<K, V>(visited: seq<Entry<K, V>>, drop: K -> bool): set<K> {
    set e | e in visited && drop(e.key) :: e.key
  }

  lemma DroppedSnoc<K, V>(visited: seq<Entry<K, V>>, drop: K -> bool, e: Entry<K, V>)
    ensures Dropped(visited + [e], drop) == Dropped(visited, drop) + if drop(e.key) then {e.key} else {}
  {
  }

  lemma Assoc<T>(a: seq<T>, e: T, b: seq<T>)
    ensures a + ([e] + b) == a + [e] + b
  {
  }

  /** A map without the chosen keys. */
  ghost function Spared<K, V>(m: map<K, V>, drop: K -> bool): map<K, V> {
    map k | k in m && !drop(k) :: m[k]
  }

  /** What is spared are the entries that were not chosen, with their values. */
  lemma SparedKeys<K, V>(m: map<K, V>, drop: K -> bool)
    ensures forall k :: k in Spared(m, drop) <==> k in m && !drop(k)
    ensures forall k :: k in Spared(m, drop) ==> Spared(m, drop)[k] == m[k]
  {
  }

  /** What a sweep finds and leaves, by the size of the table. */
  lemma VisibleNodes<K(!new), V>(d: Dict<K, V>, drop: K -> bool)
    requires d.Valid()
    ensures d.size <= INT_MAX ==> Distinct(Visible(d)) && (set e | e in Visible(d)) == d.nodes
    ensures InBucketOrder(Visible(d), d.hash, d.sizemask)
    ensures d.Contents() - Dropped(Visible(d), drop) == if d.size <= INT_MAX then Spared(d.Contents(), drop) else d.Contents()
    ensures Dropped<K, V>([], drop) == {}
  {
    AllNodes(d);
    if d.size <= INT_MAX {
      var m := MapOf(d.nodes);
      forall k | k in m
        ensures k in Dropped(Visible(d), drop) <==> drop(k)
      {
        var e :| e in d.nodes && e.key == k;
        assert e in Visible(d);
      }
    }
  }

  /** Iterating over a table while deleting chosen entries visits each entry once
      and in bucket order, exactly when the table's size fits an int; a larger
      table is not visited at all. */
  method Sweep<K(==, !new), V>(d: Dict<K, V>, drop: K -> bool) returns (visited: seq<Entry<K, V>>)
    requires d.Valid()
    modifies d, d.table, d.nodes`next
    ensures d.Valid() && visited == old(Visible(d))
    ensures old(d.size) <= INT_MAX ==> Distinct(visited) && (set e | e in visited) == old(d.nodes)
    ensures InBucketOrder(visited, d.hash, old(d.sizemask))
    ensures d.Contents() == if old(d.size) <= INT_MAX then Spared(old(d.Contents()), drop) else old(d.Contents())
  {
    hide Dict.Valid, Dict.Contents, Iterator.Todo, Flat, Dropped, Distinct, MapOf, Visible, Spared, InBucketOrder, Iterator.Valid;
    var it := new Iterator(d);
    VisibleNodes(d, drop);
    visited := [];
    while true
      invariant d.Valid() && it.Valid() && it.ht == d && d.table == old(d.table) && d.nodes <= old(d.nodes)
      invariant visited + it.Todo() == old(Visible(d))
      invariant d.Contents() == old(d.Contents()) - Dropped(visited, drop)
      decreases |it.Todo()|
    {
      var e := it.Next();
      if e == null { break; }
      DroppedSnoc(visited, drop, e);
      Assoc(visited, e, it.Todo());
      visited := visited + [e];
      if drop(e.key) { it.DeleteCurrent(); }
    }
    assert visited + [] == visited;
  }
}
