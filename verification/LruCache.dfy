/**
 The LRU cache (echion/cache.h).  A node stands for a list node: the index holds
 nodes, as the original holds iterators, and a reference to a cached value is a
 reference to its node.
 */
module LruCache {
  import opened Seqs
  import opened Wrappers

  class Node<K, V> {
    const key: K
    const value: V

    constructor (key: K, value: V)
      ensures this.key == key && this.value == value
    {
      this.key, this.value := key, value;
    }
  }

  datatype Entry<K, V> = Entry(key: K, value: V)

  /** The list has no node twice, and the index maps exactly its keys, each to its own node. */
  ghost predicate Indexed<K, V>(items: seq<Node<K, V>>, index: map<K, Node<K, V>>) {
    && (forall i, j :: 0 <= i < j < |items| ==> items[i] != items[j])
    && (forall n :: n in items ==> n.key in index && index[n.key] == n)
    && (forall k :: k in index ==> index[k] in items && index[k].key == k)
  }

  ghost function EntriesOf<K, V>(items: seq<Node<K, V>>): (es: seq<Entry<K, V>>)
    ensures |es| == |items|
    ensures forall i :: 0 <= i < |items| ==> es[i] == Entry(items[i].key, items[i].value)
  {
    seq(|items|, i requires 0 <= i < |items| => Entry(items[i].key, items[i].value))
  }

  lemma EntriesAreWellFormed<K, V>(items: seq<Node<K, V>>, index: map<K, Node<K, V>>)
    requires Indexed(items, index)
    ensures DistinctKeys(EntriesOf(items))
    ensures forall k :: k in index <==> Holds(EntriesOf(items), k)
  {
    forall k | k in index
      ensures Holds(EntriesOf(items), k)
    {
      var i :| 0 <= i < |items| && items[i] == index[k];
      assert EntriesOf(items)[i].key == k;
    }
  }

  lemma LookupMisses<K, V>(items: seq<Node<K, V>>, index: map<K, Node<K, V>>, k: K)
    requires Indexed(items, index) && k !in index
    ensures !Holds(EntriesOf(items), k) && Touched(EntriesOf(items), k) == EntriesOf(items)
  {
    EntriesAreWellFormed(items, index);
    MissTouchesNothing(EntriesOf(items), k);
  }

  lemma LookupHits<K, V>(items: seq<Node<K, V>>, index: map<K, Node<K, V>>, k: K, i: nat)
    requires Indexed(items, index) && k in index && i < |items| && items[i] == index[k]
    ensures Holds(EntriesOf(items), k) && items[i].key == k
    ensures Indexed(Splice(items, i), index) && |Splice(items, i)| == |items|
    ensures EntriesOf(Splice(items, i)) == Touched(EntriesOf(items), k)
  {
    EntriesAreWellFormed(items, index);
    SpliceKeepsIndexed(items, index, i);
    SpliceTouches(items, i);
  }

  lemma DropLastKeepsIndexed<K, V>(items: seq<Node<K, V>>, index: map<K, Node<K, V>>)
    requires Indexed(items, index) && items != []
    ensures Indexed(items[..|items| - 1], index - {items[|items| - 1].key})
    ensures EntriesOf(items[..|items| - 1]) == EntriesOf(items)[..|items| - 1]
  {
    var last, kept := items[|items| - 1], items[..|items| - 1];
    forall n | n in kept
      ensures n.key != last.key
    {
      assert n in items && last in items;
    }
    assert items == kept + [last];
  }

  lemma PushFrontKeepsIndexed<K, V>(items: seq<Node<K, V>>, index: map<K, Node<K, V>>, node: Node<K, V>)
    requires Indexed(items, index) && node !in items && node.key !in index
    ensures Indexed([node] + items, index[node.key := node])
    ensures EntriesOf([node] + items) == [Entry(node.key, node.value)] + EntriesOf(items)
  {
  }

  /** Where in the list an iterator points. */
  function PositionOf<K, V>(items: seq<Node<K, V>>, node: Node<K, V>): (i: nat)
    requires node in items
    ensures i < |items| && items[i] == node
  {
    if items[0] == node then 0 else 1 + PositionOf(items[1..], node)
  }

  class LRUCache<K(==), V> {
    const capacity: nat
    var items: seq<Node<K, V>>
    var index: map<K, Node<K, V>>

    ghost predicate Valid()
      reads this
    {
      1 <= capacity && |items| <= capacity && Indexed(items, index)
    }

    ghost function Entries(): seq<Entry<K, V>>
      reads this
    {
      EntriesOf(items)
    }

    constructor (capacity: nat)
      requires 1 <= capacity
      ensures Valid() && this.capacity == capacity && Entries() == []
    {
      this.capacity := capacity;
      items, index := [], map[];
    }

    /** `at` is where a hit was found. */
    method Lookup(k: K) returns (r: Option<Node<K, V>>, ghost at: nat)
      requires Valid()
      modifies this`items
      ensures Valid()
      ensures Entries() == Touched(old(Entries()), k)
      ensures r.Some? <==> Holds(old(Entries()), k)
      ensures r.Some? ==> at < |old(items)| && r.value == old(items)[at] && r.value.key == k
      ensures r.Some? ==> items == Splice(old(items), at)
      ensures r.None? ==> items == old(items)
    {
      if k !in index {
        LookupMisses(items, index, k);
        return None, 0;
      }
      var node := index[k];
      var i := PositionOf(items, node);
      LookupHits(items, index, k, i);
      items := Splice(items, i);
      return Some(node), i;
    }

    method Store(k: K, v: V) returns (node: Node<K, V>)
      requires Valid() && k !in index
      modifies this
      ensures Valid()
      ensures Entries() == Stored(old(Entries()), capacity, Entry(k, v))
      ensures fresh(node) && node.key == k && node.value == v
      ensures items == [node] + if |old(items)| >= capacity then old(items)[..|old(items)| - 1] else old(items)
    {
      hide Indexed, EntriesOf;
      if |items| >= capacity {
        DropLastKeepsIndexed(items, index);
        index := index - {items[|items| - 1].key};
        items := items[..|items| - 1];
      }
      node := new Node(k, v);
      PushFrontKeepsIndexed(items, index, node);
      items := [node] + items;
      index := index[k := items[0]];
    }
  }

  /** The list with the element at `i` moved to the front. */
  function Splice<T>(s: seq<T>, i: nat): (r: seq<T>)
    requires i < |s|
    ensures |r| == |s| && forall j :: 0 <= j < |r| ==> r[j] == s[if j == 0 then i else if j <= i then j - 1 else j]
  {
    [s[i]] + RemoveAt(s, i)
  }

  lemma SplicePermutes<T>(s: seq<T>, i: nat)
    requires i < |s|
    requires forall j, k :: 0 <= j < k < |s| ==> s[j] != s[k]
    ensures var r := Splice(s, i);
            && (forall x :: x in r <==> x in s)
            && (forall j, k :: 0 <= j < k < |r| ==> r[j] != r[k])
  {
    var r := Splice(s, i);
    forall j | 0 <= j < |s|
      ensures s[j] in r
    {
      assert r[if j == i then 0 else if j < i then j + 1 else j] == s[j];
    }
  }

  lemma SpliceKeepsIndexed<K, V>(items: seq<Node<K, V>>, index: map<K, Node<K, V>>, i: nat)
    requires Indexed(items, index) && i < |items|
    ensures Indexed(Splice(items, i), index)
    ensures forall n :: n in Splice(items, i) <==> n in items
  {
    SplicePermutes(items, i);
  }

  lemma SpliceTouches<K, V>(items: seq<Node<K, V>>, i: nat)
    requires DistinctKeys(EntriesOf(items)) && i < |items|
    ensures EntriesOf(Splice(items, i)) == Touched(EntriesOf(items), items[i].key)
  {
    PositionIs(EntriesOf(items), items[i].key, i);
    var es, fs := EntriesOf(Splice(items, i)), Splice(EntriesOf(items), i);
    forall j | 0 <= j < |es|
      ensures es[j] == fs[j]
    {
    }
  }

  // ---------------------------------------------------------------------
  // Specification on entries

  predicate Holds<K(==), V>(es: seq<Entry<K, V>>, k: K) {
    exists i :: 0 <= i < |es| && es[i].key == k
  }

  ghost predicate DistinctKeys<K, V>(es: seq<Entry<K, V>>) {
    forall i, j :: 0 <= i < j < |es| ==> es[i].key != es[j].key
  }

  ghost predicate WellFormed<K, V>(es: seq<Entry<K, V>>, capacity: nat) {
    1 <= capacity && |es| <= capacity && DistinctKeys(es)
  }

  /** The first place from `i` on that holds `k`; `|es|` if there is none. */
  function PositionFrom<K(==), V>(es: seq<Entry<K, V>>, k: K, i: nat): (p: nat)
    requires i <= |es|
    ensures i <= p <= |es| && (p < |es| ==> es[p].key == k)
    ensures forall j :: i <= j < p ==> es[j].key != k
    decreases |es| - i
  {
    if i == |es| || es[i].key == k then i else PositionFrom(es, k, i + 1)
  }

  function Position<K(==), V>(es: seq<Entry<K, V>>, k: K): (p: nat)
    ensures p <= |es| && (p < |es| ==> es[p].key == k)
    ensures forall j :: 0 <= j < p ==> es[j].key != k
  {
    PositionFrom(es, k, 0)
  }

  lemma PositionIs<K, V>(es: seq<Entry<K, V>>, k: K, i: nat)
    requires DistinctKeys(es) && i < |es| && es[i].key == k
    ensures Position(es, k) == i
  {
  }

  /** A lookup moves the entry it finds to the front. */
  function Touched<K(==), V>(es: seq<Entry<K, V>>, k: K): seq<Entry<K, V>> {
    var i := Position(es, k);
    if i < |es| then Splice(es, i) else es
  }

  lemma MissTouchesNothing<K, V>(es: seq<Entry<K, V>>, k: K)
    requires !Holds(es, k)
    ensures Touched(es, k) == es
  {
  }

  /** A store drops the last entry of a full list. */
  function Stored<K, V>(es: seq<Entry<K, V>>, capacity: nat, e: Entry<K, V>): seq<Entry<K, V>>
    requires 1 <= capacity
  {
    [e] + if |es| >= capacity then es[..|es| - 1] else es
  }
}
