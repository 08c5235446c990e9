/** What an LRU cache is: a list of distinct keys with values, most recently used first. */
module LruSpec {
  import opened Wrappers

  datatype Entry<K, V> = Entry(key: K, value: V)

  predicate Has<K(==), V>(l: seq<Entry<K, V>>, key: K) {
    l != [] && (l[0].key == key || Has(l[1..], key))
  }

  function Lookup<K(==), V>(l: seq<Entry<K, V>>, key: K): Option<V> {
    if l == [] then None else if l[0].key == key then Some(l[0].value) else Lookup(l[1..], key)
  }

  /** The list without the entry of `key`. */
  function Without<K(==), V>(l: seq<Entry<K, V>>, key: K): (r: seq<Entry<K, V>>)
    ensures |r| <= |l|
  {
    if l == [] then [] else if l[0].key == key then Without(l[1..], key) else [l[0]] + Without(l[1..], key)
  }

  function PopBack<T>(s: seq<T>): (r: seq<T>)
    requires s != []
    ensures |r| == |s| - 1
  {
    s[..|s| - 1]
  }

  function Get<K(==), V>(l: seq<Entry<K, V>>, key: K): seq<Entry<K, V>> {
    match Lookup(l, key)
    case Some(v) => [Entry(key, v)] + Without(l, key)
    case None => l
  }

  function Put<K(==), V>(capacity: nat, l: seq<Entry<K, V>>, key: K, value: V): seq<Entry<K, V>> {
    if capacity == 0 then l
    else if Has(l, key) then [Entry(key, value)] + Without(l, key)
    else [Entry(key, value)] + if |l| == capacity then PopBack(l) else l
  }

  ghost predicate Distinct<K, V>(l: seq<Entry<K, V>>) {
    forall i, j :: 0 <= i < j < |l| ==> l[i].key != l[j].key
  }
}

/** The cache: a linked list of nodes with stable identities and an index from keys to nodes. */
module LruCache {
  import opened HashTable
  import opened LruSpec
  import opened Wrappers

  /** The identity of a list node, which is what an iterator holds on to. */
  type NodeId = nat

  /** Where a node is linked. */
  function Position(order: seq<NodeId>, node: NodeId): (p: nat)
    requires node in order
    ensures p < |order| && order[p] == node
  {
    if order[0] == node then 0 else 1 + Position(order[1..], node)
  }

  /** Unlinking a node leaves the other nodes in order. */
  function Unlink(order: seq<NodeId>, node: NodeId): (r: seq<NodeId>)
    requires node in order
    ensures |r| == |order| - 1
  {
    var p := Position(order, node);
    order[..p] + order[p + 1..]
  }

  /** What the listed nodes hold, in order. */
  ghost function Entries<K, V>(order: seq<NodeId>, nodes: map<NodeId, Entry<K, V>>): (l: seq<Entry<K, V>>)
    requires forall id <- order :: id in nodes
    ensures |l| == |order| && forall i :: 0 <= i < |l| ==> l[i] == nodes[order[i]]
  {
    seq(|order|, i requires 0 <= i < |order| => nodes[order[i]])
  }

  lemma {:induction false} WithoutAbsent<K, V>(l: seq<Entry<K, V>>, key: K)
    requires forall i :: 0 <= i < |l| ==> l[i].key != key
    ensures Without(l, key) == l && !Has(l, key) && Lookup(l, key) == None
  {
    if l != [] {
      WithoutAbsent(l[1..], key);
    }
  }

  /** In a list of distinct keys only the entry at `p` has that key. */
  lemma {:induction false} WithoutAt<K, V>(l: seq<Entry<K, V>>, p: nat)
    requires Distinct(l) && p < |l|
    ensures Without(l, l[p].key) == l[..p] + l[p + 1..]
    ensures Has(l, l[p].key) && Lookup(l, l[p].key) == Some(l[p].value)
  {
    if p == 0 {
      WithoutAbsent(l[1..], l[0].key);
    } else {
      WithoutAt(l[1..], p - 1);
      assert l[1..][..p - 1] == l[1..p] && l[1..][p..] == l[p + 1..];
      assert [l[0]] + l[1..p] == l[..p];
    }
  }

  // ---------------------------------------------------------------- list and index agree

  /** The index maps exactly the listed keys, each to the node that carries it. */
  ghost predicate Agree<K, V>(order: seq<NodeId>, nodes: map<NodeId, Entry<K, V>>, index: map<K, NodeId>) {
    && |index| == |order|
    && (forall i :: 0 <= i < |order| ==>
          order[i] in nodes && nodes[order[i]].key in index && index[nodes[order[i]].key] == order[i])
    && (forall i, j :: 0 <= i < j < |order| ==> order[i] != order[j])
    && (forall key :: key in index ==> index[key] in order && index[key] in nodes && nodes[index[key]].key == key)
  }

  lemma AgreeDistinct<K, V>(order: seq<NodeId>, nodes: map<NodeId, Entry<K, V>>, index: map<K, NodeId>)
    requires Agree(order, nodes, index)
    ensures Distinct(Entries(order, nodes))
  {
  }

  lemma UnlinkEntries<K, V>(order: seq<NodeId>, nodes: map<NodeId, Entry<K, V>>, node: NodeId)
    requires node in order && forall id <- order :: id in nodes
    ensures var l, p := Entries(order, nodes), Position(order, node);
            && (forall id <- Unlink(order, node) :: id in nodes)
            && Entries(Unlink(order, node), nodes) == l[..p] + l[p + 1..]
  {
    hide Position;
  }

  lemma IndexedPresent<K, V>(order: seq<NodeId>, nodes: map<NodeId, Entry<K, V>>, index: map<K, NodeId>, key: K)
    requires Agree(order, nodes, index) && key in index
    ensures index[key] in order && index[key] in nodes && nodes[index[key]].key == key
    ensures Has(Entries(order, nodes), key) && Lookup(Entries(order, nodes), key) == Some(nodes[index[key]].value)
    ensures forall id <- Unlink(order, index[key]) :: id in nodes
    ensures Entries(Unlink(order, index[key]), nodes) == Without(Entries(order, nodes), key)
  {
    AgreeDistinct(order, nodes, index);
    UnlinkEntries(order, nodes, index[key]);
    hide Position, Without, Has, Lookup, Distinct, Unlink;
    WithoutAt(Entries(order, nodes), Position(order, index[key]));
  }

  /** What looking a key up in the index tells about the list. */
  lemma Indexed<K, V>(order: seq<NodeId>, nodes: map<NodeId, Entry<K, V>>, index: map<K, NodeId>, key: K)
    requires Agree(order, nodes, index)
    ensures var l := Entries(order, nodes);
            && (key in index <==> Has(l, key))
            && (key !in index ==> Without(l, key) == l && Lookup(l, key) == None)
            && (key in index ==>
                  && index[key] in order && index[key] in nodes && nodes[index[key]].key == key
                  && Lookup(l, key) == Some(nodes[index[key]].value)
                  && Entries(Unlink(order, index[key]), nodes) == Without(l, key))
  {
    hide Without, Has, Lookup, Unlink;
    if key in index {
      IndexedPresent(order, nodes, index, key);
    } else {
      WithoutAbsent(Entries(order, nodes), key);
    }
  }

  lemma UnlinkIndex(order: seq<NodeId>, node: NodeId, i: nat)
    requires node in order && i < |order| - 1
    ensures Unlink(order, node)[i] == order[if i < Position(order, node) then i else i + 1]
  {
  }

  lemma UnlinkAgrees<K, V>(order: seq<NodeId>, nodes: map<NodeId, Entry<K, V>>, index: map<K, NodeId>, node: NodeId)
    requires Agree(order, nodes, index) && node in order
    ensures Agree(Unlink(order, node), nodes, index - {nodes[node].key})
  {
  }

  lemma LinkAgrees<K, V>(order: seq<NodeId>, nodes: map<NodeId, Entry<K, V>>, index: map<K, NodeId>, node: NodeId)
    requires Agree(order, nodes, index)
    requires node in nodes && node !in order && nodes[node].key !in index
    ensures Agree([node] + order, nodes, index[nodes[node].key := node])
  {
  }

  lemma LinkEntries<K, V>(order: seq<NodeId>, nodes: map<NodeId, Entry<K, V>>, index: map<K, NodeId>, node: NodeId)
    requires Agree(order, nodes, index) && node in nodes
    ensures forall id <- [node] + order :: id in nodes
    ensures Entries([node] + order, nodes) == [nodes[node]] + Entries(order, nodes)
  {
  }

  lemma AgreeSize<K, V>(order: seq<NodeId>, nodes: map<NodeId, Entry<K, V>>, index: map<K, NodeId>)
    requires Agree(order, nodes, index)
    ensures |index| == |order| == |Entries(order, nodes)|
  {
  }

  /** A node that is not linked does not matter. */
  lemma FreshNode<K, V>(order: seq<NodeId>, nodes: map<NodeId, Entry<K, V>>, index: map<K, NodeId>, node: NodeId, e: Entry<K, V>)
    requires Agree(order, nodes, index) && node !in nodes
    ensures node !in order && Agree(order, nodes[node := e], index)
    ensures Entries(order, nodes[node := e]) == Entries(order, nodes)
  {
  }

  /** Splicing a node to the front. */
  lemma TouchAgrees<K, V>(order: seq<NodeId>, nodes: map<NodeId, Entry<K, V>>, index: map<K, NodeId>, node: NodeId)
    requires Agree(order, nodes, index) && node in order
    ensures Agree([node] + Unlink(order, node), nodes, index)
    ensures Entries([node] + Unlink(order, node), nodes) ==
            [nodes[node]] + Without(Entries(order, nodes), nodes[node].key)
  {
    hide Unlink, Without;
    var r, key := Unlink(order, node), nodes[node].key;
    UnlinkAgrees(order, nodes, index, node);
    Indexed(order, nodes, index, key);
    if node in r {
      assert false;
    }
    LinkAgrees(r, nodes, index - {key}, node);
    LinkEntries(r, nodes, index - {key}, node);
    assert (index - {key})[key := node] == index;
  }

  lemma EvictAgrees<K, V>(order: seq<NodeId>, nodes: map<NodeId, Entry<K, V>>, index: map<K, NodeId>)
    requires Agree(order, nodes, index) && order != []
    ensures var last := order[|order| - 1];
            && last in nodes && nodes[last].key in index
            && Agree(PopBack(order), nodes, index - {nodes[last].key})
            && Entries(PopBack(order), nodes) == PopBack(Entries(order, nodes))
  {
    var n := |order| - 1;
    assert Unlink(order, order[n]) == PopBack(order);
    UnlinkAgrees(order, nodes, index, order[n]);
  }

  /** Writing a value into a listed node. */
  lemma AssignAgrees<K, V>(order: seq<NodeId>, nodes: map<NodeId, Entry<K, V>>, index: map<K, NodeId>, node: NodeId, value: V)
    requires Agree(order, nodes, index) && node in order
    ensures var nodes' := nodes[node := Entry(nodes[node].key, value)];
            && Agree(order, nodes', index)
            && Without(Entries(order, nodes'), nodes[node].key) == Without(Entries(order, nodes), nodes[node].key)
  {
    var nodes', key := nodes[node := Entry(nodes[node].key, value)], nodes[node].key;
    var r := Unlink(order, node);
    Indexed(order, nodes, index, key);
    Indexed(order, nodes', index, key);
    forall i | 0 <= i < |r| ensures r[i] != node {
      UnlinkIndex(order, node, i);
    }
  }

  class LRUCache<K(==), V> {
    const capacity: nat
    var order: seq<NodeId>               // lru_, most recently used first
    var nodes: map<NodeId, Entry<K, V>>  // every node ever linked
    var next: NodeId                     // the identity of the next allocated node
    const index: HashTable<K, NodeId>

    ghost predicate Valid()
      reads this, index, index.buckets
    {
      && index.Valid() && Agree(order, nodes, index.contents) && |order| <= capacity
      && forall id :: id in nodes ==> id < next
    }

    ghost function View(): seq<Entry<K, V>>
      reads this, index, index.buckets
      requires Valid()
    {
      Entries(order, nodes)
    }

    constructor (capacity: nat, hasher: K -> nat)
      ensures Valid() && View() == [] && this.capacity == capacity
      ensures fresh(index) && fresh(index.buckets)
    {
      this.capacity := capacity;
      order, nodes, next := [], map[], 0;
      index := new HashTable<K, NodeId>(hasher);
    }

    method Size() returns (n: nat)
      requires Valid()
      ensures n == |View()|
    {
      n := index.Size();
    }

    method Clear()
      requires Valid()
      modifies this, index, index.buckets
      ensures Valid() && View() == []
      ensures fresh(index.buckets)
    {
      index.Clear();
      order := [];
    }

    method Touch(node: NodeId)
      requires Valid() && node in order
      modifies this`order
      ensures Valid() && View() == [nodes[node]] + Without(old(View()), nodes[node].key)
    {
      TouchAgrees(order, nodes, index.contents, node);
      order := [node] + Unlink(order, node);
    }

    method Get(key: K) returns (r: Option<V>)
      requires Valid()
      modifies this`order
      ensures Valid()
      ensures r == Lookup(old(View()), key)
      ensures View() == LruSpec.Get(old(View()), key)
    {
      Indexed(order, nodes, index.contents, key);
      hide Agree, Entries, Without, Lookup, HashTable.Valid;
      var it := index.Find(key);
      match it
      case None => r := None;
      case Some(node) =>
        Touch(node);
        r := Some(nodes[node].value);
    }

    method EvictOne(ghost absent: K)
      requires Valid() && order != [] && absent !in index.contents
      modifies this`order, index, index.buckets
      ensures Valid() && old(View()) != [] && View() == PopBack(old(View()))
      ensures absent !in index.contents
      ensures index.buckets == old(index.buckets) || fresh(index.buckets)
    {
      hide Agree, Entries, PopBack, HashTable.Valid;
      AgreeSize(order, nodes, index.contents);
      EvictAgrees(order, nodes, index.contents);
      var last := order[|order| - 1];
      var erased := index.Erase(nodes[last].key);
      order := PopBack(order);
    }

    method Put(key: K, value: V)
      requires Valid()
      modifies this, index, index.buckets
      ensures Valid()
      ensures View() == LruSpec.Put(capacity, old(View()), key, value)
      ensures index.buckets == old(index.buckets) || fresh(index.buckets)
    {
      if capacity == 0 {
        return;
      }
      Indexed(order, nodes, index.contents, key);
      hide Agree, Entries, Without, Lookup, Has, PopBack, HashTable.Valid;
      var it := index.Find(key);
      if it.Some? {
        Update(it.value, value);
        return;
      }
      AgreeSize(order, nodes, index.contents);
      var n := index.Size();
      if n == capacity {
        EvictOne(key);
      }
      LinkFront(key, value);
    }

    /** The branch of `put` for a key already present. */
    method Update(node: NodeId, value: V)
      requires Valid() && node in order
      modifies this`order, this`nodes
      ensures Valid()
      ensures View() == [Entry(old(nodes[node]).key, value)] + Without(old(View()), old(nodes[node]).key)
    {
      AssignAgrees(order, nodes, index.contents, node, value);
      hide Agree, Entries, Without, HashTable.Valid;
      nodes := nodes[node := Entry(nodes[node].key, value)];
      Touch(node);
    }

    /** `emplace_front` and the index entry for it. */
    method LinkFront(key: K, value: V)
      requires Valid() && |order| < capacity && key !in index.contents
      modifies this, index, index.buckets
      ensures Valid() && View() == [Entry(key, value)] + old(View())
      ensures index.buckets == old(index.buckets) || fresh(index.buckets)
    {
      hide Agree, Entries, HashTable.Valid;
      var node := next;
      next := next + 1;
      FreshNode(order, nodes, index.contents, node, Entry(key, value));
      nodes := nodes[node := Entry(key, value)];
      LinkAgrees(order, nodes, index.contents, node);
      LinkEntries(order, nodes, index.contents, node);
      order := [node] + order;
      var isNew := index.EmplaceOrAssign(key, node);
    }

    method Erase(key: K) returns (erased: bool)
      requires Valid()
      modifies this`order, index, index.buckets
      ensures Valid() && View() == Without(old(View()), key)
      ensures erased == Has(old(View()), key)
      ensures index.buckets == old(index.buckets) || fresh(index.buckets)
    {
      Indexed(order, nodes, index.contents, key);
      hide Entries, Without, Has, Unlink, HashTable.Valid;
      var it := index.Find(key);
      if it.None? {
        return false;
      }
      UnlinkAgrees(order, nodes, index.contents, it.value);
      hide Agree;
      order := Unlink(order, it.value);
      var found := index.Erase(key);
      return true;
    }
  }
}
