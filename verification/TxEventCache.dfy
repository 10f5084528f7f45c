/** The transaction cache: a map into a doubly linked list, most recent add first
    (sdk/src/events/txEventCache.ts). */
module TxEventCache {
  import opened Sequences
  import opened RecentEntries
  import opened Wrappers

  class Node<V> {
    const key: string
    const value: V
    var next: Node?<V>
    var prev: Node?<V>

    constructor (key: string, value: V, next: Node?<V>)
      ensures this.key == key && this.value == value && this.next == next && prev == null
    {
      this.key, this.value, this.next, prev := key, value, next, null;
    }
  }

  ghost function EntriesOf<V>(nodes: seq<Node<V>>): (entries: seq<Entry<V>>)
    ensures |entries| == |nodes|
    ensures forall i :: 0 <= i < |nodes| ==> entries[i] == Entry(nodes[i].key, nodes[i].value)
  {
    seq(|nodes|, i requires 0 <= i < |nodes| => Entry(nodes[i].key, nodes[i].value))
  }

  /** The map sends each key in the chain to its node, and knows no other key. */
  ghost predicate Maps<V>(cacheMap: map<string, Node<V>>, nodes: seq<Node<V>>) {
    && (forall i :: 0 <= i < |nodes| ==> nodes[i].key in cacheMap && cacheMap[nodes[i].key] == nodes[i])
    && (forall key :: key in cacheMap ==> cacheMap[key] in nodes && cacheMap[key].key == key)
  }

  /** The same, up to what the map may still say about a key no longer in the chain. */
  ghost predicate MapsApartFrom<V>(cacheMap: map<string, Node<V>>, nodes: seq<Node<V>>, key: string) {
    && (forall i :: 0 <= i < |nodes| ==>
          nodes[i].key != key && nodes[i].key in cacheMap && cacheMap[nodes[i].key] == nodes[i])
    && (forall other :: other in cacheMap && other != key ==> cacheMap[other] in nodes && cacheMap[other].key == other)
  }

  lemma MappedKeys<V>(cacheMap: map<string, Node<V>>, nodes: seq<Node<V>>)
    requires Maps(cacheMap, nodes)
    requires forall i, j :: 0 <= i < j < |nodes| ==> nodes[i] != nodes[j]
    ensures DistinctKeys(EntriesOf(nodes))
    ensures forall key :: HasKey(EntriesOf(nodes), key) <==> key in cacheMap
  {
    forall key | key in cacheMap
      ensures HasKey(EntriesOf(nodes), key)
    {
      var i :| 0 <= i < |nodes| && nodes[i] == cacheMap[key];
      assert EntriesOf(nodes)[i].key == key;
    }
  }

  lemma PlaceOf<V>(cacheMap: map<string, Node<V>>, nodes: seq<Node<V>>, key: string) returns (k: nat)
    requires Maps(cacheMap, nodes) && key in cacheMap
    ensures k < |nodes| && nodes[k] == cacheMap[key] && nodes[k].key == key
  {
    k :| 0 <= k < |nodes| && nodes[k] == cacheMap[key];
  }

  lemma RemovedMaps<V>(cacheMap: map<string, Node<V>>, nodes: seq<Node<V>>, k: nat, rest: seq<Node<V>>)
    requires Maps(cacheMap, nodes) && k < |nodes| && rest == nodes[..k] + nodes[k + 1..]
    requires forall i, j :: 0 <= i < j < |nodes| ==> nodes[i] != nodes[j]
    ensures MapsApartFrom(cacheMap, rest, nodes[k].key)
  {
    var key := nodes[k].key;
    forall i | 0 <= i < |rest|
      ensures rest[i].key != key && rest[i].key in cacheMap && cacheMap[rest[i].key] == rest[i]
    {
      var j := if i < k then i else i + 1;
      assert rest[i] == nodes[j] && nodes[j] != nodes[k];
      assert cacheMap[nodes[j].key] == nodes[j] && cacheMap[key] == nodes[k];
    }
    forall other | other in cacheMap && other != key
      ensures cacheMap[other] in rest && cacheMap[other].key == other
    {
      var i := PlaceOf(cacheMap, nodes, other);
      assert rest[if i < k then i else i - 1] == cacheMap[other];
    }
  }

  lemma Removed<V>(cacheMap: map<string, Node<V>>, nodes: seq<Node<V>>, k: nat)
    requires Maps(cacheMap, nodes) && k < |nodes|
    requires forall i, j :: 0 <= i < j < |nodes| ==> nodes[i] != nodes[j]
    ensures var rest := nodes[..k] + nodes[k + 1..];
            && MapsApartFrom(cacheMap, rest, nodes[k].key)
            && EntriesOf(rest) == Without(EntriesOf(nodes), nodes[k].key)
  {
    hide Maps, MapsApartFrom, Without;
    MappedKeys(cacheMap, nodes);
    RemovedMaps(cacheMap, nodes, k, nodes[..k] + nodes[k + 1..]);
    WithoutAt(EntriesOf(nodes), k);
    assert EntriesOf(nodes[..k] + nodes[k + 1..]) == EntriesOf(nodes)[..k] + EntriesOf(nodes)[k + 1..];
  }

  lemma Evicted<V>(cacheMap: map<string, Node<V>>, nodes: seq<Node<V>>, key: string)
    requires nodes != [] && key !in cacheMap && Maps(cacheMap, nodes)
    requires forall i, j :: 0 <= i < j < |nodes| ==> nodes[i] != nodes[j]
    ensures var k := |nodes| - 1;
            && nodes[..k] + nodes[k + 1..] == nodes[..k]
            && MapsApartFrom(cacheMap - {nodes[k].key}, nodes[..k], key)
            && EntriesOf(nodes[..k]) == EntriesOf(nodes)[..k]
  {
    var k := |nodes| - 1;
    Removed(cacheMap, nodes, k);
    assert nodes[..k] + nodes[k + 1..] == nodes[..k];
  }

  lemma Inserted<V>(cacheMap: map<string, Node<V>>, nodes: seq<Node<V>>, node: Node<V>)
    requires MapsApartFrom(cacheMap, nodes, node.key)
    ensures Maps(cacheMap[node.key := node], [node] + nodes)
    ensures EntriesOf([node] + nodes) == [Entry(node.key, node.value)] + EntriesOf(nodes)
  {
    var cacheMap', nodes' := cacheMap[node.key := node], [node] + nodes;
    forall i | 0 <= i < |nodes'|
      ensures nodes'[i].key in cacheMap' && cacheMap'[nodes'[i].key] == nodes'[i]
    {
      if i != 0 {
        assert nodes'[i] == nodes[i - 1];
      }
    }
    forall key | key in cacheMap'
      ensures cacheMap'[key] in nodes' && cacheMap'[key].key == key
    {
      if key == node.key {
        assert nodes'[0] == node;
      } else {
        var i :| 0 <= i < |nodes| && nodes[i] == cacheMap[key];
        assert nodes'[i + 1] == cacheMap'[key];
      }
    }
  }

  lemma NewKey<V>(cacheMap: map<string, Node<V>>, nodes: seq<Node<V>>, key: string)
    requires Maps(cacheMap, nodes) && key !in cacheMap
    ensures MapsApartFrom(cacheMap, nodes, key)
  {
  }

  class Cache<V> {
    const maxTx: nat
    var size: nat
    var head: Node?<V>
    var tail: Node?<V>
    var cacheMap: map<string, Node<V>>
    ghost var nodes: seq<Node<V>>

    constructor (maxTx: nat)
      ensures Valid() && Entries() == [] && this.maxTx == maxTx
    {
      this.maxTx := maxTx;
      size, head, tail, cacheMap, nodes := 0, null, null, map[], [];
    }

    /** The nodes reachable from head form a chain, and prev is the inverse of next. */
    ghost predicate Linked()
      reads this`head, this`tail, this`nodes, nodes
    {
      && (forall i, j :: 0 <= i < j < |nodes| ==> nodes[i] != nodes[j])
      && head == (if nodes == [] then null else nodes[0])
      && tail == (if nodes == [] then null else nodes[|nodes| - 1])
      && (forall i {:trigger nodes[i].next} :: 0 <= i < |nodes| ==>
            nodes[i].next == (if i + 1 < |nodes| then nodes[i + 1] else null))
      && (forall i {:trigger nodes[i].prev} :: 0 <= i < |nodes| ==>
            nodes[i].prev == (if i == 0 then null else nodes[i - 1]))
    }

    ghost predicate Valid()
      reads this, nodes
    {
      Linked() && Maps(cacheMap, nodes) && size == |nodes| && (1 <= maxTx ==> size <= maxTx)
    }

    /** What the cache holds, newest first. */
    ghost function Entries(): seq<Entry<V>>
      reads this
    {
      EntriesOf(nodes)
    }

    lemma NodesDistinct()
      requires Linked()
      ensures forall i, j :: 0 <= i < j < |nodes| ==> nodes[i] != nodes[j]
    {
    }

    lemma KeysAreDistinct()
      requires Valid()
      ensures DistinctKeys(Entries())
      ensures forall key :: HasKey(Entries(), key) <==> key in cacheMap
    {
      MappedKeys(cacheMap, nodes);
    }

    /** Unlink a node; `k` is its place in the chain. */
    method Detach(node: Node<V>, ghost k: nat)
      requires Linked() && k < |nodes| && nodes[k] == node
      modifies this`head, this`tail, this`nodes, nodes
      ensures Linked() && nodes == old(nodes[..k] + nodes[k + 1..])
    {
      if node.prev != null {
        node.prev.next := node.next;
      } else {
        head := node.next;
      }
      if node.next != null {
        node.next.prev := node.prev;
      } else {
        tail := node.prev;
      }
      nodes := nodes[..k] + nodes[k + 1..];
    }

    method PushFront(key: string, value: V)
      requires Linked()
      modifies this`head, this`tail, this`nodes, nodes
      ensures Linked() && |nodes| == old(|nodes|) + 1 && nodes[1..] == old(nodes)
      ensures fresh(nodes[0]) && head == nodes[0] && nodes[0].key == key && nodes[0].value == value
    {
      if head == null {
        var node := new Node(key, value, null);
        head, tail := node, node;
        nodes := [node];
      } else {
        var node := new Node(key, value, head);
        head.prev := node;
        head := node;
        nodes := [node] + nodes;
      }
    }

    /** Ready to take `key` at the front. */
    ghost predicate RoomFor(key: string)
      reads this, nodes
    {
      Linked() && MapsApartFrom(cacheMap, nodes, key) && size == |nodes| && size < maxTx
    }

    method DetachKnown(key: string)
      requires Valid() && 1 <= maxTx && key in cacheMap
      modifies this`size, this`head, this`tail, this`nodes, nodes
      ensures RoomFor(key)
      ensures Entries() == Without(old(Entries()), key)
      ensures forall i :: 0 <= i < |nodes| ==> nodes[i] in old(nodes)
    {
      hide Linked, Maps, MapsApartFrom, Without;
      ghost var k := PlaceOf(cacheMap, nodes, key);
      NodesDistinct();
      Removed(cacheMap, nodes, k);
      Detach(cacheMap[key], k);
      size := size - 1;
    }

    method EvictOldest(key: string)
      requires Valid() && 1 <= maxTx && key !in cacheMap && size == maxTx
      modifies this`size, this`head, this`tail, this`nodes, this`cacheMap, nodes
      ensures RoomFor(key)
      ensures Entries() == old(Entries())[..maxTx - 1]
      ensures forall i :: 0 <= i < |nodes| ==> nodes[i] in old(nodes)
    {
      hide Maps, MapsApartFrom;
      Evicted(cacheMap, nodes, key);
      cacheMap := cacheMap - {tail.key};
      Detach(tail, size - 1);
      size := size - 1;
    }

    method Insert(key: string, value: V)
      requires RoomFor(key)
      modifies this, nodes
      ensures Valid()
      ensures Entries() == [Entry(key, value)] + old(Entries())
      ensures forall i :: 0 <= i < |nodes| ==> fresh(nodes[i]) || nodes[i] in old(nodes)
    {
      hide Linked, Maps, MapsApartFrom;
      ghost var kept := nodes;
      PushFront(key, value);
      assert nodes == [nodes[0]] + kept;
      Inserted(cacheMap, kept, nodes[0]);
      cacheMap := cacheMap[key := head];
      size := size + 1;
    }

    /** add: the cache holds what the specification says it holds. */
    method Add(key: string, value: V)
      requires Valid() && 1 <= maxTx
      modifies this, nodes
      ensures Valid()
      ensures Entries() == Cached(old(Entries()), maxTx, Entry(key, value))
      ensures forall i :: 0 <= i < |nodes| ==> fresh(nodes[i]) || nodes[i] in old(nodes)
    {
      hide Linked, Maps, MapsApartFrom, Without;
      KeysAreDistinct();
      if key in cacheMap {
        DetachKnown(key);
      } else if size == maxTx {
        EvictOldest(key);
      } else {
        NewKey(cacheMap, nodes, key);
      }
      Insert(key, value);
    }

    method Has(key: string) returns (found: bool)
      requires Valid()
      ensures found <==> HasKey(Entries(), key)
    {
      KeysAreDistinct();
      found := key in cacheMap;
    }

    /** get: the value of the key's entry, leaving the order alone. */
    method Get(key: string) returns (value: Option<V>)
      requires Valid()
      ensures value == None <==> !HasKey(Entries(), key)
      ensures value.Some? ==> Entry(key, value.value) in Entries()
    {
      KeysAreDistinct();
      if key in cacheMap {
        ghost var i := PlaceOf(cacheMap, nodes, key);
        assert Entries()[i] == Entry(key, cacheMap[key].value);
        return Some(cacheMap[key].value);
      }
      return None;
    }

    method Clear()
      requires Valid()
      modifies this
      ensures Valid() && Entries() == []
    {
      head, tail, size, cacheMap, nodes := null, null, 0, map[], [];
    }

    /** A run of adds on an empty cache leaves the last maxTx distinct keys by latest
        add, newest first, each with its latest value. */
    method AddAll(history: seq<Entry<V>>)
      requires Valid() && 1 <= maxTx && Entries() == []
      modifies this, nodes
      ensures Valid()
      ensures Entries() == Take(Latest(history), maxTx)
    {
      for i := 0 to |history|
        invariant Valid()
        invariant Entries() == CachedAll(maxTx, history[..i])
        invariant forall j :: 0 <= j < |nodes| ==> fresh(nodes[j])
      {
        assert history[..i + 1][..i] == history[..i];
        Add(history[i].key, history[i].value);
      }
      assert history[..|history|] == history;
      CacheHoldsLatest(maxTx, history);
    }
  }
}
