/** The sorted, bounded, doubly linked event list (sdk/src/events/eventList.ts). */
module EventList {
  import opened Sequences
  import opened EventOrder

  class Node {
    const event: Event
    var next: Node?
    var prev: Node?

    constructor (event: Event)
      ensures this.event == event && next == null && prev == null
    {
      this.event, next, prev := event, null, null;
    }
  }

  ghost function EventsOf(nodes: seq<Node>): (events: seq<Event>)
    ensures |events| == |nodes|
    ensures forall i :: 0 <= i < |nodes| ==> events[i] == nodes[i].event
  {
    seq(|nodes|, i requires 0 <= i < |nodes| => nodes[i].event)
  }

  /** Linking a node in at the event's place, on the ghost chain. */
  lemma LinkedNodes(ordering: Ordering, nodes: seq<Node>, newNode: Node, p: nat, s: State)
    requires s.Valid() && nodes != [] && EventsOf(nodes) == s.events
    requires p == ordering.Place(s.events, newNode.event)
    ensures var nodes', linked := nodes[..p] + [newNode] + nodes[p..], Linked(ordering, s, newNode.event);
            && EventsOf(nodes') == linked.events
            && linked.tailAt < |nodes'| && nodes'[linked.tailAt] == nodes[s.tailAt]
  {
    hide Ordering.Place;
    assert EventsOf(nodes[..p] + [newNode] + nodes[p..]) == s.events[..p] + [newNode.event] + s.events[p..];
  }

  class List {
    const maxSize: nat
    const ordering: Ordering
    var size: nat
    var head: Node?
    var tail: Node?
    ghost var nodes: seq<Node>

    constructor (maxSize: nat, ordering: Ordering)
      ensures Represents(EMPTY) && nodes == []
      ensures this.maxSize == maxSize && this.ordering == ordering
    {
      this.maxSize, this.ordering := maxSize, ordering;
      size, head, tail, nodes := 0, null, null, [];
    }

    /** From head, next reaches every node once, and prev is its inverse. */
    ghost predicate Chained()
      reads this`head, this`nodes, nodes
    {
      && (forall i, j :: 0 <= i < j < |nodes| ==> nodes[i] != nodes[j])
      && head == (if nodes == [] then null else nodes[0])
      && (forall i {:trigger nodes[i].next} :: 0 <= i < |nodes| ==>
            nodes[i].next == (if i + 1 < |nodes| then nodes[i + 1] else null))
      && (forall i {:trigger nodes[i].prev} :: 0 <= i < |nodes| ==>
            nodes[i].prev == (if i == 0 then null else nodes[i - 1]))
    }

    /** The chain holds the events of `s`, and tail is the node it says. */
    ghost predicate Represents(s: State)
      reads this, nodes
    {
      && Chained() && size == |nodes|
      && EventsOf(nodes) == s.events
      && (nodes != [] ==> s.tailAt < |nodes| && tail == nodes[s.tailAt])
    }

    /** Walk from the head to the node the new event goes behind. */
    method Walk(event: Event) returns (currentNode: Node, ghost p: nat)
      requires Chained() && head != null
      requires !ordering.Precedes(head.event, event)
      ensures p == ordering.Place(EventsOf(nodes), event)
      ensures 1 <= p <= |nodes| && currentNode == nodes[p - 1]
    {
      currentNode, p := head, 1;
      while currentNode.next != null && !ordering.Precedes(currentNode.next.event, event)
        invariant 1 <= p <= |nodes| && currentNode == nodes[p - 1]
        invariant forall i :: 0 <= i < p ==> !ordering.Precedes(nodes[i].event, event)
        decreases |nodes| - p
      {
        currentNode := currentNode.next;
        p := p + 1;
      }
      PlaceIs(EventsOf(nodes), event, p);
    }

    lemma PlaceIs(events: seq<Event>, event: Event, p: nat)
      requires p <= |events|
      requires p < |events| ==> ordering.Precedes(events[p], event)
      requires forall i :: 0 <= i < p ==> !ordering.Precedes(events[i], event)
      ensures ordering.Place(events, event) == p
    {
    }

    method LinkFront(newNode: Node)
      requires Chained() && head != null && newNode !in nodes && newNode.next == null && newNode.prev == null
      modifies this`head, this`nodes, nodes, newNode
      ensures Chained() && nodes == [newNode] + old(nodes)
    {
      head.prev := newNode;
      newNode.next := head;
      head := newNode;
      nodes := [newNode] + nodes;
    }

    method LinkBehind(currentNode: Node, newNode: Node, ghost p: nat)
      requires Chained() && 1 <= p <= |nodes| && currentNode == nodes[p - 1]
      requires newNode !in nodes && newNode.next == null && newNode.prev == null
      modifies this`nodes, nodes, newNode
      ensures Chained() && nodes == old(nodes)[..p] + [newNode] + old(nodes)[p..]
    {
      newNode.next := currentNode.next;
      if currentNode.next != null {
        newNode.next.prev := newNode;
      }
      currentNode.next := newNode;
      newNode.prev := currentNode;
      nodes := nodes[..p] + [newNode] + nodes[p..];
    }

    /** Drop the node tail points to, wherever in the chain that is; tail follows
        only if it was the last. */
    method Detach(ghost k: nat)
      requires Chained() && size == |nodes| && k < |nodes| && tail == nodes[k]
      modifies this`size, this`head, this`tail, this`nodes, nodes
      ensures Chained() && size == |nodes| && nodes == Remove(old(nodes), k)
      ensures k == old(|nodes|) - 1 && nodes != [] ==> tail == nodes[k - 1]
    {
      var node := tail;
      if node.prev != null {
        node.prev.next := node.next;
      } else {
        head := node.next;
      }
      if node.next != null {
        node.next.prev := node.prev;
      } else {
        tail := node.prev;
      }
      nodes := nodes[..k] + nodes[k + 1..];
      size := size - 1;
    }

    /** Everything insert does to the chain before it looks at the size. */
    method LinkIn(newNode: Node)
      requires Chained() && head != null && newNode !in nodes && newNode.next == null && newNode.prev == null
      modifies this`head, this`nodes, nodes, newNode
      ensures Chained()
      ensures var p := ordering.Place(old(EventsOf(nodes)), newNode.event);
              nodes == old(nodes)[..p] + [newNode] + old(nodes)[p..]
    {
      hide Chained, Ordering.Place;
      HeadIsFirst();
      if ordering.Precedes(head.event, newNode.event) {
        PlaceIs(EventsOf(nodes), newNode.event, 0);
        LinkFront(newNode);
      } else {
        var currentNode, p := Walk(newNode.event);
        LinkBehind(currentNode, newNode, p);
      }
    }

    lemma HeadIsFirst()
      requires Chained()
      ensures head == null <==> nodes == []
      ensures head != null ==> head == nodes[0]
    {
    }

    /** insert: the chain and the tail are what the specification says, down to the
        node a stale tail evicts. */
    method Insert(event: Event, ghost s: State)
      requires s.Valid() && Represents(s)
      modifies this, nodes
      ensures Chained() && size == |nodes|
      ensures EventsOf(nodes) == EventsAfter(ordering, maxSize, s, event)
      ensures TailAfter(ordering, maxSize, s, event).At? ==>
                Represents(State(EventsAfter(ordering, maxSize, s, event),
                                 TailAfter(ordering, maxSize, s, event).place))
      ensures forall i :: 0 <= i < |nodes| ==> fresh(nodes[i]) || nodes[i] in old(nodes)
    {
      hide Chained, Ordering.Place, Ordering.Inserted, Remove;
      HeadIsFirst();
      size := size + 1;
      var newNode := new Node(event);
      if head == null {
        Begin(newNode, s);
        return;
      }
      LinkInto(newNode, s);
      if size > maxSize {
        EvictTail(Linked(ordering, s, event));
      }
    }

    method LinkInto(newNode: Node, ghost s: State)
      requires s.Valid() && Chained() && head != null && size == |nodes| + 1
      requires EventsOf(nodes) == s.events && s.tailAt < |nodes| && tail == nodes[s.tailAt]
      requires newNode !in nodes && newNode.next == null && newNode.prev == null
      modifies this`head, this`nodes, nodes, newNode
      ensures Represents(Linked(ordering, s, newNode.event))
      ensures |nodes| == old(|nodes|) + 1
      ensures forall i :: 0 <= i < |nodes| ==> nodes[i] == newNode || nodes[i] in old(nodes)
    {
      hide Chained, Ordering.Place, Linked;
      HeadIsFirst();
      LinkedNodes(ordering, nodes, newNode, ordering.Place(s.events, newNode.event), s);
      LinkIn(newNode);
    }

    method Begin(newNode: Node, ghost s: State)
      requires Chained() && head == null && EventsOf(nodes) == s.events && size == 1
      requires newNode.next == null && newNode.prev == null
      modifies this`head, this`tail, this`nodes
      ensures s.events == [] && nodes == [newNode]
      ensures Represents(State([newNode.event], 0))
      ensures ordering.Inserted(s.events, newNode.event) == [newNode.event]
    {
      head, tail := newNode, newNode;
      nodes := [newNode];
      assert EventsOf(nodes) == [newNode.event];
    }

    method EvictTail(ghost linked: State)
      requires Represents(linked) && 2 <= |nodes|
      modifies this`size, this`head, this`tail, this`nodes, nodes
      ensures Chained() && size == |nodes| && EventsOf(nodes) == Remove(linked.events, linked.tailAt)
      ensures linked.TailIsLast() ==> Represents(State(Remove(linked.events, linked.tailAt), linked.tailAt - 1))
      ensures forall i :: 0 <= i < |nodes| ==> nodes[i] in old(nodes)
    {
      ghost var k := linked.tailAt;
      Detach(k);
      assert EventsOf(nodes) == Remove(linked.events, k);
    }

    /** Iterate from the head. */
    method ToArray() returns (events: seq<Event>)
      requires Chained()
      ensures events == EventsOf(nodes)
    {
      events := [];
      var node := head;
      while node != null
        invariant |events| <= |nodes|
        invariant events == EventsOf(nodes)[..|events|]
        invariant node == if |events| < |nodes| then nodes[|events|] else null
        decreases |nodes| - |events|
      {
        events := events + [node.event];
        node := node.next;
      }
    }

    /** A run of inserts on an empty list that never evicts through a stale tail
        holds the first maxSize events of the whole history in order. */
    method InsertAll(history: seq<Event>)
      requires 1 <= maxSize && Represents(EMPTY) && NeverStaleEviction(ordering, maxSize, history)
      modifies this, nodes
      ensures Represents(Replay(ordering, maxSize, history))
      ensures EventsOf(nodes) == Take(ordering.Arranged(history), maxSize)
    {
      hide *;
      ReplayStart(ordering, maxSize, history);
      HoldsEvents(EMPTY);
      for i := 0 to |history|
        invariant NeverStaleEviction(ordering, maxSize, history[..i])
        invariant Represents(Replay(ordering, maxSize, history[..i]))
        invariant forall j :: 0 <= j < |nodes| ==> fresh(nodes[j])
      {
        ReplayStep(ordering, maxSize, history, i);
        Insert(history[i], Replay(ordering, maxSize, history[..i]));
      }
      assert history[..|history|] == history;
      ReplayKeepsTop(ordering, maxSize, history);
      HoldsEvents(Replay(ordering, maxSize, history));
    }

    lemma HoldsEvents(s: State)
      requires Represents(s)
      ensures EventsOf(nodes) == s.events
      ensures s == EMPTY ==> nodes == []
    {
    }
  }

  lemma ReplayStart(ordering: Ordering, maxSize: nat, history: seq<Event>)
    requires 1 <= maxSize
    ensures NeverStaleEviction(ordering, maxSize, history[..0])
    ensures Replay(ordering, maxSize, history[..0]) == EMPTY
  {
  }

  lemma ReplayStep(ordering: Ordering, maxSize: nat, history: seq<Event>, i: nat)
    requires 1 <= maxSize && i < |history| && NeverStaleEviction(ordering, maxSize, history)
    ensures NeverStaleEviction(ordering, maxSize, history[..i])
            && NeverStaleEviction(ordering, maxSize, history[..i + 1])
    ensures var s := Replay(ordering, maxSize, history[..i]);
            && s.Valid()
            && TailAfter(ordering, maxSize, s, history[i]).At?
            && Replay(ordering, maxSize, history[..i + 1])
               == State(EventsAfter(ordering, maxSize, s, history[i]),
                        TailAfter(ordering, maxSize, s, history[i]).place)
  {
    hide EventsAfter, TailAfter;
    Prefixes(ordering, maxSize, history, i + 1);
    Prefixes(ordering, maxSize, history, i);
    assert history[..i + 1][..i] == history[..i];
  }

  /** A run that never evicts through a stale tail has not done so at any point. */
  lemma {:induction false} Prefixes(ordering: Ordering, maxSize: nat, history: seq<Event>, n: nat)
    requires 1 <= maxSize && n <= |history| && NeverStaleEviction(ordering, maxSize, history)
    ensures NeverStaleEviction(ordering, maxSize, history[..n])
    decreases |history|
  {
    if n == |history| {
      assert history[..n] == history;
    } else {
      Prefixes(ordering, maxSize, history[..|history| - 1], n);
      assert history[..|history| - 1][..n] == history[..n];
    }
  }
}
