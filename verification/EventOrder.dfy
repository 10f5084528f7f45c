/** What an event list should hold, and what its insert does to the chain of events
    and to the place its tail pointer names (sdk/src/events/sort.ts, eventList.ts). */
module EventOrder {
  import opened Sequences

  datatype Event = Event(slot: int, txSig: string)

  datatype OrderBy = Client | Blockchain
  datatype OrderDirection = Asc | Desc
  datatype Comparison = LessThan | GreaterThan

  datatype Ordering = Ordering(orderBy: OrderBy, direction: OrderDirection) {
    function Compare(current: Event, newEvent: Event): Comparison {
      match orderBy
      case Client => if direction == Asc then LessThan else GreaterThan
      case Blockchain => if current.slot <= newEvent.slot then LessThan else GreaterThan
    }

    /** The new event goes in front of the current one. */
    predicate Precedes(current: Event, newEvent: Event) {
      Compare(current, newEvent) == if direction == Asc then LessThan else GreaterThan
    }

    /** Where the walk from the head stops. */
    function Place(events: seq<Event>, event: Event): (p: nat)
      ensures p <= |events|
      ensures p < |events| ==> Precedes(events[p], event)
      ensures forall i :: 0 <= i < p ==> !Precedes(events[i], event)
    {
      if events == [] || Precedes(events[0], event) then 0 else 1 + Place(events[1..], event)
    }

    function Inserted(events: seq<Event>, event: Event): seq<Event> {
      var p := Place(events, event);
      events[..p] + [event] + events[p..]
    }

    /** All events of a history, each inserted in turn. */
    function Arranged(history: seq<Event>): seq<Event> {
      if history == [] then [] else Inserted(Arranged(history[..|history| - 1]), history[|history| - 1])
    }

    /** Newest slot first when ascending, oldest first when descending. */
    predicate InOrder(events: seq<Event>) {
      forall i, j :: 0 <= i < j < |events| ==> InPair(this, events[i], events[j])
    }
  }

  /** The chain of events, and the place in it of the node `tail` points to. */
  datatype State = State(events: seq<Event>, tailAt: nat) {
    predicate Valid() {
      events != [] ==> tailAt < |events|
    }

    predicate TailIsLast() {
      events == [] || tailAt == |events| - 1
    }
  }

  const EMPTY := State([], 0)

  /** Linking a new event in: an event appended at the end leaves `tail` behind. */
  function Linked(ordering: Ordering, s: State, event: Event): State
    requires s.Valid()
  {
    var p := ordering.Place(s.events, event);
    State(ordering.Inserted(s.events, event),
          if s.events == [] then 0 else if p <= s.tailAt then s.tailAt + 1 else s.tailAt)
  }

  predicate Overflows(s: State, maxSize: nat) {
    s.events != [] && |s.events| + 1 > maxSize
  }

  function Remove<T>(s: seq<T>, k: nat): seq<T>
    requires k < |s|
  {
    s[..k] + s[k + 1..]
  }

  /** The chain after an insert: past the maximum size, the node at `tail` goes. */
  function EventsAfter(ordering: Ordering, maxSize: nat, s: State, event: Event): seq<Event>
    requires s.Valid()
  {
    var linked := Linked(ordering, s, event);
    if Overflows(s, maxSize) then Remove(linked.events, linked.tailAt) else linked.events
  }

  /** The place of `tail` after an insert; None once it points to a detached node. */
  datatype Tail = At(place: nat) | Detached

  function TailAfter(ordering: Ordering, maxSize: nat, s: State, event: Event): Tail
    requires s.Valid()
  {
    var linked := Linked(ordering, s, event);
    if s.events == [] then At(0)
    else if !Overflows(s, maxSize) then At(linked.tailAt)
    else if linked.TailIsLast() then At(linked.tailAt - 1)
    else Detached
  }

  // ------------------------------------------------------- arranging

  lemma {:induction false} ArrangedIsSortedPermutation(ordering: Ordering, history: seq<Event>)
    ensures |ordering.Arranged(history)| == |history|
    ensures multiset(ordering.Arranged(history)) == multiset(history)
    ensures ordering.orderBy == Blockchain ==> ordering.InOrder(ordering.Arranged(history))
  {
    if history != [] {
      var front, last := history[..|history| - 1], history[|history| - 1];
      ArrangedIsSortedPermutation(ordering, front);
      assert history == front + [last];
      InsertedPermutes(ordering, ordering.Arranged(front), last);
      if ordering.orderBy == Blockchain {
        InsertedInOrder(ordering, ordering.Arranged(front), last);
      }
    }
  }

  lemma InsertedPermutes(ordering: Ordering, events: seq<Event>, event: Event)
    ensures multiset(ordering.Inserted(events, event)) == multiset(events) + multiset{event}
    ensures |ordering.Inserted(events, event)| == |events| + 1
  {
    var p := ordering.Place(events, event);
    assert events == events[..p] + events[p..];
  }

  lemma InsertedInOrder(ordering: Ordering, events: seq<Event>, event: Event)
    requires ordering.orderBy == Blockchain && ordering.InOrder(events)
    ensures ordering.InOrder(ordering.Inserted(events, event))
  {
    forall i, j | 0 <= i < j < |events| + 1
      ensures InPair(ordering, ordering.Inserted(events, event)[i], ordering.Inserted(events, event)[j])
    {
      InsertedPair(ordering, events, event, i, j);
    }
  }

  lemma InsertedPair(ordering: Ordering, events: seq<Event>, event: Event, i: nat, j: nat)
    requires ordering.orderBy == Blockchain && ordering.InOrder(events) && i < j <= |events|
    ensures InPair(ordering, ordering.Inserted(events, event)[i], ordering.Inserted(events, event)[j])
  {
    var p, result := ordering.Place(events, event), ordering.Inserted(events, event);
    if i == p {
      assert result[i] == event && result[j] == events[j - 1];
      assert InPair(ordering, event, events[p]);
      if p < j - 1 {
        assert InPair(ordering, events[p], events[j - 1]);
      }
    } else if j == p {
      assert result[j] == event && result[i] == events[i];
      assert !ordering.Precedes(events[i], event);
    } else {
      var i', j' := if i < p then i else i - 1, if j < p then j else j - 1;
      assert result[i] == events[i'] && result[j] == events[j'];
      assert InPair(ordering, events[i'], events[j']);
    }
  }

  predicate InPair(ordering: Ordering, earlier: Event, later: Event) {
    if ordering.direction == Asc then later.slot <= earlier.slot else earlier.slot <= later.slot
  }

  function WithSlot(events: seq<Event>, slot: int): seq<Event> {
    if events == [] then []
    else
      var front, last := events[..|events| - 1], events[|events| - 1];
      WithSlot(front, slot) + if last.slot == slot then [last] else []
  }

  function Reversed(events: seq<Event>): seq<Event> {
    if events == [] then [] else [events[|events| - 1]] + Reversed(events[..|events| - 1])
  }

  lemma {:induction false} WithSlotAppend(a: seq<Event>, b: seq<Event>, slot: int)
    ensures WithSlot(a + b, slot) == WithSlot(a, slot) + WithSlot(b, slot)
  {
    if b == [] {
      assert a + b == a;
    } else {
      assert (a + b)[..|a + b| - 1] == a + b[..|b| - 1];
      WithSlotAppend(a, b[..|b| - 1], slot);
    }
  }

  lemma {:induction false} NoneWithSlot(events: seq<Event>, slot: int)
    requires forall i :: 0 <= i < |events| ==> events[i].slot != slot
    ensures WithSlot(events, slot) == []
  {
    if events != [] {
      NoneWithSlot(events[..|events| - 1], slot);
    }
  }

  /** Events of one slot keep the order they arrived in when descending, and stand the
      other way round when ascending. */
  lemma {:induction false} TiesByArrival(ordering: Ordering, history: seq<Event>, slot: int)
    requires ordering.orderBy == Blockchain
    ensures WithSlot(ordering.Arranged(history), slot)
            == if ordering.direction == Desc then WithSlot(history, slot) else Reversed(WithSlot(history, slot))
  {
    hide Ordering.Place, Ordering.Inserted;
    if history != [] {
      var front, last := history[..|history| - 1], history[|history| - 1];
      TiesByArrival(ordering, front, slot);
      ArrangedIsSortedPermutation(ordering, front);
      SlotOfInserted(ordering, ordering.Arranged(front), last, slot);
      var before := WithSlot(front, slot);
      assert (before + [last])[..|before|] == before;
      assert before + [] == before;
    }
  }

  lemma SlotOfInserted(ordering: Ordering, events: seq<Event>, event: Event, slot: int)
    requires ordering.orderBy == Blockchain && ordering.InOrder(events)
    ensures var before, after := WithSlot(events, slot), WithSlot(ordering.Inserted(events, event), slot);
            if event.slot != slot then after == before
            else after == if ordering.direction == Desc then before + [event] else [event] + before
  {
    hide *;
    var p := ordering.Place(events, event);
    var front, back := events[..p], events[p..];
    assert front + back == events;
    InsertedIs(ordering, events, event);
    SlotOfSplit(front, event, back, slot);
    if event.slot == slot {
      NoTiesBeyondPlace(ordering, events, event);
      OneSideEmpty(WithSlot(front, slot), [event], WithSlot(back, slot));
    } else {
      OneSideEmpty(WithSlot(front, slot), [], WithSlot(back, slot));
    }
  }

  lemma OneSideEmpty<T>(front: seq<T>, middle: seq<T>, back: seq<T>)
    ensures front == [] ==> front + middle + back == middle + (front + back)
    ensures back == [] ==> front + middle + back == front + back + middle
    ensures middle == [] ==> front + middle + back == front + back
  {
  }

  lemma InsertedIs(ordering: Ordering, events: seq<Event>, event: Event)
    ensures var p := ordering.Place(events, event);
            ordering.Inserted(events, event) == events[..p] + [event] + events[p..]
  {
  }

  /** The new event stands in front of its slot when ascending, behind it when
      descending. */
  lemma NoTiesBeyondPlace(ordering: Ordering, events: seq<Event>, event: Event)
    requires ordering.orderBy == Blockchain && ordering.InOrder(events)
    ensures var p := ordering.Place(events, event);
            && p <= |events|
            && (ordering.direction == Asc ==> WithSlot(events[..p], event.slot) == [])
            && (ordering.direction == Desc ==> WithSlot(events[p..], event.slot) == [])
  {
    var p := ordering.Place(events, event);
    hide Ordering.Place;
    if ordering.direction == Asc {
      forall i | 0 <= i < p ensures events[..p][i].slot != event.slot {
        assert !ordering.Precedes(events[i], event);
      }
      NoneWithSlot(events[..p], event.slot);
    } else {
      forall i | 0 <= i < |events| - p ensures events[p..][i].slot != event.slot {
        assert ordering.Precedes(events[p], event);
        assert i == 0 || InPair(ordering, events[p], events[p + i]);
      }
      NoneWithSlot(events[p..], event.slot);
    }
  }

  lemma SlotOfSplit(front: seq<Event>, event: Event, back: seq<Event>, slot: int)
    ensures WithSlot(front + back, slot) == WithSlot(front, slot) + WithSlot(back, slot)
    ensures WithSlot(front + [event] + back, slot)
            == WithSlot(front, slot) + (if event.slot == slot then [event] else []) + WithSlot(back, slot)
  {
    WithSlotAppend(front, back, slot);
    WithSlotAppend(front + [event], back, slot);
    WithSlotAppend(front, [event], slot);
    assert [event][..0] == [];
  }

  /** Client order puts every event in front. */
  lemma {:induction false} ClientOrderReverses(ordering: Ordering, history: seq<Event>)
    requires ordering.orderBy == Client
    ensures |ordering.Arranged(history)| == |history|
    ensures forall i :: 0 <= i < |history| ==> ordering.Arranged(history)[i] == history[|history| - 1 - i]
  {
    if history != [] {
      ClientOrderReverses(ordering, history[..|history| - 1]);
    }
  }

  /** Looking only at the first n events finds the same place, as far as it goes. */
  lemma {:induction false} PlaceInPrefix(ordering: Ordering, events: seq<Event>, event: Event, n: nat)
    ensures var p := ordering.Place(events, event);
            ordering.Place(Take(events, n), event) == if p < n then p else if n < |events| then n else |events|
  {
    if events != [] && n != 0 && !ordering.Precedes(events[0], event) {
      PlaceInPrefix(ordering, events[1..], event, n - 1);
      assert Take(events, n)[1..] == Take(events[1..], n - 1);
    }
  }

  /** Keeping the first n after each insert keeps the first n of everything. */
  lemma InsertIntoPrefix(ordering: Ordering, events: seq<Event>, event: Event, n: nat)
    ensures Take(ordering.Inserted(Take(events, n), event), n) == Take(ordering.Inserted(events, event), n)
  {
    PlaceInPrefix(ordering, events, event, n);
    var p := ordering.Place(events, event);
    hide Ordering.Place;
    if n < |events| {
      var front := events[..n];
      if p < n {
        assert front[..p] == events[..p] && front[p..][..n - 1 - p] == events[p..][..n - 1 - p];
        PrefixOfInserted(front, p, event, n);
        PrefixOfInserted(events, p, event, n);
      } else {
        assert (front + [event])[..n] == front && (events[..p] + [event] + events[p..])[..n] == front;
      }
    }
  }

  lemma PrefixOfInserted(events: seq<Event>, p: nat, event: Event, n: nat)
    requires p < n <= |events|
    ensures (events[..p] + [event] + events[p..])[..n] == events[..p] + [event] + events[p..][..n - 1 - p]
  {
  }

  // ------------------------------------------------------- runs

  /** The state after a run, as long as `tail` has pointed into the list. */
  function Replay(ordering: Ordering, maxSize: nat, history: seq<Event>): (s: State)
    requires 1 <= maxSize && NeverStaleEviction(ordering, maxSize, history)
    ensures s.Valid()
    decreases |history|, 1
  {
    if history == [] then EMPTY
    else
      var s := Replay(ordering, maxSize, history[..|history| - 1]);
      State(EventsAfter(ordering, maxSize, s, history[|history| - 1]),
            TailAfter(ordering, maxSize, s, history[|history| - 1]).place)
  }

  /** No insert of the run evicted through a stale tail. */
  predicate NeverStaleEviction(ordering: Ordering, maxSize: nat, history: seq<Event>)
    requires 1 <= maxSize
    decreases |history|, 0
  {
    history == []
    || (NeverStaleEviction(ordering, maxSize, history[..|history| - 1])
        && var s := Replay(ordering, maxSize, history[..|history| - 1]);
           TailAfter(ordering, maxSize, s, history[|history| - 1]).At?)
  }

  /** Evicting through a tail that is the last node keeps the first maxSize events
      of the whole history, in order. */
  lemma {:induction false} ReplayKeepsTop(ordering: Ordering, maxSize: nat, history: seq<Event>)
    requires 1 <= maxSize && NeverStaleEviction(ordering, maxSize, history)
    ensures Replay(ordering, maxSize, history).events == Take(ordering.Arranged(history), maxSize)
  {
    hide Ordering.Place, Ordering.Inserted, EventsAfter;
    if history != [] {
      var front, last := history[..|history| - 1], history[|history| - 1];
      ReplayKeepsTop(ordering, maxSize, front);
      StepKeepsTop(ordering, maxSize, Replay(ordering, maxSize, front), ordering.Arranged(front), last);
    }
  }

  lemma StepKeepsTop(ordering: Ordering, maxSize: nat, s: State, arranged: seq<Event>, event: Event)
    requires 1 <= maxSize && s.Valid() && s.events == Take(arranged, maxSize)
    requires TailAfter(ordering, maxSize, s, event).At?
    ensures EventsAfter(ordering, maxSize, s, event) == Take(ordering.Inserted(arranged, event), maxSize)
  {
    hide Ordering.Place;
    InsertIntoPrefix(ordering, arranged, event, maxSize);
    var inserted := ordering.Inserted(s.events, event);
    assert |inserted| == |s.events| + 1;
    if Overflows(s, maxSize) {
      assert Remove(inserted, |inserted| - 1) == inserted[..|inserted| - 1];
    }
  }

  /** Until the list is full nothing is evicted, wherever events land. */
  lemma {:induction false} WithinCapacity(ordering: Ordering, maxSize: nat, history: seq<Event>)
    requires 1 <= maxSize && |history| <= maxSize
    ensures NeverStaleEviction(ordering, maxSize, history)
    ensures |Replay(ordering, maxSize, history).events| == |history|
  {
    if history != [] {
      WithinCapacity(ordering, maxSize, history[..|history| - 1]);
    }
  }

  /** Client order never appends, so `tail` is always the last node. */
  lemma {:induction false} ClientOrderNeverStale(ordering: Ordering, maxSize: nat, history: seq<Event>)
    requires 1 <= maxSize && ordering.orderBy == Client
    ensures NeverStaleEviction(ordering, maxSize, history)
    ensures Replay(ordering, maxSize, history).TailIsLast()
  {
    if history != [] {
      ClientOrderNeverStale(ordering, maxSize, history[..|history| - 1]);
    }
  }

  // ------------------------------------------------------- stale tails

  /** The insert lands at the end of a list that is not empty. */
  predicate Appends(ordering: Ordering, s: State, event: Event) {
    s.events != [] && ordering.Place(s.events, event) == |s.events|
  }

  /** A tail is stale after an insert exactly when it was before, or the insert
      appends. */
  lemma StaleIff(ordering: Ordering, s: State, event: Event)
    requires s.Valid()
    ensures Linked(ordering, s, event).TailIsLast() <==> s.TailIsLast() && !Appends(ordering, s, event)
  {
  }

  /** In ascending slot order, everything behind a stale tail is strictly older. */
  predicate OlderBehindTail(s: State) {
    forall j :: s.tailAt < j < |s.events| ==> s.events[j].slot < s.events[s.tailAt].slot
  }

  lemma {:induction false} ReplayOlderBehindTail(maxSize: nat, history: seq<Event>)
    requires 1 <= maxSize && NeverStaleEviction(Ordering(Blockchain, Asc), maxSize, history)
    ensures var s := Replay(Ordering(Blockchain, Asc), maxSize, history);
            OlderBehindTail(s) && Ordering(Blockchain, Asc).InOrder(s.events)
  {
    var ordering := Ordering(Blockchain, Asc);
    ReplayKeepsTop(ordering, maxSize, history);
    ArrangedIsSortedPermutation(ordering, history);
    if history != [] {
      var front, last := history[..|history| - 1], history[|history| - 1];
      ReplayOlderBehindTail(maxSize, front);
      var s := Replay(ordering, maxSize, front);
      LinkedOlderBehindTail(s, last);
    }
  }

  lemma LinkedOlderBehindTail(s: State, event: Event)
    requires s.Valid() && OlderBehindTail(s) && Ordering(Blockchain, Asc).InOrder(s.events)
    ensures OlderBehindTail(Linked(Ordering(Blockchain, Asc), s, event))
  {
    var ordering := Ordering(Blockchain, Asc);
    var p := ordering.Place(s.events, event);
    var linked := Linked(ordering, s, event);
    if s.events != [] && s.tailAt < p {
      assert !ordering.Precedes(s.events[s.tailAt], event);
    }
    forall j | linked.tailAt < j < |linked.events|
      ensures linked.events[j].slot < linked.events[linked.tailAt].slot
    {
      if s.events != [] {
        assert linked.events[linked.tailAt] == s.events[s.tailAt];
        if j < p {
          assert linked.events[j] == s.events[j];
        } else if j > p {
          assert linked.events[j] == s.events[j - 1];
        }
      }
    }
  }

  /** In ascending slot order an eviction keeps the newest events exactly when the
      tail was not stale and the insert did not append. */
  lemma EvictionKeepsNewestIff(maxSize: nat, history: seq<Event>, event: Event)
    requires 1 <= maxSize && NeverStaleEviction(Ordering(Blockchain, Asc), maxSize, history)
    requires Overflows(Replay(Ordering(Blockchain, Asc), maxSize, history), maxSize)
    ensures var ordering := Ordering(Blockchain, Asc);
            var s := Replay(ordering, maxSize, history);
            EventsAfter(ordering, maxSize, s, event) == Take(ordering.Arranged(history + [event]), maxSize)
            <==> s.TailIsLast() && !Appends(ordering, s, event)
  {
    var ordering := Ordering(Blockchain, Asc);
    var s := Replay(ordering, maxSize, history);
    hide *;
    assert (history + [event])[..|history|] == history;
    ArrangedStep(ordering, history, event);
    ReplayKeepsTop(ordering, maxSize, history);
    InsertIntoPrefix(ordering, ordering.Arranged(history), event, maxSize);
    ReplayOlderBehindTail(maxSize, history);
    LinkedOlderBehindTail(s, event);
    StaleIff(ordering, s, event);
    EvictedIff(maxSize, s, event);
  }

  lemma ArrangedStep(ordering: Ordering, history: seq<Event>, event: Event)
    ensures ordering.Arranged(history + [event]) == ordering.Inserted(ordering.Arranged(history), event)
  {
    assert (history + [event])[..|history|] == history;
  }

  lemma EvictedIff(maxSize: nat, s: State, event: Event)
    requires 1 <= maxSize && s.Valid() && |s.events| <= maxSize && Overflows(s, maxSize)
    requires OlderBehindTail(Linked(Ordering(Blockchain, Asc), s, event))
    ensures var ordering := Ordering(Blockchain, Asc);
            EventsAfter(ordering, maxSize, s, event) == Take(ordering.Inserted(s.events, event), maxSize)
            <==> Linked(ordering, s, event).TailIsLast()
  {
    var linked := Linked(Ordering(Blockchain, Asc), s, event);
    var last := |linked.events| - 1;
    assert Take(linked.events, maxSize) == linked.events[..last];
    if linked.tailAt != last {
      MultisetsDiffer(linked.events, linked.tailAt);
    } else {
      assert Remove(linked.events, last) == linked.events[..last];
    }
  }

  /** Removing a strictly newer event than the last one leaves something else. */
  lemma MultisetsDiffer(events: seq<Event>, k: nat)
    requires k < |events| - 1 && events[|events| - 1].slot < events[k].slot
    ensures Remove(events, k) != events[..|events| - 1]
  {
    var last := |events| - 1;
    assert events == events[..k] + [events[k]] + events[k + 1..];
    assert events == events[..last] + [events[last]];
    assert multiset(Remove(events, k)) == multiset(events) - multiset{events[k]};
    assert multiset(events[..last]) == multiset(events) - multiset{events[last]};
    assert multiset(events)[events[k]] >= 1;
    assert multiset(Remove(events, k))[events[k]] != multiset(events[..last])[events[k]];
  }

  // ------------------------------------------------------- evictions in any order

  predicate Distinct(events: seq<Event>) {
    forall i, j :: 0 <= i < j < |events| ==> events[i] != events[j]
  }

  lemma DistinctInserted(ordering: Ordering, events: seq<Event>, event: Event)
    requires Distinct(events) && event !in events
    ensures Distinct(ordering.Inserted(events, event))
  {
    hide Ordering.Place;
  }

  lemma {:induction false} ArrangedDistinct(ordering: Ordering, history: seq<Event>)
    requires Distinct(history)
    ensures Distinct(ordering.Arranged(history))
    ensures forall e :: e in ordering.Arranged(history) <==> e in history
  {
    hide Ordering.Inserted;
    ArrangedIsSortedPermutation(ordering, history);
    forall e ensures e in ordering.Arranged(history) <==> e in history {
      assert e in ordering.Arranged(history) <==> e in multiset(ordering.Arranged(history));
    }
    if history != [] {
      var front, last := history[..|history| - 1], history[|history| - 1];
      ArrangedDistinct(ordering, front);
      DistinctInserted(ordering, ordering.Arranged(front), last);
    }
  }

  lemma NewIsNotArranged(ordering: Ordering, history: seq<Event>, event: Event)
    requires Distinct(history + [event])
    ensures Distinct(ordering.Arranged(history)) && event !in ordering.Arranged(history)
  {
    hide Ordering.Arranged;
    assert forall i :: 0 <= i < |history| ==> (history + [event])[i] == history[i];
    assert (history + [event])[|history|] == event;
    ArrangedDistinct(ordering, history);
  }

  /** In any order, an eviction keeps the first maxSize events exactly when the
      tail was not stale and the insert did not append. */
  lemma EvictionKeepsFirstIff(ordering: Ordering, maxSize: nat, history: seq<Event>, event: Event)
    requires 1 <= maxSize && NeverStaleEviction(ordering, maxSize, history)
    requires Overflows(Replay(ordering, maxSize, history), maxSize)
    requires Distinct(history + [event])
    ensures var s := Replay(ordering, maxSize, history);
            EventsAfter(ordering, maxSize, s, event) == Take(ordering.Arranged(history + [event]), maxSize)
            <==> s.TailIsLast() && !Appends(ordering, s, event)
  {
    var s, arranged := Replay(ordering, maxSize, history), ordering.Arranged(history);
    hide *;
    ArrangedStep(ordering, history, event);
    ReplayKeepsTop(ordering, maxSize, history);
    InsertIntoPrefix(ordering, arranged, event, maxSize);
    NewIsNotArranged(ordering, history, event);
    PrefixDistinct(arranged, event, maxSize);
    DistinctInserted(ordering, s.events, event);
    StaleIff(ordering, s, event);
    StateKeepsFirstIff(ordering, maxSize, s, event);
  }

  lemma PrefixDistinct(events: seq<Event>, event: Event, n: nat)
    requires Distinct(events) && event !in events
    ensures Distinct(Take(events, n)) && event !in Take(events, n) && |Take(events, n)| <= n
  {
  }

  lemma StateKeepsFirstIff(ordering: Ordering, maxSize: nat, s: State, event: Event)
    requires s.Valid() && |s.events| <= maxSize && Overflows(s, maxSize)
    requires Distinct(Linked(ordering, s, event).events)
    ensures EventsAfter(ordering, maxSize, s, event) == Take(ordering.Inserted(s.events, event), maxSize)
            <==> Linked(ordering, s, event).TailIsLast()
  {
    hide Ordering.Place;
    var linked := Linked(ordering, s, event);
    var k, last := linked.tailAt, |linked.events| - 1;
    assert Take(linked.events, maxSize) == linked.events[..last];
    if k != last {
      assert Remove(linked.events, k)[k] == linked.events[k + 1];
      assert linked.events[..last][k] == linked.events[k];
    } else {
      assert Remove(linked.events, last) == linked.events[..last];
    }
  }

  /** In descending order the newest events stand last. An eviction keeps those
      exactly if the list holds one event and the new one is the newest, or if it is
      the first eviction, the tail still names the head, and the new event does not
      become the head: there the stale tail is what makes it right. */
  lemma EvictionKeepsLastIff(ordering: Ordering, maxSize: nat, history: seq<Event>, event: Event)
    requires 1 <= maxSize && NeverStaleEviction(ordering, maxSize, history)
    requires Overflows(Replay(ordering, maxSize, history), maxSize)
    requires Distinct(history + [event])
    ensures var s := Replay(ordering, maxSize, history);
            EventsAfter(ordering, maxSize, s, event) == Last(ordering.Arranged(history + [event]), maxSize)
            <==> if maxSize == 1 then ordering.Place(ordering.Arranged(history), event) == |history|
                 else |history| == maxSize && s.tailAt == 0 && ordering.Place(s.events, event) > 0
  {
    var s, arranged := Replay(ordering, maxSize, history), ordering.Arranged(history);
    hide *;
    ArrangedStep(ordering, history, event);
    ReplayKeepsTop(ordering, maxSize, history);
    ArrangedIsSortedPermutation(ordering, history);
    NewIsNotArranged(ordering, history, event);
    FullList(s, arranged, maxSize);
    assert |arranged| == |history|;
    if maxSize == 1 {
      OnlyTheNewEvent(ordering, s, arranged, event);
    } else if |history| == maxSize {
      TakeAll(arranged, maxSize);
      DistinctInserted(ordering, arranged, event);
      HeadGoesIff(ordering, maxSize, s, event);
    } else {
      NewestIsGone(ordering, maxSize, s, arranged, event);
    }
  }

  lemma FullList(s: State, arranged: seq<Event>, maxSize: nat)
    requires s.events == Take(arranged, maxSize) && Overflows(s, maxSize)
    ensures |s.events| == maxSize <= |arranged|
  {
  }

  lemma TakeAll(events: seq<Event>, n: nat)
    requires |events| <= n
    ensures Take(events, n) == events
  {
  }

  lemma OnlyTheNewEvent(ordering: Ordering, s: State, arranged: seq<Event>, event: Event)
    requires s.Valid() && |s.events| == 1 && event !in arranged
    ensures EventsAfter(ordering, 1, s, event) == Last(ordering.Inserted(arranged, event), 1)
            <==> ordering.Place(arranged, event) == |arranged|
  {
    assert EventsAfter(ordering, 1, s, event) == [event];
    var inserted := ordering.Inserted(arranged, event);
    assert Last(inserted, 1) == [inserted[|arranged|]];
  }

  lemma HeadGoesIff(ordering: Ordering, maxSize: nat, s: State, event: Event)
    requires s.Valid() && s.events != [] && |s.events| == maxSize
    requires Distinct(ordering.Inserted(s.events, event))
    ensures EventsAfter(ordering, maxSize, s, event) == Last(ordering.Inserted(s.events, event), maxSize)
            <==> s.tailAt == 0 && ordering.Place(s.events, event) > 0
  {
    hide Ordering.Place;
    var linked := Linked(ordering, s, event);
    assert Last(linked.events, maxSize) == linked.events[1..];
    if linked.tailAt == 0 {
      assert Remove(linked.events, 0) == linked.events[1..];
    } else {
      assert Remove(linked.events, linked.tailAt)[0] == linked.events[0];
      assert linked.events[1..][0] == linked.events[1];
    }
  }

  /** Once an event has been evicted from the end, the last two of the history
      cannot both be there. */
  lemma NewestIsGone(ordering: Ordering, maxSize: nat, s: State, arranged: seq<Event>, event: Event)
    requires 2 <= maxSize < |arranged| && s.Valid() && s.events == Take(arranged, maxSize)
    requires Distinct(arranged) && event !in arranged
    ensures EventsAfter(ordering, maxSize, s, event) != Last(ordering.Inserted(arranged, event), maxSize)
  {
    var newest, p := arranged[|arranged| - 1], ordering.Place(arranged, event);
    hide Ordering.Place;
    NewestIsLast(arranged, p, event, maxSize);
    NewestNotKept(arranged, maxSize);
    KeptAreLinked(ordering, maxSize, s, event);
    assert newest != event;
  }

  lemma NewestIsLast(arranged: seq<Event>, p: nat, event: Event, n: nat)
    requires 2 <= n < |arranged| && p <= |arranged|
    ensures arranged[|arranged| - 1] in Last(arranged[..p] + [event] + arranged[p..], n)
  {
    var inserted := arranged[..p] + [event] + arranged[p..];
    var at := if p == |arranged| then |arranged| - 1 else |arranged|;
    assert inserted[at] == arranged[|arranged| - 1];
    assert Last(inserted, n)[at - (|inserted| - n)] == inserted[at];
  }

  lemma NewestNotKept(arranged: seq<Event>, n: nat)
    requires n < |arranged| && Distinct(arranged)
    ensures arranged[|arranged| - 1] !in Take(arranged, n)
  {
  }

  lemma KeptAreLinked(ordering: Ordering, maxSize: nat, s: State, event: Event)
    requires s.Valid()
    ensures forall e :: e in EventsAfter(ordering, maxSize, s, event) ==> e in s.events || e == event
  {
    hide Ordering.Place;
    var linked := Linked(ordering, s, event);
    assert forall e :: e in linked.events ==> e in s.events || e == event;
  }

  /** In descending order, two places, three events that arrive in order: the stale
      tail evicts the oldest and is detached from then on. */
  lemma StaleTailKeepsNewest()
    ensures var ordering, history := Ordering(Blockchain, Desc), [Event(1, "a"), Event(2, "b")];
            var s := State(history, 0);
            && NeverStaleEviction(ordering, 2, history) && Replay(ordering, 2, history) == s
            && EventsAfter(ordering, 2, s, Event(3, "c")) == [Event(2, "b"), Event(3, "c")]
            && TailAfter(ordering, 2, s, Event(3, "c")) == Detached
  {
    var ordering := Ordering(Blockchain, Desc);
    var a, b, c := Event(1, "a"), Event(2, "b"), Event(3, "c");
    assert [a, b][..1] == [a] && [a][..0] == [];
    assert ordering.Place([a], b) == 1;
    assert Replay(ordering, 2, [a]) == State([a], 0);
    assert Replay(ordering, 2, [a, b]) == State([a, b], 0);
    assert ordering.Place([a, b], c) == 2 by {
      assert [a, b][1..] == [b];
      assert [b][1..] == [];
    }
  }

  /** Three events, two places: the late arrival in the middle evicts the newest. */
  lemma StaleTailDropsNewest()
    ensures var ordering, history := Ordering(Blockchain, Asc), [Event(5, "a"), Event(3, "b")];
            && NeverStaleEviction(ordering, 2, history)
            && EventsAfter(ordering, 2, Replay(ordering, 2, history), Event(4, "c")) == [Event(4, "c"), Event(3, "b")]
            && Take(ordering.Arranged(history + [Event(4, "c")]), 2) == [Event(5, "a"), Event(4, "c")]
  {
    var ordering := Ordering(Blockchain, Asc);
    var a, b, c := Event(5, "a"), Event(3, "b"), Event(4, "c");
    assert [a, b][..1] == [a] && [a][..0] == [];
    assert ordering.Place([a], b) == 1;
    assert Replay(ordering, 2, [a]) == State([a], 0);
    assert Replay(ordering, 2, [a, b]) == State([a, b], 0);
    assert ordering.Place([a, b], c) == 1 by {
      assert [a, b][1..] == [b];
    }
    assert [a, b] + [c] == [a, b, c] && [a, b, c][..2] == [a, b];
    assert ordering.Arranged([a]) == [a];
    assert ordering.Arranged([a, b]) == [a, b];
  }
}
