/** The specification of the transaction cache: which entries a bounded cache of
    the most recently added keys holds. */
module RecentEntries {
  import opened Sequences

  datatype Entry<V> = Entry(key: string, value: V)

  predicate HasKey<V>(entries: seq<Entry<V>>, key: string) {
    exists i :: 0 <= i < |entries| && entries[i].key == key
  }

  predicate DistinctKeys<V>(entries: seq<Entry<V>>) {
    forall i, j :: 0 <= i < j < |entries| ==> entries[i].key != entries[j].key
  }

  function Without<V>(entries: seq<Entry<V>>, key: string): seq<Entry<V>> {
    if entries == [] then []
    else if entries[0].key == key then Without(entries[1..], key)
    else [entries[0]] + Without(entries[1..], key)
  }

  /** One add: a known key moves to the front; a new one evicts the oldest when the
      cache is full. */
  function Cached<V>(entries: seq<Entry<V>>, maxTx: nat, entry: Entry<V>): seq<Entry<V>>
    requires 1 <= maxTx
  {
    if HasKey(entries, entry.key) then [entry] + Without(entries, entry.key)
    else if |entries| == maxTx then [entry] + entries[..maxTx - 1]
    else [entry] + entries
  }

  function CachedAll<V>(maxTx: nat, history: seq<Entry<V>>): seq<Entry<V>>
    requires 1 <= maxTx
  {
    if history == [] then []
    else Cached(CachedAll(maxTx, history[..|history| - 1]), maxTx, history[|history| - 1])
  }

  /** Every key ever added, with its latest value, latest add first. */
  function Latest<V>(history: seq<Entry<V>>): seq<Entry<V>> {
    if history == [] then []
    else
      var last := history[|history| - 1];
      [last] + Without(Latest(history[..|history| - 1]), last.key)
  }

  // ------------------------------------------------------- Without

  lemma {:induction false} WithoutAbsent<V>(entries: seq<Entry<V>>, key: string)
    requires !HasKey(entries, key)
    ensures Without(entries, key) == entries
  {
    if entries != [] {
      TailKeys(entries);
      WithoutAbsent(entries[1..], key);
    }
  }

  lemma TailKeys<V>(entries: seq<Entry<V>>)
    requires entries != []
    ensures forall key :: HasKey(entries, key) <==> entries[0].key == key || HasKey(entries[1..], key)
  {
    forall key | HasKey(entries, key)
      ensures entries[0].key == key || HasKey(entries[1..], key)
    {
      var i :| 0 <= i < |entries| && entries[i].key == key;
      if i != 0 {
        assert entries[1..][i - 1].key == key;
      }
    }
    forall key | HasKey(entries[1..], key)
      ensures HasKey(entries, key)
    {
      var i :| 0 <= i < |entries[1..]| && entries[1..][i].key == key;
      assert entries[i + 1].key == key;
    }
  }

  /** Among distinct keys, removing a key removes exactly the entry that has it. */
  lemma {:induction false} WithoutAt<V>(entries: seq<Entry<V>>, k: nat)
    requires DistinctKeys(entries) && k < |entries|
    ensures Without(entries, entries[k].key) == entries[..k] + entries[k + 1..]
  {
    var key := entries[k].key;
    if k == 0 {
      assert !HasKey(entries[1..], key);
      WithoutAbsent(entries[1..], key);
    } else {
      assert entries[1..][k - 1] == entries[k];
      WithoutAt(entries[1..], k - 1);
      assert entries[..k] + entries[k + 1..] == [entries[0]] + (entries[1..][..k - 1] + entries[1..][k..]);
    }
  }

  lemma WithoutKeepsDistinct<V>(entries: seq<Entry<V>>, key: string)
    requires DistinctKeys(entries)
    ensures DistinctKeys(Without(entries, key)) && !HasKey(Without(entries, key), key)
    ensures forall other :: other != key ==> (HasKey(Without(entries, key), other) <==> HasKey(entries, other))
  {
    if HasKey(entries, key) {
      var k :| 0 <= k < |entries| && entries[k].key == key;
      WithoutAt(entries, k);
      RemovedAtKeys(entries, k);
    } else {
      WithoutAbsent(entries, key);
    }
  }

  lemma RemovedAtKeys<V>(entries: seq<Entry<V>>, k: nat)
    requires DistinctKeys(entries) && k < |entries|
    ensures var rest := entries[..k] + entries[k + 1..];
            && DistinctKeys(rest) && !HasKey(rest, entries[k].key)
            && forall other :: other != entries[k].key ==> (HasKey(rest, other) <==> HasKey(entries, other))
  {
    var rest := entries[..k] + entries[k + 1..];
    forall other | other != entries[k].key && HasKey(entries, other)
      ensures HasKey(rest, other)
    {
      var i :| 0 <= i < |entries| && entries[i].key == other;
      assert rest[if i < k then i else i - 1].key == other;
    }
    forall other | HasKey(rest, other)
      ensures HasKey(entries, other)
    {
      var i :| 0 <= i < |rest| && rest[i].key == other;
      assert entries[if i < k then i else i + 1].key == other;
    }
  }

  // ------------------------------------------------------- what Latest is

  /** Position of the latest add of a key. */
  function LastIndex<V>(history: seq<Entry<V>>, key: string): int {
    if history == [] then -1
    else if history[|history| - 1].key == key then |history| - 1
    else LastIndex(history[..|history| - 1], key)
  }

  lemma {:induction false} LastIndexFinds<V>(history: seq<Entry<V>>, key: string)
    ensures HasKey(history, key) ==>
              0 <= LastIndex(history, key) < |history| && history[LastIndex(history, key)].key == key
    ensures forall i :: LastIndex(history, key) < i < |history| && 0 <= i ==> history[i].key != key
    ensures LastIndex(history, key) < |history|
  {
    if history != [] && history[|history| - 1].key != key {
      var front := history[..|history| - 1];
      LastIndexFinds(front, key);
      if HasKey(history, key) {
        var i :| 0 <= i < |history| && history[i].key == key;
        assert front[i].key == key;
      }
      forall i | LastIndex(history, key) < i < |history| && 0 <= i
        ensures history[i].key != key
      {
        if i < |front| {
          assert front[i] == history[i];
        }
      }
    }
  }

  /** The entries stand at the latest add of their keys, latest first. */
  ghost predicate LatestFirst<V>(entries: seq<Entry<V>>, history: seq<Entry<V>>) {
    && (forall i :: 0 <= i < |entries| ==>
          && 0 <= LastIndex(history, entries[i].key) < |history|
          && history[LastIndex(history, entries[i].key)] == entries[i])
    && (forall i, j :: 0 <= i < j < |entries| ==>
          LastIndex(history, entries[j].key) < LastIndex(history, entries[i].key))
  }

  /** Latest lists each key of the history once, at its latest value, in the order
      of latest adds, newest first. */
  ghost predicate IsLatest<V>(entries: seq<Entry<V>>, history: seq<Entry<V>>) {
    && DistinctKeys(entries)
    && (forall key :: HasKey(entries, key) <==> HasKey(history, key))
    && LatestFirst(entries, history)
  }

  lemma {:induction false} LatestIsLatest<V>(history: seq<Entry<V>>)
    ensures IsLatest(Latest(history), history)
  {
    if history != [] {
      var front, last := history[..|history| - 1], history[|history| - 1];
      LatestIsLatest(front);
      ExtendLatest(Latest(front), front, last);
      assert front + [last] == history;
    }
  }

  lemma ExtendLatest<V>(entries: seq<Entry<V>>, front: seq<Entry<V>>, last: Entry<V>)
    requires IsLatest(entries, front)
    ensures IsLatest([last] + Without(entries, last.key), front + [last])
  {
    hide Without, LastIndex;
    var history, rest := front + [last], Without(entries, last.key);
    var result := [last] + rest;
    WithoutKeepsDistinct(entries, last.key);
    assert result[1..] == rest;
    TailKeys(result);
    KeysOfAppend(front, last);
    RestInOrder(entries, front, last.key);
    forall i | 0 <= i < |result|
      ensures 0 <= LastIndex(history, result[i].key) < |history|
              && history[LastIndex(history, result[i].key)] == result[i]
      ensures i != 0 ==>
                && result[i].key != last.key
                && LastIndex(history, result[i].key) == LastIndex(front, result[i].key) < |front|
      ensures i == 0 ==> LastIndex(history, result[i].key) == |front|
    {
      IndexAfterAppend(front, last, result[i].key);
      if i != 0 {
        assert result[i] == rest[i - 1];
        assert HasKey(rest, result[i].key);
      }
    }
    forall i, j | 0 <= i < j < |result|
      ensures result[i].key != result[j].key && LastIndex(history, result[j].key) < LastIndex(history, result[i].key)
    {
      assert result[j] == rest[j - 1];
      if i != 0 {
        assert result[i] == rest[i - 1];
      }
    }
  }

  lemma IndexAfterAppend<V>(front: seq<Entry<V>>, last: Entry<V>, key: string)
    ensures LastIndex(front + [last], key) == if last.key == key then |front| else LastIndex(front, key)
  {
    assert (front + [last])[..|front|] == front;
  }

  lemma KeysOfAppend<V>(front: seq<Entry<V>>, last: Entry<V>)
    ensures forall key :: HasKey(front + [last], key) <==> HasKey(front, key) || last.key == key
  {
    var history := front + [last];
    assert history[|front|] == last;
    forall key | HasKey(front, key)
      ensures HasKey(history, key)
    {
      var i :| 0 <= i < |front| && front[i].key == key;
      assert history[i].key == key;
    }
  }

  lemma RestInOrder<V>(entries: seq<Entry<V>>, front: seq<Entry<V>>, key: string)
    requires IsLatest(entries, front)
    ensures LatestFirst(Without(entries, key), front)
  {
    assert LatestFirst(entries, front);
    if HasKey(entries, key) {
      var k :| 0 <= k < |entries| && entries[k].key == key;
      WithoutAt(entries, k);
      OneLess(entries, front, k);
    } else {
      WithoutAbsent(entries, key);
    }
  }

  lemma OneLess<V>(entries: seq<Entry<V>>, history: seq<Entry<V>>, k: nat)
    requires k < |entries| && LatestFirst(entries, history)
    ensures LatestFirst(entries[..k] + entries[k + 1..], history)
  {
    hide LastIndex;
  }

  // ------------------------------------------------------- the bounded cache

  /** Moving an element within the first n to the front. */
  lemma MoveWithinPrefix<V>(latest: seq<Entry<V>>, n: nat, k: nat, entry: Entry<V>)
    requires k < n && k < |latest|
    ensures Take([entry] + (latest[..k] + latest[k + 1..]), n)
            == [entry] + (Take(latest, n)[..k] + Take(latest, n)[k + 1..])
  {
    var left := Take([entry] + (latest[..k] + latest[k + 1..]), n);
    var right := [entry] + (Take(latest, n)[..k] + Take(latest, n)[k + 1..]);
    assert |left| == |right|;
    forall i | 0 <= i < |left|
      ensures left[i] == right[i]
    {
    }
  }

  /** Moving one from beyond them pushes the last of them out. */
  lemma MoveIntoPrefix<V>(latest: seq<Entry<V>>, n: nat, k: nat, entry: Entry<V>)
    requires 1 <= n <= k < |latest|
    ensures Take([entry] + (latest[..k] + latest[k + 1..]), n) == [entry] + Take(latest, n)[..n - 1]
  {
  }

  lemma PrefixHasKey<V>(latest: seq<Entry<V>>, n: nat, key: string)
    requires HasKey(Take(latest, n), key)
    ensures HasKey(latest, key)
  {
    var i :| 0 <= i < |Take(latest, n)| && Take(latest, n)[i].key == key;
    assert latest[i].key == key;
  }

  /** Adding to the first maxTx of the latest entries gives the first maxTx of the
      new latest entries: a bounded cache loses nothing it should still hold. */
  lemma AddToPrefix<V>(latest: seq<Entry<V>>, maxTx: nat, entry: Entry<V>)
    requires 1 <= maxTx && DistinctKeys(latest)
    ensures Cached(Take(latest, maxTx), maxTx, entry) == Take([entry] + Without(latest, entry.key), maxTx)
  {
    hide Without;
    if HasKey(latest, entry.key) {
      var k :| 0 <= k < |latest| && latest[k].key == entry.key;
      WithoutAt(latest, k);
      if k < maxTx {
        AddKnown(latest, maxTx, k, entry);
      } else {
        assert !HasKey(Take(latest, maxTx), entry.key);
        MoveIntoPrefix(latest, maxTx, k, entry);
      }
    } else {
      if HasKey(Take(latest, maxTx), entry.key) {
        PrefixHasKey(latest, maxTx, entry.key);
      }
      WithoutAbsent(latest, entry.key);
    }
  }

  lemma AddKnown<V>(latest: seq<Entry<V>>, maxTx: nat, k: nat, entry: Entry<V>)
    requires DistinctKeys(latest) && k < maxTx && k < |latest| && latest[k].key == entry.key
    ensures Cached(Take(latest, maxTx), maxTx, entry) == Take([entry] + (latest[..k] + latest[k + 1..]), maxTx)
  {
    hide Without;
    var prefix := Take(latest, maxTx);
    assert prefix[k].key == entry.key;
    WithoutAt(prefix, k);
    MoveWithinPrefix(latest, maxTx, k, entry);
  }

  /** After any history the cache holds exactly the last maxTx distinct keys by
      latest add, newest first. */
  lemma {:induction false} CacheHoldsLatest<V>(maxTx: nat, history: seq<Entry<V>>)
    requires 1 <= maxTx
    ensures CachedAll(maxTx, history) == Take(Latest(history), maxTx)
  {
    if history != [] {
      var front, last := history[..|history| - 1], history[|history| - 1];
      CacheHoldsLatest(maxTx, front);
      LatestIsLatest(front);
      AddToPrefix(Latest(front), maxTx, last);
    }
  }
}
