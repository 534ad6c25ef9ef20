/** Boot-event retention: the table is pruned after every insert, and still holds exactly what
    pruning the whole history at once would leave.  */
module BootEvents {
  import opened Options
  import opened FiniteSets
  import opened Orders

  datatype Event = Event(knownDevice: bool, profile: Option<int>, note: string)

  type Events = map<int, Event>

  function Above(ids: set<int>, x: int): set<int> {
    set y | y in ids && y > x
  }

  /** `ORDER BY id DESC LIMIT n`. */
  function Newest(ids: set<int>, n: nat): set<int> {
    set x | x in ids && |Above(ids, x)| < n
  }

  predicate IsSelection(e: Event) {
    e.knownDevice && e.profile.Some?
  }

  function Selections(events: Events): set<int> {
    set x | x in events && IsSelection(events[x])
  }

  /** The rows a prune keeps. */
  function Kept(events: Events, n: nat): set<int> {
    Newest(events.Keys, n) + Newest(Selections(events), n)
  }

  function Restrict(events: Events, ids: set<int>): Events {
    map x | x in events && x in ids :: events[x]
  }

  /** The events of the whole history that count: the newest ones and the newest selections. */
  function Pruned(events: Events, n: nat): Events {
    Restrict(events, Kept(events, n))
  }

  lemma NewestAreNewer(ids: set<int>, n: nat, x: int, y: int)
    requires x in Newest(ids, n) && y in ids && y !in Newest(ids, n)
    ensures x > y
  {
    if x <= y {
      forall z | z in Above(ids, y) ensures z in Above(ids, x) { }
      SubsetIsNotLarger(Above(ids, y), Above(ids, x));
    }
  }

  lemma NextNewest(ids: set<int>, n: nat, z: int)
    requires z in ids && z !in Newest(ids, n) && |Newest(ids, n)| <= n
    requires forall y :: y in ids && y !in Newest(ids, n) ==> y <= z
    ensures |Newest(ids, n)| == n && Newest(ids, n + 1) == Newest(ids, n) + {z}
  {
    forall y | y in ids ensures y in Above(ids, z) <==> y in Newest(ids, n) {
      if y in Newest(ids, n) { NewestAreNewer(ids, n, y, z); }
    }
    assert Above(ids, z) == Newest(ids, n);
    forall y | y in ids && y < z ensures y !in Newest(ids, n + 1) {
      SubsetIsSmaller(Above(ids, z), Above(ids, y), z);
    }
    assert Newest(ids, n + 1) == Newest(ids, n) + {z};
  }

  lemma OneMore(ids: set<int>, n: nat)
    requires |Newest(ids, n)| == if n <= |ids| then n else |ids|
    ensures |Newest(ids, n + 1)| == if n < |ids| then n + 1 else |ids|
  {
    var rest := ids - Newest(ids, n);
    if rest == {} {
      forall y | y in ids ensures y in Newest(ids, n) && y in Newest(ids, n + 1) { assert y !in rest; }
      SameSet(ids, Newest(ids, n));
      SameSet(ids, Newest(ids, n + 1));
    } else {
      var z := FirstOf(rest, rest, Newer);
      forall y | y in ids && y !in Newest(ids, n) ensures y <= z { assert y in rest; }
      NextNewest(ids, n, z);
      SubsetIsSmaller(Newest(ids, n), ids, z);
    }
  }

  /** The limit is exact: the newest n, or all when there are fewer. */
  lemma {:induction false} NewestCount(ids: set<int>, n: nat)
    ensures |Newest(ids, n)| == if n <= |ids| then n else |ids|
  {
    if n == 0 {
      assert Newest(ids, 0) == {};
    } else {
      NewestCount(ids, n - 1);
      OneMore(ids, n - 1);
    }
  }

  lemma NewestGap(few: set<int>, all: set<int>, n: nat, x: int)
    requires Newest(all, n) <= few <= all && x in few && |Above(few, x)| < n
    ensures |Above(all, x)| < n
  {
    var missing := Above(all, x) - few;
    if missing == {} {
      forall y | y in Above(all, x) ensures y in Above(few, x) { assert y !in missing; }
      SubsetIsNotLarger(Above(all, x), Above(few, x));
    } else {
      var z := FirstOf(missing, missing, Newer);
      assert z !in Newest(all, n);
      forall y | y in Above(all, z) ensures y in Above(few, x) { assert y !in missing; }
      SubsetIsNotLarger(Above(all, z), Above(few, x));
    }
  }

  /** Dropping rows that are not among the newest does not change which are. */
  lemma NewestOfPruned(few: set<int>, all: set<int>, n: nat)
    requires Newest(all, n) <= few <= all
    ensures Newest(few, n) == Newest(all, n)
  {
    forall x | x in few ensures x in Newest(few, n) <==> x in Newest(all, n) {
      if |Above(few, x)| < n { NewestGap(few, all, n, x); }
      SubsetIsNotLarger(Above(few, x), Above(all, x));
    }
  }

  lemma NewestAfterInsert(ids: set<int>, n: nat, x: int)
    ensures Newest(ids + {x}, n) <= Newest(ids, n) + {x}
  {
    forall y | y in Newest(ids + {x}, n) && y != x ensures y in Newest(ids, n) {
      SubsetIsNotLarger(Above(ids, y), Above(ids + {x}, y));
    }
  }

  /** The table holds part of the history, and at least all that counts. */
  ghost predicate Covers(events: Events, history: Events, n: nat) {
    && (forall x :: x in events ==> x in history && history[x] == events[x])
    && Kept(history, n) <= events.Keys
  }

  lemma PruneCatchesUp(events: Events, history: Events, n: nat)
    requires Covers(events, history, n)
    ensures Pruned(events, n) == Pruned(history, n)
  {
    forall x | x in Newest(history.Keys, n) ensures x in events.Keys { assert x in Kept(history, n); }
    forall x | x in events.Keys ensures x in history.Keys { assert x in events; }
    forall x | x in Selections(events) ensures x in Selections(history) { assert x in events; }
    forall x | x in Newest(Selections(history), n) ensures x in Selections(events) { assert x in Kept(history, n); }
    NewestOfPruned(events.Keys, history.Keys, n);
    NewestOfPruned(Selections(events), Selections(history), n);
  }

  lemma PrunedCovers(history: Events, n: nat)
    ensures Covers(Pruned(history, n), history, n)
  {
  }

  lemma InsertCovers(events: Events, history: Events, n: nat, x: int, e: Event)
    requires Covers(events, history, n) && x !in history
    ensures Covers(events[x := e], history[x := e], n)
  {
    NewestAfterInsert(history.Keys, n, x);
    assert history[x := e].Keys == history.Keys + {x};
    if IsSelection(e) {
      NewestAfterInsert(Selections(history), n, x);
      assert Selections(history[x := e]) == Selections(history) + {x};
    } else {
      assert Selections(history[x := e]) == Selections(history);
    }
  }

  // ---- what is kept, without counting ----

  /** The greatest `n` of these ids, or all of them. */
  ghost predicate AreNewest(kept: set<int>, ids: set<int>, n: nat) {
    && kept <= ids && |kept| == (if n <= |ids| then n else |ids|)
    && forall x, y :: x in kept && y in ids && y !in kept ==> x > y
  }

  /** The boots of a known device into a profile of its menu. */
  function MenuChoices(events: Events): set<int> {
    set x | x in events && events[x].knownDevice && events[x].profile.Some?
  }

  /** The newest events and the newest choices, unchanged, and no other event. */
  ghost predicate HoldsNewest(events: Events, history: Events, n: nat) {
    && (forall x :: x in events ==> x in history && history[x] == events[x])
    && exists newest, chosen ::
         && AreNewest(newest, history.Keys, n) && AreNewest(chosen, MenuChoices(history), n)
         && events.Keys == newest + chosen
  }

  lemma NewestMeans(ids: set<int>, n: nat)
    ensures AreNewest(Newest(ids, n), ids, n)
  {
    NewestCount(ids, n);
    forall x, y | x in Newest(ids, n) && y in ids && y !in Newest(ids, n) ensures x > y {
      NewestAreNewer(ids, n, x, y);
    }
  }

  lemma SelectionsMean(events: Events)
    ensures Selections(events) == MenuChoices(events)
  {
    assert forall x: int :: x in events ==>
             (IsSelection(events[x]) <==> events[x].knownDevice && events[x].profile.Some?);
  }

  lemma PrunedMeans(history: Events, n: nat)
    ensures HoldsNewest(Pruned(history, n), history, n)
  {
    SelectionsMean(history);
    NewestMeans(history.Keys, n);
    NewestMeans(Selections(history), n);
    assert Pruned(history, n).Keys == Newest(history.Keys, n) + Newest(Selections(history), n);
  }

  function AtLeastOne(n: int): nat {
    if n < 1 then 1 else n
  }

  class Log {
    const limit: nat
    var events: Events
    var nextId: int
    ghost var history: Events

    ghost predicate Valid()
      reads this
    {
      Covers(events, history, limit) && forall x :: x in history ==> x < nextId
    }

    constructor (maxEvents: int)
      ensures Valid() && events == history == map[] && limit >= 1 && (maxEvents >= 1 ==> limit == maxEvents)
      ensures maxEvents < 1 ==> limit == 1
    {
      limit := AtLeastOne(maxEvents);
      events, history, nextId := map[], map[], 1;
    }

    /** One insert statement. Inserts of several requests may precede the next prune. */
    method Insert(e: Event) returns (id: int)
      requires Valid()
      modifies this
      ensures Valid() && id !in old(history)
      ensures events == old(events)[id := e] && history == old(history)[id := e]
    {
      id := nextId;
      InsertCovers(events, history, limit, id, e);
      events, history := events[id := e], history[id := e];
      nextId := nextId + 1;
    }

    /** `prune_boot_events`: whatever inserts and prunes came before, the table is the pruned history. */
    method Prune()
      requires Valid()
      modifies `events
      ensures Valid() && events == Pruned(history, limit) && HoldsNewest(events, history, limit)
    {
      PrunedMeans(history, limit);
      PruneCatchesUp(events, history, limit);
      PrunedCovers(history, limit);
      var newest, selected := Newest(events.Keys, limit), Newest(Selections(events), limit);
      events := Restrict(events, newest + selected);
    }

    /** `insert_boot_event_with_retention`. */
    method InsertWithRetention(e: Event) returns (id: int)
      requires Valid()
      modifies this
      ensures Valid() && history == old(history)[id := e] && events == Pruned(history, limit)
      ensures HoldsNewest(events, history, limit)
    {
      id := Insert(e);
      Prune();
    }
  }
}
