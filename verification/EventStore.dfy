/** The event store for delta sync (federation.go, EventStore). */
module Events {
  datatype StoredEvent = StoredEvent(id: string, seq_: int, origin: string, time: int, data: string)

  datatype Store = Store(
    events: seq<StoredEvent>, byID: map<string, StoredEvent>, byOrigin: map<string, seq<StoredEvent>>)

  datatype Retention = Retention(maxAge: int, maxCount: nat)

  const EMPTY := Store([], map[], map[])

  function Aged(events: seq<StoredEvent>, cutoff: int): (n: nat)
    ensures n <= |events|
    ensures forall i :: 0 <= i < n ==> events[i].time < cutoff
    ensures n < |events| ==> events[n].time >= cutoff
  {
    if events != [] && events[0].time < cutoff then 1 + Aged(events[1..], cutoff) else 0
  }

  function Ids(events: seq<StoredEvent>): set<string> {
    set i | 0 <= i < |events| :: events[i].id
  }

  function Prune(r: Retention, s: Store, now: int): Store {
    var aged := Aged(s.events, now - r.maxAge);
    var n := if |s.events| - aged > r.maxCount then |s.events| - r.maxCount else aged;
    s.(events := s.events[n..], byID := s.byID - Ids(s.events[..n]))
  }

  function Of(s: Store, origin: string): seq<StoredEvent> {
    if origin in s.byOrigin then s.byOrigin[origin] else []
  }

  function Append(s: Store, ev: StoredEvent): Store {
    Store(s.events + [ev], s.byID[ev.id := ev], s.byOrigin[ev.origin := Of(s, ev.origin) + [ev]])
  }

  /** Storing an event; the store reads the clock once for the event and once for the pruning. */
  function Put(r: Retention, s: Store, ev: StoredEvent, now: int): Store {
    Prune(r, Append(s, ev), now)
  }

  /** The events of one origin, in order. */
  function From(log: seq<StoredEvent>, origin: string): seq<StoredEvent> {
    if log == [] then []
    else
      var rest := From(log[..|log| - 1], origin);
      if log[|log| - 1].origin == origin then rest + [log[|log| - 1]] else rest
  }

  /** The store after a history of storing `log`: the index by origin keeps everything, the event
      list is a recent part of it within the count, and the index by id holds listed events only. */
  ghost predicate Holds(r: Retention, s: Store, log: seq<StoredEvent>) {
    && (forall o :: Of(s, o) == From(log, o))
    && |s.events| <= |log| && s.events == log[|log| - |s.events|..]
    && |s.events| <= r.maxCount
    && IndexHolds(s)
  }

  ghost predicate IndexHolds(s: Store) {
    && s.byID.Keys <= Ids(s.events)
    && (forall id :: id in s.byID ==> s.byID[id] in s.events && s.byID[id].id == id)
  }

  lemma PutIndex(r: Retention, s: Store, ev: StoredEvent, now: int)
    requires IndexHolds(s)
    ensures IndexHolds(Put(r, s, ev, now))
  {
    var s1, s' := Append(s, ev), Put(r, s, ev, now);
    var n := |s1.events| - |s'.events|;
    assert s'.events == s1.events[n..];
    forall id | id in s'.byID
      ensures id in Ids(s'.events) && s'.byID[id] in s'.events && s'.byID[id].id == id
    {
      AppendIndex(s, ev, id);
      var i :| 0 <= i < |s1.events| && s1.events[i] == s1.byID[id];
      assert s'.events[i - n].id == id;
    }
  }

  lemma AppendIndex(s: Store, ev: StoredEvent, id: string)
    requires IndexHolds(s) && id in Append(s, ev).byID
    ensures var s1 := Append(s, ev); s1.byID[id] in s1.events && s1.byID[id].id == id
  {
    if id == ev.id { assert Append(s, ev).events[|s.events|] == ev; }
  }

  /** Storing one more event keeps the store a faithful record of the history. */
  lemma PutHolds(r: Retention, s: Store, log: seq<StoredEvent>, ev: StoredEvent, now: int)
    requires Holds(r, s, log)
    ensures Holds(r, Put(r, s, ev, now), log + [ev])
  {
    PutIndex(r, s, ev, now);
    PutEvents(r, s, log, ev, now);
    forall o ensures Of(Put(r, s, ev, now), o) == From(log + [ev], o) {
      assert (log + [ev])[..|log|] == log;
      assert Of(s, o) == From(log, o);
    }
  }

  lemma PutEvents(r: Retention, s: Store, log: seq<StoredEvent>, ev: StoredEvent, now: int)
    requires |s.events| <= |log| && s.events == log[|log| - |s.events|..]
    ensures var es, log' := Put(r, s, ev, now).events, log + [ev];
      |es| <= |log'| && es == log'[|log'| - |es|..] && |es| <= r.maxCount
  {
    var log', s1, s' := log + [ev], Append(s, ev), Put(r, s, ev, now);
    assert s1.events == log'[|log'| - |s1.events|..];
    assert s'.events == s1.events[|s1.events| - |s'.events|..];
  }

  /** `n` is the fewest events to drop at the front that leaves no more than the count and, unless nothing is left,
      one that is not old among the dropped and the next. */
  ghost predicate Fewest(r: Retention, all: seq<StoredEvent>, now: int, n: nat) {
    && n <= |all| && |all| - n <= r.maxCount
    && (n < |all| ==> exists i :: 0 <= i <= n && all[i].time >= now - r.maxAge)
    && (n > 0 ==> |all| - (n - 1) > r.maxCount || forall i :: 0 <= i < n ==> all[i].time < now - r.maxAge)
  }

  predicate AmongFirst(all: seq<StoredEvent>, n: nat, id: string)
    requires n <= |all|
  {
    exists i :: 0 <= i < n && all[i].id == id
  }

  lemma PrunedAt(r: Retention, s: Store, now: int) returns (n: nat)
    ensures Fewest(r, s.events, now, n)
    ensures Prune(r, s, now) == s.(events := s.events[n..], byID := s.byID - Ids(s.events[..n]))
  {
    var aged := Aged(s.events, now - r.maxAge);
    n := if |s.events| - aged > r.maxCount then |s.events| - r.maxCount else aged;
    KeptFrom(r, s.events, now, n);
  }

  lemma IDKept(byID: map<string, StoredEvent>, all: seq<StoredEvent>, n: nat, kept: map<string, StoredEvent>, id: string)
    requires n <= |all| && kept == byID - Ids(all[..n])
    ensures id in kept <==> id in byID && !AmongFirst(all, n, id)
  {
    IdAt(all, n, id);
  }

  /** What storing keeps: all events but the fewest, and the ids of no dropped one. */
  lemma PutExact(r: Retention, s: Store, ev: StoredEvent, now: int) returns (n: nat)
    ensures Fewest(r, s.events + [ev], now, n) && Put(r, s, ev, now).events == (s.events + [ev])[n..]
    ensures forall id ::
      id in Put(r, s, ev, now).byID <==> (id in s.byID || id == ev.id) && !AmongFirst(s.events + [ev], n, id)
  {
    var s1, t := Append(s, ev), Put(r, s, ev, now);
    n := PrunedAt(r, s1, now);
    forall id ensures id in t.byID <==> (id in s.byID || id == ev.id) && !AmongFirst(s.events + [ev], n, id) {
      IDKept(s1.byID, s1.events, n, t.byID, id);
    }
  }

  /** By origin everything is kept. */
  lemma PutByOrigin(r: Retention, s: Store, ev: StoredEvent, now: int)
    ensures forall o :: Of(Put(r, s, ev, now), o) == Of(s, o) + if o == ev.origin then [ev] else []
  {}

  lemma KeptFrom(r: Retention, all: seq<StoredEvent>, now: int, n: nat)
    requires var aged := Aged(all, now - r.maxAge); n == if |all| - aged > r.maxCount then |all| - r.maxCount else aged
    ensures Fewest(r, all, now, n)
  {
    var aged := Aged(all, now - r.maxAge);
    assert n < |all| ==> all[aged].time >= now - r.maxAge;
  }

  lemma IdAt(all: seq<StoredEvent>, n: nat, id: string)
    requires n <= |all|
    ensures id in Ids(all[..n]) <==> AmongFirst(all, n, id)
  {
    if AmongFirst(all, n, id) {
      var i :| 0 <= i < n && all[i].id == id;
      assert all[..n][i].id == id;
    }
  }

  /** Every stored event is held under its origin, and nothing else is. */
  lemma {:induction false} FromMember(log: seq<StoredEvent>, origin: string, e: StoredEvent)
    ensures e in From(log, origin) <==> e in log && e.origin == origin
  {
    if log != [] {
      var p, last := log[..|log| - 1], log[|log| - 1];
      FromMember(p, origin, e);
      assert e in log <==> e in p || e == last;
    }
  }

  /** The data of the events past a sequence number. */
  function DataSince(events: seq<StoredEvent>, after: int): seq<string> {
    if events == [] then []
    else
      var rest := DataSince(events[..|events| - 1], after);
      if events[|events| - 1].seq_ > after then rest + [events[|events| - 1].data] else rest
  }

  class EventStore {
    const retention: Retention
    var events: seq<StoredEvent>
    var byID: map<string, StoredEvent>
    var byOrigin: map<string, seq<StoredEvent>>

    function Value(): Store
      reads this
    {
      Store(events, byID, byOrigin)
    }

    constructor (r: Retention)
      ensures Value() == EMPTY && retention == r
    {
      retention := r;
      events := [];
      byID := map[];
      byOrigin := map[];
    }

    method StoreEvent(id: string, seq_: int, origin: string, data: string, time: int, now: int)
      modifies this
      ensures Value() == Put(retention, old(Value()), StoredEvent(id, seq_, origin, time, data), now)
    {
      var event := StoredEvent(id, seq_, origin, time, data);
      events := events + [event];
      byID := byID[id := event];
      byOrigin := byOrigin[origin := (if origin in byOrigin then byOrigin[origin] else []) + [event]];
      PruneOld(now);
    }

    method PruneOld(now: int)
      modifies `events, `byID
      ensures Value() == Prune(retention, old(Value()), now)
    {
      var cutoff := now - retention.maxAge;
      var pruneIdx := 0;
      while pruneIdx < |events| && events[pruneIdx].time < cutoff
        invariant 0 <= pruneIdx <= |events|
        invariant forall i :: 0 <= i < pruneIdx ==> events[i].time < cutoff
      {
        pruneIdx := pruneIdx + 1;
      }
      assert pruneIdx == Aged(events, cutoff);
      if |events| - pruneIdx > retention.maxCount {
        pruneIdx := |events| - retention.maxCount;
      }
      if pruneIdx == 0 {
        DropNone(Value());
        return;
      }
      Drop(pruneIdx);
    }

    lemma DropNone(s: Store)
      ensures s.(events := s.events[0..], byID := s.byID - Ids(s.events[..0])) == s
    {
      assert Ids(s.events[..0]) == {};
    }

    method Drop(n: nat)
      requires n <= |events|
      modifies `events, `byID
      ensures var s := old(Value()); Value() == s.(events := s.events[n..], byID := s.byID - Ids(s.events[..n]))
    {
      RemoveIDs(n);
      events := events[n..];
    }

    method RemoveIDs(n: nat)
      requires n <= |events|
      modifies `byID
      ensures byID == old(byID) - Ids(events[..n])
    {
      assert Ids(events[..0]) == {};
      for i := 0 to n
        invariant byID == old(byID) - Ids(events[..i])
      {
        IdsSnoc(events, i);
        byID := byID - {events[i].id};
      }
    }

    lemma IdsSnoc(es: seq<StoredEvent>, n: nat)
      requires n < |es|
      ensures Ids(es[..n + 1]) == Ids(es[..n]) + {es[n].id}
    {
      var a, b := es[..n + 1], es[..n];
      forall id ensures id in Ids(a) <==> id in Ids(b) + {es[n].id} {
        if id in Ids(b) {
          var i :| 0 <= i < |b| && b[i].id == id;
          assert a[i].id == id;
        }
        if id == es[n].id { assert a[n].id == id; }
      }
    }

    method GetEventsSince(origin: string, afterSeq: int) returns (result: seq<string>)
      ensures result == DataSince(Of(Value(), origin), afterSeq)
    {
      var list := if origin in byOrigin then byOrigin[origin] else [];
      result := [];
      for i := 0 to |list|
        invariant result == DataSince(list[..i], afterSeq)
      {
        assert list[..i + 1][..i] == list[..i];
        if list[i].seq_ > afterSeq {
          result := result + [list[i].data];
        }
      }
      assert list[..|list|] == list;
    }
  }
}
