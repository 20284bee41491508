/** The federation manager of one server (federation.go): receiving a message, broadcasting an event
    and choosing the events of a sync response.

    Signature checking, JSON text and the handlers behind the message types are not part of this
    model: the manager is told whether a message verified, events carry their text, and what a
    handler sends is an event of its own.
 */
module Federation {
  import opened Text
  import opened Lamport
  import opened Urns
  import D = Dedupe
  import E = Events

  datatype Kind =
    | Hello | Ping | Pong | UserOnline | UserOffline | NickChange | Join | Part | Kick | Mode | Topic
    | ChannelMessage | PrivateMessage | Notice | SyncRequest | SyncResponse | IdentityUpdate | Error
    | Unknown

  datatype Event = Event(kind: Kind, id: string, seq_: int, origin: string, data: string)

  predicate Transient(k: Kind) {
    k == Ping || k == Pong || k == SyncRequest || k == SyncResponse || k == Error
  }

  /** What one server remembers. */
  datatype Node = Node(clock: Clock, window: D.Window, store: E.Store)

  const INITIAL := Node(ZERO, D.EMPTY, E.EMPTY)

  datatype Config = Config(limits: D.Limits, retention: E.Retention)

  datatype Verdict = BadSignature | Duplicate | Handled

  function Stored(ev: Event, now: int): E.StoredEvent {
    E.StoredEvent(ev.id, ev.seq_, ev.origin, now, ev.data)
  }

  function Verdict_(n: Node, ev: Event, verified: bool): Verdict {
    if !verified then BadSignature else if ev.id in n.window.seen then Duplicate else Handled
  }

  /** The memory of a server after a message from a peer. */
  function Receive(c: Config, n: Node, ev: Event, verified: bool, now: int): Node {
    match Verdict_(n, ev, verified)
    case BadSignature => n
    case Duplicate => n
    case Handled =>
      Node(n.clock.Merge(ev.origin, ev.seq_), D.Mark(c.limits, n.window, ev.id, now),
           if Transient(ev.kind) then n.store else E.Put(c.retention, n.store, Stored(ev, now), now))
  }

  /** A message that does not verify changes nothing, nor does one whose id is in the window; any other is handled:
      the clock passes it, its id is marked, and it is stored unless it is of one of five kinds. */
  lemma VerdictMeans(c: Config, n: Node, ev: Event, verified: bool, now: int)
    requires D.Valid(c.limits, n.window) && c.limits.maxEvents >= 1 && c.limits.maxAge >= 0
    ensures var v, m := Verdict_(n, ev, verified), Receive(c, n, ev, verified, now);
      && (!verified ==> v == BadSignature && m == n)
      && (verified && ev.id in n.window.seen ==> v == Duplicate && m == n)
      && (verified && ev.id !in n.window.seen ==>
            && v == Handled && ev.id in m.window.seen && m.clock.seq_ > ev.seq_ && m.clock.seq_ > n.clock.seq_
            && m.store.byOrigin == if ev.kind in {Ping, Pong, SyncRequest, SyncResponse, Error} then n.store.byOrigin else
                 n.store.byOrigin[ev.origin :=
                   E.Of(n.store, ev.origin) + [E.StoredEvent(ev.id, ev.seq_, ev.origin, now, ev.data)]])
  {
    D.JustMarked(c.limits, n.window, ev.id, now);
  }

  /** Replaying an event out of a sync response has no effect: the response's handler marks its id, and
      the event is then taken for a duplicate. */
  lemma SyncReplayDropped(c: Config, n: Node, ev: Event, verified: bool, now: int)
    requires D.Valid(c.limits, n.window) && c.limits.maxEvents >= 1 && c.limits.maxAge >= 0
    ensures var marked := n.(window := D.Mark(c.limits, n.window, ev.id, now));
      Verdict_(marked, ev, verified) != Handled && Receive(c, marked, ev, verified, now) == marked
  {
    D.JustMarked(c.limits, n.window, ev.id, now);
  }

  /** NewEnvelope: an event with the next number of the server's clock. */
  function NewEvent(n: Node, urn: string, kind: Kind, data: string): Event
    requires n.clock.seq_ >= 0
  {
    Event(kind, EventID(urn, n.clock.seq_ + 1), n.clock.seq_ + 1, urn, data)
  }

  /** The memory of a server after creating an event; a broadcast one is also stored. */
  function Create(c: Config, n: Node, urn: string, kind: Kind, data: string, broadcast: bool, now: int): Node
    requires n.clock.seq_ >= 0
  {
    n.(clock := n.clock.Next(),
       store := if broadcast then E.Put(c.retention, n.store, Stored(NewEvent(n, urn, kind, data), now), now)
                else n.store)
  }

  /** BroadcastExcept: everyone connected but the source. */
  function Except<T(==,!new)>(peers: seq<T>, source: T): (r: seq<T>)
    ensures source !in r && (forall p :: p in peers && p != source ==> p in r) && (forall p :: p in r ==> p in peers)
    ensures |r| <= |peers|
  {
    if peers == [] then []
    else
      var rest := Except(peers[..|peers| - 1], source);
      var last := peers[|peers| - 1];
      assert forall p :: p in peers <==> p in peers[..|peers| - 1] || p == last;
      if last != source then rest + [last] else rest
  }

  // ----- Choosing the events a peer is missing -----

  function Theirs(theirs: map<string, int>, origin: string): int {
    if origin in theirs then theirs[origin] else 0
  }

  /** The stored events of known origins past what the peer has seen of them. */
  function Missing(log: seq<E.StoredEvent>, known: set<string>, theirs: map<string, int>): seq<string> {
    if log == [] then []
    else
      var rest, last := Missing(log[..|log| - 1], known, theirs), log[|log| - 1];
      if last.origin in known && last.seq_ > Theirs(theirs, last.origin) then rest + [last.data] else rest
  }

  /** The positions of the stored events with some text, of known origins and with numbers above the peer's entry,
      or above 0 where the peer has none. */
  function Wanted(log: seq<E.StoredEvent>, known: set<string>, theirs: map<string, int>, data: string): set<int> {
    set i | 0 <= i < |log| && log[i].data == data && log[i].origin in known
            && log[i].seq_ > if log[i].origin in theirs then theirs[log[i].origin] else 0
  }

  lemma WantedSnoc(p: seq<E.StoredEvent>, last: E.StoredEvent, known: set<string>, theirs: map<string, int>, data: string)
    ensures var wanted := last.data == data && last.origin in known
                          && last.seq_ > if last.origin in theirs then theirs[last.origin] else 0;
      Wanted(p + [last], known, theirs, data) == Wanted(p, known, theirs, data) + if wanted then {|p|} else {}
  {
    assert (p + [last])[|p|] == last && forall i :: 0 <= i < |p| ==> (p + [last])[i] == p[i];
  }

  /** A choice has each text exactly as often as there are wanted events with it. */
  lemma {:induction false} MissingWanted(log: seq<E.StoredEvent>, known: set<string>, theirs: map<string, int>, data: string)
    ensures multiset(Missing(log, known, theirs))[data] == |Wanted(log, known, theirs, data)|
  {
    if log != [] {
      var p, last := log[..|log| - 1], log[|log| - 1];
      assert log == p + [last];
      MissingWanted(p, known, theirs, data);
      WantedSnoc(p, last, known, theirs, data);
      MissingSnoc(p, last, known, theirs);
    }
  }

  /** The origins a sync response looks at: the server's own and the ones in its vector. */
  function Known(urn: string, clock: Clock): set<string> {
    {urn} + clock.vector.Keys
  }

  /** What one more stored event adds to a choice. */
  function Pick(e: E.StoredEvent, known: set<string>, theirs: map<string, int>): seq<string> {
    if e.origin in known && e.seq_ > Theirs(theirs, e.origin) then [e.data] else []
  }

  lemma SinceSnoc(log: seq<E.StoredEvent>, last: E.StoredEvent, o: string, theirs: map<string, int>)
    ensures E.DataSince(E.From(log + [last], o), Theirs(theirs, o))
         == E.DataSince(E.From(log, o), Theirs(theirs, o)) + Pick(last, {o}, theirs)
  {
    assert (log + [last])[..|log|] == log;
    if last.origin == o {
      assert (E.From(log, o) + [last])[..|E.From(log, o)|] == E.From(log, o);
    }
    var since := E.DataSince(E.From(log, o), Theirs(theirs, o));
    assert since + [] == since;
  }

  lemma MissingSnoc(log: seq<E.StoredEvent>, last: E.StoredEvent, known: set<string>, theirs: map<string, int>)
    ensures Missing(log + [last], known, theirs) == Missing(log, known, theirs) + Pick(last, known, theirs)
  {
    assert (log + [last])[..|log|] == log;
    assert Missing(log, known, theirs) + [] == Missing(log, known, theirs);
  }

  /** Splitting the choice by origin neither loses nor repeats an event. */
  lemma {:induction false} MissingByOrigin(log: seq<E.StoredEvent>, known: set<string>, o: string, theirs: map<string, int>)
    requires o !in known
    ensures multiset(Missing(log, known + {o}, theirs))
         == multiset(Missing(log, known, theirs)) + multiset(E.DataSince(E.From(log, o), Theirs(theirs, o)))
  {
    if log != [] {
      var p, last := log[..|log| - 1], log[|log| - 1];
      assert log == p + [last];
      MissingByOrigin(p, known, o, theirs);
      SinceSnoc(p, last, o, theirs);
      MissingSnoc(p, last, known, theirs);
      MissingSnoc(p, last, known + {o}, theirs);
      assert multiset(Pick(last, known + {o}, theirs))
          == multiset(Pick(last, known, theirs)) + multiset(Pick(last, {o}, theirs));
    }
  }

  lemma {:induction false} MissingNothing(log: seq<E.StoredEvent>, theirs: map<string, int>)
    ensures Missing(log, {}, theirs) == []
  {
    if log != [] { MissingNothing(log[..|log| - 1], theirs); }
  }

  /** Every origin in the log is known, and its numbers are within the clock's vector entry. */
  ghost predicate Covered(urn: string, clock: Clock, log: seq<E.StoredEvent>) {
    forall i :: 0 <= i < |log| ==>
      log[i].origin in Known(urn, clock)
      && (log[i].origin in clock.vector && log[i].origin != urn ==> log[i].seq_ <= clock.vector[log[i].origin])
  }

  /** All events missing, whatever their origin. */
  function AllMissing(log: seq<E.StoredEvent>, theirs: map<string, int>): seq<string> {
    if log == [] then []
    else
      var rest, last := AllMissing(log[..|log| - 1], theirs), log[|log| - 1];
      if last.seq_ > Theirs(theirs, last.origin) then rest + [last.data] else rest
  }

  /** Merging an event numbered from 1 and storing it keeps the log covered. */
  lemma ReceiveCovered(urn: string, c: Clock, log: seq<E.StoredEvent>, ev: Event, now: int)
    requires Covered(urn, c, log) && ev.seq_ >= 1
    ensures Covered(urn, c.Merge(ev.origin, ev.seq_), log)
    ensures Covered(urn, c.Merge(ev.origin, ev.seq_), log + [Stored(ev, now)])
  {
    MergeAdvances(c, ev.origin, ev.seq_);
    var d := c.Merge(ev.origin, ev.seq_);
    forall i | 0 <= i < |log|
      ensures log[i].origin in Known(urn, d)
      ensures log[i].origin in d.vector && log[i].origin != urn ==> log[i].seq_ <= d.vector[log[i].origin]
    {
      assert log[i].origin in Known(urn, c);
    }
  }

  predicate OriginsKnown(urn: string, clock: Clock, log: seq<E.StoredEvent>) {
    forall e :: e in log ==> e.origin in Known(urn, clock)
  }

  lemma {:induction false} MissingCounts(log: seq<E.StoredEvent>, known: set<string>, theirs: map<string, int>, e: E.StoredEvent)
    ensures |Missing(log, known, theirs)| <= |AllMissing(log, theirs)|
    ensures e in log && e.origin !in known && e.seq_ > Theirs(theirs, e.origin)
            ==> |Missing(log, known, theirs)| < |AllMissing(log, theirs)|
  {
    if log != [] {
      MissingCounts(log[..|log| - 1], known, theirs, e);
      assert e in log <==> e in log[..|log| - 1] || e == log[|log| - 1];
    }
  }

  lemma {:induction false} KnownMissing(urn: string, clock: Clock, log: seq<E.StoredEvent>, theirs: map<string, int>)
    requires OriginsKnown(urn, clock, log)
    ensures Missing(log, Known(urn, clock), theirs) == AllMissing(log, theirs)
  {
    if log != [] {
      KnownMissing(urn, clock, log[..|log| - 1], theirs);
      assert log[|log| - 1] in log;
    }
  }

  ghost predicate SelectsAll(urn: string, clock: Clock, log: seq<E.StoredEvent>, theirs: map<string, int>) {
    multiset(Missing(log, Known(urn, clock), theirs)) == multiset(AllMissing(log, theirs))
  }

  /** The selection is complete for every vector a peer may send exactly when every stored origin is
      the server's own or a key of its vector. */
  lemma SelectionCompleteIff(urn: string, clock: Clock, log: seq<E.StoredEvent>)
    ensures OriginsKnown(urn, clock, log) <==> forall theirs :: SelectsAll(urn, clock, log, theirs)
  {
    if OriginsKnown(urn, clock, log) {
      forall theirs ensures SelectsAll(urn, clock, log, theirs) { KnownMissing(urn, clock, log, theirs); }
    } else {
      var e :| e in log && e.origin !in Known(urn, clock);
      var theirs := map[e.origin := e.seq_ - 1];
      MissingCounts(log, Known(urn, clock), theirs, e);
      assert |multiset(Missing(log, Known(urn, clock), theirs))| < |multiset(AllMissing(log, theirs))|;
      assert !SelectsAll(urn, clock, log, theirs);
    }
  }

  class FederationManager {
    const urn: string
    const config: Config
    const clock: LamportClock
    const dedupe: D.Deduplicator
    const eventStore: E.EventStore
    /** Everything ever stored, for specification. */
    ghost var log: seq<E.StoredEvent>

    ghost predicate Valid()
      reads this, clock, dedupe, eventStore
    {
      && dedupe.limits == config.limits && eventStore.retention == config.retention
      && clock.seq_ >= 0
      && D.Valid(config.limits, dedupe.Value())
      && E.Holds(config.retention, eventStore.Value(), log)
    }

    function Memory(): Node
      reads this, clock, dedupe, eventStore
    {
      Node(clock.Value(), dedupe.Value(), eventStore.Value())
    }

    constructor (host: string, c: Config)
      ensures Valid() && Memory() == INITIAL && log == [] && urn == ServerURN(host) && config == c
      ensures fresh(clock) && fresh(dedupe) && fresh(eventStore)
    {
      urn := ServerURN(host);
      config := c;
      clock := new LamportClock();
      dedupe := new D.Deduplicator(c.limits);
      eventStore := new E.EventStore(c.retention);
      log := [];
    }

    /** The part of handlePeerMessage around the handlers: whether the message is handled, and to
        whom it is forwarded. */
    method HandlePeerMessage(ev: Event, verified: bool, source: string, connected: seq<string>, now: int)
      returns (verdict: Verdict, forward: seq<string>)
      requires Valid()
      modifies this, clock, dedupe, eventStore
      ensures Valid()
      ensures verdict == Verdict_(old(Memory()), ev, verified)
      ensures Memory() == Receive(config, old(Memory()), ev, verified, now)
      ensures log == old(log) + if verdict == Handled && !Transient(ev.kind) then [Stored(ev, now)] else []
      ensures forward == if verdict == Handled then Except(connected, source) else []
      ensures !verified ==> verdict == BadSignature && Memory() == old(Memory()) && log == old(log) && forward == []
      ensures verified && ev.id in old(dedupe.seen) ==>
        verdict == Duplicate && Memory() == old(Memory()) && log == old(log) && forward == []
      ensures verified && ev.id !in old(dedupe.seen) ==>
        && verdict == Handled && (forall p :: p in forward <==> p in connected && p != source)
        && (config.limits.maxEvents >= 1 && config.limits.maxAge >= 0 ==> ev.id in dedupe.seen)
      ensures old(Covered(urn, clock.Value(), log)) && ev.seq_ >= 1 ==> Covered(urn, clock.Value(), log)
    {
      if !verified {
        return BadSignature, [];
      }
      if config.limits.maxEvents >= 1 && config.limits.maxAge >= 0 {
        D.JustMarked(config.limits, dedupe.Value(), ev.id, now);
      }
      var duplicate := dedupe.IsDuplicate(ev.id, now);
      D.MarkValid(config.limits, old(dedupe.Value()), ev.id, now);
      if duplicate {
        return Duplicate, [];
      }
      Take(ev, now);
      forward := BroadcastExcept(connected, source);
      verdict := Handled;
    }

    /** A new event passes the clock and is stored unless it is transient. */
    method Take(ev: Event, now: int)
      requires Valid()
      modifies this, clock, eventStore
      ensures Valid() && clock.Value() == old(clock.Value()).Merge(ev.origin, ev.seq_)
      ensures eventStore.Value() == if Transient(ev.kind) then old(eventStore.Value())
                                    else E.Put(config.retention, old(eventStore.Value()), Stored(ev, now), now)
      ensures log == old(log) + if Transient(ev.kind) then [] else [Stored(ev, now)]
      ensures old(Covered(urn, clock.Value(), log)) && ev.seq_ >= 1 ==> Covered(urn, clock.Value(), log)
    {
      if ev.seq_ >= 1 && Covered(urn, clock.Value(), log) { ReceiveCovered(urn, clock.Value(), log, ev, now); }
      clock.Merge(ev.origin, ev.seq_);
      if !Transient(ev.kind) {
        E.PutHolds(config.retention, eventStore.Value(), log, Stored(ev, now), now);
        eventStore.StoreEvent(ev.id, ev.seq_, ev.origin, ev.data, now, now);
        log := log + [Stored(ev, now)];
      }
    }

    method BroadcastExcept(connected: seq<string>, exclude: string) returns (sent: seq<string>)
      ensures sent == Except(connected, exclude)
    {
      sent := [];
      for i := 0 to |connected|
        invariant sent == Except(connected[..i], exclude)
      {
        assert connected[..i + 1][..i] == connected[..i];
        if connected[i] != exclude {
          sent := sent + [connected[i]];
        }
      }
      assert connected[..|connected|] == connected;
    }

    /** NewEnvelope followed by broadcastEnvelope, or by a send to a single peer. */
    method CreateEvent(kind: Kind, data: string, broadcast: bool, now: int) returns (ev: Event)
      requires Valid()
      modifies this, clock, eventStore
      ensures Valid()
      ensures ev == NewEvent(old(Memory()), urn, kind, data)
      ensures ev.kind == kind && ev.data == data && ev.origin == urn && ev.seq_ == clock.seq_ == old(clock.seq_) + 1
      ensures Memory() == Create(config, old(Memory()), urn, kind, data, broadcast, now)
      ensures log == old(log) + if broadcast then [Stored(ev, now)] else []
      ensures old(Covered(urn, clock.Value(), log)) ==> Covered(urn, clock.Value(), log)
    {
      var n := clock.Next();
      ev := Event(kind, EventID(urn, n), n, urn, data);
      assert ev == NewEvent(old(Memory()), urn, kind, data);
      assert clock.Value() == old(Memory()).clock.Next();
      if broadcast {
        E.PutHolds(config.retention, eventStore.Value(), log, Stored(ev, now), now);
        eventStore.StoreEvent(ev.id, ev.seq_, ev.origin, ev.data, now, now);
        log := log + [Stored(ev, now)];
      }
    }

    method AppendSince(events: seq<string>, origin: string, theirs: map<string, int>, ghost done: set<string>)
      returns (events': seq<string>)
      requires Valid() && origin !in done
      requires multiset(events) == multiset(Missing(log, done, theirs))
      ensures multiset(events') == multiset(Missing(log, done + {origin}, theirs))
    {
      var since := eventStore.GetEventsSince(origin, Theirs(theirs, origin));
      MissingByOrigin(log, done, origin, theirs);
      assert E.Of(eventStore.Value(), origin) == E.From(log, origin);
      events' := events + since;
    }

    /** The selection loop of sendSyncResponse, over the vector's keys in any order: every stored event
        of a known origin that the peer's vector does not cover appears exactly once, nothing else. */
    method SelectForSync(theirs: map<string, int>) returns (events: seq<string>)
      requires Valid()
      ensures multiset(events) == multiset(Missing(log, Known(urn, clock.Value()), theirs))
      ensures OriginsKnown(urn, clock.Value(), log) ==> multiset(events) == multiset(AllMissing(log, theirs))
      ensures forall d :: multiset(events)[d] == |Wanted(log, {urn} + clock.vector.Keys, theirs, d)|
    {
      MissingNothing(log, theirs);
      events := AppendSince([], urn, theirs, {});
      ghost var done := {urn};
      assert {} + {urn} == done;
      var left := clock.vector.Keys - {urn};
      while left != {}
        invariant left !! done && done + left == Known(urn, clock.Value())
        invariant multiset(events) == multiset(Missing(log, done, theirs))
        decreases left
      {
        var origin :| origin in left;
        events := AppendSince(events, origin, theirs, done);
        done := done + {origin};
        left := left - {origin};
      }
      assert done == Known(urn, clock.Value());
      forall d ensures multiset(events)[d] == |Wanted(log, {urn} + clock.vector.Keys, theirs, d)| {
        MissingWanted(log, done, theirs, d);
      }
      if OriginsKnown(urn, clock.Value(), log) { KnownMissing(urn, clock.Value(), log, theirs); }
    }
  }
}
