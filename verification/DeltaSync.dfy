/** Delta sync over runs of the network (federation.go, sendSyncResponse): in every reachable state a
    server's answer holds all it has stored and, of what it has handled or broadcast, all that is to be stored. */
module DeltaSync {
  import opened Lamport
  import opened Urns
  import opened Federation
  import opened Network
  import E = Events

  /** A stored list holds events of its origin, numbered within what the server knows of that origin. */
  ghost predicate ListOk(urn: string, clock: Clock, o: string, list: seq<E.StoredEvent>) {
    && o in Known(urn, clock)
    && forall i :: 0 <= i < |list| ==>
         list[i].origin == o && (o != urn ==> list[i].seq_ <= clock.vector[o]) && (o == urn ==> list[i].seq_ <= clock.seq_)
  }

  ghost predicate StoreOk(urn: string, n: Node) {
    forall o :: o in n.store.byOrigin ==> ListOk(urn, n.clock, o, n.store.byOrigin[o])
  }

  /** The store is a faithful record of some history. */
  ghost predicate Recorded(r: E.Retention, n: Node) { exists log :: E.Holds(r, n.store, log) }

  /** An event is stored, at whatever time. */
  ghost predicate IsStored(n: Node, ev: Event) { exists now :: Stored(ev, now) in E.Of(n.store, ev.origin) }

  /** What a server is to store: all it handles that is not transient, and all it broadcasts itself. */
  predicate ToStore(a: Action, node: nat) {
    a.node == node && if a.Processed? then !Transient(a.ev.kind) else a.broadcast
  }

  ghost predicate HeardStored(s: Net, i: nat)
    requires i < |s.nodes|
  {
    forall p :: 0 <= p < |s.trace| && ToStore(s.trace[p], i) ==> IsStored(s.nodes[i], s.trace[p].ev)
  }

  ghost predicate NodeStored(w: World, s: Net, i: nat)
    requires |s.nodes| == |w.hosts| && i < |s.nodes|
  {
    StoreOk(ServerURN(w.hosts[i]), s.nodes[i]) && Recorded(w.config.retention, s.nodes[i]) && HeardStored(s, i)
  }

  ghost predicate StoresOk(w: World, s: Net)
    requires |s.nodes| == |w.hosts|
  {
    forall i :: 0 <= i < |s.nodes| ==> NodeStored(w, s, i)
  }

  // ----- One step -----

  /** Storing one event the clock knows of. */
  lemma PutOk(urn: string, clock: Clock, r: E.Retention, store: E.Store, ev: E.StoredEvent, now: int)
    requires forall o :: o in store.byOrigin ==> ListOk(urn, clock, o, store.byOrigin[o])
    requires ListOk(urn, clock, ev.origin, [ev])
    ensures var t := E.Put(r, store, ev, now); forall o :: o in t.byOrigin ==> ListOk(urn, clock, o, t.byOrigin[o])
  {
    var t := E.Put(r, store, ev, now);
    var list := E.Of(store, ev.origin) + [ev];
    assert t.byOrigin == store.byOrigin[ev.origin := list];
    assert [ev][0] == ev;
  }

  lemma ListStays(urn: string, c: Clock, d: Clock, o: string, list: seq<E.StoredEvent>)
    requires ListOk(urn, c, o, list) && c.seq_ <= d.seq_
    requires forall k :: k in c.vector ==> k in d.vector && c.vector[k] <= d.vector[k]
    ensures ListOk(urn, d, o, list)
  {}

  lemma StoreStays(urn: string, n: Node, d: Clock)
    requires StoreOk(urn, n) && n.clock.seq_ <= d.seq_
    requires forall k :: k in n.clock.vector ==> k in d.vector && n.clock.vector[k] <= d.vector[k]
    ensures StoreOk(urn, n.(clock := d))
  {
    forall o | o in n.store.byOrigin ensures ListOk(urn, d, o, n.store.byOrigin[o]) {
      ListStays(urn, n.clock, d, o, n.store.byOrigin[o]);
    }
  }

  lemma RecordedPut(r: E.Retention, n: Node, ev: E.StoredEvent, now: int)
    requires Recorded(r, n)
    ensures exists log :: E.Holds(r, E.Put(r, n.store, ev, now), log)
  {
    var log :| E.Holds(r, n.store, log);
    E.PutHolds(r, n.store, log, ev, now);
  }

  lemma StoredStays(r: E.Retention, n: Node, m: Node, ev: Event, other: E.StoredEvent, now: int)
    requires IsStored(n, ev) && (m.store == n.store || m.store == E.Put(r, n.store, other, now))
    ensures IsStored(m, ev)
  {
    var t :| Stored(ev, t) in E.Of(n.store, ev.origin);
    assert Stored(ev, t) in E.Of(m.store, ev.origin);
  }

  lemma JustStored(r: E.Retention, n: Node, m: Node, ev: Event, now: int)
    requires m.store == E.Put(r, n.store, Stored(ev, now), now)
    ensures IsStored(m, ev)
  {
    assert Stored(ev, now) in E.Of(m.store, ev.origin);
  }

  /** Handling a message numbered from 1 keeps the store within the clock. */
  lemma ReceiveStoreOk(urn: string, c: Config, n: Node, ev: Event, verified: bool, now: int)
    requires StoreOk(urn, n) && Recorded(c.retention, n) && ev.seq_ >= 1
    ensures var m := Receive(c, n, ev, verified, now); StoreOk(urn, m) && Recorded(c.retention, m)
  {
    if Verdict_(n, ev, verified) == Handled {
      var d := n.clock.Merge(ev.origin, ev.seq_);
      MergeAdvances(n.clock, ev.origin, ev.seq_);
      StoreStays(urn, n, d);
      if !Transient(ev.kind) {
        PutOk(urn, d, c.retention, n.store, Stored(ev, now), now);
        RecordedPut(c.retention, n, Stored(ev, now), now);
      }
    }
  }

  lemma CreateStoreOk(urn: string, c: Config, n: Node, kind: Kind, data: string, broadcast: bool, now: int)
    requires StoreOk(urn, n) && Recorded(c.retention, n) && n.clock.seq_ >= 0
    ensures var m := Create(c, n, urn, kind, data, broadcast, now); StoreOk(urn, m) && Recorded(c.retention, m)
  {
    var d, ev := n.clock.Next(), NewEvent(n, urn, kind, data);
    StoreStays(urn, n, d);
    if broadcast {
      PutOk(urn, d, c.retention, n.store, Stored(ev, now), now);
      RecordedPut(c.retention, n, Stored(ev, now), now);
    }
  }

  lemma InitialStores(w: World)
    ensures StoresOk(w, InitialNet(w))
  {
    InitialRecorded(w.config.retention);
    forall i | 0 <= i < |w.hosts| ensures NodeStored(w, InitialNet(w), i) {
      InitialStoreOk(ServerURN(w.hosts[i]));
      assert InitialNet(w).nodes[i] == INITIAL;
    }
  }

  lemma InitialStoreOk(urn: string)
    ensures StoreOk(urn, INITIAL)
  {}

  lemma InitialRecorded(r: E.Retention)
    ensures Recorded(r, INITIAL)
  {
    forall o ensures E.Of(E.EMPTY, o) == E.From([], o) {}
    assert E.Holds(r, E.EMPTY, []);
  }

  lemma StepStoreOk(w: World, s: Net, step: Step, i: nat)
    requires Inv(w, s) && Enabled(w, s, step) && i < |s.nodes| && NodeStored(w, s, i)
    ensures |Next(w, s, step).nodes| == |s.nodes|
    ensures StoreOk(ServerURN(w.hosts[i]), Next(w, s, step).nodes[i])
    ensures Recorded(w.config.retention, Next(w, s, step).nodes[i])
  {
    match step
    case CreateStep(node, kind, data, broadcast, _, now) =>
      if node == i { CreateStoreOk(ServerURN(w.hosts[i]), w.config, s.nodes[i], kind, data, broadcast, now); }
    case DeliverStep(k, _, now) =>
      var Packet(src, dst, ev) := s.bag[k];
      assert PacketOk(s, s.bag[k]);
      ReceiveOk(w, s, dst, ev, now);
      if dst == i { ReceiveStoreOk(ServerURN(w.hosts[i]), w.config, s.nodes[i], ev, w.verify(src, dst, ev), now); }
    case PremarkStep(_, _, _) =>
    case LoseStep(_) =>
  }

  /** How a step may change a server's store. */
  ghost predicate StoreGrows(r: E.Retention, a: E.Store, b: E.Store) {
    b == a || exists ev, now :: b == E.Put(r, a, ev, now)
  }

  lemma StepGrows(w: World, s: Net, step: Step, i: nat)
    requires Inv(w, s) && Enabled(w, s, step) && i < |s.nodes|
    ensures StoreGrows(w.config.retention, s.nodes[i].store, Next(w, s, step).nodes[i].store)
  {
    if step.DeliverStep? { assert PacketOk(s, s.bag[step.k]); }
  }

  lemma GrowsKeeps(r: E.Retention, n: Node, m: Node, ev: Event)
    requires IsStored(n, ev) && StoreGrows(r, n.store, m.store)
    ensures IsStored(m, ev)
  {
    if m.store != n.store {
      var other, now :| m.store == E.Put(r, n.store, other, now);
      StoredStays(r, n, m, ev, other, now);
    }
  }

  lemma StepHeard(w: World, s: Net, step: Step, i: nat)
    requires Inv(w, s) && Enabled(w, s, step) && i < |s.nodes| && HeardStored(s, i)
    ensures HeardStored(Next(w, s, step), i)
  {
    var s' := Next(w, s, step);
    StepGrows(w, s, step, i);
    forall p | 0 <= p < |s'.trace| && ToStore(s'.trace[p], i) ensures IsStored(s'.nodes[i], s'.trace[p].ev) {
      if p < |s.trace| {
        assert s'.trace[p] == s.trace[p];
        GrowsKeeps(w.config.retention, s.nodes[i], s'.nodes[i], s.trace[p].ev);
      } else {
        JustStored(w.config.retention, s.nodes[i], s'.nodes[i], s'.trace[p].ev, step.now);
      }
    }
  }

  lemma StepStores(w: World, s: Net, step: Step)
    requires Inv(w, s) && Enabled(w, s, step) && StoresOk(w, s)
    ensures StoresOk(w, Next(w, s, step))
  {
    forall i | 0 <= i < |s.nodes| ensures NodeStored(w, Next(w, s, step), i) {
      assert NodeStored(w, s, i);
      StepStoreOk(w, s, step, i);
      StepHeard(w, s, step, i);
    }
  }

  // ----- Every reachable state -----

  lemma {:induction false} RunStores(w: World, s: Net, steps: seq<Step>)
    requires Inv(w, s) && CanRun(w, s, steps) && StoresOk(w, s)
    ensures StoresOk(w, Run(w, s, steps))
    decreases |steps|
  {
    if steps != [] {
      StepStores(w, s, steps[0]);
      RunStores(w, Next(w, s, steps[0]), steps[1..]);
    }
  }

  /** In every reachable state every store is a record of a history, within the server's clock, with
      everything handled and broadcast in it. */
  lemma ReachableStores(w: World, s: Net)
    requires Reachable(w, s)
    ensures |s.nodes| == |w.hosts| && StoresOk(w, s)
  {
    var steps :| CanRun(w, InitialNet(w), steps) && Run(w, InitialNet(w), steps) == s;
    InitialStores(w);
    RunStores(w, InitialNet(w), steps);
  }

  /** Whatever history a server's store holds, the answer's choice is everything missing from it. */
  lemma SelectionComplete(w: World, s: Net, i: nat, log: seq<E.StoredEvent>, theirs: map<string, int>)
    requires Reachable(w, s) && i < |s.nodes| && E.Holds(w.config.retention, s.nodes[i].store, log)
    ensures |s.nodes| == |w.hosts|
    ensures var urn, clock := ServerURN(w.hosts[i]), s.nodes[i].clock;
      && Covered(urn, clock, log) && OriginsKnown(urn, clock, log)
      && multiset(Missing(log, Known(urn, clock), theirs)) == multiset(AllMissing(log, theirs))
  {
    ReachableStores(w, s);
    var urn, n := ServerURN(w.hosts[i]), s.nodes[i];
    assert NodeStored(w, s, i);
    LogCovered(w.config.retention, urn, n, log);
    KnownMissing(urn, n.clock, log, theirs);
  }

  lemma LogCovered(r: E.Retention, urn: string, n: Node, log: seq<E.StoredEvent>)
    requires StoreOk(urn, n) && E.Holds(r, n.store, log)
    ensures Covered(urn, n.clock, log) && OriginsKnown(urn, n.clock, log)
  {
    forall i | 0 <= i < |log|
      ensures log[i].origin in Known(urn, n.clock)
      ensures log[i].origin in n.clock.vector && log[i].origin != urn ==> log[i].seq_ <= n.clock.vector[log[i].origin]
    {
      var o := log[i].origin;
      E.FromMember(log, o, log[i]);
      assert log[i] in E.Of(n.store, o);
      var j :| 0 <= j < |E.Of(n.store, o)| && E.Of(n.store, o)[j] == log[i];
      assert ListOk(urn, n.clock, o, n.store.byOrigin[o]);
    }
  }

  lemma {:induction false} MissingHas(log: seq<E.StoredEvent>, theirs: map<string, int>, e: E.StoredEvent)
    requires e in log && e.seq_ > Theirs(theirs, e.origin)
    ensures e.data in AllMissing(log, theirs)
  {
    if e != log[|log| - 1] { MissingHas(log[..|log| - 1], theirs, e); }
  }

  /** Something to store that the peer's vector does not cover. */
  predicate ToAnswer(a: Action, node: nat, theirs: map<string, int>) {
    ToStore(a, node) && a.ev.seq_ > if a.ev.origin in theirs then theirs[a.ev.origin] else 0
  }

  /** The positions of the stored events with some text and numbers above the peer's entry, or above 0 where the
      peer has none, of whatever origin. */
  function WantedOfAny(log: seq<E.StoredEvent>, theirs: map<string, int>, data: string): set<int> {
    set i | 0 <= i < |log| && log[i].data == data
            && log[i].seq_ > if log[i].origin in theirs then theirs[log[i].origin] else 0
  }

  /** The sync answer of a server of a reachable network: all it has stored that the peer's vector does not
      cover, each once, and among it everything of that kind it has ever handled or broadcast. */
  method AnswerSync(ghost w: World, ghost s: Net, ghost i: nat, fm: FederationManager, theirs: map<string, int>)
    returns (events: seq<string>)
    requires Reachable(w, s) && i < |s.nodes| == |w.hosts|
    requires fm.Valid() && fm.Memory() == s.nodes[i] && fm.urn == ServerURN(w.hosts[i]) && fm.config == w.config
    ensures multiset(events) == multiset(AllMissing(fm.log, theirs))
    ensures forall d :: multiset(events)[d] == |WantedOfAny(fm.log, theirs, d)|
    ensures forall p :: 0 <= p < |s.trace| && ToAnswer(s.trace[p], i, theirs) ==> s.trace[p].ev.data in events
  {
    events := fm.SelectForSync(theirs);
    SelectionComplete(w, s, i, fm.log, theirs);
    forall d ensures multiset(events)[d] == |WantedOfAny(fm.log, theirs, d)| {
      assert Wanted(fm.log, {fm.urn} + fm.clock.vector.Keys, theirs, d) == WantedOfAny(fm.log, theirs, d);
    }
    forall p | 0 <= p < |s.trace| && ToAnswer(s.trace[p], i, theirs) ensures s.trace[p].ev.data in events {
      HandledAnswered(w, s, i, fm.log, theirs, p);
      assert s.trace[p].ev.data in multiset(events);
    }
  }

  lemma HandledAnswered(w: World, s: Net, i: nat, log: seq<E.StoredEvent>, theirs: map<string, int>, p: nat)
    requires Reachable(w, s) && i < |s.nodes| && E.Holds(w.config.retention, s.nodes[i].store, log)
    requires p < |s.trace| && ToAnswer(s.trace[p], i, theirs)
    ensures s.trace[p].ev.data in multiset(AllMissing(log, theirs))
  {
    var ev := s.trace[p].ev;
    ReachableStores(w, s);
    assert NodeStored(w, s, i);
    var now :| Stored(ev, now) in E.Of(s.nodes[i].store, ev.origin);
    E.FromMember(log, ev.origin, Stored(ev, now));
    MissingHas(log, theirs, Stored(ev, now));
  }
}
