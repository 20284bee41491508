/** The flood of one event: each server handles it at most once, and it ends. */
module Flood {
  import opened Text
  import opened Lamport
  import opened Urns
  import opened Federation
  import opened Network
  import opened Causality
  import D = Dedupe

  ghost predicate Marked(s: Net, i: nat, id: string)
    requires i < |s.nodes|
  {
    id in s.nodes[i].window.seen
  }

  /** The id stays in every window it is in. */
  ghost predicate Kept(s: Net, s': Net, id: string) {
    |s'.nodes| == |s.nodes|
    && forall i :: 0 <= i < |s.nodes| && Marked(s, i, id) ==> Marked(s', i, id)
  }

  function Copies(bag: seq<Packet>, id: string): nat {
    if bag == [] then 0
    else Copies(bag[..|bag| - 1], id) + (if bag[|bag| - 1].ev.id == id then 1 else 0)
  }

  /** How many servers have not marked the id. */
  function Unmarked(nodes: seq<Node>, id: string): nat {
    if nodes == [] then 0
    else Unmarked(nodes[..|nodes| - 1], id) + (if id in nodes[|nodes| - 1].window.seen then 0 else 1)
  }

  /** How often a server has run the handlers for the id. */
  function TimesProcessed(trace: seq<Action>, node: nat, id: string): nat {
    if trace == [] then 0
    else
      var a := trace[|trace| - 1];
      TimesProcessed(trace[..|trace| - 1], node, id)
        + (if a.Processed? && a.node == node && a.ev.id == id then 1 else 0)
  }

  /** The copies in flight, and what the servers that have not marked the id can still add. */
  function Potential(s: Net, id: string): int {
    Copies(s.bag, id) + Others(|s.nodes|) * Unmarked(s.nodes, id)
  }

  /** To how many of `n` servers one of them can forward. */
  function Others(n: nat): nat { if n >= 2 then n - 2 else 0 }

  /** How many copies of one event `n` servers can deliver. */
  function FloodLimit(n: nat): nat { if n >= 2 then n * n - n - 1 else 0 }

  predicate DeliversCopy(s: Net, step: Step, id: string) {
    step.DeliverStep? && step.k < |s.bag| && s.bag[step.k].ev.id == id
  }

  // ----- Counting -----

  lemma {:induction false} CopiesAppend(a: seq<Packet>, b: seq<Packet>, id: string)
    ensures Copies(a + b, id) == Copies(a, id) + Copies(b, id)
    decreases |b|
  {
    if b == [] {
      assert a + b == a;
    } else {
      assert (a + b)[..|a + b| - 1] == a + b[..|b| - 1];
      CopiesAppend(a, b[..|b| - 1], id);
    }
  }

  lemma CopiesWithout(bag: seq<Packet>, k: nat, id: string)
    requires k < |bag|
    ensures Copies(bag, id) == Copies(Without(bag, k), id) + (if bag[k].ev.id == id then 1 else 0)
  {
    assert bag == bag[..k] + ([bag[k]] + bag[k + 1..]);
    CopiesAppend(bag[..k], [bag[k]] + bag[k + 1..], id);
    CopiesAppend([bag[k]], bag[k + 1..], id);
    CopiesAppend(bag[..k], bag[k + 1..], id);
    assert [bag[k]][..0] == [];
  }

  lemma {:induction false} CopiesSent(src: nat, targets: seq<nat>, ev: Event, id: string)
    ensures Copies(Send(src, targets, ev), id) == if ev.id == id then |targets| else 0
    decreases |targets|
  {
    if targets != [] {
      var sent := Send(src, targets, ev);
      assert sent[..|sent| - 1] == Send(src, targets[..|targets| - 1], ev);
      CopiesSent(src, targets[..|targets| - 1], ev, id);
    }
  }

  lemma {:induction false} UnmarkedShrinks(a: seq<Node>, b: seq<Node>, id: string)
    requires |a| == |b|
    requires forall i :: 0 <= i < |a| && id in a[i].window.seen ==> id in b[i].window.seen
    ensures Unmarked(b, id) <= Unmarked(a, id) <= |a|
    ensures (exists i :: 0 <= i < |a| && id !in a[i].window.seen && id in b[i].window.seen)
            ==> Unmarked(b, id) < Unmarked(a, id)
  {
    if a != [] {
      var p, q := a[..|a| - 1], b[..|b| - 1];
      UnmarkedShrinks(p, q, id);
      if i :| 0 <= i < |a| && id !in a[i].window.seen && id in b[i].window.seen {
        if i < |p| { assert id !in p[i].window.seen && id in q[i].window.seen; }
      }
    }
  }

  function Range(n: nat): set<nat> {
    if n == 0 then {} else Range(n - 1) + {n - 1}
  }

  lemma {:induction false} RangeSize(n: nat)
    ensures |Range(n)| == n && forall x: nat :: x in Range(n) <==> x < n
  {
    if n > 0 { RangeSize(n - 1); }
  }

  lemma {:induction false} DistinctSize(s: seq<nat>)
    requires Distinct(s)
    ensures |Elements(s)| == |s|
  {
    if s != [] {
      var p, x := s[..|s| - 1], s[|s| - 1];
      DistinctSize(p);
      assert x !in p;
      assert Elements(s) == Elements(p) + {x};
    }
  }

  lemma {:induction false} ExceptDistinct(peers: seq<nat>, source: nat)
    requires Distinct(peers)
    ensures Distinct(Except<nat>(peers, source))
  {
    if peers != [] {
      var p := peers[..|peers| - 1];
      ExceptDistinct(p, source);
      assert peers[|peers| - 1] !in p;
      assert forall x :: x in Except<nat>(p, source) ==> x in p;
    }
  }

  /** Forwarding reaches at most all servers but the source and the forwarder. */
  lemma ForwardedFew(w: World, node: nat, source: nat, peers: seq<nat>)
    requires node < |w.hosts| && source < |w.hosts| && node != source && Connected(w, node, peers)
    ensures |Except<nat>(peers, source)| <= |w.hosts| - 2
  {
    var r := Except<nat>(peers, source);
    ExceptDistinct(peers, source);
    DistinctSize(r);
    RangeSize(|w.hosts|);
    var others := Range(|w.hosts|) - {node} - {source};
    assert |others| == |w.hosts| - 2;
    forall x | x in Elements(r) ensures x in others { assert x in peers; }
    SubsetSize(Elements(r), others);
  }

  lemma {:induction false} SubsetSize(a: set<nat>, b: set<nat>)
    requires a <= b
    ensures |a| <= |b|
  {
    if a != {} {
      var x :| x in a;
      SubsetSize(a - {x}, b - {x});
    }
  }

  // ----- One step -----

  lemma MarksCounted(s: Net, s': Net, id: string)
    requires Kept(s, s', id)
    ensures Unmarked(s'.nodes, id) <= Unmarked(s.nodes, id) <= |s.nodes|
    ensures (exists i :: 0 <= i < |s.nodes| && !Marked(s, i, id) && Marked(s', i, id))
            ==> Unmarked(s'.nodes, id) < Unmarked(s.nodes, id)
  {
    forall i | 0 <= i < |s.nodes| && id in s.nodes[i].window.seen ensures id in s'.nodes[i].window.seen {
      assert Marked(s, i, id);
    }
    UnmarkedShrinks(s.nodes, s'.nodes, id);
    if i :| 0 <= i < |s.nodes| && !Marked(s, i, id) && Marked(s', i, id) {
      assert id !in s.nodes[i].window.seen && id in s'.nodes[i].window.seen;
    }
  }

  lemma ProcessedCopies(w: World, s: Net, k: nat, peers: seq<nat>, id: string)
    requires |s.nodes| == |w.hosts| && k < |s.bag| && PacketOk(s, s.bag[k]) && Connected(w, s.bag[k].dst, peers)
    ensures var Packet(src, dst, ev) := s.bag[k];
      Copies(Without(s.bag, k) + Send(dst, Except<nat>(peers, src), ev), id)
      <= Copies(s.bag, id) + if ev.id == id then |w.hosts| - 3 else 0
  {
    var Packet(src, dst, ev) := s.bag[k];
    CopiesWithout(s.bag, k, id);
    CopiesAppend(Without(s.bag, k), Send(dst, Except<nat>(peers, src), ev), id);
    CopiesSent(dst, Except<nat>(peers, src), ev, id);
    ForwardedFew(w, dst, src, peers);
  }

  lemma Falls(n: int, c: int, u: int, c': int, u': int)
    requires n >= 2 && u' < u && c' <= c + n - 3
    ensures c' + Others(n) * u' < c + Others(n) * u
  {
    Scale(n - 2, u', u);
  }

  lemma {:induction false} Scale(x: nat, u': int, u: int)
    requires u' < u
    ensures x * u' + x <= x * u
    decreases u - u'
  {
    assert x * u == x * (u - 1) + x;
    if u' < u - 1 { Scale(x, u', u - 1); }
  }

  lemma FallsOrStays(n: int, c: int, u: int, c': int, u': int)
    requires n >= 0 && u' <= u && c' <= c
    ensures c' + Others(n) * u' <= c + Others(n) * u + (c' - c)
  {
    if u' < u { Scale(Others(n), u', u); }
  }

  ghost predicate HandlesCopy(w: World, s: Net, step: Step, id: string) {
    DeliversCopy(s, step, id) && PacketOk(s, s.bag[step.k])
    && var p := s.bag[step.k]; Verdict_(s.nodes[p.dst], p.ev, w.verify(p.src, p.dst, p.ev)) == Handled
  }

  /** Handling an id marks it where it was not marked. */
  lemma HandlingMarks(w: World, s: Net, step: Step, id: string)
    requires Inv(w, s) && Enabled(w, s, step) && HandlesCopy(w, s, step, id)
    requires w.config.limits.maxEvents >= 1 && w.config.limits.maxAge >= 0
    ensures !Marked(s, s.bag[step.k].dst, id) && Marked(Next(w, s, step), s.bag[step.k].dst, id)
  {
    D.JustMarked(w.config.limits, s.nodes[s.bag[step.k].dst].window, id, step.now);
  }

  lemma HandlingCopies(w: World, s: Net, step: Step, id: string)
    requires Inv(w, s) && Enabled(w, s, step) && HandlesCopy(w, s, step, id)
    ensures Copies(Next(w, s, step).bag, id) <= Copies(s.bag, id) + |s.nodes| - 3
    ensures |s.nodes| >= 2
  {
    ProcessedCopies(w, s, step.k, step.peers, id);
  }

  /** A handled copy: one more server has marked the id, and the copies in flight grow by at most the
      number of servers less three. */
  lemma ProcessLowers(w: World, s: Net, step: Step, id: string)
    requires Inv(w, s) && Enabled(w, s, step) && HandlesCopy(w, s, step, id)
    requires w.config.limits.maxEvents >= 1 && w.config.limits.maxAge >= 0
    requires Kept(s, Next(w, s, step), id)
    ensures Potential(Next(w, s, step), id) < Potential(s, id)
  {
    var s' := Next(w, s, step);
    HandlingCopies(w, s, step, id);
    HandlingMarks(w, s, step, id);
    MarksCounted(s, s', id);
    Falls(|s.nodes|, Copies(s.bag, id), Unmarked(s.nodes, id), Copies(s'.bag, id), Unmarked(s'.nodes, id));
  }

  lemma OtherCopies(w: World, s: Net, step: Step, id: string)
    requires Inv(w, s) && Enabled(w, s, step)
    requires step.CreateStep? ==> NewEvent(s.nodes[step.node], ServerURN(w.hosts[step.node]), step.kind, step.data).id != id
    requires !HandlesCopy(w, s, step, id)
    ensures Copies(Next(w, s, step).bag, id) <= Copies(s.bag, id) - if DeliversCopy(s, step, id) then 1 else 0
  {
    match step
    case CreateStep(node, kind, data, _, peers, _) =>
      var ev := NewEvent(s.nodes[node], ServerURN(w.hosts[node]), kind, data);
      CopiesAppend(s.bag, Send(node, peers, ev), id);
      CopiesSent(node, peers, ev, id);
    case DeliverStep(k, peers, _) =>
      assert PacketOk(s, s.bag[k]);
      CopiesWithout(s.bag, k, id);
      ProcessedCopies(w, s, k, peers, id);
    case PremarkStep(_, _, _) =>
    case LoseStep(k) => CopiesWithout(s.bag, k, id);
  }

  /** Every step that keeps the id's marks and does not create it leaves the potential no higher; every
      delivery of a copy makes it smaller. */
  lemma StepLowers(w: World, s: Net, step: Step, id: string)
    requires Inv(w, s) && Enabled(w, s, step) && Kept(s, Next(w, s, step), id)
    requires w.config.limits.maxEvents >= 1 && w.config.limits.maxAge >= 0
    requires step.CreateStep? ==> NewEvent(s.nodes[step.node], ServerURN(w.hosts[step.node]), step.kind, step.data).id != id
    ensures Potential(Next(w, s, step), id) + (if DeliversCopy(s, step, id) then 1 else 0) <= Potential(s, id)
  {
    var s' := Next(w, s, step);
    if HandlesCopy(w, s, step, id) {
      ProcessLowers(w, s, step, id);
    } else {
      OtherCopies(w, s, step, id);
      MarksCounted(s, s', id);
      FallsOrStays(|s.nodes|, Copies(s.bag, id), Unmarked(s.nodes, id), Copies(s'.bag, id), Unmarked(s'.nodes, id));
    }
  }

  // ----- Runs -----

  /** The id has been created, and no window forgets it during the run. */
  ghost predicate KeptAlong(w: World, s: Net, steps: seq<Step>, id: string)
    requires Inv(w, s) && CanRun(w, s, steps)
    decreases |steps|
  {
    steps == [] || (Kept(s, Next(w, s, steps[0]), id) && KeptAlong(w, Next(w, s, steps[0]), steps[1..], id))
  }

  ghost function Deliveries(w: World, s: Net, steps: seq<Step>, id: string): nat
    requires Inv(w, s) && CanRun(w, s, steps)
    decreases |steps|
  {
    if steps == [] then 0
    else (if DeliversCopy(s, steps[0], id) then 1 else 0) + Deliveries(w, Next(w, s, steps[0]), steps[1..], id)
  }

  ghost predicate IdCreated(s: Net, id: string) {
    exists p :: 0 <= p < |s.trace| && s.trace[p].Created? && s.trace[p].ev.id == id
  }

  /** No server gives a new event an id that exists. */
  lemma NewIdFresh(w: World, s: Net, step: Step, id: string)
    requires Inv(w, s) && Enabled(w, s, step) && step.CreateStep? && DistinctHosts(w.hosts) && IdCreated(s, id)
    ensures NewEvent(s.nodes[step.node], ServerURN(w.hosts[step.node]), step.kind, step.data).id != id
  {
    var i, m := IdShape(w, s, id);
    var n := s.nodes[step.node].clock.seq_ + 1;
    if EventID(ServerURN(w.hosts[step.node]), n) == id { SameId(w, step.node, n, i, m); }
  }

  lemma IdShape(w: World, s: Net, id: string) returns (i: nat, m: nat)
    requires Inv(w, s) && IdCreated(s, id)
    ensures i < |s.nodes| == |w.hosts| && m <= s.nodes[i].clock.seq_ && id == EventID(ServerURN(w.hosts[i]), m)
  {
    var p :| 0 <= p < |s.trace| && s.trace[p].Created? && s.trace[p].ev.id == id;
    assert ActionOk(w, s, s.trace[p]);
    i, m := s.trace[p].node, s.trace[p].ev.seq_;
  }

  lemma SameId(w: World, i: nat, m: nat, j: nat, n: nat)
    requires DistinctHosts(w.hosts) && i < |w.hosts| && j < |w.hosts|
    requires EventID(ServerURN(w.hosts[i]), m) == EventID(ServerURN(w.hosts[j]), n)
    ensures i == j && m == n
  {
    EventIDUnique(w.hosts[i], m, w.hosts[j], n);
  }

  lemma IdStays(s: Net, s': Net, id: string)
    requires IdCreated(s, id) && Grows(s, s')
    ensures IdCreated(s', id)
  {
    var p :| 0 <= p < |s.trace| && s.trace[p].Created? && s.trace[p].ev.id == id;
    assert s'.trace[p] == s.trace[p];
  }

  ghost predicate Sound(w: World) {
    DistinctHosts(w.hosts) && w.config.limits.maxEvents >= 1 && w.config.limits.maxAge >= 0
  }

  /** The flood of an id ends: in a run during which no window forgets it, the deliveries of its copies
      use up the potential there was. */
  lemma {:induction false} FloodEnds(w: World, s: Net, steps: seq<Step>, id: string)
    requires Inv(w, s) && Sound(w) && IdCreated(s, id)
    requires CanRun(w, s, steps) && KeptAlong(w, s, steps, id)
    ensures Deliveries(w, s, steps, id) + Potential(Run(w, s, steps), id) <= Potential(s, id)
    decreases |steps|
  {
    if steps != [] {
      var s1 := Next(w, s, steps[0]);
      if steps[0].CreateStep? { NewIdFresh(w, s, steps[0], id); }
      StepLowers(w, s, steps[0], id);
      IdStays(s, s1, id);
      FloodEnds(w, s1, steps[1..], id);
    }
  }

  /** A server that has not marked the id has not run its handlers, and none has run them twice. */
  ghost predicate OnceEach(s: Net, id: string) {
    forall i: nat :: i < |s.nodes| ==> TimesProcessed(s.trace, i, id) <= if Marked(s, i, id) then 1 else 0
  }

  lemma ProcessedSnoc(trace: seq<Action>, a: Action, i: nat, id: string)
    ensures TimesProcessed(trace + [a], i, id)
         == TimesProcessed(trace, i, id) + if a.Processed? && a.node == i && a.ev.id == id then 1 else 0
  {
    assert (trace + [a])[..|trace|] == trace;
  }

  lemma StepOnce(w: World, s: Net, step: Step, id: string)
    requires Inv(w, s) && Enabled(w, s, step) && Sound(w)
    requires OnceEach(s, id) && Kept(s, Next(w, s, step), id)
    ensures OnceEach(Next(w, s, step), id)
  {
    var s' := Next(w, s, step);
    if HandlesCopy(w, s, step, id) { HandlingMarks(w, s, step, id); }
    forall i: nat | i < |s.nodes|
      ensures TimesProcessed(s'.trace, i, id) <= if Marked(s', i, id) then 1 else 0
    {
      assert TimesProcessed(s.trace, i, id) <= if Marked(s, i, id) then 1 else 0;
      if |s'.trace| > |s.trace| {
        ProcessedSnoc(s.trace, s'.trace[|s.trace|], i, id);
        assert s'.trace == s.trace + [s'.trace[|s.trace|]];
      } else {
        assert s'.trace == s.trace;
      }
    }
  }

  /** In a run during which no window forgets the id, each server runs its handlers, and so forwards it,
      at most once. */
  lemma {:induction false} HandledOnce(w: World, s: Net, steps: seq<Step>, id: string)
    requires Inv(w, s) && Sound(w) && OnceEach(s, id)
    requires CanRun(w, s, steps) && KeptAlong(w, s, steps, id)
    ensures OnceEach(Run(w, s, steps), id)
    decreases |steps|
  {
    if steps != [] {
      StepOnce(w, s, steps[0], id);
      HandledOnce(w, Next(w, s, steps[0]), steps[1..], id);
    }
  }

  lemma {:induction false} NoCopiesYet(s: Net, bag: seq<Packet>, id: string)
    requires !IdCreated(s, id) && forall k :: 0 <= k < |bag| ==> PacketOk(s, bag[k])
    ensures Copies(bag, id) == 0
  {
    if bag != [] {
      NoCopiesYet(s, bag[..|bag| - 1], id);
      var k := |bag| - 1;
      assert PacketOk(s, bag[k]);
      var p :| 0 <= p < |s.trace| && s.trace[p].Created? && s.trace[p].ev == bag[k].ev;
    }
  }

  lemma {:induction false} NotProcessedYet(w: World, s: Net, trace: seq<Action>, i: nat, id: string)
    requires !IdCreated(s, id) && forall p :: 0 <= p < |trace| ==> ActionOk(w, s, trace[p])
    ensures TimesProcessed(trace, i, id) == 0
  {
    if trace != [] {
      NotProcessedYet(w, s, trace[..|trace| - 1], i, id);
      var a := trace[|trace| - 1];
      assert ActionOk(w, s, a);
      if a.Processed? { var p :| 0 <= p < |s.trace| && s.trace[p].Created? && s.trace[p].ev == a.ev; }
    }
  }

  lemma ConnectedFew(w: World, node: nat, peers: seq<nat>)
    requires node < |w.hosts| && Connected(w, node, peers)
    ensures |peers| <= |w.hosts| - 1
  {
    DistinctSize(peers);
    RangeSize(|w.hosts|);
    forall x | x in Elements(peers) ensures x in Range(|w.hosts|) - {node} {}
    SubsetSize(Elements(peers), Range(|w.hosts|) - {node});
  }

  ghost function EventOf(w: World, s: Net, create: Step): Event
    requires Inv(w, s) && Enabled(w, s, create) && create.CreateStep?
  {
    NewEvent(s.nodes[create.node], ServerURN(w.hosts[create.node]), create.kind, create.data)
  }

  lemma PotentialRange(s: Net, id: string)
    requires |s.nodes| >= 1
    ensures 0 <= Potential(s, id)
    ensures Copies(s.bag, id) <= |s.nodes| - 1 ==> Potential(s, id) <= FloodLimit(|s.nodes|)
  {
    MarksCounted(s, s, id);
    PotentialBound(|s.nodes|, Unmarked(s.nodes, id));
  }

  lemma PotentialBound(n: nat, u: nat)
    requires 1 <= n && u <= n
    ensures 0 <= Others(n) * u && n - 1 + Others(n) * u <= FloodLimit(n)
  {
    if u < n { Scale(Others(n), u, n); }
    if n >= 2 { assert (n - 2) * n == n * n - 2 * n; }
  }

  lemma NewEventCopies(w: World, s: Net, create: Step)
    requires Inv(w, s) && Enabled(w, s, create) && create.CreateStep?
    requires !IdCreated(s, EventOf(w, s, create).id)
    ensures Copies(Next(w, s, create).bag, EventOf(w, s, create).id) <= |s.nodes| - 1
  {
    var ev := EventOf(w, s, create);
    NoCopiesYet(s, s.bag, ev.id);
    CopiesAppend(s.bag, Send(create.node, create.peers, ev), ev.id);
    CopiesSent(create.node, create.peers, ev, ev.id);
    ConnectedFew(w, create.node, create.peers);
  }

  lemma NewEventOnce(w: World, s: Net, create: Step)
    requires Inv(w, s) && Enabled(w, s, create) && create.CreateStep?
    requires !IdCreated(s, EventOf(w, s, create).id)
    ensures OnceEach(Next(w, s, create), EventOf(w, s, create).id)
    ensures IdCreated(Next(w, s, create), EventOf(w, s, create).id)
  {
    var ev, s1 := EventOf(w, s, create), Next(w, s, create);
    assert s1.trace[|s.trace|] == Created(create.node, ev, create.broadcast);
    forall i: nat | i < |s1.nodes| ensures TimesProcessed(s1.trace, i, ev.id) == 0 {
      NotProcessedYet(w, s, s.trace, i, ev.id);
      ProcessedSnoc(s.trace, Created(create.node, ev, create.broadcast), i, ev.id);
    }
  }

  /** From the moment an event is created, in any topology and schedule in which no window forgets it,
      at most n * n - n - 1 copies of it are ever delivered among n servers (none if there is but one), and
      each server handles and forwards it at most once. */
  lemma FloodBound(w: World, s: Net, create: Step, steps: seq<Step>)
    requires Inv(w, s) && Sound(w) && Enabled(w, s, create) && create.CreateStep?
    requires CanRun(w, Next(w, s, create), steps)
    requires KeptAlong(w, Next(w, s, create), steps, EventOf(w, s, create).id)
    ensures var n := |w.hosts|;
      Deliveries(w, Next(w, s, create), steps, EventOf(w, s, create).id) <= if n >= 2 then n * n - n - 1 else 0
    ensures OnceEach(Run(w, Next(w, s, create), steps), EventOf(w, s, create).id)
  {
    var id, s1 := EventOf(w, s, create).id, Next(w, s, create);
    if IdCreated(s, id) { NewIdFresh(w, s, create, id); }
    NewEventCopies(w, s, create);
    NewEventOnce(w, s, create);
    PotentialRange(s1, id);
    FloodEnds(w, s1, steps, id);
    HandledOnce(w, s1, steps, id);
    PotentialRange(Run(w, s1, steps), id);
  }
}
