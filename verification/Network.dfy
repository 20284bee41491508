/** The federation as a step system: any number of servers, messages in flight in any order, any
    topology at any moment.

    A server's connected peers are chosen anew at each step, messages may be lost, and whether a
    message verifies is an arbitrary function of the sending peer, the receiver and the event.  What
    a handler sends in reply is a creation step of its own.
 */
module Network {
  import opened Text
  import opened Lamport
  import opened Urns
  import opened Federation
  import D = Dedupe

  datatype World = World(hosts: seq<string>, config: Config, verify: (nat, nat, Event) -> bool)

  datatype Packet = Packet(src: nat, dst: nat, ev: Event)

  datatype Action =
    | Created(node: nat, ev: Event, broadcast: bool)
    | Processed(node: nat, ev: Event, from: nat, forwarded: seq<nat>)

  datatype Net = Net(nodes: seq<Node>, bag: seq<Packet>, trace: seq<Action>)

  datatype Step =
    | CreateStep(node: nat, kind: Kind, data: string, broadcast: bool, peers: seq<nat>, now: int)
    | DeliverStep(k: nat, peers: seq<nat>, now: int)
    /** A sync response marks the ids of the events it carries before they are looked at. */
    | PremarkStep(node: nat, id: string, now: int)
    | LoseStep(k: nat)

  ghost predicate Connected(w: World, node: nat, peers: seq<nat>) {
    && (forall i :: 0 <= i < |peers| ==> peers[i] < |w.hosts| && peers[i] != node)
    && Distinct(peers)
  }

  ghost predicate Enabled(w: World, s: Net, step: Step) {
    match step
    case CreateStep(node, _, _, _, peers, _) => node < |s.nodes| && Connected(w, node, peers)
    case DeliverStep(k, peers, _) => k < |s.bag| && Connected(w, s.bag[k].dst, peers)
    case PremarkStep(node, _, _) => node < |s.nodes|
    case LoseStep(k) => k < |s.bag|
  }

  function Send(src: nat, targets: seq<nat>, ev: Event): (r: seq<Packet>)
    ensures |r| == |targets| && forall i :: 0 <= i < |r| ==> r[i] == Packet(src, targets[i], ev)
  {
    seq(|targets|, i requires 0 <= i < |targets| => Packet(src, targets[i], ev))
  }

  function Without(bag: seq<Packet>, k: nat): seq<Packet>
    requires k < |bag|
  {
    bag[..k] + bag[k + 1..]
  }

  ghost function Apply(w: World, s: Net, step: Step): Net
    requires Inv(w, s) && Enabled(w, s, step)
  {
    match step
    case CreateStep(node, kind, data, broadcast, peers, now) =>
      var n, urn := s.nodes[node], ServerURN(w.hosts[node]);
      var ev := NewEvent(n, urn, kind, data);
      Net(s.nodes[node := Create(w.config, n, urn, kind, data, broadcast, now)],
          s.bag + Send(node, peers, ev), s.trace + [Created(node, ev, broadcast)])
    case DeliverStep(k, peers, now) =>
      var Packet(src, dst, ev) := s.bag[k];
      var n, verified := s.nodes[dst], w.verify(src, dst, ev);
      var nodes := s.nodes[dst := Receive(w.config, n, ev, verified, now)];
      if Verdict_(n, ev, verified) == Handled then
        var forwarded := Except<nat>(peers, src);
        Net(nodes, Without(s.bag, k) + Send(dst, forwarded, ev),
            s.trace + [Processed(dst, ev, src, forwarded)])
      else Net(nodes, Without(s.bag, k), s.trace)
    case PremarkStep(node, id, now) =>
      var n := s.nodes[node];
      s.(nodes := s.nodes[node := n.(window := D.Mark(w.config.limits, n.window, id, now))])
    case LoseStep(k) => s.(bag := Without(s.bag, k))
  }

  // ----- What every step keeps -----

  ghost predicate IsCreated(trace: seq<Action>, ev: Event) {
    exists p :: 0 <= p < |trace| && trace[p].Created? && trace[p].ev == ev
  }

  ghost predicate NodesOk(w: World, s: Net) {
    && |s.nodes| == |w.hosts|
    && (forall i :: 0 <= i < |s.nodes| ==>
          0 <= s.nodes[i].clock.seq_ <= |s.trace| && D.Valid(w.config.limits, s.nodes[i].window))
  }

  /** An action's event is numbered from 1 and its server's clock is past it; the server named a
      created event itself. */
  ghost predicate ActionOk(w: World, s: Net, a: Action) {
    && a.node < |s.nodes| == |w.hosts| && 1 <= a.ev.seq_ <= s.nodes[a.node].clock.seq_
    && (a.Created? ==> a.ev.origin == ServerURN(w.hosts[a.node]) && a.ev.id == EventID(a.ev.origin, a.ev.seq_))
    && (a.Processed? ==> IsCreated(s.trace, a.ev) && a.from !in a.forwarded && a.node !in a.forwarded)
    && (a.Processed? ==> w.verify(a.from, a.node, a.ev))
  }

  ghost predicate PacketOk(s: Net, p: Packet) {
    p.src < |s.nodes| && p.dst < |s.nodes| && p.src != p.dst && IsCreated(s.trace, p.ev)
  }

  /** Whatever a server had created or processed before it created an event is numbered below it. */
  ghost predicate Causal(trace: seq<Action>) {
    forall p, q :: 0 <= p < q < |trace| && trace[q].Created? && trace[p].node == trace[q].node
      ==> trace[p].ev.seq_ < trace[q].ev.seq_
  }

  ghost predicate Inv(w: World, s: Net) {
    && NodesOk(w, s)
    && (forall p :: 0 <= p < |s.trace| ==> ActionOk(w, s, s.trace[p]))
    && (forall k :: 0 <= k < |s.bag| ==> PacketOk(s, s.bag[k]))
    && Causal(s.trace)
  }

  function InitialNet(w: World): (s: Net)
    ensures Inv(w, s)
  {
    Net(seq(|w.hosts|, i => INITIAL), [], [])
  }

  lemma CreatedStays(trace: seq<Action>, more: seq<Action>, ev: Event)
    requires IsCreated(trace, ev)
    ensures IsCreated(trace + more, ev)
  {
    var p :| 0 <= p < |trace| && trace[p].Created? && trace[p].ev == ev;
    assert (trace + more)[p] == trace[p];
  }

  /** The state grows: clocks do not run back, and the trace is only added to. */
  ghost predicate Grows(s: Net, s': Net) {
    && |s'.nodes| == |s.nodes|
    && (forall i :: 0 <= i < |s.nodes| ==> s.nodes[i].clock.seq_ <= s'.nodes[i].clock.seq_)
    && s.trace <= s'.trace
  }

  lemma ActionsStay(w: World, s: Net, s': Net)
    requires Inv(w, s) && Grows(s, s')
    ensures forall p :: 0 <= p < |s.trace| ==> ActionOk(w, s', s.trace[p])
    ensures forall k :: 0 <= k < |s.bag| ==> PacketOk(s', s.bag[k])
  {
    assert s'.trace == s.trace + s'.trace[|s.trace|..];
    forall p | 0 <= p < |s.trace| ensures ActionOk(w, s', s.trace[p]) {
      assert ActionOk(w, s, s.trace[p]);
      if s.trace[p].Processed? { CreatedStays(s.trace, s'.trace[|s.trace|..], s.trace[p].ev); }
    }
    forall k | 0 <= k < |s.bag| ensures PacketOk(s', s.bag[k]) {
      assert PacketOk(s, s.bag[k]);
      CreatedStays(s.trace, s'.trace[|s.trace|..], s.bag[k].ev);
    }
  }

  lemma CreateKeeps(w: World, s: Net, step: Step)
    requires Inv(w, s) && step.CreateStep? && Enabled(w, s, step)
    ensures Inv(w, Apply(w, s, step))
  {
    var s' := Apply(w, s, step);
    ActionsStay(w, s, s');
    var ev := NewEvent(s.nodes[step.node], ServerURN(w.hosts[step.node]), step.kind, step.data);
    assert s'.trace[|s.trace|] == Created(step.node, ev, step.broadcast);
    assert IsCreated(s'.trace, ev);
    forall p | 0 <= p < |s.trace| && s.trace[p].node == step.node ensures s.trace[p].ev.seq_ < ev.seq_ {
      assert ActionOk(w, s, s.trace[p]);
    }
  }

  /** A server's memory after a created event: the clock has moved past the event, but no further than
      the trace is long. */
  lemma ReceiveOk(w: World, s: Net, dst: nat, ev: Event, now: int)
    requires Inv(w, s) && dst < |s.nodes| && IsCreated(s.trace, ev)
    ensures var n := Receive(w.config, s.nodes[dst], ev, true, now);
      && s.nodes[dst].clock.seq_ <= n.clock.seq_ <= |s.trace| + 1
      && D.Valid(w.config.limits, n.window)
      && (Verdict_(s.nodes[dst], ev, true) == Handled ==> ev.seq_ < n.clock.seq_)
      && ev.seq_ >= 1
  {
    D.MarkValid(w.config.limits, s.nodes[dst].window, ev.id, now);
    MergeAdvances(s.nodes[dst].clock, ev.origin, ev.seq_);
    var c :| 0 <= c < |s.trace| && s.trace[c].Created? && s.trace[c].ev == ev;
    assert ActionOk(w, s, s.trace[c]);
  }

  lemma SentOk(w: World, s: Net, src: nat, peers: seq<nat>, targets: seq<nat>, ev: Event)
    requires |s.nodes| == |w.hosts| && src < |s.nodes| && Connected(w, src, peers) && IsCreated(s.trace, ev)
    requires forall t :: t in targets ==> t in peers
    ensures forall i :: 0 <= i < |targets| ==> PacketOk(s, Send(src, targets, ev)[i])
  {
    forall i | 0 <= i < |targets| ensures PacketOk(s, Send(src, targets, ev)[i]) {
      assert targets[i] in peers;
    }
  }

  ghost predicate Handles(w: World, s: Net, step: Step) {
    && Inv(w, s) && step.DeliverStep? && Enabled(w, s, step)
    && var p := s.bag[step.k];
       p.dst < |s.nodes| && Verdict_(s.nodes[p.dst], p.ev, w.verify(p.src, p.dst, p.ev)) == Handled
  }

  lemma ProcessNodes(w: World, s: Net, step: Step)
    requires Handles(w, s, step)
    ensures NodesOk(w, Apply(w, s, step)) && Grows(s, Apply(w, s, step))
  {
    var Packet(src, dst, ev) := s.bag[step.k];
    assert PacketOk(s, s.bag[step.k]);
    ReceiveOk(w, s, dst, ev, step.now);
  }

  lemma ProcessLast(w: World, s: Net, step: Step)
    requires Handles(w, s, step)
    ensures var s' := Apply(w, s, step); ActionOk(w, s', s'.trace[|s'.trace| - 1])
  {
    var Packet(src, dst, ev) := s.bag[step.k];
    assert PacketOk(s, s.bag[step.k]);
    ReceiveOk(w, s, dst, ev, step.now);
    var last := Processed(dst, ev, src, Except<nat>(step.peers, src));
    CreatedStays(s.trace, [last], ev);
    assert dst !in step.peers;
  }

  lemma ProcessBag(w: World, s: Net, step: Step)
    requires Handles(w, s, step)
    ensures var s' := Apply(w, s, step); forall i :: 0 <= i < |s'.bag| ==> PacketOk(s', s'.bag[i])
  {
    var s' := Apply(w, s, step);
    var Packet(src, dst, ev) := s.bag[step.k];
    assert PacketOk(s, s.bag[step.k]);
    var forwarded := Except<nat>(step.peers, src);
    ProcessNodes(w, s, step);
    ActionsStay(w, s, s');
    CreatedStays(s.trace, [Processed(dst, ev, src, forwarded)], ev);
    SentOk(w, s', dst, step.peers, forwarded, ev);
    BagOk(s', s.bag, step.k, Send(dst, forwarded, ev));
  }

  lemma ProcessKeeps(w: World, s: Net, step: Step)
    requires Handles(w, s, step)
    ensures Inv(w, Apply(w, s, step)) && Grows(s, Apply(w, s, step))
  {
    ProcessNodes(w, s, step);
    ProcessTrace(w, s, step);
    ProcessBag(w, s, step);
  }

  lemma ProcessTrace(w: World, s: Net, step: Step)
    requires Handles(w, s, step)
    ensures var s' := Apply(w, s, step);
      (forall p :: 0 <= p < |s'.trace| ==> ActionOk(w, s', s'.trace[p])) && Causal(s'.trace)
  {
    var s' := Apply(w, s, step);
    ProcessNodes(w, s, step);
    ActionsStay(w, s, s');
    ProcessLast(w, s, step);
    forall p | 0 <= p < |s'.trace| ensures ActionOk(w, s', s'.trace[p]) {
      if p < |s.trace| { assert s'.trace[p] == s.trace[p]; }
    }
    CausalProcessed(s.trace, s'.trace[|s.trace|]);
  }

  lemma CausalProcessed(trace: seq<Action>, last: Action)
    requires Causal(trace) && last.Processed?
    ensures Causal(trace + [last])
  {}

  lemma BagOk(s: Net, bag: seq<Packet>, k: nat, sent: seq<Packet>)
    requires k < |bag| && (forall i :: 0 <= i < |bag| ==> PacketOk(s, bag[i]))
    requires forall i :: 0 <= i < |sent| ==> PacketOk(s, sent[i])
    ensures forall i :: 0 <= i < |Without(bag, k) + sent| ==> PacketOk(s, (Without(bag, k) + sent)[i])
  {}

  /** Every step keeps the invariant. */
  lemma StepKeeps(w: World, s: Net, step: Step)
    requires Inv(w, s) && Enabled(w, s, step)
    ensures Inv(w, Apply(w, s, step)) && Grows(s, Apply(w, s, step))
  {
    var s' := Apply(w, s, step);
    match step
    case CreateStep(_, _, _, _, _, _) => CreateKeeps(w, s, step);
    case DeliverStep(k, _, now) =>
      var Packet(src, dst, ev) := s.bag[k];
      assert PacketOk(s, s.bag[k]);
      if Verdict_(s.nodes[dst], ev, w.verify(src, dst, ev)) == Handled {
        ProcessKeeps(w, s, step);
      } else {
        ActionsStay(w, s, s');
      }
    case PremarkStep(node, id, now) =>
      D.MarkValid(w.config.limits, s.nodes[node].window, id, now);
      ActionsStay(w, s, s');
    case LoseStep(k) => ActionsStay(w, s, s');
  }

  /** Where events go: a created one to every connected peer, a handled one to every connected peer but its source,
      and nothing else anywhere. */
  lemma StepSpreads(w: World, s: Net, step: Step)
    requires Inv(w, s) && Enabled(w, s, step)
    ensures var s' := Apply(w, s, step);
      && (step.CreateStep? ==>
            && |s'.trace| == |s.trace| + 1 && s.trace <= s'.trace && s'.trace[|s.trace|].Created?
            && s'.trace[|s.trace|].node == step.node && s'.trace[|s.trace|].broadcast == step.broadcast
            && s'.bag == s.bag + Send(step.node, step.peers, s'.trace[|s.trace|].ev))
      && (step.DeliverStep? && s'.trace == s.trace ==> s'.bag == s.bag[..step.k] + s.bag[step.k + 1..])
      && (step.DeliverStep? && s'.trace != s.trace ==>
            var p, a := s.bag[step.k], s'.trace[|s.trace|];
            && a.Processed? && a.node == p.dst && a.from == p.src && a.ev == p.ev
            && s'.bag == s.bag[..step.k] + s.bag[step.k + 1..] + Send(p.dst, a.forwarded, p.ev)
            && forall t :: t in a.forwarded <==> t in step.peers && t != p.src)
      && (step.PremarkStep? ==> s'.bag == s.bag && s'.trace == s.trace)
      && (step.LoseStep? ==> s'.bag == s.bag[..step.k] + s.bag[step.k + 1..] && s'.nodes == s.nodes && s'.trace == s.trace)
  {}

  // ----- Runs -----

  ghost predicate CanRun(w: World, s: Net, steps: seq<Step>)
    requires Inv(w, s)
    decreases |steps|
  {
    steps == [] || (Enabled(w, s, steps[0]) && CanRun(w, Next(w, s, steps[0]), steps[1..]))
  }

  ghost function Next(w: World, s: Net, step: Step): (s': Net)
    requires Inv(w, s) && Enabled(w, s, step)
    ensures Inv(w, s') && Grows(s, s')
  {
    StepKeeps(w, s, step);
    Apply(w, s, step)
  }

  ghost function Run(w: World, s: Net, steps: seq<Step>): (s': Net)
    requires Inv(w, s) && CanRun(w, s, steps)
    ensures Inv(w, s')
    decreases |steps|
  {
    if steps == [] then s else Run(w, Next(w, s, steps[0]), steps[1..])
  }

  /** A server handles, and so stores and forwards, only what verified for the peer it came from. */
  lemma OnlyVerified(w: World, s: Net)
    requires Reachable(w, s)
    ensures forall p :: 0 <= p < |s.trace| && s.trace[p].Processed? ==>
      w.verify(s.trace[p].from, s.trace[p].node, s.trace[p].ev)
  {
    forall p | 0 <= p < |s.trace| && s.trace[p].Processed?
      ensures w.verify(s.trace[p].from, s.trace[p].node, s.trace[p].ev)
    {
      assert ActionOk(w, s, s.trace[p]);
    }
  }

  /** A state some run from the initial one leads to. */
  ghost predicate Reachable(w: World, s: Net) {
    exists steps :: CanRun(w, InitialNet(w), steps) && Run(w, InitialNet(w), steps) == s
  }
}
