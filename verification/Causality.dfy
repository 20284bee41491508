/** Sequence numbers respect causality, and event ids are unique, in every run of the federation. */
module Causality {
  import opened Lamport
  import opened Urns
  import opened Federation
  import opened Network

  /** Some server had created or processed `a` when it created `b`. */
  ghost predicate Causes(trace: seq<Action>, a: Event, b: Event) {
    exists p, q :: 0 <= p < q < |trace| && trace[p].ev == a
      && trace[q].Created? && trace[q].node == trace[p].node && trace[q].ev == b
  }

  /** Each event of the chain causes the next. */
  ghost predicate Chain(trace: seq<Action>, es: seq<Event>) {
    |es| >= 2 && forall i :: 0 <= i < |es| - 1 ==> Causes(trace, es[i], es[i + 1])
  }

  lemma ReachableInv(w: World, s: Net)
    requires Reachable(w, s)
    ensures Inv(w, s)
  {}

  lemma {:induction false} ChainIncreases(w: World, s: Net, es: seq<Event>)
    requires Inv(w, s) && Chain(s.trace, es)
    ensures es[0].seq_ < es[|es| - 1].seq_
    decreases |es|
  {
    var n := |es|;
    assert Causes(s.trace, es[n - 2], es[n - 1]);
    if n > 2 {
      var shorter := es[..n - 1];
      forall i | 0 <= i < n - 2 ensures Causes(s.trace, shorter[i], shorter[i + 1]) {
        assert Causes(s.trace, es[i], es[i + 1]);
      }
      ChainIncreases(w, s, shorter);
    }
  }

  /** In every reachable state, an event that another one causes, directly or through a chain, has the
      smaller number, and the conflict order puts it first. */
  lemma CausalityRespected(w: World, s: Net, es: seq<Event>)
    requires Reachable(w, s) && Chain(s.trace, es)
    ensures var a, b := es[0], es[|es| - 1];
      a.seq_ < b.seq_ && Compare(a.seq_, a.origin, b.seq_, b.origin) == -1
  {
    ReachableInv(w, s);
    ChainIncreases(w, s, es);
  }

  ghost predicate DistinctHosts(hosts: seq<string>) {
    && (forall i :: 0 <= i < |hosts| ==> hosts[i] != "")
    && (forall i, j :: 0 <= i < j < |hosts| ==> hosts[i] != hosts[j])
  }

  lemma SameNode(w: World, s: Net, p: nat, q: nat)
    requires Inv(w, s) && p < |s.trace| && q < |s.trace| && s.trace[p].Created? && s.trace[q].Created?
    requires s.trace[p].node == s.trace[q].node && s.trace[p].ev.seq_ == s.trace[q].ev.seq_
    ensures p == q
  {}

  /** Every created event has its own id, and its own place in the conflict order, if the servers'
      host names are distinct and none is empty. */
  lemma EventsDistinct(w: World, s: Net, p: nat, q: nat)
    requires Reachable(w, s) && DistinctHosts(w.hosts)
    requires p < |s.trace| && q < |s.trace| && p != q && s.trace[p].Created? && s.trace[q].Created?
    ensures s.trace[p].ev.id != s.trace[q].ev.id
    ensures var a, b := s.trace[p].ev, s.trace[q].ev; Compare(a.seq_, a.origin, b.seq_, b.origin) != 0
  {
    ReachableInv(w, s);
    var a, b := s.trace[p], s.trace[q];
    assert ActionOk(w, s, a) && ActionOk(w, s, b);
    var h, k := w.hosts[a.node], w.hosts[b.node];
    if a.ev.id == b.ev.id {
      EventIDUnique(h, a.ev.seq_, k, b.ev.seq_);
      SameNode(w, s, p, q);
    }
    CompareTotalOrder(a.ev.seq_, a.ev.origin, b.ev.seq_, b.ev.origin, 0, "");
    assert ServerURN(h)[|SERVER_PREFIX|..] == h && ServerURN(k)[|SERVER_PREFIX|..] == k;
    if a.ev.seq_ == b.ev.seq_ && a.ev.origin == b.ev.origin {
      SameNode(w, s, p, q);
    }
  }

  /** No clock runs ahead of the number of events created and processed so far, so none overflows a
      64-bit integer before that many have happened. */
  lemma ClocksBounded(w: World, s: Net, i: nat)
    requires Reachable(w, s) && i < |s.nodes|
    ensures 0 <= s.nodes[i].clock.seq_ <= |s.trace|
  {
    ReachableInv(w, s);
  }
}
