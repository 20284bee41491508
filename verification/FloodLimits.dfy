/** How long a flood is protected: within the age limit and the size limit of the windows, no window
    forgets an id, so a flood keeps to its bound. */
module FloodLimits {
  import opened Federation
  import opened Network
  import opened Causality
  import opened Flood
  import D = Dedupe

  /** If the id is in the window, it was marked from `t0` on and at most `k` ids were accepted since. */
  ghost predicate Recent(win: D.Window, id: string, t0: int, k: nat) {
    id in win.seen ==> exists p :: RecentAt(win, id, t0, k, p)
  }

  predicate RecentAt(win: D.Window, id: string, t0: int, k: nat, p: nat) {
    p < |win.entries| && win.entries[p].id == id && win.entries[p].at >= t0 && |win.entries| - 1 - p <= k
  }

  lemma OwnMark(l: D.Limits, win: D.Window, id: string, t0: int, k: nat, now: int)
    requires id !in win.seen && t0 <= now && l.maxEvents >= 1 && l.maxAge >= 0
    ensures Recent(D.Mark(l, win, id, now), id, t0, k)
  {
    var all := D.Insert(win, id, now).entries;
    var n := D.Dropped(l, all, now);
    assert all[|all| - 1] == D.Entry(id, now);
    assert all[n..][|all| - 1 - n] == all[|all| - 1];
    assert RecentAt(D.Mark(l, win, id, now), id, t0, k, |all| - 1 - n);
  }

  lemma OtherMark(l: D.Limits, win: D.Window, id: string, t0: int, k: nat, other: string, now: int)
    requires D.Valid(l, win) && id in win.seen && other !in win.seen && Recent(win, id, t0, k)
    requires now <= t0 + l.maxAge && k + 1 < l.maxEvents
    ensures id in D.Mark(l, win, other, now).seen && Recent(D.Mark(l, win, other, now), id, t0, k + 1)
  {
    var p :| RecentAt(win, id, t0, k, p);
    var after := D.Mark(l, win, other, now);
    var q := D.EntryAfterMark(l, win, p, other, now);
    D.MarkValid(l, win, other, now);
    assert after.entries[q].id in D.Ids(after.entries);
    assert RecentAt(after, id, t0, k + 1, q);
  }

  /** One more marking within the limits forgets no recent id; only a new one of another id counts. */
  lemma MarkKeepsRecent(l: D.Limits, win: D.Window, id: string, t0: int, k: nat, next: nat, other: string, now: int)
    requires D.Valid(l, win) && Recent(win, id, t0, k) && t0 <= now <= t0 + l.maxAge
    requires next == (if other != id && other !in win.seen then k + 1 else k) && next < l.maxEvents
    ensures Recent(D.Mark(l, win, other, now), id, t0, next)
    ensures id in win.seen ==> id in D.Mark(l, win, other, now).seen
  {
    if other in win.seen {
      assert D.Mark(l, win, other, now) == win;
    } else if id in win.seen {
      OtherMark(l, win, id, t0, k, other, now);
    } else {
      NewMark(l, win, id, t0, next, other, now);
    }
  }

  lemma NewMark(l: D.Limits, win: D.Window, id: string, t0: int, k: nat, other: string, now: int)
    requires id !in win.seen && other !in win.seen && t0 <= now && l.maxEvents >= 1 && l.maxAge >= 0
    ensures Recent(D.Mark(l, win, other, now), id, t0, k)
  {
    if other == id { OwnMark(l, win, id, t0, k, now); } else { NotMarked(l, win, id, other, now); }
  }

  lemma NotMarked(l: D.Limits, win: D.Window, id: string, other: string, now: int)
    requires id !in win.seen && other != id
    ensures id !in D.Mark(l, win, other, now).seen
  {
    assert id !in D.Insert(win, other, now).seen;
  }

  /** A step that marks reads the clock between `t0` and the age limit past it. */
  predicate Timely(step: Step, t0: int, maxAge: int) {
    match step
    case CreateStep(_, _, _, _, _, _) => true
    case DeliverStep(_, _, now) => t0 <= now <= t0 + maxAge
    case PremarkStep(_, _, now) => t0 <= now <= t0 + maxAge
    case LoseStep(_) => true
  }

  /** The step makes the window of server `i` accept an id other than `id`. */
  ghost predicate AcceptsOther(w: World, s: Net, step: Step, i: nat, id: string)
    requires Inv(w, s) && Enabled(w, s, step) && i < |s.nodes|
  {
    match step
    case CreateStep(_, _, _, _, _, _) => false
    case DeliverStep(j, _, _) =>
      var p := s.bag[j];
      p.dst == i && p.ev.id != id && Verdict_(s.nodes[i], p.ev, w.verify(p.src, p.dst, p.ev)) == Handled
    case PremarkStep(node, other, _) => node == i && other != id && other !in s.nodes[i].window.seen
    case LoseStep(_) => false
  }

  /** How many ids other than `id` the window of server `i` accepts in a run. */
  ghost function AcceptedOthers(w: World, s: Net, steps: seq<Step>, i: nat, id: string): nat
    requires Inv(w, s) && CanRun(w, s, steps) && i < |s.nodes|
    decreases |steps|
  {
    if steps == [] then 0
    else
      (if AcceptsOther(w, s, steps[0], i, id) then 1 else 0)
      + AcceptedOthers(w, Next(w, s, steps[0]), steps[1..], i, id)
  }

  lemma DeliverKeepsRecent(w: World, s: Net, step: Step, i: nat, id: string, t0: int, k: nat, next: nat)
    requires Inv(w, s) && Enabled(w, s, step) && i < |s.nodes| && Recent(s.nodes[i].window, id, t0, k)
    requires step.DeliverStep? && t0 <= step.now <= t0 + w.config.limits.maxAge
    requires next == (if AcceptsOther(w, s, step, i, id) then k + 1 else k) && next < w.config.limits.maxEvents
    ensures Recent(Next(w, s, step).nodes[i].window, id, t0, next)
    ensures Marked(s, i, id) ==> Marked(Next(w, s, step), i, id)
  {
    var p := s.bag[step.k];
    assert PacketOk(s, p);
    if i == p.dst && Verdict_(s.nodes[i], p.ev, w.verify(p.src, p.dst, p.ev)) == Handled {
      MarkKeepsRecent(w.config.limits, s.nodes[i].window, id, t0, k, next, p.ev.id, step.now);
    } else {
      assert Next(w, s, step).nodes[i].window == s.nodes[i].window;
    }
  }

  lemma NodeKeepsRecent(w: World, s: Net, step: Step, i: nat, id: string, t0: int, k: nat, next: nat)
    requires Inv(w, s) && Enabled(w, s, step) && i < |s.nodes| && Recent(s.nodes[i].window, id, t0, k)
    requires Timely(step, t0, w.config.limits.maxAge)
    requires next == (if AcceptsOther(w, s, step, i, id) then k + 1 else k) && next < w.config.limits.maxEvents
    ensures Recent(Next(w, s, step).nodes[i].window, id, t0, next)
    ensures Marked(s, i, id) ==> Marked(Next(w, s, step), i, id)
  {
    match step
    case CreateStep(_, _, _, _, _, _) => assert Next(w, s, step).nodes[i].window == s.nodes[i].window;
    case DeliverStep(_, _, _) => DeliverKeepsRecent(w, s, step, i, id, t0, k, next);
    case PremarkStep(node, other, now) =>
      if i == node { MarkKeepsRecent(w.config.limits, s.nodes[i].window, id, t0, k, next, other, now); }
    case LoseStep(_) =>
  }

  /** If the window of server `i` holds the id, it accepts fewer others than the size limit from its marking to
      the end of the run. */
  ghost predicate Fits(w: World, s: Net, steps: seq<Step>, i: nat, id: string, t0: int)
    requires Inv(w, s) && CanRun(w, s, steps) && i < |s.nodes|
  {
    exists k: nat ::
      Recent(s.nodes[i].window, id, t0, k) && k + AcceptedOthers(w, s, steps, i, id) < w.config.limits.maxEvents
  }

  lemma NodeFits(w: World, s: Net, steps: seq<Step>, i: nat, id: string, t0: int)
    requires Inv(w, s) && CanRun(w, s, steps) && steps != [] && i < |s.nodes| && Fits(w, s, steps, i, id, t0)
    requires Timely(steps[0], t0, w.config.limits.maxAge)
    ensures var s' := Next(w, s, steps[0]);
      Fits(w, s', steps[1..], i, id, t0) && (Marked(s, i, id) ==> Marked(s', i, id))
  {
    var k: nat :| Recent(s.nodes[i].window, id, t0, k)
      && k + AcceptedOthers(w, s, steps, i, id) < w.config.limits.maxEvents;
    var next := if AcceptsOther(w, s, steps[0], i, id) then k + 1 else k;
    NodeKeepsRecent(w, s, steps[0], i, id, t0, k, next);
  }

  /** A run in which every window accepts fewer other ids than the size limit, and whose markings fall within
      the age limit, forgets no id that was marked during it. */
  lemma {:induction false} ShortRunKeeps(w: World, s: Net, steps: seq<Step>, id: string, t0: int)
    requires Inv(w, s) && CanRun(w, s, steps)
    requires forall i: nat :: i < |s.nodes| ==> Fits(w, s, steps, i, id, t0)
    requires forall j :: 0 <= j < |steps| ==> Timely(steps[j], t0, w.config.limits.maxAge)
    ensures KeptAlong(w, s, steps, id)
    decreases |steps|
  {
    if steps != [] {
      var s' := Next(w, s, steps[0]);
      forall i: nat | i < |s.nodes|
        ensures Fits(w, s', steps[1..], i, id, t0) && (Marked(s, i, id) ==> Marked(s', i, id))
      {
        NodeFits(w, s, steps, i, id, t0);
      }
      ShortRunKeeps(w, s', steps[1..], id, t0);
    }
  }

  /** The flood of a new event that no window holds beforehand keeps to its bound, and each server handles it
      at most once, through every run within the age limit in which every window accepts fewer other ids than
      the size limit. */
  lemma FloodWithinLimits(w: World, s: Net, create: Step, steps: seq<Step>, t0: int)
    requires Inv(w, s) && Sound(w) && Enabled(w, s, create) && create.CreateStep?
    requires CanRun(w, Next(w, s, create), steps)
    requires forall i :: 0 <= i < |s.nodes| ==> !Marked(s, i, EventOf(w, s, create).id)
    requires forall j :: 0 <= j < |steps| ==> Timely(steps[j], t0, w.config.limits.maxAge)
    requires forall i: nat :: i < |s.nodes| ==>
      AcceptedOthers(w, Next(w, s, create), steps, i, EventOf(w, s, create).id) < w.config.limits.maxEvents
    ensures var n := |w.hosts|;
      Deliveries(w, Next(w, s, create), steps, EventOf(w, s, create).id) <= if n >= 2 then n * n - n - 1 else 0
    ensures OnceEach(Run(w, Next(w, s, create), steps), EventOf(w, s, create).id)
  {
    var id, s1 := EventOf(w, s, create).id, Next(w, s, create);
    forall i: nat | i < |s1.nodes| ensures Fits(w, s1, steps, i, id, t0) {
      assert !Marked(s, i, id);
      assert Recent(s1.nodes[i].window, id, t0, 0);
    }
    ShortRunKeeps(w, s1, steps, id, t0);
    FloodBound(w, s, create, steps);
  }
}
