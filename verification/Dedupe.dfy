/** The deduplication window (s2s.go, Deduplicator). */
module Dedupe {
  datatype Entry = Entry(id: string, at: int)

  datatype Window = Window(seen: map<string, int>, entries: seq<Entry>)

  /** The age limit and the size limit of the window. */
  datatype Limits = Limits(maxAge: int, maxEvents: nat)

  const EMPTY := Window(map[], [])

  function Ids(entries: seq<Entry>): set<string> {
    set i | 0 <= i < |entries| :: entries[i].id
  }

  /** How many entries at the front are older than the cutoff. */
  function Expired(entries: seq<Entry>, cutoff: int): (n: nat)
    ensures n <= |entries|
    ensures forall i :: 0 <= i < n ==> entries[i].at < cutoff
    ensures n < |entries| ==> entries[n].at >= cutoff
  {
    if entries != [] && entries[0].at < cutoff then 1 + Expired(entries[1..], cutoff) else 0
  }

  /** How many entries pruning drops. */
  function Dropped(l: Limits, entries: seq<Entry>, now: int): (n: nat)
    ensures n <= |entries|
  {
    var n := Expired(entries, now - l.maxAge);
    if |entries| - n > l.maxEvents then |entries| - l.maxEvents else n
  }

  function Prune(l: Limits, w: Window, now: int): Window {
    var n := Dropped(l, w.entries, now);
    Window(w.seen - Ids(w.entries[..n]), w.entries[n..])
  }

  function Insert(w: Window, id: string, now: int): Window {
    Window(w.seen[id := now], w.entries + [Entry(id, now)])
  }

  /** IsDuplicate as a function: the window afterwards. */
  function Mark(l: Limits, w: Window, id: string, now: int): Window {
    if id in w.seen then w else Prune(l, Insert(w, id, now), now)
  }

  /** The window's consistency, but for the size limit: the map has exactly the listed ids, each
      listed once with its time. */
  ghost predicate Consistent(w: Window) {
    && w.seen.Keys == Ids(w.entries)
    && (forall i, j :: 0 <= i < j < |w.entries| ==> w.entries[i].id != w.entries[j].id)
    && (forall i :: 0 <= i < |w.entries| ==> w.seen[w.entries[i].id] == w.entries[i].at)
  }

  ghost predicate Valid(l: Limits, w: Window) {
    Consistent(w) && |w.entries| <= l.maxEvents
  }

  /** The listed times are in order and not in the future. */
  ghost predicate Ordered(w: Window, now: int) {
    && (forall i, j :: 0 <= i < j < |w.entries| ==> w.entries[i].at <= w.entries[j].at)
    && (forall i :: 0 <= i < |w.entries| ==> w.entries[i].at <= now)
  }

  lemma IdsSnoc(es: seq<Entry>, e: Entry)
    ensures Ids(es + [e]) == Ids(es) + {e.id}
  {
    forall id ensures id in Ids(es + [e]) <==> id in Ids(es) + {e.id} {
      if id in Ids(es) {
        var i :| 0 <= i < |es| && es[i].id == id;
        assert (es + [e])[i].id == id;
      }
      if id == e.id { assert (es + [e])[|es|].id == id; }
    }
  }

  lemma InsertConsistent(w: Window, id: string, now: int)
    requires Consistent(w) && id !in w.seen
    ensures Consistent(Insert(w, id, now))
  {
    IdsSnoc(w.entries, Entry(id, now));
    forall i | 0 <= i < |w.entries| ensures w.entries[i].id in w.seen && w.entries[i].id != id {
      assert w.entries[i].id in Ids(w.entries);
    }
  }

  lemma PruneSeen(w: Window, n: nat)
    requires Consistent(w) && n <= |w.entries|
    ensures (w.seen - Ids(w.entries[..n])).Keys == Ids(w.entries[n..])
  {
    var kept := w.seen - Ids(w.entries[..n]);
    forall id ensures id in kept <==> id in Ids(w.entries[n..]) {
      if id in w.seen {
        var i :| 0 <= i < |w.entries| && w.entries[i].id == id;
        if i < n { assert w.entries[..n][i].id == id; } else { assert w.entries[n..][i - n].id == id; }
      }
    }
  }

  lemma PruneValid(l: Limits, w: Window, now: int)
    requires Consistent(w)
    ensures Valid(l, Prune(l, w, now))
  {
    var n := Dropped(l, w.entries, now);
    PruneSeen(w, n);
    var w' := Prune(l, w, now);
    forall i | 0 <= i < |w'.entries| ensures w'.seen[w'.entries[i].id] == w'.entries[i].at {
      assert w'.entries[i] == w.entries[n + i];
      assert w'.entries[i].id in Ids(w'.entries);
    }
  }

  /** Every call keeps the window consistent and within its size. */
  lemma MarkValid(l: Limits, w: Window, id: string, now: int)
    requires Valid(l, w)
    ensures Valid(l, Mark(l, w, id, now))
  {
    if id !in w.seen {
      InsertConsistent(w, id, now);
      PruneValid(l, Insert(w, id, now), now);
    }
  }

  /** With clock readings that do not decrease, every call keeps the times in order. */
  lemma MarkOrdered(l: Limits, w: Window, id: string, before: int, now: int)
    requires Ordered(w, before) && before <= now
    ensures Ordered(Mark(l, w, id, now), now)
  {
    if id !in w.seen {
      var all := Insert(w, id, now).entries;
      assert forall i, j :: 0 <= i < j < |all| ==> all[i].at <= all[j].at;
      OrderedFrom(all, Dropped(l, all, now), now);
    }
  }

  lemma OrderedFrom(all: seq<Entry>, n: nat, now: int)
    requires n <= |all| && (forall i, j :: 0 <= i < j < |all| ==> all[i].at <= all[j].at)
    requires forall i :: 0 <= i < |all| ==> all[i].at <= now
    ensures var es := all[n..];
      (forall i, j :: 0 <= i < j < |es| ==> es[i].at <= es[j].at) && forall i :: 0 <= i < |es| ==> es[i].at <= now
  {}

  /** Pruning never drops an entry made now. */
  lemma LastStays(l: Limits, entries: seq<Entry>, now: int)
    requires entries != [] && entries[|entries| - 1].at == now && l.maxEvents >= 1 && l.maxAge >= 0
    ensures Dropped(l, entries, now) < |entries|
  {}

  /** The id a call was made for is in the window afterwards. */
  lemma JustMarked(l: Limits, win: Window, id: string, now: int)
    requires Valid(l, win) && l.maxEvents >= 1 && l.maxAge >= 0
    ensures id in Mark(l, win, id, now).seen
  {
    if id !in win.seen {
      var w1 := Insert(win, id, now);
      InsertConsistent(win, id, now);
      var n := Dropped(l, w1.entries, now);
      LastStays(l, w1.entries, now);
      PruneSeen(w1, n);
      assert w1.entries[n..][|w1.entries| - 1 - n].id == id;
    }
  }

  // ----- Runs of calls -----

  datatype Call = Call(id: string, now: int)

  function After(l: Limits, calls: seq<Call>): Window {
    if calls == [] then EMPTY
    else
      var c := calls[|calls| - 1];
      Mark(l, After(l, calls[..|calls| - 1]), c.id, c.now)
  }

  /** Whether call `i` was answered "new". */
  predicate IsNew(l: Limits, calls: seq<Call>, i: nat)
    requires i < |calls|
  {
    calls[i].id !in After(l, calls[..i]).seen
  }

  /** How many calls from `i` up to, not including, `j` accepted an id other than `id`. */
  function AcceptedOthers(l: Limits, calls: seq<Call>, id: string, i: nat, j: nat): nat
    requires i <= j <= |calls|
    decreases j
  {
    if i == j then 0
    else if IsNew(l, calls, j - 1) && calls[j - 1].id != id then AcceptedOthers(l, calls, id, i, j - 1) + 1
    else AcceptedOthers(l, calls, id, i, j - 1)
  }

  ghost predicate Monotone(calls: seq<Call>) {
    forall i, j :: 0 <= i <= j < |calls| ==> calls[i].now <= calls[j].now
  }

  /** In every run the window is consistent and within its size. */
  lemma {:induction false} AfterValid(l: Limits, calls: seq<Call>)
    ensures Valid(l, After(l, calls))
  {
    if calls != [] {
      var p, c := calls[..|calls| - 1], calls[|calls| - 1];
      AfterValid(l, p);
      MarkValid(l, After(l, p), c.id, c.now);
    }
  }

  /** If the clock does not run backwards, the window's times are in order. */
  lemma {:induction false} AfterOrdered(l: Limits, calls: seq<Call>)
    requires Monotone(calls)
    ensures calls != [] ==> Ordered(After(l, calls), calls[|calls| - 1].now)
  {
    if calls != [] {
      var p, c := calls[..|calls| - 1], calls[|calls| - 1];
      AfterOrdered(l, p);
      MarkOrdered(l, After(l, p), c.id, if p == [] then c.now else p[|p| - 1].now, c.now);
    }
  }

  // ----- What the window holds -----

  /** The calls that were answered "new", in order. */
  function Accepted(l: Limits, calls: seq<Call>): seq<Entry> {
    if calls == [] then []
    else
      var before, c := calls[..|calls| - 1], calls[|calls| - 1];
      Accepted(l, before) + if c.id in After(l, before).seen then [] else [Entry(c.id, c.now)]
  }

  /** Not older, at the last accepted call, than the age limit, and one of the last `maxEvents` accepted. */
  predicate Recent(l: Limits, accepted: seq<Entry>, i: nat)
    requires i < |accepted|
  {
    accepted[i].at >= accepted[|accepted| - 1].at - l.maxAge && |accepted| - i <= l.maxEvents
  }

  /** The window holds `accepted` from `n` on, and these are just the recent ones. */
  predicate HoldsFrom(l: Limits, w: Window, accepted: seq<Entry>, n: nat) {
    && n <= |accepted| && w.entries == accepted[n..]
    && forall i: nat :: i < |accepted| ==> (Recent(l, accepted, i) <==> n <= i)
  }

  /** One more accepted call: what was not recent stays so, and pruning drops just the rest that is not. */
  lemma AcceptOne(l: Limits, w: Window, accepted: seq<Entry>, n: nat, e: Entry) returns (n': nat)
    requires HoldsFrom(l, w, accepted, n) && e.id !in w.seen
    requires InOrder(accepted, e.at)
    ensures HoldsFrom(l, Mark(l, w, e.id, e.at), accepted + [e], n')
  {
    var all, more := w.entries + [e], accepted + [e];
    var d := Dropped(l, all, e.at);
    n' := n + d;
    assert all == more[n..] && all[d..] == more[n'..];
    forall i: nat | i < |more| ensures Recent(l, more, i) <==> n' <= i {
      if i < n {
        assert !Recent(l, accepted, i);
      } else {
        DroppedIff(l, all, e.at, i - n);
        assert all[i - n] == more[i];
      }
    }
  }

  /** Among entries in order of time, pruning drops the old ones and those beyond the count. */
  lemma DroppedIff(l: Limits, all: seq<Entry>, now: int, k: nat)
    requires k < |all| && forall i, j :: 0 <= i <= j < |all| ==> all[i].at <= all[j].at
    ensures Dropped(l, all, now) <= k <==> all[k].at >= now - l.maxAge && |all| - k <= l.maxEvents
  {
    var n := Expired(all, now - l.maxAge);
    if n <= k { assert all[n].at <= all[k].at; }
  }

  predicate InOrder(a: seq<Entry>, t: int) {
    && (forall i, j :: 0 <= i <= j < |a| ==> a[i].at <= a[j].at)
    && forall i :: 0 <= i < |a| ==> a[i].at <= t
  }

  lemma {:induction false} AcceptedTimes(l: Limits, calls: seq<Call>, t: int)
    requires Monotone(calls) && forall k :: 0 <= k < |calls| ==> calls[k].now <= t
    ensures InOrder(Accepted(l, calls), t)
  {
    if calls != [] {
      var before, c := calls[..|calls| - 1], calls[|calls| - 1];
      AcceptedTimes(l, before, c.now);
      assert c.now <= t;
    }
  }

  /** In every run with clock readings that do not decrease the window holds exactly the recent ones of the
      accepted calls. */
  lemma {:induction false} WindowExact(l: Limits, calls: seq<Call>) returns (n: nat)
    requires Monotone(calls)
    ensures HoldsFrom(l, After(l, calls), Accepted(l, calls), n)
  {
    if calls == [] {
      n := 0;
    } else {
      var before, c := calls[..|calls| - 1], calls[|calls| - 1];
      var k := WindowExact(l, before);
      AcceptedTimes(l, before, c.now);
      n := AfterOne(l, After(l, before), Accepted(l, before), k, c);
    }
  }

  lemma AfterOne(l: Limits, w: Window, accepted: seq<Entry>, k: nat, c: Call) returns (n: nat)
    requires HoldsFrom(l, w, accepted, k) && InOrder(accepted, c.now)
    ensures HoldsFrom(l, Mark(l, w, c.id, c.now), accepted + if c.id in w.seen then [] else [Entry(c.id, c.now)], n)
  {
    if c.id in w.seen {
      n := k;
      assert accepted + [] == accepted;
    } else {
      n := AcceptOne(l, w, accepted, k, Entry(c.id, c.now));
    }
  }

  /** So a call is answered "new" if and only if its id is not that of a recent accepted call. */
  lemma NewIff(l: Limits, calls: seq<Call>, j: nat)
    requires Monotone(calls) && j < |calls|
    ensures IsNew(l, calls, j) <==> !RecentID(l, Accepted(l, calls[..j]), calls[j].id)
  {
    var before := calls[..j];
    var n := WindowExact(l, before);
    AfterValid(l, before);
    SeenIff(l, After(l, before), Accepted(l, before), n, calls[j].id);
  }

  ghost predicate RecentID(l: Limits, accepted: seq<Entry>, id: string) {
    exists i: nat :: i < |accepted| && Recent(l, accepted, i) && accepted[i].id == id
  }

  lemma SeenIff(l: Limits, w: Window, accepted: seq<Entry>, n: nat, id: string)
    requires HoldsFrom(l, w, accepted, n) && Valid(l, w)
    ensures id in w.seen <==> RecentID(l, accepted, id)
  {
    IdsFrom(accepted, n, id);
    if id in w.seen {
      var i :| n <= i < |accepted| && accepted[i].id == id;
      assert Recent(l, accepted, i);
    }
  }

  lemma IdsFrom(a: seq<Entry>, n: nat, id: string)
    requires n <= |a|
    ensures id in Ids(a[n..]) <==> exists i :: n <= i < |a| && a[i].id == id
  {
    if i :| n <= i < |a| && a[i].id == id { assert a[n..][i - n].id == id; }
  }

  /** Where the id accepted by call `i` stands after call `j - 1`. */
  ghost predicate StandsAt(l: Limits, calls: seq<Call>, i: nat, j: nat, p: nat)
    requires i < j <= |calls|
  {
    var entries := After(l, calls[..j]).entries;
    && p < |entries| && entries[p] == Entry(calls[i].id, calls[i].now)
    && |entries| - 1 - p == AcceptedOthers(l, calls, calls[i].id, i + 1, j)
  }

  ghost predicate Stands(l: Limits, calls: seq<Call>, i: nat, j: nat)
    requires i < j <= |calls|
  {
    exists p: nat :: StandsAt(l, calls, i, j, p)
  }

  /** Enough has happened since call `i` for its id to be gone after call `j - 1`. */
  ghost predicate MayBeGone(l: Limits, calls: seq<Call>, i: nat, j: nat)
    requires i < j <= |calls|
  {
    || calls[j - 1].now - calls[i].now > l.maxAge
    || AcceptedOthers(l, calls, calls[i].id, i + 1, j) >= l.maxEvents
  }

  lemma GoneStays(l: Limits, calls: seq<Call>, i: nat, j: nat)
    requires Monotone(calls) && i < j < |calls| && MayBeGone(l, calls, i, j)
    ensures MayBeGone(l, calls, i, j + 1)
  {
    assert calls[j - 1].now <= calls[j].now;
  }

  /** An insertion keeps an entry, one place further from the end, or drops it as too old or as one
      too many. */
  lemma EntryAfterMark(l: Limits, w: Window, p: nat, id: string, now: int) returns (q: nat)
    requires p < |w.entries| && id !in w.seen
    ensures var es := Mark(l, w, id, now).entries;
      || (q < |es| && es[q] == w.entries[p] && |es| - 1 - q == |w.entries| - p)
      || now - w.entries[p].at > l.maxAge
      || |w.entries| - p >= l.maxEvents
  {
    var all := Insert(w, id, now).entries;
    var n := Dropped(l, all, now);
    assert all[p] == w.entries[p];
    q := if n <= p then p - n else 0;
    if n <= p { assert all[n..][q] == all[p]; }
  }

  /** One more call leaves the id standing, or evicts it for one of the two reasons. */
  lemma StandsOrEvicted(l: Limits, calls: seq<Call>, i: nat, j: nat)
    requires i < j < |calls| && Stands(l, calls, i, j)
    ensures Stands(l, calls, i, j + 1) || MayBeGone(l, calls, i, j + 1)
  {
    var p: nat :| StandsAt(l, calls, i, j, p);
    if calls[j].id in After(l, calls[..j]).seen {
      StandsAfterOld(l, calls, i, j, p);
    } else {
      StandsAfterNew(l, calls, i, j, p);
    }
  }

  lemma StandsAfterOld(l: Limits, calls: seq<Call>, i: nat, j: nat, p: nat)
    requires i < j < |calls| && StandsAt(l, calls, i, j, p) && calls[j].id in After(l, calls[..j]).seen
    ensures StandsAt(l, calls, i, j + 1, p)
  {
    assert calls[..j + 1][..j] == calls[..j];
    assert After(l, calls[..j + 1]) == After(l, calls[..j]);
    assert !IsNew(l, calls, j);
  }

  lemma CountNew(l: Limits, calls: seq<Call>, id: string, i: nat, j: nat)
    requires i <= j < |calls| && IsNew(l, calls, j) && calls[j].id != id
    ensures AcceptedOthers(l, calls, id, i, j + 1) == AcceptedOthers(l, calls, id, i, j) + 1
  {}

  lemma StandingSeen(l: Limits, calls: seq<Call>, i: nat, j: nat, p: nat)
    requires i < j <= |calls| && StandsAt(l, calls, i, j, p)
    ensures calls[i].id in After(l, calls[..j]).seen
  {
    var w := After(l, calls[..j]);
    AfterValid(l, calls[..j]);
    assert w.entries[p].id in Ids(w.entries);
  }

  lemma StandsAfterNew(l: Limits, calls: seq<Call>, i: nat, j: nat, p: nat)
    requires i < j < |calls| && StandsAt(l, calls, i, j, p) && calls[j].id !in After(l, calls[..j]).seen
    ensures Stands(l, calls, i, j + 1) || MayBeGone(l, calls, i, j + 1)
  {
    var w, c := After(l, calls[..j]), calls[j];
    StandingSeen(l, calls, i, j, p);
    CountNew(l, calls, calls[i].id, i + 1, j);
    assert calls[..j + 1][..j] == calls[..j];
    assert After(l, calls[..j + 1]) == Mark(l, w, c.id, c.now);
    var q := EntryAfterMark(l, w, p, c.id, c.now);
    if !MayBeGone(l, calls, i, j + 1) { assert StandsAt(l, calls, i, j + 1, q); }
  }

  lemma JustAccepted(l: Limits, calls: seq<Call>, i: nat)
    requires i < |calls| && IsNew(l, calls, i) && l.maxEvents >= 1 && l.maxAge >= 0
    ensures Stands(l, calls, i, i + 1)
  {
    assert calls[..i + 1][..i] == calls[..i];
    AfterValid(l, calls[..i]);
    var all := After(l, calls[..i]).entries + [Entry(calls[i].id, calls[i].now)];
    var n := Dropped(l, all, calls[i].now);
    LastStays(l, all, calls[i].now);
    assert all[n..][|all| - 1 - n] == all[|all| - 1];
    assert StandsAt(l, calls, i, i + 1, |all| - 1 - n);
  }

  ghost predicate Accounted(l: Limits, calls: seq<Call>, i: nat, j: nat)
    requires i < j <= |calls|
  {
    Stands(l, calls, i, j) || MayBeGone(l, calls, i, j)
  }

  lemma AccountedStep(l: Limits, calls: seq<Call>, i: nat, j: nat, next: nat)
    requires Monotone(calls) && i < j < next <= |calls| && next == j + 1 && Accounted(l, calls, i, j)
    ensures Accounted(l, calls, i, next)
  {
    if Stands(l, calls, i, j) { StandsOrEvicted(l, calls, i, j); } else { GoneStays(l, calls, i, j); }
  }

  lemma AccountedFirst(l: Limits, calls: seq<Call>, i: nat, next: nat)
    requires next == i + 1 <= |calls| && IsNew(l, calls, i) && l.maxEvents >= 1 && l.maxAge >= 0
    ensures Accounted(l, calls, i, next)
  {
    JustAccepted(l, calls, i);
  }

  lemma {:induction false} StandsUntil(l: Limits, calls: seq<Call>, i: nat, j: nat)
    requires Monotone(calls) && i < j <= |calls| && IsNew(l, calls, i) && l.maxEvents >= 1 && l.maxAge >= 0
    ensures Accounted(l, calls, i, j)
    decreases j
  {
    if j == i + 1 {
      AccountedFirst(l, calls, i, j);
    } else {
      StandsUntil(l, calls, i, j - 1);
      AccountedStep(l, calls, i, j - 1, j);
    }
  }

  /** One id is answered "new" twice only if more than the age limit passed between the two calls or
      at least `maxEvents` other ids were accepted in between. */
  lemma NewTwice(l: Limits, calls: seq<Call>, i: nat, j: nat)
    requires Monotone(calls) && i < j < |calls| && l.maxEvents >= 1 && l.maxAge >= 0
    requires calls[i].id == calls[j].id && IsNew(l, calls, i) && IsNew(l, calls, j)
    ensures calls[j].now - calls[i].now > l.maxAge
         || AcceptedOthers(l, calls, calls[i].id, i + 1, j) >= l.maxEvents
  {
    StandsUntil(l, calls, i, j);
    assert calls[j - 1].now <= calls[j].now;
    AfterValid(l, calls[..j]);
    assert !Stands(l, calls, i, j) by {
      var w := After(l, calls[..j]);
      assert forall p: nat :: p < |w.entries| ==> w.entries[p].id in w.seen;
    }
  }

  class Deduplicator {
    const limits: Limits
    var seen: map<string, int>
    var entries: seq<Entry>

    function Value(): Window
      reads this
    {
      Window(seen, entries)
    }

    constructor (l: Limits)
      ensures Value() == EMPTY && limits == l
    {
      limits := l;
      seen := map[];
      entries := [];
    }

    method IsDuplicate(id: string, now: int) returns (duplicate: bool)
      modifies this
      ensures duplicate == (id in old(seen))
      ensures Value() == Mark(limits, old(Value()), id, now)
    {
      if id in seen {
        return true;
      }
      seen := seen[id := now];
      entries := entries + [Entry(id, now)];
      PruneOld(now);
      return false;
    }

    method PruneOld(now: int)
      modifies this
      ensures Value() == Prune(limits, old(Value()), now)
    {
      var pruneIdx := DropAged(now - limits.maxAge);
      pruneIdx := DropExcess(pruneIdx, old(seen));
      assert pruneIdx == Dropped(limits, entries, now);
      assert entries[0..] == entries;
      if pruneIdx > 0 {
        entries := entries[pruneIdx..];
      }
    }

    /** The first loop of the pruning: by age. */
    method DropAged(cutoff: int) returns (pruneIdx: nat)
      modifies `seen
      ensures pruneIdx == Expired(entries, cutoff)
      ensures seen == old(seen) - Ids(entries[..pruneIdx])
    {
      pruneIdx := 0;
      assert Ids(entries[..0]) == {};
      while pruneIdx < |entries| && entries[pruneIdx].at < cutoff
        invariant pruneIdx <= |entries|
        invariant forall i :: 0 <= i < pruneIdx ==> entries[i].at < cutoff
        invariant seen == old(seen) - Ids(entries[..pruneIdx])
      {
        MinusSnoc(old(seen), entries, pruneIdx);
        seen := seen - {entries[pruneIdx].id};
        pruneIdx := pruneIdx + 1;
      }
    }

    /** The second loop: by count.  `m` is the map before the pruning. */
    method DropExcess(from: nat, ghost m: map<string, int>) returns (pruneIdx: nat)
      requires from <= |entries| && seen == m - Ids(entries[..from])
      modifies `seen
      ensures pruneIdx == if |entries| - from > limits.maxEvents then |entries| - limits.maxEvents else from
      ensures seen == m - Ids(entries[..pruneIdx])
    {
      pruneIdx := from;
      while |entries| - pruneIdx > limits.maxEvents
        invariant from <= pruneIdx <= |entries|
        invariant pruneIdx > from ==> |entries| - pruneIdx >= limits.maxEvents
        invariant seen == m - Ids(entries[..pruneIdx])
      {
        MinusSnoc(m, entries, pruneIdx);
        seen := seen - {entries[pruneIdx].id};
        pruneIdx := pruneIdx + 1;
      }
    }

    lemma MinusSnoc(m: map<string, int>, es: seq<Entry>, n: nat)
      requires n < |es|
      ensures m - Ids(es[..n]) - {es[n].id} == m - Ids(es[..n + 1])
    {
      assert es[..n + 1] == es[..n] + [es[n]];
      IdsSnoc(es[..n], es[n]);
    }
  }
}
