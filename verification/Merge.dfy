/** Channel state merge on partition heal (federation.go, handleRemoteMerge) and its convergence.

    Times are integers; parsing a timestamp and folding case are parameters.
 */
module Merge {
  import opened Text
  import opened Modes

  datatype RawBan = RawBan(mask: string, setBy: string, ts: string)

  /** `bans` is None when the message carries no list; entries that are no objects are None. */
  datatype MergeEvent = MergeEvent(
    topic: string, topicBy: string, topicTs: string, modes: string, bans: Option<seq<Option<RawBan>>>)

  datatype Merged = Merged(
    topic: string, topicWho: string, topicTime: int, modes: set<char>, bans: map<string, Ban>)

  datatype Codec = Codec(parse: string -> Option<int>, fold: string -> string, zeroTime: int)

  /** When the event's topic was set, if its timestamp is present and readable. */
  function TopicTime(k: Codec, ev: MergeEvent): Option<int> {
    if ev.topicTs == "" then None else k.parse(ev.topicTs)
  }

  predicate Later(k: Codec, st: Merged, ev: MergeEvent) {
    TopicTime(k, ev).Some? && TopicTime(k, ev).value > st.topicTime
  }

  function BanOf(k: Codec, b: RawBan): Ban {
    Ban(b.mask, b.setBy, match k.parse(b.ts) case Some(t) => t case None => k.zeroTime)
  }

  function AddBans(k: Codec, bans: map<string, Ban>, list: seq<Option<RawBan>>): map<string, Ban> {
    if list == [] then bans
    else
      var most := AddBans(k, bans, list[..|list| - 1]);
      match list[|list| - 1]
      case None => most
      case Some(b) => most[k.fold(b.mask) := BanOf(k, b)]
  }

  function MergeOne(k: Codec, st: Merged, ev: MergeEvent): Merged {
    var st1 := if Later(k, st, ev)
      then st.(topic := ev.topic, topicWho := ev.topicBy, topicTime := TopicTime(k, ev).value) else st;
    st1.(modes := st.modes + Elements(ev.modes),
         bans := match ev.bans case None => st.bans case Some(list) => AddBans(k, st.bans, list))
  }

  function MergeAll(k: Codec, st: Merged, evs: seq<MergeEvent>): Merged {
    if evs == [] then st else MergeOne(k, MergeAll(k, st, evs[..|evs| - 1]), evs[|evs| - 1])
  }

  // ----- What a run of merges amounts to -----

  predicate CarriesBan(k: Codec, ev: MergeEvent, mask: string) {
    ev.bans.Some? && exists i :: 0 <= i < |ev.bans.value| && ev.bans.value[i].Some?
                                 && k.fold(ev.bans.value[i].value.mask) == mask
  }

  lemma {:induction false} AddBansKeys(k: Codec, bans: map<string, Ban>, list: seq<Option<RawBan>>, mask: string)
    ensures mask in AddBans(k, bans, list) <==>
            (mask in bans || exists i :: 0 <= i < |list| && list[i].Some? && k.fold(list[i].value.mask) == mask)
  {
    if list != [] {
      var p := list[..|list| - 1];
      AddBansKeys(k, bans, p, mask);
      if exists i :: 0 <= i < |list| && list[i].Some? && k.fold(list[i].value.mask) == mask {
        var i :| 0 <= i < |list| && list[i].Some? && k.fold(list[i].value.mask) == mask;
        if i < |p| { assert p[i] == list[i]; }
      }
      if exists i :: 0 <= i < |p| && p[i].Some? && k.fold(p[i].value.mask) == mask {
        var i :| 0 <= i < |p| && p[i].Some? && k.fold(p[i].value.mask) == mask;
        assert list[i] == p[i];
      }
    }
  }

  /** A merge takes the event's topic when its time is given, readable and later, and else leaves all three
      fields of the topic. */
  lemma TopicTaken(k: Codec, st: Merged, ev: MergeEvent)
    ensures var m, t := MergeOne(k, st, ev), k.parse(ev.topicTs);
      if ev.topicTs != "" && t.Some? && t.value > st.topicTime
      then m.topic == ev.topic && m.topicWho == ev.topicBy && m.topicTime == t.value
      else m.topic == st.topic && m.topicWho == st.topicWho && m.topicTime == st.topicTime
  {}

  /** The last entry of a list with some folded mask. */
  predicate LastBan(k: Codec, list: seq<Option<RawBan>>, mask: string, i: nat) {
    && i < |list| && list[i].Some? && k.fold(list[i].value.mask) == mask
    && forall j :: i < j < |list| && list[j].Some? ==> k.fold(list[j].value.mask) != mask
  }

  /** Of the entries with one folded mask the last is kept as it came, its time zero when unreadable. */
  lemma {:induction false} BanTaken(k: Codec, bans: map<string, Ban>, list: seq<Option<RawBan>>, mask: string, i: nat)
    requires LastBan(k, list, mask, i)
    ensures var b, m := list[i].value, AddBans(k, bans, list);
      && mask in m && m[mask].mask == b.mask && m[mask].who == b.setBy
      && m[mask].when == if k.parse(b.ts).Some? then k.parse(b.ts).value else k.zeroTime
  {
    if i < |list| - 1 {
      var init := list[..|list| - 1];
      assert forall j :: 0 <= j < |init| ==> init[j] == list[j];
      BanTaken(k, bans, init, mask, i);
    }
  }

  predicate Unlisted(k: Codec, list: seq<Option<RawBan>>, mask: string) {
    forall i :: 0 <= i < |list| && list[i].Some? ==> k.fold(list[i].value.mask) != mask
  }

  /** A ban that is not listed stays as it is. */
  lemma {:induction false} BanKept(k: Codec, bans: map<string, Ban>, list: seq<Option<RawBan>>, mask: string)
    requires Unlisted(k, list, mask)
    ensures var m := AddBans(k, bans, list); (mask in m <==> mask in bans) && (mask in m ==> m[mask] == bans[mask])
  {
    if list != [] { BanKept(k, bans, list[..|list| - 1], mask); }
  }

  /** The merged flags are the union of all flags. */
  lemma {:induction false} MergedModes(k: Codec, st: Merged, evs: seq<MergeEvent>, c: char)
    ensures c in MergeAll(k, st, evs).modes <==> c in st.modes || exists ev :: ev in evs && c in ev.modes
  {
    if evs != [] {
      var p, last := evs[..|evs| - 1], evs[|evs| - 1];
      MergedModes(k, st, p, c);
      assert c in MergeAll(k, st, evs).modes <==> c in MergeAll(k, st, p).modes || c in last.modes;
      assert last in evs && forall ev :: ev in p ==> ev in evs;
      assert forall ev :: ev in evs ==> ev in p || ev == last;
    }
  }

  /** The merged ban masks are the union of all folded masks. */
  lemma {:induction false} MergedBans(k: Codec, st: Merged, evs: seq<MergeEvent>, mask: string)
    ensures mask in MergeAll(k, st, evs).bans <==>
            mask in st.bans || exists ev :: ev in evs && CarriesBan(k, ev, mask)
  {
    if evs != [] {
      var p, last := evs[..|evs| - 1], evs[|evs| - 1];
      MergedBans(k, st, p, mask);
      if last.bans.Some? { AddBansKeys(k, MergeAll(k, st, p).bans, last.bans.value, mask); }
      assert mask in MergeAll(k, st, evs).bans <==> mask in MergeAll(k, st, p).bans || CarriesBan(k, last, mask);
      assert last in evs && forall ev :: ev in p ==> ev in evs;
      assert forall ev :: ev in evs ==> ev in p || ev == last;
    }
  }

  /** The merged topic time is the maximum of the initial one and all readable ones. */
  ghost predicate IsMaxTime(k: Codec, st: Merged, evs: seq<MergeEvent>, t: int) {
    && t >= st.topicTime
    && (forall ev :: ev in evs && TopicTime(k, ev).Some? ==> TopicTime(k, ev).value <= t)
    && (t == st.topicTime || exists ev :: ev in evs && TopicTime(k, ev) == Some(t))
  }

  /** The topic comes from some event of the maximal time, or is the initial one. */
  ghost predicate IsTopic(k: Codec, st: Merged, evs: seq<MergeEvent>, m: Merged) {
    if m.topicTime == st.topicTime then m.topic == st.topic && m.topicWho == st.topicWho
    else exists ev :: ev in evs && TopicTime(k, ev) == Some(m.topicTime)
                      && ev.topic == m.topic && ev.topicBy == m.topicWho
  }

  lemma {:induction false} MergedTopic(k: Codec, st: Merged, evs: seq<MergeEvent>)
    ensures IsMaxTime(k, st, evs, MergeAll(k, st, evs).topicTime)
    ensures IsTopic(k, st, evs, MergeAll(k, st, evs))
  {
    if evs != [] {
      var p, last := evs[..|evs| - 1], evs[|evs| - 1];
      MergedTopic(k, st, p);
      assert forall ev :: ev in evs <==> ev in p || ev == last;
    }
  }

  ghost predicate SameEvents(xs: seq<MergeEvent>, ys: seq<MergeEvent>) {
    forall ev :: ev in xs <==> ev in ys
  }

  /** Any order and any repetition of the same events gives the same flags, the same folded ban
      masks and the same topic time. */
  lemma MergeConverges(k: Codec, st: Merged, xs: seq<MergeEvent>, ys: seq<MergeEvent>)
    requires SameEvents(xs, ys)
    ensures var a, b := MergeAll(k, st, xs), MergeAll(k, st, ys);
      a.modes == b.modes && a.bans.Keys == b.bans.Keys && a.topicTime == b.topicTime
  {
    var a, b := MergeAll(k, st, xs), MergeAll(k, st, ys);
    forall c ensures c in a.modes <==> c in b.modes {
      MergedModes(k, st, xs, c);
      MergedModes(k, st, ys, c);
    }
    forall mask ensures mask in a.bans.Keys <==> mask in b.bans.Keys {
      MergedBans(k, st, xs, mask);
      MergedBans(k, st, ys, mask);
    }
    MergedTopic(k, st, xs);
    MergedTopic(k, st, ys);
  }

  /** All events of the latest time, if that is later than the initial one, carry one topic. */
  ghost predicate LatestAgree(k: Codec, st: Merged, evs: seq<MergeEvent>) {
    forall a, b :: a in evs && b in evs && Latest(k, st, evs, a) && Latest(k, st, evs, b)
      ==> a.topic == b.topic && a.topicBy == b.topicBy
  }

  ghost predicate Latest(k: Codec, st: Merged, evs: seq<MergeEvent>, ev: MergeEvent) {
    && Later(k, st, ev)
    && forall other :: other in evs && TopicTime(k, other).Some?
                       ==> TopicTime(k, other).value <= TopicTime(k, ev).value
  }

  ghost predicate SameTopic(k: Codec, st: Merged, xs: seq<MergeEvent>, ys: seq<MergeEvent>) {
    var a, b := MergeAll(k, st, xs), MergeAll(k, st, ys);
    a.topic == b.topic && a.topicWho == b.topicWho
  }

  /** The first event of the latest time wins, whatever follows. */
  lemma {:induction false} FirstLatestWins(k: Codec, st: Merged, ev: MergeEvent, evs: seq<MergeEvent>)
    requires Latest(k, st, [ev] + evs, ev)
    ensures var m := MergeAll(k, st, [ev] + evs);
      m.topic == ev.topic && m.topicWho == ev.topicBy && m.topicTime == TopicTime(k, ev).value
    decreases |evs|
  {
    var all := [ev] + evs;
    if evs == [] {
      assert all[..0] == [] && MergeAll(k, st, []) == st;
    } else {
      var p := evs[..|evs| - 1];
      assert all[..|all| - 1] == [ev] + p;
      assert forall x :: x in [ev] + p ==> x in all;
      FirstLatestWins(k, st, ev, p);
      assert all[|all| - 1] in all;
    }
  }

  /** The topic converges, for every order and repetition of the events, exactly when the latest
      events carry one topic. */
  lemma TopicConvergesIff(k: Codec, st: Merged, evs: seq<MergeEvent>)
    ensures LatestAgree(k, st, evs)
       <==> forall xs, ys :: SameEvents(xs, evs) && SameEvents(ys, evs) ==> SameTopic(k, st, xs, ys)
  {
    if LatestAgree(k, st, evs) {
      forall xs, ys | SameEvents(xs, evs) && SameEvents(ys, evs) ensures SameTopic(k, st, xs, ys) {
        MergedTopic(k, st, xs);
        MergedTopic(k, st, ys);
        MergeConverges(k, st, xs, ys);
      }
    } else {
      var a, b :| a in evs && b in evs && Latest(k, st, evs, a) && Latest(k, st, evs, b)
        && !(a.topic == b.topic && a.topicBy == b.topicBy);
      OrderMatters(k, st, evs, a, b);
    }
  }

  lemma OrderMatters(k: Codec, st: Merged, evs: seq<MergeEvent>, a: MergeEvent, b: MergeEvent)
    requires a in evs && b in evs && Latest(k, st, evs, a) && Latest(k, st, evs, b)
    requires a.topic != b.topic || a.topicBy != b.topicBy
    ensures SameEvents([a] + evs, evs) && SameEvents([b] + evs, evs) && !SameTopic(k, st, [a] + evs, [b] + evs)
  {
    FirstLatestWins(k, st, a, evs);
    FirstLatestWins(k, st, b, evs);
  }
}
