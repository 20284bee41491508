/** Messages (main.go, ircv3.go): what a send to several targets stores, and when the ids in a history are
    unique.  The open channels and the clock are parameters. */
module Messaging {
  import opened Text
  import opened History
  import opened Nicks
  import Decimal
  import Paging

  const MAX_TARGETS := 4
  const MAX_CHANNEL := 50

  predicate IsValidChannel(name: string) {
    && 2 <= |name| <= MAX_CHANNEL && name[0] == '#'
    && forall i :: 0 <= i < |name| ==> name[i] != ' ' && name[i] != ',' && name[i] as int != 7
  }

  // ----- Message ids -----

  function MsgID(server: string, n: nat): string { server + "/" + Decimal.Print(n) }

  /** The number in an id, or 0. */
  function Number(server: string, id: string): nat {
    if |id| <= |server| then 0 else Decimal.Parse(id[|server| + 1..])
  }

  lemma NumberOfID(server: string, n: nat)
    ensures Number(server, MsgID(server, n)) == n
  {
    var id := MsgID(server, n);
    assert id[|server| + 1..] == Decimal.Print(n);
    Decimal.ParsePrint(n);
  }

  lemma IDExample()
    ensures MsgID("irc.example.com", 7) == "irc.example.com/7"
  {
    assert Decimal.Print(7) == "7";
  }

  class MessageIDGenerator {
    const serverName: string
    var last: nat

    constructor (serverName: string)
      ensures this.serverName == serverName && last == 0
    {
      this.serverName := serverName;
      last := 0;
    }

    method Next() returns (id: string)
      modifies this
      ensures last == old(last) + 1 && id == MsgID(serverName, last)
    {
      last := last + 1;
      id := serverName + "/" + Decimal.Print(last);
    }
  }

  // ----- Which ids a log repeats -----

  /** No two entries of one key have one id. */
  ghost predicate UniqueIn(log: seq<Entry>) {
    forall i, j :: 0 <= i < j < |log| && log[i].key == log[j].key ==> log[i].msg.msgID != log[j].msg.msgID
  }

  ghost predicate HasID(ms: seq<Message>, id: string) {
    exists i :: 0 <= i < |ms| && ms[i].msgID == id
  }

  ghost predicate Logged(log: seq<Entry>, key: string, id: string) {
    exists i :: 0 <= i < |log| && log[i].key == key && log[i].msg.msgID == id
  }

  lemma HasIDSnoc(ms: seq<Message>, m: Message, id: string)
    ensures HasID(ms + [m], id) <==> HasID(ms, id) || m.msgID == id
  {
    if HasID(ms, id) {
      var i :| 0 <= i < |ms| && ms[i].msgID == id;
      assert (ms + [m])[i] == ms[i];
    }
    assert (ms + [m])[|ms|] == m;
  }

  lemma LoggedSnoc(log: seq<Entry>, e: Entry, key: string, id: string)
    ensures Logged(log + [e], key, id) <==> Logged(log, key, id) || (e.key == key && e.msg.msgID == id)
  {
    if Logged(log, key, id) {
      var i :| 0 <= i < |log| && log[i].key == key && log[i].msg.msgID == id;
      assert (log + [e])[i] == log[i];
    }
    assert (log + [e])[|log|] == e;
  }

  lemma {:induction false} LoggedIsHas(log: seq<Entry>, key: string, id: string)
    ensures Logged(log, key, id) <==> HasID(Under(log, key), id)
  {
    if log != [] {
      var init, e := log[..|log| - 1], log[|log| - 1];
      assert log == init + [e];
      LoggedIsHas(init, key, id);
      LoggedSnoc(init, e, key, id);
      HasIDSnoc(Under(init, key), e.msg, id);
    }
  }

  lemma DistinctSnoc(ms: seq<Message>, m: Message)
    ensures Paging.DistinctIDs(ms + [m]) <==> Paging.DistinctIDs(ms) && !HasID(ms, m.msgID)
  {
    var all := ms + [m];
    if Paging.DistinctIDs(all) {
      forall i, j | 0 <= i < j < |ms| ensures ms[i].msgID != ms[j].msgID { assert all[i].msgID != all[j].msgID; }
      forall i | 0 <= i < |ms| ensures ms[i].msgID != m.msgID { assert all[i].msgID != all[|ms|].msgID; }
    }
  }

  lemma UniqueSnoc(log: seq<Entry>, e: Entry)
    ensures UniqueIn(log + [e]) <==> UniqueIn(log) && !Logged(log, e.key, e.msg.msgID)
  {
    var all := log + [e];
    if UniqueIn(all) {
      forall i, j | 0 <= i < j < |log| && log[i].key == log[j].key ensures log[i].msg.msgID != log[j].msg.msgID {
        assert all[i] == log[i] && all[j] == log[j];
      }
      forall i | 0 <= i < |log| && log[i].key == e.key ensures log[i].msg.msgID != e.msg.msgID {
        assert all[i] == log[i] && all[|log|] == e;
      }
    }
  }

  /** In a log of which no two entries have both key and id in common, all histories have distinct ids, and
      only in such a log. */
  lemma {:induction false} UniqueIff(log: seq<Entry>)
    ensures UniqueIn(log) <==> forall key :: Paging.DistinctIDs(Under(log, key))
  {
    if log != [] {
      var init, e := log[..|log| - 1], log[|log| - 1];
      assert log == init + [e];
      UniqueIff(init);
      UniqueSnoc(init, e);
      LoggedIsHas(init, e.key, e.msg.msgID);
      DistinctSnoc(Under(init, e.key), e.msg);
      forall key ensures Paging.DistinctIDs(Under(log, key))
        <==> Paging.DistinctIDs(Under(init, key)) && (key == e.key ==> !Logged(init, key, e.msg.msgID)) {}
      if UniqueIn(log) {
        forall key ensures Paging.DistinctIDs(Under(log, key)) { assert Paging.DistinctIDs(Under(init, key)); }
      } else if UniqueIn(init) {
        assert !Paging.DistinctIDs(Under(log, e.key));
      } else {
        var key :| !Paging.DistinctIDs(Under(init, key));
        assert !Paging.DistinctIDs(Under(log, key));
      }
    } else {
      assert forall key :: Under(log, key) == [];
    }
  }

  lemma DistinctLast(ms: seq<Message>, n: nat)
    requires Paging.DistinctIDs(ms)
    ensures Paging.DistinctIDs(Last(ms, n))
  {
    var kept := Last(ms, n);
    forall i, j | 0 <= i < j < |kept| ensures kept[i].msgID != kept[j].msgID {
      assert kept[i] == ms[|ms| - |kept| + i] && kept[j] == ms[|ms| - |kept| + j];
    }
  }

  /** The history of a key has distinct ids whenever the log repeats none under a key. */
  lemma UniqueHistory(log: seq<Entry>, key: string, capacity: nat)
    requires UniqueIn(log)
    ensures Paging.DistinctIDs(Last(Under(log, key), capacity))
  {
    UniqueIff(log);
    assert Paging.DistinctIDs(Under(log, key));
    DistinctLast(Under(log, key), capacity);
  }

  // ----- The history of all of a nick's messages -----

  lemma DistinctCons(m: Message, ms: seq<Message>)
    ensures Paging.DistinctIDs([m] + ms) <==> Paging.DistinctIDs(ms) && !HasID(ms, m.msgID)
  {
    var all := [m] + ms;
    if Paging.DistinctIDs(all) {
      forall i, j | 0 <= i < j < |ms| ensures ms[i].msgID != ms[j].msgID {
        assert all[i + 1].msgID != all[j + 1].msgID;
      }
      forall i | 0 <= i < |ms| ensures ms[i].msgID != m.msgID { assert all[0].msgID != all[i + 1].msgID; }
    }
  }

  ghost predicate IDsWithin(a: seq<Message>, b: seq<Message>) {
    forall i :: 0 <= i < |a| ==> HasID(b, a[i].msgID)
  }

  lemma HasIDCons(m: Message, ms: seq<Message>, id: string)
    requires id == m.msgID || HasID(ms, id)
    ensures HasID([m] + ms, id)
  {
    var all := [m] + ms;
    if HasID(ms, id) {
      var i :| 0 <= i < |ms| && ms[i].msgID == id;
      assert all[i + 1].msgID == id;
    } else {
      assert all[0].msgID == id;
    }
  }

  lemma WithinCons(m: Message, kept: seq<Message>, all: seq<Message>)
    requires IDsWithin(kept, all)
    ensures IDsWithin(kept, [m] + all) && IDsWithin([m] + kept, [m] + all)
    ensures Paging.DistinctIDs(kept) && Paging.DistinctIDs([m] + all) ==> Paging.DistinctIDs([m] + kept)
  {
    forall i | 0 <= i < |kept| ensures HasID([m] + all, kept[i].msgID) { HasIDCons(m, all, kept[i].msgID); }
    HasIDCons(m, all, m.msgID);
    DistinctCons(m, all);
    DistinctCons(m, kept);
    if HasID(kept, m.msgID) {
      var i :| 0 <= i < |kept| && kept[i].msgID == m.msgID;
      assert HasID(all, m.msgID);
    }
  }

  lemma {:induction false} RetainedDistinct(fold: string -> string, dms: seq<Dm>, nick: string, capacity: nat)
    requires Paging.DistinctIDs(Involving(fold, dms, nick))
    ensures Paging.DistinctIDs(Retained(fold, dms, nick, capacity))
    ensures IDsWithin(Retained(fold, dms, nick, capacity), Involving(fold, dms, nick))
  {
    if dms != [] {
      var m, all, kept := dms[0].msg, Involving(fold, dms[1..], nick), Retained(fold, dms[1..], nick, capacity);
      assert [] + kept == kept && [] + all == all;
      if Concerns(fold, dms[0], nick) { DistinctCons(m, all); }
      assert Paging.DistinctIDs(all);
      RetainedDistinct(fold, dms[1..], nick, capacity);
      WithinCons(m, kept, all);
    }
  }

  lemma RemoveOne(a: seq<Message>, p: nat, m: Message, rest: seq<Message>)
    requires p < |a| && a[p] == m && multiset(a) == multiset([m] + rest)
    ensures multiset(a[..p] + a[p + 1..]) == multiset(rest)
  {
    var before, after := a[..p], a[p + 1..];
    assert a == before + [m] + after;
    assert multiset(a) == multiset(before) + multiset{m} + multiset(after);
    assert multiset([m] + rest) == multiset{m} + multiset(rest);
    assert multiset(before + after) == multiset(a) - multiset{m} == multiset(rest);
  }

  lemma {:induction false} DistinctPermuted(a: seq<Message>, b: seq<Message>)
    requires multiset(a) == multiset(b) && Paging.DistinctIDs(a)
    ensures Paging.DistinctIDs(b)
  {
    if b != [] {
      var m, rest := b[0], b[1..];
      assert b == [m] + rest;
      assert m in multiset(b);
      var p :| 0 <= p < |a| && a[p] == m;
      RemoveOne(a, p, m, rest);
      Without(a, p, a[..p] + a[p + 1..]);
      DistinctPermuted(a[..p] + a[p + 1..], rest);
      forall x | x in rest ensures x.msgID != m.msgID {
        assert x in multiset(rest);
        assert x in a[..p] + a[p + 1..];
      }
      DistinctCons(m, rest);
    }
  }

  lemma Without(a: seq<Message>, p: nat, others: seq<Message>)
    requires Paging.DistinctIDs(a) && p < |a| && others == a[..p] + a[p + 1..]
    ensures Paging.DistinctIDs(others)
    ensures forall i :: 0 <= i < |others| ==> others[i].msgID != a[p].msgID
  {
    forall i | 0 <= i < |others| ensures others[i] == if i < p then a[i] else a[i + 1] {}
  }

  lemma {:induction false} InvolvingConcat(fold: string -> string, a: seq<Dm>, b: seq<Dm>, nick: string)
    ensures Involving(fold, a + b, nick) == Involving(fold, a, nick) + Involving(fold, b, nick)
  {
    if a == [] {
      assert a + b == b;
    } else {
      var first := if Concerns(fold, a[0], nick) then [a[0].msg] else [];
      assert (a + b)[1..] == a[1..] + b && (a + b)[0] == a[0];
      InvolvingConcat(fold, a[1..], b, nick);
      assert Involving(fold, a + b, nick) == first + Involving(fold, a[1..] + b, nick);
      assert Involving(fold, a, nick) == first + Involving(fold, a[1..], nick);
    }
  }

  predicate Carry(copies: seq<Message>, id: string) {
    forall i :: 0 <= i < |copies| ==> copies[i].msgID == id
  }

  predicate NoneHas(dms: seq<Dm>, id: string) {
    forall i :: 0 <= i < |dms| ==> dms[i].msg.msgID != id
  }

  predicate AllHave(dms: seq<Dm>, id: string) {
    forall i :: 0 <= i < |dms| ==> dms[i].msg.msgID == id
  }

  predicate Lack(ms: seq<Message>, id: string) {
    forall i :: 0 <= i < |ms| ==> ms[i].msgID != id
  }

  lemma {:induction false} NoneInvolving(fold: string -> string, dms: seq<Dm>, nick: string, id: string)
    requires NoneHas(dms, id)
    ensures Lack(Involving(fold, dms, nick), id)
  {
    if dms != [] {
      assert dms[0].msg.msgID != id;
      NoneInvolving(fold, dms[1..], nick, id);
    }
  }

  lemma {:induction false} AllInvolving(fold: string -> string, dms: seq<Dm>, nick: string, id: string)
    requires AllHave(dms, id)
    ensures Carry(Involving(fold, dms, nick), id)
  {
    if dms != [] {
      assert dms[0].msg.msgID == id;
      AllInvolving(fold, dms[1..], nick, id);
    }
  }

  /** After a send under a new id, the ids of all messages a nick sent or received are still distinct if and
      only if at most one copy concerns the nick. */
  lemma AllUniqueIff(fold: string -> string, dms: seq<Dm>, sent: seq<Dm>, nick: string, id: string)
    requires Paging.DistinctIDs(Involving(fold, dms, nick)) && NoneHas(dms, id) && AllHave(sent, id)
    ensures Paging.DistinctIDs(Involving(fold, dms + sent, nick)) <==> |Involving(fold, sent, nick)| <= 1
  {
    InvolvingConcat(fold, dms, sent, nick);
    NoneInvolving(fold, dms, nick, id);
    AllInvolving(fold, sent, nick, id);
    var before, more := Involving(fold, dms, nick), Involving(fold, sent, nick);
    var all := before + more;
    if |more| > 1 { assert all[|before|].msgID == all[|before| + 1].msgID; }
  }

  // ----- What one send stores -----

  /** The entries of a send; target `i` is stored under `keys[i]`, if at all. */
  function Stored(keys: seq<Option<string>>, copies: seq<Message>): (r: seq<Entry>)
    requires |keys| == |copies|
    ensures |r| <= |keys|
  {
    if keys == [] then []
    else
      var n := |keys| - 1;
      var init := Stored(keys[..n], copies[..n]);
      if keys[n] == None then init else init + [Entry(keys[n].value, copies[n])]
  }

  predicate Repeated(keys: seq<Option<string>>, i: nat, j: nat) {
    i < j < |keys| && keys[i] == keys[j] != None
  }

  /** Some key occurs twice. */
  ghost predicate Repeating(keys: seq<Option<string>>) {
    exists i: nat, j: nat :: Repeated(keys, i, j)
  }

  lemma {:induction false} StoredHave(keys: seq<Option<string>>, copies: seq<Message>, id: string)
    requires |keys| == |copies| && Carry(copies, id)
    ensures forall i :: 0 <= i < |Stored(keys, copies)| ==> Stored(keys, copies)[i].msg.msgID == id
  {
    if keys != [] { StoredHave(keys[..|keys| - 1], copies[..|keys| - 1], id); }
  }

  lemma RepeatingSnoc(keys: seq<Option<string>>, k: Option<string>)
    ensures Repeating(keys + [k]) <==> Repeating(keys) || (k != None && k in keys)
  {
    var all := keys + [k];
    if Repeating(keys) {
      var i: nat, j: nat :| Repeated(keys, i, j);
      assert Repeated(all, i, j);
    }
    if k != None && k in keys {
      var i: nat :| i < |keys| && keys[i] == k;
      assert Repeated(all, i, |keys|);
    }
    if Repeating(all) {
      var i: nat, j: nat :| Repeated(all, i, j);
      assert j < |keys| ==> Repeated(keys, i, j);
    }
  }

  /** Stored under a new id, a send keeps the ids of every history unique if and only if no two of its targets
      are stored under one key. */
  lemma {:induction false} SendUniqueIff(log: seq<Entry>, keys: seq<Option<string>>, copies: seq<Message>, id: string)
    requires UniqueIn(log) && (forall key :: !Logged(log, key, id))
    requires |keys| == |copies| && Carry(copies, id)
    ensures UniqueIn(log + Stored(keys, copies)) <==> !Repeating(keys)
    ensures forall key :: Logged(log + Stored(keys, copies), key, id) <==> Some(key) in keys
  {
    if keys == [] {
      assert log + [] == log;
    } else {
      var n := |keys| - 1;
      var before := log + Stored(keys[..n], copies[..n]);
      assert keys == keys[..n] + [keys[n]];
      SendUniqueIff(log, keys[..n], copies[..n], id);
      RepeatingSnoc(keys[..n], keys[n]);
      if keys[n] != None {
        var e := Entry(keys[n].value, copies[n]);
        assert log + Stored(keys, copies) == before + [e];
        UniqueSnoc(before, e);
        forall key ensures Logged(log + Stored(keys, copies), key, id) <==> Some(key) in keys {
          LoggedSnoc(before, e, key, id);
        }
      }
    }
  }

  // ----- Where the targets of a send are -----

  datatype Place = Nowhere | InChannel(key: string) | ToNick(key: string)

  function PlaceOf(fold: string -> string, open: set<string>, known: set<string>, target: string): Place {
    if IsValidChannel(target) then
      if fold(target) in open then InChannel(fold(target)) else Nowhere
    else if fold(target) in known then ToNick(fold(target))
    else Nowhere
  }

  function Places(fold: string -> string, open: set<string>, known: set<string>, targets: seq<string>): (r: seq<Place>)
    ensures |r| == |targets| && forall i :: 0 <= i < |targets| ==> r[i] == PlaceOf(fold, open, known, targets[i])
  {
    seq(|targets|, i requires 0 <= i < |targets| => PlaceOf(fold, open, known, targets[i]))
  }

  /** Two targets are one channel or one client. */
  ghost predicate ReachesTwice(places: seq<Place>) {
    exists i: nat, j: nat :: i < j < |places| && places[i] == places[j] != Nowhere
  }

  function ChannelKey(p: Place): Option<string> {
    if p.InChannel? then Some(p.key) else None
  }

  function ChannelKeys(places: seq<Place>): (r: seq<Option<string>>)
    ensures |r| == |places| && forall i :: 0 <= i < |places| ==> r[i] == ChannelKey(places[i])
  {
    seq(|places|, i requires 0 <= i < |places| => ChannelKey(places[i]))
  }

  function Recipient(nicks: map<string, string>, p: Place): Option<string> {
    if p.ToNick? && p.key in nicks then Some(nicks[p.key]) else None
  }

  function Recipients(nicks: map<string, string>, places: seq<Place>): (r: seq<Option<string>>)
    ensures |r| == |places| && forall i :: 0 <= i < |places| ==> r[i] == Recipient(nicks, places[i])
  {
    seq(|places|, i requires 0 <= i < |places| => Recipient(nicks, places[i]))
  }

  /** The direct messages of a send. */
  function Sent(sender: string, recipients: seq<Option<string>>, copies: seq<Message>): seq<Dm>
    requires |recipients| == |copies|
  {
    if recipients == [] then []
    else
      var n := |recipients| - 1;
      var init := Sent(sender, recipients[..n], copies[..n]);
      if recipients[n] == None then init else init + [Dm(sender, recipients[n].value, copies[n])]
  }

  function KeyWith(fold: string -> string, sender: string, recipient: Option<string>): Option<string> {
    if recipient == None then None else Some(DmKey(fold, sender, recipient.value))
  }

  function PairKeys(fold: string -> string, sender: string, recipients: seq<Option<string>>): (r: seq<Option<string>>)
    ensures |r| == |recipients| && forall i :: 0 <= i < |r| ==> r[i] == KeyWith(fold, sender, recipients[i])
  {
    seq(|recipients|, i requires 0 <= i < |recipients| => KeyWith(fold, sender, recipients[i]))
  }

  lemma StoredStep(log: seq<Entry>, keys: seq<Option<string>>, copies: seq<Message>, i: nat)
    requires i < |keys| == |copies|
    ensures log + Stored(keys[..i + 1], copies[..i + 1])
         == log + Stored(keys[..i], copies[..i]) + if keys[i] == None then [] else [Entry(keys[i].value, copies[i])]
  {
    assert keys[..i + 1][..i] == keys[..i] && copies[..i + 1][..i] == copies[..i];
  }

  lemma SentStep(dms: seq<Dm>, sender: string, recipients: seq<Option<string>>, copies: seq<Message>, i: nat)
    requires i < |recipients| == |copies|
    ensures dms + Sent(sender, recipients[..i + 1], copies[..i + 1])
         == dms + Sent(sender, recipients[..i], copies[..i])
            + if recipients[i] == None then [] else [Dm(sender, recipients[i].value, copies[i])]
  {
    assert recipients[..i + 1][..i] == recipients[..i] && copies[..i + 1][..i] == copies[..i];
  }

  lemma {:induction false} KeyedSent(fold: string -> string, sender: string, recipients: seq<Option<string>>,
                                    copies: seq<Message>)
    requires |recipients| == |copies|
    ensures Keyed(fold, Sent(sender, recipients, copies)) == Stored(PairKeys(fold, sender, recipients), copies)
  {
    if recipients != [] {
      var n := |recipients| - 1;
      KeyedSent(fold, sender, recipients[..n], copies[..n]);
      assert PairKeys(fold, sender, recipients)[..n] == PairKeys(fold, sender, recipients[..n]);
    }
  }

  ghost predicate ValidLog(dms: seq<Dm>) {
    forall i :: 0 <= i < |dms| ==> IsValidNick(dms[i].sender) && IsValidNick(dms[i].recipient)
  }

  lemma ValidLogNoColons(other: char -> char, dms: seq<Dm>)
    requires ValidLog(dms)
    ensures NoColons(Folding(other), dms)
  {
    forall i | 0 <= i < |dms|
      ensures ':' !in Folding(other)(dms[i].sender) && ':' !in Folding(other)(dms[i].recipient)
    {
      ValidNoColon(other, dms[i].sender);
      ValidNoColon(other, dms[i].recipient);
    }
  }

  /** The nicks a registry knows, under their foldings. */
  ghost predicate NicksFolded(fold: string -> string, nicks: map<string, string>) {
    forall k :: k in nicks ==> fold(nicks[k]) == k && ':' !in k
  }

  lemma SameKeyIff(fold: string -> string, nicks: map<string, string>, sender: string, p: Place, q: Place)
    requires NicksFolded(fold, nicks) && ':' !in fold(sender)
    requires (p.ToNick? ==> p.key in nicks) && (q.ToNick? ==> q.key in nicks)
    ensures var pk, qk := KeyWith(fold, sender, Recipient(nicks, p)), KeyWith(fold, sender, Recipient(nicks, q));
      p == q != Nowhere <==> ChannelKey(p) == ChannelKey(q) != None || pk == qk != None
  {
    if p.ToNick? && q.ToNick? {
      DmKeyInjective(fold, sender, nicks[p.key], sender, nicks[q.key]);
    }
  }

  lemma ReachesTwiceIff(fold: string -> string, nicks: map<string, string>, sender: string, places: seq<Place>)
    requires NicksFolded(fold, nicks) && ':' !in fold(sender)
    requires forall p :: p in places && p.ToNick? ==> p.key in nicks
    ensures ReachesTwice(places)
       <==> Repeating(ChannelKeys(places)) || Repeating(PairKeys(fold, sender, Recipients(nicks, places)))
  {
    var cs, ds := ChannelKeys(places), PairKeys(fold, sender, Recipients(nicks, places));
    forall i: nat, j: nat | i < j < |places|
      ensures places[i] == places[j] != Nowhere <==> Repeated(cs, i, j) || Repeated(ds, i, j)
    {
      SameKeyIff(fold, nicks, sender, places[i], places[j]);
    }
    if Repeating(cs) {
      var i: nat, j: nat :| Repeated(cs, i, j);
      assert places[i] == places[j] != Nowhere;
    }
    if Repeating(ds) {
      var i: nat, j: nat :| Repeated(ds, i, j);
      assert places[i] == places[j] != Nowhere;
    }
    if ReachesTwice(places) {
      var i: nat, j: nat :| i < j < |places| && places[i] == places[j] != Nowhere;
      assert Repeated(cs, i, j) || Repeated(ds, i, j);
    }
  }

  // ----- The server -----

  /** What a client's messages carry about it. */
  datatype Author = Author(prefix: string, account: string, did: string)

  datatype SendReply = NotRegistered | NoRecipient | NoTextToSend | TooManyTargets | Silent | Handled

  function SendVerdict(registered: bool, params: seq<string>, isNotice: bool): SendReply {
    if !registered then NotRegistered
    else if |params| < 2 then if isNotice then Silent else if |params| == 0 then NoRecipient else NoTextToSend
    else if |Split(params[0], ',')| > MAX_TARGETS then TooManyTargets
    else Handled
  }

  function Draft(id: string, author: Author, params: seq<string>, isNotice: bool): Message
    requires params != []
  {
    Message(id, 0, author.prefix, author.account, author.did, if isNotice then "NOTICE" else "PRIVMSG", "",
            params[|params| - 1], isNotice)
  }

  /** The message as it is stored for each target; `clock` is read once a target. */
  function Copies(draft: Message, targets: seq<string>, clock: nat -> int): (r: seq<Message>)
    ensures |r| == |targets|
    ensures forall i :: 0 <= i < |r| ==> r[i] == draft.(target := targets[i], time := clock(i))
  {
    seq(|targets|, i requires 0 <= i < |targets| => draft.(target := targets[i], time := clock(i)))
  }

  // ----- What a send stores, field by field -----

  lemma {:induction false} CommasSplit(s: string)
    ensures |Split(s, ',')| == multiset(s)[','] + 1
    decreases |s|
  {
    var i := Find(s, ',');
    if i < |s| {
      Rejoin(s, i);
      CommasSplit(s[i + 1..]);
    }
  }

  /** What a send is answered: at most three commas part its targets, and NOTICE is not told of missing parameters. */
  lemma SendVerdictMeans(registered: bool, params: seq<string>, isNotice: bool)
    ensures var r := SendVerdict(registered, params, isNotice);
      && (r == NotRegistered <==> !registered)
      && (r == NoRecipient <==> registered && |params| == 0 && !isNotice)
      && (r == NoTextToSend <==> registered && |params| == 1 && !isNotice)
      && (r == Silent <==> registered && |params| <= 1 && isNotice)
      && (r == TooManyTargets <==> registered && |params| >= 2 && multiset(params[0])[','] > 3)
      && (r == Handled <==> registered && |params| >= 2 && multiset(params[0])[','] <= 3)
  {
    if params != [] { CommasSplit(params[0]); }
  }

  /** A message as it is stored for target `i`. */
  ghost predicate IsCopy(m: Message, id: string, author: Author, params: seq<string>, isNotice: bool, target: string, time: int)
    requires params != []
  {
    && m.msgID == id && m.prefix == author.prefix && m.account == author.account && m.did == author.did
    && m.command == (if isNotice then "NOTICE" else "PRIVMSG") && m.isNotice == isNotice
    && m.text == params[|params| - 1] && m.target == target && m.time == time
  }

  lemma CopyMeans(id: string, author: Author, params: seq<string>, isNotice: bool, targets: seq<string>,
                  clock: nat -> int, i: nat)
    requires params != [] && i < |targets|
    ensures IsCopy(Copies(Draft(id, author, params, isNotice), targets, clock)[i], id, author, params, isNotice, targets[i], clock(i))
  {}

  /** The positions of the targets that are stored, in order. */
  predicate Picks(at: seq<nat>, keys: seq<Option<string>>) {
    && (forall a, b :: 0 <= a < b < |at| ==> at[a] < at[b])
    && (forall a :: 0 <= a < |at| ==> at[a] < |keys| && keys[at[a]].Some?)
    && forall i: nat :: i < |keys| && keys[i].Some? ==> i in at
  }

  lemma PicksSnoc(at: seq<nat>, keys: seq<Option<string>>, n: nat)
    requires |keys| == n + 1 && Picks(at, keys[..n])
    ensures Picks(if keys[n].Some? then at + [n] else at, keys)
  {
    var more := if keys[n].Some? then at + [n] else at;
    assert forall a :: 0 <= a < |at| ==> at[a] < n && more[a] == at[a];
    forall i: nat | i < |keys| && keys[i].Some? ensures i in more {
      if i < n {
        assert keys[..n][i] == keys[i];
      } else {
        assert more[|at|] == n;
      }
    }
  }

  /** One entry for each of the positions, under its key. */
  predicate EntriesAt(r: seq<Entry>, keys: seq<Option<string>>, copies: seq<Message>, at: seq<nat>) {
    && |keys| == |copies| && Picks(at, keys) && |r| == |at|
    && forall a :: 0 <= a < |at| ==> r[a].key == keys[at[a]].value && r[a].msg == copies[at[a]]
  }

  lemma EntriesSnoc(r: seq<Entry>, keys: seq<Option<string>>, copies: seq<Message>, at: seq<nat>, n: nat)
    requires |keys| == |copies| == n + 1 && EntriesAt(r, keys[..n], copies[..n], at)
    ensures keys[n] == None ==> EntriesAt(r, keys, copies, at)
    ensures keys[n].Some? ==> EntriesAt(r + [Entry(keys[n].value, copies[n])], keys, copies, at + [n])
  {
    PicksSnoc(at, keys, n);
    forall a | 0 <= a < |at| ensures at[a] < n && r[a].key == keys[at[a]].value && r[a].msg == copies[at[a]] {
      assert keys[..n][at[a]] == keys[at[a]] && copies[..n][at[a]] == copies[at[a]];
    }
    if keys[n].Some? { LastEntry(r, keys, copies, at, n); }
  }

  lemma LastEntry(r: seq<Entry>, keys: seq<Option<string>>, copies: seq<Message>, at: seq<nat>, n: nat)
    requires |keys| == |copies| == n + 1 && keys[n].Some? && |r| == |at|
    requires forall a :: 0 <= a < |at| ==> at[a] < n && keys[at[a]].Some?
    requires forall a :: 0 <= a < |at| ==> r[a].key == keys[at[a]].value && r[a].msg == copies[at[a]]
    requires Picks(at + [n], keys)
    ensures EntriesAt(r + [Entry(keys[n].value, copies[n])], keys, copies, at + [n])
  {
    var more, r' := at + [n], r + [Entry(keys[n].value, copies[n])];
    forall a | 0 <= a < |more| ensures r'[a].key == keys[more[a]].value && r'[a].msg == copies[more[a]] {
      if a < |at| { assert more[a] == at[a] && r'[a] == r[a]; }
    }
  }

  /** Stored is one entry for each target with a key, in order, under that key. */
  lemma {:induction false} StoredMeans(keys: seq<Option<string>>, copies: seq<Message>) returns (at: seq<nat>)
    requires |keys| == |copies|
    ensures EntriesAt(Stored(keys, copies), keys, copies, at)
  {
    if keys == [] {
      at := [];
    } else {
      var n := |keys| - 1;
      var most := StoredMeans(keys[..n], copies[..n]);
      EntriesSnoc(Stored(keys[..n], copies[..n]), keys, copies, most, n);
      at := if keys[n].Some? then most + [n] else most;
    }
  }

  lemma {:induction false} SentMeans(sender: string, recipients: seq<Option<string>>, copies: seq<Message>) returns (at: seq<nat>)
    requires |recipients| == |copies|
    ensures var r := Sent(sender, recipients, copies);
      && Picks(at, recipients) && |r| == |at|
      && forall a :: 0 <= a < |at| ==> r[a] == Dm(sender, recipients[at[a]].value, copies[at[a]])
  {
    if recipients == [] {
      at := [];
    } else {
      var n := |recipients| - 1;
      var most := SentMeans(sender, recipients[..n], copies[..n]);
      PicksSnoc(most, recipients, n);
      at := if recipients[n].Some? then most + [n] else most;
    }
  }

  /** The key of target `i` in either table: an open channel's folded name, or the nick of the client it names. */
  lemma PlaceMeans(fold: string -> string, open: set<string>, nicks: map<string, string>, targets: seq<string>, i: nat)
    requires i < |targets|
    ensures var places, t := Places(fold, open, nicks.Keys, targets), targets[i];
      && ChannelKeys(places)[i] == (if IsValidChannel(t) && fold(t) in open then Some(fold(t)) else None)
      && Recipients(nicks, places)[i] == (if !IsValidChannel(t) && fold(t) in nicks then Some(nicks[fold(t)]) else None)
  {}

  /** A channel's name is never a nick, so no target is both. */
  lemma ChannelNotNick(name: string)
    requires IsValidChannel(name)
    ensures !IsValidNick(name)
  {
    NickRange(name);
  }

  /** Channel names: a `#` and from 1 to 49 characters other than space, comma and bell. */
  lemma ChannelShape(rest: string, c: char)
    ensures IsValidChannel([c] + rest)
       <==> c == '#' && 1 <= |rest| <= 49 && ' ' !in rest && ',' !in rest && 7 as char !in rest
  {
    var name := [c] + rest;
    assert forall i :: 0 <= i < |rest| ==> name[i + 1] == rest[i];
  }

  ghost predicate Issued(log: seq<Entry>, server: string, last: nat) {
    forall i :: 0 <= i < |log| ==> Number(server, log[i].msg.msgID) <= last
  }

  lemma NotIssued(log: seq<Entry>, server: string, last: nat, id: string)
    requires Issued(log, server, last) && Number(server, id) > last
    ensures forall key :: !Logged(log, key, id)
  {
    forall key ensures !Logged(log, key, id) {
      forall i | 0 <= i < |log| ensures log[i].msg.msgID != id { assert Number(server, log[i].msg.msgID) <= last; }
    }
  }

  lemma DirectUniqueIff(fold: string -> string, dms: seq<Dm>, sender: string, recipients: seq<Option<string>>,
                        copies: seq<Message>, id: string)
    requires UniqueIn(Keyed(fold, dms)) && forall key :: !Logged(Keyed(fold, dms), key, id)
    requires |recipients| == |copies| && Carry(copies, id)
    ensures UniqueIn(Keyed(fold, dms + Sent(sender, recipients, copies)))
       <==> !Repeating(PairKeys(fold, sender, recipients))
  {
    var ds, sent := PairKeys(fold, sender, recipients), Sent(sender, recipients, copies);
    SendUniqueIff(Keyed(fold, dms), ds, copies, id);
    KeyedSent(fold, sender, recipients, copies);
    KeyedConcat(fold, dms, sent);
  }

  lemma KeyedConcat(fold: string -> string, a: seq<Dm>, b: seq<Dm>)
    ensures Keyed(fold, a + b) == Keyed(fold, a) + Keyed(fold, b)
  {}

  /** A send under a new id keeps ids unique in both tables if and only if it reaches nobody twice. */
  lemma AfterSend(fold: string -> string, nicks: map<string, string>, sender: string, places: seq<Place>,
                  copies: seq<Message>, id: string, log: seq<Entry>, dms: seq<Dm>)
    requires |places| == |copies| && Carry(copies, id)
    requires NicksFolded(fold, nicks) && ':' !in fold(sender)
    requires forall p :: p in places && p.ToNick? ==> p.key in nicks
    requires UniqueIn(log) && UniqueIn(Keyed(fold, dms))
    requires (forall key :: !Logged(log, key, id)) && (forall key :: !Logged(Keyed(fold, dms), key, id))
    ensures !ReachesTwice(places)
       <==> UniqueIn(log + Stored(ChannelKeys(places), copies))
            && UniqueIn(Keyed(fold, dms + Sent(sender, Recipients(nicks, places), copies)))
  {
    ReachesTwiceIff(fold, nicks, sender, places);
    SendUniqueIff(log, ChannelKeys(places), copies, id);
    DirectUniqueIff(fold, dms, sender, Recipients(nicks, places), copies, id);
  }

  class Server {
    const registry: Registry
    const history: ChatHistoryStore
    const ids: MessageIDGenerator

    function Fold(): string -> string { Folding(registry.other) }

    ghost predicate Valid()
      reads registry, registry.all, ids
      reads history, history.channels, history.dms, history.channels.Repr, history.dms.Repr
    {
      && registry.Valid() && history.Valid() && history.fold == Fold()
      && {registry, ids} !! history.dms.Repr + history.channels.Repr
      && (forall c :: c in registry.all ==> c !in history.dms.Repr + history.channels.Repr)
      && ValidLog(history.dmLog)
      && Issued(history.channels.log, ids.serverName, ids.last) && Issued(history.dms.log, ids.serverName, ids.last)
    }

    /** No two messages of one channel, or of one pair of nicks, have one id. */
    ghost predicate IdsUnique()
      reads history.channels, history.dms
    {
      UniqueIn(history.channels.log) && UniqueIn(history.dms.log)
    }

    constructor (other: char -> char, capacity: nat, name: string)
      requires capacity >= 1
      ensures Valid() && IdsUnique() && registry.all == {} && history.dmLog == [] && registry.other == other
      ensures history.dms.capacity == capacity && fresh(registry) && fresh(history) && fresh(ids)
      ensures fresh(history.dms.Repr) && fresh(history.channels.Repr)
    {
      registry := new Registry(other);
      history := new ChatHistoryStore(Folding(other), capacity);
      ids := new MessageIDGenerator(name);
    }

    method Connect() returns (c: Client)
      requires Valid()
      modifies registry`all
      ensures Valid() && fresh(c) && registry.all == old(registry.all) + {c}
    {
      c := registry.Connect();
    }

    method Nick(c: Client, param: Option<string>) returns (reply: NickReply)
      requires Valid() && c in registry.all
      modifies registry`clients, c`nick
      ensures Valid() && reply == registry.Verdict(old(registry.clients), c, param)
      ensures c.nick == if reply == Taken then registry.Requested(param) else old(c.nick)
      ensures registry.clients == if reply == Taken then registry.Moved(old(registry.clients), old(c.nick), c, c.nick)
                                  else old(registry.clients)
    {
      reply := registry.HandleNick(c, param);
    }

    method Register(c: Client, ready: bool)
      requires Valid() && c in registry.all
      modifies c`registered
      ensures Valid() && c.registered == (old(c.registered) || (ready && c.nick != ""))
    {
      registry.TryRegister(c, ready);
    }

    method Remove(c: Client)
      requires Valid() && c in registry.all
      modifies registry`clients, c`quit
      ensures Valid() && c.quit
    {
      registry.RemoveClient(c);
    }

    /** The nicks of the clients in the map. */
    function Nicks(): map<string, string>
      reads registry, registry.clients.Values
    {
      map k | k in registry.clients :: registry.clients[k].nick
    }

    function Place(open: set<string>, target: string): Place
      reads registry
    {
      PlaceOf(Fold(), open, registry.clients.Keys, target)
    }

    ghost predicate Counted(m: Message)
      reads ids
    {
      Number(ids.serverName, m.msgID) <= ids.last
    }

    method StoreForChannel(m: Message)
      requires Valid() && Counted(m)
      modifies history.channels.Repr
      ensures Valid() && fresh(history.channels.Repr - old(history.channels.Repr))
      ensures history.channels.log == old(history.channels.log) + [Entry(Fold()(m.target), m)]
      ensures history.dmLog == old(history.dmLog)
    {
      history.StoreChannelMessage(m);
    }

    /** What is stored for a client is between two valid nicks. */
    method StoreForClient(c: Client, tgt: Client, m: Message)
      requires Valid() && c in registry.all && tgt in registry.all && c.nick != "" && tgt.nick != "" && Counted(m)
      modifies history`dmLog, history.dms.Repr
      ensures Valid() && fresh(history.dms.Repr - old(history.dms.Repr))
      ensures history.channels.log == old(history.channels.log)
      ensures history.dmLog == old(history.dmLog) + [Dm(c.nick, tgt.nick, m)]
    {
      assert registry.ClientOk(c) && registry.ClientOk(tgt);
      history.StoreDMMessage(c.nick, tgt.nick, m);
    }

    /** One target of a message: stored for the channel, or between the nicks of two clients, or not at all. */
    method Deliver(c: Client, open: set<string>, m: Message)
      requires Valid() && c in registry.all && c.nick != "" && Counted(m)
      modifies history`dmLog, history.dms.Repr, history.channels.Repr
      ensures Valid()
      ensures fresh(history.dms.Repr - old(history.dms.Repr))
      ensures fresh(history.channels.Repr - old(history.channels.Repr))
      ensures var p := Place(open, m.target);
        && history.channels.log == old(history.channels.log) + (if p.InChannel? then [Entry(p.key, m)] else [])
        && history.dmLog == old(history.dmLog) + (if p.ToNick? then [Dm(c.nick, Nicks()[p.key], m)] else [])
      ensures Nicks() == old(Nicks())
    {
      var target := m.target;
      if IsValidChannel(target) {
        if Fold()(target) in open { StoreForChannel(m); }
      } else if Fold()(target) in registry.clients {
        StoreForClient(c, registry.clients[Fold()(target)], m);
      }
    }

    /** Copies with numbers issued, and the places of their targets. */
    ghost predicate Knows(places: seq<Place>, open: set<string>, copies: seq<Message>)
      reads registry, ids
    {
      && |places| == |copies|
      && forall i :: 0 <= i < |copies| ==> places[i] == Place(open, copies[i].target) && Counted(copies[i])
    }

    /** Target `i`, after those before it; `log` and `dms` are what was logged before the send. */
    method DeliverAt(c: Client, open: set<string>, copies: seq<Message>, i: nat,
                     ghost places: seq<Place>, ghost log: seq<Entry>, ghost dms: seq<Dm>)
      requires Valid() && c in registry.all && c.nick != "" && Knows(places, open, copies) && i < |copies|
      requires history.channels.log == log + Stored(ChannelKeys(places)[..i], copies[..i])
      requires history.dmLog == dms + Sent(c.nick, Recipients(Nicks(), places)[..i], copies[..i])
      modifies history`dmLog, history.dms.Repr, history.channels.Repr
      ensures Valid() && Nicks() == old(Nicks())
      ensures fresh(history.dms.Repr - old(history.dms.Repr))
      ensures fresh(history.channels.Repr - old(history.channels.Repr))
      ensures history.channels.log == log + Stored(ChannelKeys(places)[..i + 1], copies[..i + 1])
      ensures history.dmLog == dms + Sent(c.nick, Recipients(Nicks(), places)[..i + 1], copies[..i + 1])
    {
      StoredStep(log, ChannelKeys(places), copies, i);
      SentStep(dms, c.nick, Recipients(Nicks(), places), copies, i);
      assert places[i] == Place(open, copies[i].target) && Counted(copies[i]);
      assert ChannelKeys(places)[i] == ChannelKey(places[i]);
      assert Recipients(Nicks(), places)[i] == Recipient(Nicks(), places[i]);
      Deliver(c, open, copies[i]);
    }

    method DeliverAll(c: Client, open: set<string>, copies: seq<Message>, ghost places: seq<Place>)
      requires Valid() && c in registry.all && c.nick != "" && Knows(places, open, copies)
      modifies history`dmLog, history.dms.Repr, history.channels.Repr
      ensures Valid() && Nicks() == old(Nicks())
      ensures history.channels.log == old(history.channels.log) + Stored(ChannelKeys(places), copies)
      ensures history.dmLog == old(history.dmLog) + Sent(c.nick, Recipients(Nicks(), places), copies)
    {
      ghost var keys, recipients := ChannelKeys(places), Recipients(Nicks(), places);
      for i := 0 to |copies|
        invariant Valid() && Nicks() == old(Nicks())
        invariant fresh(history.dms.Repr - old(history.dms.Repr))
        invariant fresh(history.channels.Repr - old(history.channels.Repr))
        invariant history.channels.log == old(history.channels.log) + Stored(keys[..i], copies[..i])
        invariant history.dmLog == old(history.dmLog) + Sent(c.nick, recipients[..i], copies[..i])
      {
        DeliverAt(c, open, copies, i, places, old(history.channels.log), old(history.dmLog));
      }
      assert keys[..|copies|] == keys && recipients[..|copies|] == recipients && copies[..|copies|] == copies;
    }

    lemma DirectoryOk()
      requires Valid()
      ensures NicksFolded(Fold(), Nicks())
    {
      forall k | k in Nicks() ensures Fold()(Nicks()[k]) == k && ':' !in k {
        assert registry.ClientOk(registry.clients[k]);
        ValidNoColon(registry.other, Nicks()[k]);
      }
    }

    ghost predicate Unused(id: string)
      reads history.channels, history.dms
    {
      (forall key :: !Logged(history.channels.log, key, id)) && (forall key :: !Logged(history.dms.log, key, id))
    }

    /** Whether the ids will be unique after a send. */
    ghost predicate StaysUnique(c: Client, copies: seq<Message>, places: seq<Place>)
      requires |places| == |copies|
      reads this, registry, registry.clients.Values, history, history.channels, history.dms, c
    {
      && UniqueIn(history.channels.log + Stored(ChannelKeys(places), copies))
      && UniqueIn(Keyed(Fold(), history.dmLog + Sent(c.nick, Recipients(Nicks(), places), copies)))
    }

    lemma StaysUniqueIff(c: Client, open: set<string>, copies: seq<Message>, places: seq<Place>, id: string)
      requires Valid() && c in registry.all && c.nick != "" && Knows(places, open, copies)
      requires IdsUnique() && Unused(id) && Carry(copies, id)
      ensures StaysUnique(c, copies, places) <==> !ReachesTwice(places)
    {
      assert registry.ClientOk(c);
      DirectoryOk();
      ValidNoColon(registry.other, c.nick);
      AfterSend(Fold(), Nicks(), c.nick, places, copies, id, history.channels.log, history.dmLog);
    }

    /** The loop over the targets.  Ids stay unique if and only if no two of them are one channel or one client. */
    method Send(c: Client, open: set<string>, copies: seq<Message>, ghost places: seq<Place>, ghost id: string)
      requires Valid() && c in registry.all && c.nick != "" && Knows(places, open, copies)
      requires Unused(id) && Carry(copies, id)
      modifies history`dmLog, history.dms.Repr, history.channels.Repr
      ensures Valid() && Nicks() == old(Nicks())
      ensures history.channels.log == old(history.channels.log) + Stored(ChannelKeys(places), copies)
      ensures history.dmLog == old(history.dmLog) + Sent(c.nick, Recipients(Nicks(), places), copies)
      ensures old(IdsUnique()) ==> (IdsUnique() <==> !ReachesTwice(places))
    {
      if IdsUnique() { StaysUniqueIff(c, open, copies, places, id); }
      ghost var stays := StaysUnique(c, copies, places);
      DeliverAll(c, open, copies, places);
      assert IdsUnique() == stays;
    }

    /** The next id is in no log. */
    method NextID() returns (id: string)
      requires Valid()
      modifies ids
      ensures Valid() && Unused(id) && ids.last == old(ids.last) + 1 && id == MsgID(ids.serverName, ids.last)
      ensures Number(ids.serverName, id) == ids.last && Nicks() == old(Nicks())
    {
      id := ids.Next();
      NumberOfID(ids.serverName, ids.last);
      NotIssued(history.channels.log, ids.serverName, ids.last - 1, id);
      NotIssued(history.dms.log, ids.serverName, ids.last - 1, id);
    }

    /** PRIVMSG and NOTICE: one id for all targets. */
    method Privmsg(c: Client, author: Author, params: seq<string>, isNotice: bool, open: set<string>, clock: nat -> int)
      returns (reply: SendReply)
      requires Valid() && c in registry.all
      modifies ids, history`dmLog, history.dms.Repr, history.channels.Repr
      ensures Valid() && reply == SendVerdict(c.registered, params, isNotice) && Nicks() == old(Nicks())
      ensures ids.last == old(ids.last) + if reply == Handled then 1 else 0
      ensures reply != Handled ==>
        history.channels.log == old(history.channels.log) && history.dmLog == old(history.dmLog)
      ensures reply == Handled ==>
        var targets := Split(params[0], ',');
        var copies := Copies(Draft(MsgID(ids.serverName, ids.last), author, params, isNotice), targets, clock);
        var places := Places(Fold(), open, registry.clients.Keys, targets);
        && history.channels.log == old(history.channels.log) + Stored(ChannelKeys(places), copies)
        && history.dmLog == old(history.dmLog) + Sent(c.nick, Recipients(Nicks(), places), copies)
        && (old(IdsUnique()) ==> (IdsUnique() <==> !ReachesTwice(places)))
      ensures reply != Handled && old(IdsUnique()) ==> IdsUnique()
    {
      if !c.registered { return NotRegistered; }
      if |params| == 0 { return if isNotice then Silent else NoRecipient; }
      if |params| < 2 { return if isNotice then Silent else NoTextToSend; }
      var targets := Split(params[0], ',');
      if |targets| > MAX_TARGETS { return TooManyTargets; }
      assert registry.ClientOk(c);
      var msgID := NextID();
      var copies := Copies(Draft(msgID, author, params, isNotice), targets, clock);
      Send(c, open, copies, Places(Fold(), open, registry.clients.Keys, targets), msgID);
      return Handled;
    }

    /** CHATHISTORY of a channel: the last messages logged for it. */
    method ChannelHistory(channel: string) returns (messages: seq<Message>)
      requires Valid()
      ensures messages == Last(Under(history.channels.log, Fold()(channel)), history.channels.capacity)
      ensures IdsUnique() ==> Paging.DistinctIDs(messages)
    {
      messages := history.GetChannelHistory(channel);
      if IdsUnique() { UniqueHistory(history.channels.log, Fold()(channel), history.channels.capacity); }
    }

    /** CHATHISTORY with a nick, whatever the client writes for one: the last messages between the two. */
    method HistoryWith(c: Client, target: string) returns (messages: seq<Message>)
      requires Valid() && c in registry.all
      ensures messages == Last(Conversation(Fold(), history.dmLog, c.nick, target), history.dms.capacity)
      ensures IdsUnique() ==> Paging.DistinctIDs(messages)
    {
      messages := history.GetDMHistory(c.nick, target);
      ValidLogNoColons(registry.other, history.dmLog);
      if IdsUnique() { UniqueHistory(history.dms.log, DmKey(Fold(), c.nick, target), history.dms.capacity); }
    }

    /** CHATHISTORY with `*`: the messages sent or received, sorted by time. */
    method HistoryOfAll(c: Client) returns (messages: seq<Message>)
      requires Valid() && c in registry.all
      ensures Sorted(messages)
      ensures multiset(messages) == multiset(Retained(Fold(), history.dmLog, c.nick, history.dms.capacity))
      ensures Paging.DistinctIDs(Involving(Fold(), history.dmLog, c.nick)) ==> Paging.DistinctIDs(messages)
    {
      messages := history.GetAllDMsForUser(c.nick);
      ValidLogNoColons(registry.other, history.dmLog);
      ghost var kept := Retained(Fold(), history.dmLog, c.nick, history.dms.capacity);
      if Paging.DistinctIDs(Involving(Fold(), history.dmLog, c.nick)) {
        RetainedDistinct(Fold(), history.dmLog, c.nick, history.dms.capacity);
        DistinctPermuted(kept, messages);
      }
    }
  }
  // ----- Sends that repeat an id -----

  lemma SplitTwo(a: string, b: string)
    requires ',' !in a && ',' !in b
    ensures Split(a + [','] + b, ',') == [a, b]
  {
    assert a + [','] + b == a + ([','] + b);
    SplitCons(a, b, ',');
    FindUnique(b, ',', |b|);
  }

  lemma SentTwo(sender: string, a: string, b: string, copies: seq<Message>)
    requires |copies| == 2
    ensures Sent(sender, [Some(a), Some(b)], copies) == [Dm(sender, a, copies[0]), Dm(sender, b, copies[1])]
  {
    var rs := [Some(a), Some(b)];
    SentStep([], sender, rs, copies, 0);
    SentStep([], sender, rs, copies, 1);
    assert rs[..2] == rs && copies[..2] == copies && rs[..0] == [] && copies[..0] == [];
  }

  lemma TwoSent(fold: string -> string, nicks: map<string, string>, known: set<string>, sender: string,
                a: string, b: string, copies: seq<Message>)
    requires !IsValidChannel(a) && !IsValidChannel(b) && known == nicks.Keys && fold(a) in nicks && fold(b) in nicks
    requires |copies| == 2
    ensures Sent(sender, Recipients(nicks, Places(fold, {}, known, [a, b])), copies)
         == [Dm(sender, nicks[fold(a)], copies[0]), Dm(sender, nicks[fold(b)], copies[1])]
  {
    var places := Places(fold, {}, known, [a, b]);
    assert Recipients(nicks, places) == [Some(nicks[fold(a)]), Some(nicks[fold(b)])];
    SentTwo(sender, nicks[fold(a)], nicks[fold(b)], copies);
  }

  /** A client sends one message to two nicks, which may be the same. */
  method SendToTwo(s: Server, c: Client, a: string, b: string, author: Author, clock: nat -> int)
    returns (ghost m1: Message, ghost m2: Message)
    requires s.Valid() && c in s.registry.all && c.registered
    requires ',' !in a && ',' !in b && !IsValidChannel(a) && !IsValidChannel(b)
    requires s.Fold()(a) in s.registry.clients && s.Fold()(b) in s.registry.clients
    modifies s.ids, s.history`dmLog, s.history.dms.Repr, s.history.channels.Repr
    ensures s.Valid() && m1.msgID == m2.msgID
    ensures s.history.dmLog == old(s.history.dmLog) +
      [Dm(c.nick, s.registry.clients[s.Fold()(a)].nick, m1), Dm(c.nick, s.registry.clients[s.Fold()(b)].nick, m2)]
  {
    SplitTwo(a, b);
    ghost var nicks := s.Nicks();
    ghost var na, nb := nicks[s.Fold()(a)], nicks[s.Fold()(b)];
    var reply := s.Privmsg(c, author, [a + [','] + b, "hello"], false, {}, clock);
    ghost var draft := Draft(MsgID(s.ids.serverName, s.ids.last), author, [a + [','] + b, "hello"], false);
    ghost var copies := Copies(draft, [a, b], clock);
    m1, m2 := copies[0], copies[1];
    TwoSent(s.Fold(), nicks, s.registry.clients.Keys, c.nick, a, b, copies);
  }
  lemma TwoMore(ms: seq<Message>, m1: Message, m2: Message, capacity: nat)
    requires capacity >= 2 && m1.msgID == m2.msgID
    ensures !Paging.DistinctIDs(Last(ms + [m1, m2], capacity))
  {
    var kept := Last(ms + [m1, m2], capacity);
    assert kept[|kept| - 2].msgID == kept[|kept| - 1].msgID;
  }

  lemma ConversationTwo(fold: string -> string, dms: seq<Dm>, d1: Dm, d2: Dm, a: string, b: string)
    requires OfPair(fold, d1, a, b) && OfPair(fold, d2, a, b)
    ensures Conversation(fold, dms + [d1, d2], a, b) == Conversation(fold, dms, a, b) + [d1.msg, d2.msg]
  {
    var all := dms + [d1, d2];
    assert all[..|dms| + 1] == dms + [d1] && (dms + [d1])[..|dms|] == dms;
  }

  lemma {:induction false} RetainedConcat(fold: string -> string, a: seq<Dm>, b: seq<Dm>, nick: string, capacity: nat)
    returns (before: seq<Message>)
    ensures Retained(fold, a + b, nick, capacity) == before + Retained(fold, b, nick, capacity)
  {
    if a == [] {
      assert a + b == b;
      before := [];
    } else {
      assert (a + b)[1..] == a[1..] + b;
      var rest := RetainedConcat(fold, a[1..], b, nick, capacity);
      before := if Concerns(fold, a[0], nick) && |Conversation(fold, a[1..] + b, a[0].sender, a[0].recipient)| < capacity
        then [a[0].msg] + rest else rest;
    }
  }

  lemma RetainedTwo(fold: string -> string, d1: Dm, d2: Dm, nick: string, capacity: nat)
    requires capacity >= 2 && Concerns(fold, d1, nick) && Concerns(fold, d2, nick)
    ensures Retained(fold, [d1, d2], nick, capacity) == [d1.msg, d2.msg]
  {
    assert [d1, d2][1..] == [d2] && [d2][1..] == [] && [d2][..0] == [];
    assert |Conversation(fold, [d2], d1.sender, d1.recipient)| <= 1;
    assert Retained(fold, [d2], nick, capacity) == [d2.msg] + Retained(fold, [], nick, capacity) == [d2.msg];
  }

  /** `PRIVMSG bob,bob`, in any spelling and whatever was said before: the history with bob has one id twice. */
  method SendTwice(s: Server, c: Client, a: string, b: string, author: Author, clock: nat -> int)
    returns (messages: seq<Message>)
    requires s.Valid() && c in s.registry.all && c.registered && s.history.dms.capacity >= 2
    requires ',' !in a && ',' !in b && !IsValidChannel(a) && !IsValidChannel(b)
    requires s.Fold()(a) == s.Fold()(b) && s.Fold()(a) in s.registry.clients
    modifies s.ids, s.history`dmLog, s.history.dms.Repr, s.history.channels.Repr
    ensures messages == Last(Conversation(s.Fold(), s.history.dmLog, c.nick, a), s.history.dms.capacity)
    ensures !Paging.DistinctIDs(messages)
  {
    ghost var dms, sender, nick := s.history.dmLog, c.nick, s.registry.clients[s.Fold()(a)].nick;
    assert s.Fold()(nick) == s.Fold()(a);
    ghost var m1, m2 := SendToTwo(s, c, a, b, author, clock);
    ConversationTwo(s.Fold(), dms, Dm(sender, nick, m1), Dm(sender, nick, m2), sender, a);
    TwoMore(Conversation(s.Fold(), dms, sender, a), m1, m2, s.history.dms.capacity);
    messages := s.HistoryWith(c, a);
  }

  /** `PRIVMSG bob,carol`: the sender's history of all has one id twice. */
  method SendToBoth(s: Server, c: Client, a: string, b: string, author: Author, clock: nat -> int)
    returns (messages: seq<Message>)
    requires s.Valid() && c in s.registry.all && c.registered && s.history.dms.capacity >= 2
    requires ',' !in a && ',' !in b && !IsValidChannel(a) && !IsValidChannel(b)
    requires s.Fold()(a) in s.registry.clients && s.Fold()(b) in s.registry.clients
    modifies s.ids, s.history`dmLog, s.history.dms.Repr, s.history.channels.Repr
    ensures Sorted(messages)
    ensures multiset(messages) == multiset(Retained(s.Fold(), s.history.dmLog, c.nick, s.history.dms.capacity))
    ensures !Paging.DistinctIDs(messages)
  {
    ghost var dms, sender, capacity := s.history.dmLog, c.nick, s.history.dms.capacity;
    ghost var na, nb := s.registry.clients[s.Fold()(a)].nick, s.registry.clients[s.Fold()(b)].nick;
    ghost var m1, m2 := SendToTwo(s, c, a, b, author, clock);
    ghost var sent := [Dm(sender, na, m1), Dm(sender, nb, m2)];
    ghost var before := RetainedConcat(s.Fold(), dms, sent, sender, capacity);
    RetainedTwo(s.Fold(), sent[0], sent[1], sender, capacity);
    ghost var kept := before + [m1, m2];
    TwoMore(before, m1, m2, |kept|);
    messages := s.HistoryOfAll(c);
    if Paging.DistinctIDs(messages) { DistinctPermuted(messages, kept); }
  }
  /** A new server with one client, registered as bob. */
  method OnlyBob(other: char -> char, capacity: nat) returns (s: Server, c: Client)
    requires capacity >= 2
    ensures fresh(s) && s.Valid() && fresh(s.ids) && fresh(s.history) && s.history.dms.capacity == capacity
    ensures fresh(s.history.dms.Repr) && fresh(s.history.channels.Repr)
    ensures c in s.registry.all && c.registered && s.Fold()("bob") in s.registry.clients
  {
    LowerCaseStays(other);
    s := new Server(other, capacity, "meshircd");
    c := s.Connect();
    var reply := s.Nick(c, Some("bob"));
    s.Register(c, true);
    assert s.Fold()("bob") == "bob";
  }

  /** It sends one message to itself twice, and then cannot page through its history for every limit. */
  method BobToBob(other: char -> char, capacity: nat, author: Author, clock: nat -> int, parse: Paging.Clock)
    returns (messages: seq<Message>)
    requires capacity >= 2
    ensures !Paging.DistinctIDs(messages)
    ensures exists limit: nat :: limit >= 1 && Paging.Joined(Paging.AllPages(parse, messages, limit)) != messages
  {
    var s, c := OnlyBob(other, capacity);
    messages := SendTwice(s, c, "bob", "bob", author, clock);
    Paging.PagingTilesIff(parse, messages);
  }
}
