/** Message history (chathistory.go): ring buffers per channel and per pair of nicks, and the log they
    are windows of.  Case folding is a parameter. */
module History {
  import opened Text
  import opened Lamport

  datatype Message = Message(
    msgID: string, time: int, prefix: string, account: string, did: string,
    command: string, target: string, text: string, isNotice: bool)

  const BLANK := Message("", 0, "", "", "", "", "", "", false)

  /** The last `n` elements. */
  function Last<T>(s: seq<T>, n: nat): seq<T> {
    if |s| <= n then s else s[|s| - n..]
  }

  lemma LastSnoc<T>(s: seq<T>, x: T, n: nat)
    requires n >= 1
    ensures Last(Last(s, n) + [x], n) == Last(s + [x], n)
  {}

  /** The elements of a ring, oldest first; `head` is the next position to write. */
  function Ring<T>(ms: seq<T>, head: nat, size: nat): seq<T>
    requires head < |ms| && size <= |ms|
  {
    if size < |ms| then ms[..size] else ms[head..] + ms[..head]
  }

  lemma NextPosition(head: nat, capacity: nat)
    requires head < capacity
    ensures (head + 1) % capacity == if head + 1 == capacity then 0 else head + 1
  {}

  lemma RingAddFull<T>(ms: seq<T>, head: nat, x: T)
    requires head < |ms|
    ensures Ring(ms[head := x], if head + 1 == |ms| then 0 else head + 1, |ms|) == Last(ms[head..] + ms[..head] + [x], |ms|)
  {
    var ms' := ms[head := x];
    assert ms[head..] + ms[..head] + [x] == [ms[head]] + (ms[head + 1..] + ms[..head] + [x]);
    assert ms'[head + 1..] == ms[head + 1..] && ms'[..head + 1] == ms[..head] + [x];
    assert ms' == ms'[..head + 1] + ms'[head + 1..];
  }

  /** Writing at the head drops the oldest element once the ring is full. */
  lemma RingAdd<T>(ms: seq<T>, head: nat, size: nat, x: T)
    requires head < |ms| && size <= |ms| && (size < |ms| ==> head == size)
    ensures var head', size' := if head + 1 == |ms| then 0 else head + 1, if size < |ms| then size + 1 else size;
      Ring(ms[head := x], head', size') == Last(Ring(ms, head, size) + [x], |ms|)
  {
    if size < |ms| {
      assert ms[head := x][..head + 1] == ms[..head] + [x];
      if head + 1 == |ms| { assert ms[head := x] == ms[head := x][..head + 1]; }
    } else {
      RingAddFull(ms, head, x);
    }
  }

  class HistoryBuffer {
    const messages: array<Message>
    const capacity: nat
    var head: nat
    var size: nat

    ghost predicate Valid()
      reads this
    {
      && 1 <= capacity == messages.Length
      && head < capacity && size <= capacity && (size < capacity ==> head == size)
    }

    /** The messages, oldest first. */
    function Contents(): seq<Message>
      requires Valid()
      reads this, messages
    {
      Ring(messages[..], head, size)
    }

    constructor (capacity: nat)
      requires capacity >= 1
      ensures Valid() && Contents() == [] && fresh(messages) && this.capacity == capacity
    {
      this.messages := new Message[capacity](_ => BLANK);
      this.capacity := capacity;
      head := 0;
      size := 0;
    }

    method Add(msg: Message)
      requires Valid()
      modifies this, messages
      ensures Valid() && Contents() == Last(old(Contents()) + [msg], capacity)
    {
      NextPosition(head, capacity);
      RingAdd(messages[..], head, size, msg);
      assert messages[..][head := msg] == messages[..head] + [msg] + messages[head + 1..];
      messages[head] := msg;
      head := (head + 1) % capacity;
      if size < capacity {
        size := size + 1;
      }
    }

    method GetAll() returns (result: seq<Message>)
      requires Valid()
      ensures result == Contents()
    {
      if size == 0 {
        return [];
      }
      if size < capacity {
        result := messages[..size];
      } else {
        result := messages[head..] + messages[..head];
      }
    }
  }

  datatype Entry = Entry(key: string, msg: Message)

  /** The logged messages of one key, in order. */
  function Under(log: seq<Entry>, key: string): seq<Message> {
    if log == [] then []
    else
      var rest, e := Under(log[..|log| - 1], key), log[|log| - 1];
      if e.key == key then rest + [e.msg] else rest
  }

  lemma UnderSnoc(log: seq<Entry>, e: Entry, key: string)
    ensures Under(log + [e], key) == if e.key == key then Under(log, key) + [e.msg] else Under(log, key)
  {
    assert (log + [e])[..|log|] == log;
  }

  /** One of the store's two maps from keys to ring buffers. */
  class HistoryTable {
    const capacity: nat
    var buffers: map<string, HistoryBuffer>
    /** Everything ever stored, for specification. */
    ghost var log: seq<Entry>
    ghost var Repr: set<object>

    ghost predicate Valid()
      reads this, Repr
      ensures Valid() ==> this in Repr
    {
      && this in Repr && capacity >= 1
      && (forall k :: k in buffers ==> Holds(k))
      && (forall j, k :: j in buffers && k in buffers && j != k ==>
            buffers[j] != buffers[k] && buffers[j].messages != buffers[k].messages)
      && (forall k :: k !in buffers ==> Under(log, k) == [])
    }

    /** A buffer holds the last messages logged under its key. */
    ghost predicate Holds(k: string)
      requires k in buffers
      reads this, Repr
    {
      var b := buffers[k];
      && b in Repr && b.messages in Repr && b.Valid() && b.capacity == capacity
      && b.Contents() == Last(Under(log, k), capacity)
    }

    constructor (capacity: nat)
      requires capacity >= 1
      ensures Valid() && log == [] && fresh(Repr) && this.capacity == capacity
    {
      this.capacity := capacity;
      buffers := map[];
      log := [];
      Repr := {this};
    }

    /** Makes sure the key has a buffer. */
    method EnsureBuffer(key: string)
      requires Valid()
      modifies this
      ensures Valid() && fresh(Repr - old(Repr)) && old(Repr) <= Repr && log == old(log)
      ensures key in buffers
    {
      if key !in buffers {
        var buf := new HistoryBuffer(capacity);
        buffers := buffers[key := buf];
        Repr := Repr + {buf, buf.messages};
        assert Under(log, key) == [];
        forall k | k in old(buffers)
          ensures Holds(k) && buffers[k] != buf && buffers[k].messages != buf.messages
        {
          var b := old(buffers)[k];
          assert old(Holds(k)) && buffers[k] == b && b in old(Repr) && b.messages in old(Repr);
          assert b.Contents() == old(b.Contents());
        }
        assert buffers[key] == buf && Holds(key);
        forall j, k | j in buffers && k in buffers && j != k
          ensures buffers[j] != buffers[k] && buffers[j].messages != buffers[k].messages
        {
          assert j != key && k != key ==> j in old(buffers) && k in old(buffers);
        }
      }
    }

    method Put(key: string, msg: Message)
      requires Valid()
      modifies Repr
      ensures Valid() && fresh(Repr - old(Repr)) && log == old(log) + [Entry(key, msg)]
    {
      EnsureBuffer(key);
      AddTo(key, msg);
    }

    method AddTo(key: string, msg: Message)
      requires Valid() && key in buffers
      modifies this`log, buffers[key], buffers[key].messages
      ensures Valid() && log == old(log) + [Entry(key, msg)]
    {
      assert Holds(key);
      buffers[key].Add(msg);
      log := log + [Entry(key, msg)];
      LastSnoc(Under(old(log), key), msg, capacity);
      UnderSnoc(old(log), Entry(key, msg), key);
      assert Holds(key);
      forall k | k in buffers && k != key ensures Holds(k) {
        UnderSnoc(old(log), Entry(key, msg), k);
        assert old(Holds(k));
      }
      forall k | k !in buffers ensures Under(log, k) == [] {
        UnderSnoc(old(log), Entry(key, msg), k);
      }
    }

    method Get(key: string) returns (messages: seq<Message>)
      requires Valid()
      ensures messages == Last(Under(log, key), capacity)
    {
      if key in buffers {
        assert Holds(key);
        messages := buffers[key].GetAll();
      } else {
        messages := [];
      }
    }
  }

  // ----- Keys of direct-message histories -----

  /** The key of two nicks: both folded, the smaller first. */
  function DmKey(fold: string -> string, nick1: string, nick2: string): string {
    PairKey(fold(nick1), fold(nick2))
  }

  /** Whether a key belongs to a folded nick, by its part before or after the first colon. */
  predicate IsParty(key: string, nick: string) {
    var i := Find(key, ':');
    i < |key| && (key[..i] == nick || key[i + 1..] == nick)
  }

  predicate SamePair(a: string, b: string, c: string, d: string) {
    (a == c && b == d) || (a == d && b == c)
  }

  lemma JoinedKey(a: string, b: string)
    requires ':' !in a
    ensures var key := a + ":" + b; Find(key, ':') == |a| && key[..|a|] == a && key[|a| + 1..] == b
  {
    FindUnique(a + ":" + b, ':', |a|);
  }

  function PairKey(n1: string, n2: string): string {
    if LexLess(n1, n2) then n1 + ":" + n2 else n2 + ":" + n1
  }

  lemma OnlyColon(a: string, b: string, p: string, q: string)
    requires ':' !in a && ':' !in b && a + ":" + b == p + ":" + q
    ensures a == p && b == q
  {
    var s, t := a + ":" + b, p + ":" + q;
    assert t[|p|] == ':';
    assert |p| == |a|;
    assert s[..|a|] == a && t[..|a|] == p && s[|a| + 1..] == b && t[|a| + 1..] == q;
  }

  /** A key of two names without a colon is the key of no other two names. */
  lemma PairKeyInjective(x: string, y: string, u: string, v: string)
    requires ':' !in x && ':' !in y
    ensures PairKey(x, y) == PairKey(u, v) <==> SamePair(x, y, u, v)
  {
    LexTotal(x, y);
    LexTotal(u, v);
    if PairKey(x, y) == PairKey(u, v) {
      var (a, b) := if LexLess(x, y) then (x, y) else (y, x);
      var (p, q) := if LexLess(u, v) then (u, v) else (v, u);
      OnlyColon(a, b, p, q);
    }
  }

  /** The smaller name comes first. */
  lemma PairKeyOrder(x: string, y: string)
    ensures Before(x, y) ==> PairKey(x, y) == PairKey(y, x) == x + ":" + y
  {
    LexLessAt(x, y);
    LexTotal(x, y);
  }

  lemma PairKeyParty(x: string, y: string, n: string)
    requires ':' !in x && ':' !in y
    ensures IsParty(PairKey(x, y), n) <==> n == x || n == y
  {
    if LexLess(x, y) { JoinedKey(x, y); } else { JoinedKey(y, x); }
  }

  /** A key of two nicks that fold to strings without a colon is the key of their unordered folded pair
      only, and belongs to exactly those two, whatever nicks are asked for. */
  lemma DmKeyInjective(fold: string -> string, a: string, b: string, c: string, d: string)
    requires ':' !in fold(a) && ':' !in fold(b)
    ensures DmKey(fold, a, b) == DmKey(fold, c, d) <==> SamePair(fold(a), fold(b), fold(c), fold(d))
    ensures IsParty(DmKey(fold, a, b), fold(c)) <==> fold(c) == fold(a) || fold(c) == fold(b)
  {
    PairKeyInjective(fold(a), fold(b), fold(c), fold(d));
    PairKeyParty(fold(a), fold(b), fold(c));
  }

  // ----- The log of direct messages -----

  datatype Dm = Dm(sender: string, recipient: string, msg: Message)

  /** The entries the store makes of direct messages. */
  function Keyed(fold: string -> string, dms: seq<Dm>): (r: seq<Entry>)
    ensures |r| == |dms|
    ensures forall i :: 0 <= i < |dms| ==> r[i] == Entry(DmKey(fold, dms[i].sender, dms[i].recipient), dms[i].msg)
  {
    seq(|dms|, i requires 0 <= i < |dms| => Entry(DmKey(fold, dms[i].sender, dms[i].recipient), dms[i].msg))
  }

  ghost predicate NoColons(fold: string -> string, dms: seq<Dm>) {
    forall i :: 0 <= i < |dms| ==> ':' !in fold(dms[i].sender) && ':' !in fold(dms[i].recipient)
  }

  predicate OfPair(fold: string -> string, d: Dm, a: string, b: string) {
    SamePair(fold(d.sender), fold(d.recipient), fold(a), fold(b))
  }

  /** The messages between two nicks, in either direction, in order. */
  function Conversation(fold: string -> string, dms: seq<Dm>, a: string, b: string): seq<Message> {
    if dms == [] then []
    else
      var rest, d := Conversation(fold, dms[..|dms| - 1], a, b), dms[|dms| - 1];
      if OfPair(fold, d, a, b) then rest + [d.msg] else rest
  }

  lemma {:induction false} ConversationIsUnder(fold: string -> string, dms: seq<Dm>, a: string, b: string)
    requires NoColons(fold, dms)
    ensures Under(Keyed(fold, dms), DmKey(fold, a, b)) == Conversation(fold, dms, a, b)
  {
    if dms != [] {
      var p, d := dms[..|dms| - 1], dms[|dms| - 1];
      ConversationIsUnder(fold, p, a, b);
      assert Keyed(fold, dms)[..|dms| - 1] == Keyed(fold, p);
      DmKeyInjective(fold, d.sender, d.recipient, a, b);
    }
  }

  /** Whether a nick sent or received a message. */
  predicate Concerns(fold: string -> string, d: Dm, nick: string) {
    fold(d.sender) == fold(nick) || fold(d.recipient) == fold(nick)
  }

  /** The messages a nick sent or received, but for those with at least `capacity` later ones between the
      same two. */
  function Retained(fold: string -> string, dms: seq<Dm>, nick: string, capacity: nat): seq<Message> {
    if dms == [] then []
    else
      var d, later := dms[0], dms[1..];
      (if Concerns(fold, d, nick) && |Conversation(fold, later, d.sender, d.recipient)| < capacity then [d.msg] else [])
      + Retained(fold, later, nick, capacity)
  }

  /** All messages a nick sent or received. */
  function Involving(fold: string -> string, dms: seq<Dm>, nick: string): seq<Message> {
    if dms == [] then []
    else (if Concerns(fold, dms[0], nick) then [dms[0].msg] else []) + Involving(fold, dms[1..], nick)
  }

  /** None is missing while no two nicks have exchanged more than `capacity` messages. */
  lemma {:induction false} NoneDropped(fold: string -> string, dms: seq<Dm>, nick: string, capacity: nat)
    requires forall a, b :: |Conversation(fold, dms, a, b)| <= capacity
    ensures Retained(fold, dms, nick, capacity) == Involving(fold, dms, nick)
  {
    if dms != [] {
      forall a, b ensures |Conversation(fold, dms[1..], a, b)| <= capacity { ConversationCons(fold, dms, a, b); }
      NoneDropped(fold, dms[1..], nick, capacity);
      ConversationCons(fold, dms, dms[0].sender, dms[0].recipient);
    }
  }

  lemma {:induction false} ConversationCons(fold: string -> string, dms: seq<Dm>, a: string, b: string)
    requires dms != []
    ensures Conversation(fold, dms, a, b)
         == (if OfPair(fold, dms[0], a, b) then [dms[0].msg] else []) + Conversation(fold, dms[1..], a, b)
  {
    if |dms| == 1 {
      assert dms[..0] == [] && dms[1..] == [];
    } else {
      var p := dms[..|dms| - 1];
      ConversationCons(fold, p, a, b);
      assert dms[1..][..|dms[1..]| - 1] == p[1..];
    }
  }

  // ----- Sorting by time -----

  predicate Sorted(ms: seq<Message>) {
    forall i, j :: 0 <= i < j < |ms| ==> ms[i].time <= ms[j].time
  }

  function Insert(ms: seq<Message>, m: Message): seq<Message> {
    if ms == [] || m.time <= ms[0].time then [m] + ms else [ms[0]] + Insert(ms[1..], m)
  }

  lemma {:induction false} InsertSorted(ms: seq<Message>, m: Message)
    requires Sorted(ms)
    ensures var r := Insert(ms, m); Sorted(r) && r != [] && (r[0] == m || (ms != [] && r[0] == ms[0]))
  {
    if ms != [] && m.time > ms[0].time {
      InsertSorted(ms[1..], m);
    }
  }

  lemma {:induction false} InsertPermutes(ms: seq<Message>, m: Message)
    ensures multiset(Insert(ms, m)) == multiset(ms) + multiset{m}
  {
    if ms != [] && m.time > ms[0].time {
      InsertPermutes(ms[1..], m);
      assert ms == [ms[0]] + ms[1..];
    }
  }

  /** Some order by time; the order of messages of one time is not specified. */
  function SortByTime(ms: seq<Message>): (r: seq<Message>)
    ensures Sorted(r) && multiset(r) == multiset(ms)
  {
    if ms == [] then []
    else
      assert ms == [ms[0]] + ms[1..];
      InsertSorted(SortByTime(ms[1..]), ms[0]);
      InsertPermutes(SortByTime(ms[1..]), ms[0]);
      Insert(SortByTime(ms[1..]), ms[0])
  }

  /** The histories of several keys, one after the other. */
  function Gather(log: seq<Entry>, keys: seq<string>, capacity: nat): seq<Message> {
    if keys == [] then []
    else Gather(log, keys[..|keys| - 1], capacity) + Last(Under(log, keys[|keys| - 1]), capacity)
  }

  // ----- What the aggregate query gathers -----

  lemma {:induction false} UnderCons(log: seq<Entry>, key: string)
    requires log != []
    ensures Under(log, key) == (if log[0].key == key then [log[0].msg] else []) + Under(log[1..], key)
  {
    if |log| == 1 {
      assert log[..0] == [] && log[1..] == [];
    } else {
      var p := log[..|log| - 1];
      UnderCons(p, key);
      assert log[1..][..|log[1..]| - 1] == p[1..];
    }
  }

  /** What the oldest entry adds to the histories of some keys: itself, if it is among the last of its key. */
  function Added(log: seq<Entry>, keys: seq<string>, capacity: nat): seq<Message>
    requires log != []
  {
    if log[0].key in keys && |Under(log[1..], log[0].key)| < capacity then [log[0].msg] else []
  }

  lemma KeyCons(log: seq<Entry>, k: string, capacity: nat)
    requires log != []
    ensures Last(Under(log, k), capacity) == Added(log, [k], capacity) + Last(Under(log[1..], k), capacity)
  {
    UnderCons(log, k);
    if log[0].key == k {
      LastCons(Under(log[1..], k), log[0].msg, capacity);
    } else {
      assert [] + Under(log[1..], k) == Under(log[1..], k);
    }
  }

  lemma AddedSnoc(log: seq<Entry>, init: seq<string>, k: string, capacity: nat)
    requires log != [] && k !in init
    ensures multiset(Added(log, init + [k], capacity)) == multiset(Added(log, init, capacity)) + multiset(Added(log, [k], capacity))
  {}

  lemma GatherSnoc(log: seq<Entry>, init: seq<string>, k: string, capacity: nat)
    ensures multiset(Gather(log, init + [k], capacity))
         == multiset(Gather(log, init, capacity)) + multiset(Last(Under(log, k), capacity))
  {
    assert (init + [k])[..|init|] == init;
  }

  lemma {:induction false} GatherCons(log: seq<Entry>, keys: seq<string>, capacity: nat)
    requires log != [] && Distinct(keys)
    ensures multiset(Gather(log, keys, capacity))
         == multiset(Gather(log[1..], keys, capacity)) + multiset(Added(log, keys, capacity))
  {
    if keys != [] {
      var init, k := keys[..|keys| - 1], keys[|keys| - 1];
      assert keys == init + [k] && k !in init;
      GatherCons(log, init, capacity);
      GatherSnoc(log, init, k, capacity);
      GatherSnoc(log[1..], init, k, capacity);
      KeyCons(log, k, capacity);
      AddedSnoc(log, init, k, capacity);
    }
  }

  lemma LastCons(ms: seq<Message>, m: Message, capacity: nat)
    ensures Last([m] + ms, capacity) == (if |ms| < capacity then [m] else []) + Last(ms, capacity)
  {}

  lemma {:induction false} GatherNothing(keys: seq<string>, capacity: nat)
    ensures Gather([], keys, capacity) == []
  {
    if keys != [] { GatherNothing(keys[..|keys| - 1], capacity); }
  }

  /** Gathering the histories of every key of a nick gives the retained messages of the nick. */
  lemma {:induction false} GatherRetained(fold: string -> string, dms: seq<Dm>, nick: string, keys: seq<string>, capacity: nat)
    requires NoColons(fold, dms) && Distinct(keys)
    requires forall i :: 0 <= i < |dms| ==>
      var k := DmKey(fold, dms[i].sender, dms[i].recipient); k in keys <==> IsParty(k, fold(nick))
    ensures multiset(Gather(Keyed(fold, dms), keys, capacity)) == multiset(Retained(fold, dms, nick, capacity))
  {
    if dms == [] {
      GatherNothing(keys, capacity);
    } else {
      var d, later := dms[0], dms[1..];
      assert Keyed(fold, dms)[1..] == Keyed(fold, later);
      GatherRetained(fold, later, nick, keys, capacity);
      GatherCons(Keyed(fold, dms), keys, capacity);
      ConversationIsUnder(fold, later, d.sender, d.recipient);
      DmKeyInjective(fold, d.sender, d.recipient, nick, nick);
    }
  }

  class ChatHistoryStore {
    const fold: string -> string
    const channels: HistoryTable
    const dms: HistoryTable
    /** Every direct message ever stored, for specification. */
    ghost var dmLog: seq<Dm>

    ghost predicate Valid()
      reads this, channels, dms, channels.Repr, dms.Repr
    {
      && dms.log == Keyed(fold, dmLog) && this !in channels.Repr && this !in dms.Repr
      && channels.Valid() && dms.Valid() && channels.Repr !! dms.Repr && channels.capacity == dms.capacity
    }

    constructor (fold: string -> string, capacity: nat)
      requires capacity >= 1
      ensures Valid() && channels.log == [] && dmLog == [] && this.fold == fold && dms.capacity == capacity
      ensures fresh(channels.Repr) && fresh(dms.Repr)
    {
      this.fold := fold;
      channels := new HistoryTable(capacity);
      dms := new HistoryTable(capacity);
      dmLog := [];
    }

    method StoreChannelMessage(msg: Message)
      requires Valid()
      modifies channels.Repr
      ensures Valid() && fresh(channels.Repr - old(channels.Repr))
      ensures channels.log == old(channels.log) + [Entry(fold(msg.target), msg)] && dmLog == old(dmLog)
    {
      channels.Put(fold(msg.target), msg);
    }

    method StoreDMMessage(sender: string, recipient: string, msg: Message)
      requires Valid()
      modifies `dmLog, dms.Repr
      ensures Valid() && fresh(dms.Repr - old(dms.Repr))
      ensures dmLog == old(dmLog) + [Dm(sender, recipient, msg)]
      ensures channels.log == old(channels.log)
    {
      dms.Put(DmKey(fold, sender, recipient), msg);
      dmLog := dmLog + [Dm(sender, recipient, msg)];
    }

    /** A channel's history is the last messages logged for it. */
    method GetChannelHistory(channel: string) returns (messages: seq<Message>)
      requires Valid()
      ensures messages == Last(Under(channels.log, fold(channel)), channels.capacity)
    {
      messages := channels.Get(fold(channel));
    }

    /** The history of two nicks is the last messages between them, in either direction. */
    method GetDMHistory(nick1: string, nick2: string) returns (messages: seq<Message>)
      requires Valid()
      ensures messages == Last(Under(dms.log, DmKey(fold, nick1, nick2)), dms.capacity)
      ensures NoColons(fold, dmLog) ==> messages == Last(Conversation(fold, dmLog, nick1, nick2), dms.capacity)
    {
      messages := dms.Get(DmKey(fold, nick1, nick2));
      if NoColons(fold, dmLog) { ConversationIsUnder(fold, dmLog, nick1, nick2); }
    }

    /** All direct messages of a user, by time. */
    method GetAllDMsForUser(nick: string) returns (all: seq<Message>)
      requires Valid()
      ensures Sorted(all)
      ensures NoColons(fold, dmLog) ==> multiset(all) == multiset(Retained(fold, dmLog, nick, dms.capacity))
    {
      ghost var keys;
      all, keys := GatherDMs(nick);
      if NoColons(fold, dmLog) {
        forall i | 0 <= i < |dmLog|
          ensures var k := DmKey(fold, dmLog[i].sender, dmLog[i].recipient); k in keys <==> IsParty(k, fold(nick))
        {
          UnderMember(dms.log, i);
        }
        GatherRetained(fold, dmLog, nick, keys, dms.capacity);
      }
      all := SortByTime(all);
    }

    /** The loop over the histories.  `keys` are the user's: every one under which something is held, once. */
    method GatherDMs(nick: string) returns (all: seq<Message>, ghost keys: seq<string>)
      requires Valid()
      ensures all == Gather(dms.log, keys, dms.capacity) && Distinct(keys)
      ensures forall k :: k in keys <==> IsParty(k, fold(nick)) && k in dms.buffers
      ensures forall k :: k !in dms.buffers ==> Under(dms.log, k) == []
    {
      all, keys := [], [];
      var left := dms.buffers.Keys;
      while left != {}
        invariant left <= dms.buffers.Keys && (forall k :: k in keys ==> k !in left)
        invariant Distinct(keys)
        invariant forall k :: k in keys <==> IsParty(k, fold(nick)) && k in dms.buffers && k !in left
        invariant all == Gather(dms.log, keys, dms.capacity)
        decreases left
      {
        var key :| key in left;
        left := left - {key};
        if IsParty(key, fold(nick)) {
          var held := dms.Get(key);
          assert (keys + [key])[..|keys|] == keys;
          keys := keys + [key];
          all := all + held;
        }
      }
    }
  }

  lemma {:induction false} UnderMember(log: seq<Entry>, i: nat)
    requires i < |log|
    ensures Under(log, log[i].key) != []
  {
    if i < |log| - 1 { UnderMember(log[..|log| - 1], i); }
  }
}
