/** CHATHISTORY requests (chathistory.go): finding a reference, slicing a page, and walking the log
    page by page.  An empty batch is the empty page; parsing a number or a timestamp is a parameter. */
module Paging {
  import opened Text
  import opened History

  const DEFAULT_LIMIT := 500
  const MAX_REQUEST := 500

  /** The limit of a request, from what its parameter parses to. */
  function ParseLimit(parsed: Option<int>): (limit: nat)
    ensures 1 <= limit <= MAX_REQUEST
  {
    match parsed
    case None => DEFAULT_LIMIT
    case Some(n) => if n <= 0 then DEFAULT_LIMIT else if n > MAX_REQUEST then MAX_REQUEST else n
  }

  /** The number asked for when it is one from 1 to 500, else 500. */
  lemma LimitIs(parsed: Option<int>)
    ensures ParseLimit(parsed) == if parsed.Some? && 1 <= parsed.value <= 500 then parsed.value else 500
  {}

  type Clock = string -> Option<int>

  function IndexFrom(ms: seq<Message>, id: string, from: nat): (i: nat)
    requires from <= |ms|
    ensures from <= i <= |ms| && (i < |ms| ==> ms[i].msgID == id)
    ensures forall j :: from <= j < i ==> ms[j].msgID != id
    decreases |ms| - from
  {
    if from == |ms| || ms[from].msgID == id then from else IndexFrom(ms, id, from + 1)
  }

  /** The position of the first message with an id, or the length when there is none. */
  function IndexOfID(ms: seq<Message>, id: string): nat { IndexFrom(ms, id, 0) }

  function FirstAtOrAfter(ms: seq<Message>, t: int): (i: nat)
    ensures i <= |ms| && (i < |ms| ==> ms[i].time >= t)
    ensures forall j :: 0 <= j < i ==> ms[j].time < t
  {
    if ms == [] || ms[0].time >= t then 0 else 1 + FirstAtOrAfter(ms[1..], t)
  }

  /** The position a reference names; a timestamp past the end names the end. */
  function Resolve(parse: Clock, ms: seq<Message>, ref: string): (r: Option<nat>)
    ensures r.Some? ==> r.value <= |ms|
  {
    if HasPrefix(ref, "msgid=") then
      var i := IndexOfID(ms, ref[6..]);
      if i < |ms| then Some(i) else None
    else if HasPrefix(ref, "timestamp=") then
      match parse(ref[10..])
      case None => None
      case Some(t) => Some(FirstAtOrAfter(ms, t))
    else None
  }

  /** findByReference: the loops behind Resolve. */
  method FindByReference(parse: Clock, ms: seq<Message>, ref: string) returns (r: int)
    ensures r == match Resolve(parse, ms, ref) case None => -1 case Some(i) => i
  {
    if HasPrefix(ref, "msgid=") {
      var msgid := ref[6..];
      for i := 0 to |ms|
        invariant forall j :: 0 <= j < i ==> ms[j].msgID != msgid
      {
        if ms[i].msgID == msgid { return i; }
      }
      return -1;
    }
    if HasPrefix(ref, "timestamp=") {
      var ts := parse(ref[10..]);
      if ts == None { return -1; }
      for i := 0 to |ms|
        invariant forall j :: 0 <= j < i ==> ms[j].time < ts.value
      {
        if ms[i].time >= ts.value { return i; }
      }
      return |ms|;
    }
    return -1;
  }

  function Max0(n: int): nat { if n < 0 then 0 else n }

  function Min(a: int, b: int): int { if a < b then a else b }

  // ----- The five requests; every slice is in range for every reference -----

  function Latest(parse: Clock, ms: seq<Message>, ref: string, limit: nat): (page: seq<Message>)
    ensures |page| <= limit
  {
    if ref == "*" then ms[Max0(|ms| - limit)..]
    else match Resolve(parse, ms, ref)
      case None => []
      case Some(i) => ms[Max0(i - limit)..i]
  }

  function Before(parse: Clock, ms: seq<Message>, ref: string, limit: nat): (page: seq<Message>)
    ensures |page| <= limit
  {
    match Resolve(parse, ms, ref)
    case None => []
    case Some(i) => ms[Max0(i - limit)..i]
  }

  function After(parse: Clock, ms: seq<Message>, ref: string, limit: nat): (page: seq<Message>)
    ensures |page| <= limit
  {
    match Resolve(parse, ms, ref)
    case None => []
    case Some(i) => AfterAt(ms, i, limit)
  }

  function AfterAt(ms: seq<Message>, i: nat, limit: nat): (page: seq<Message>)
    ensures |page| <= limit
  {
    if i + 1 >= |ms| then [] else ms[i + 1..Min(i + 1 + limit, |ms|)]
  }

  function Around(parse: Clock, ms: seq<Message>, ref: string, limit: nat): (page: seq<Message>)
    ensures |page| <= limit + 1
    ensures var r := Resolve(parse, ms, ref); r.Some? && r.value < |ms| ==> ms[r.value] in page
  {
    match Resolve(parse, ms, ref)
    case None => []
    case Some(i) => AroundAt(ms, i, limit)
  }

  function AroundAt(ms: seq<Message>, i: nat, limit: nat): (page: seq<Message>)
    requires i <= |ms|
    ensures |page| <= limit + 1 && (i < |ms| ==> ms[i] in page)
  {
    var half := limit / 2;
    var start, end := Max0(i - half), Min(i + (limit - half) + 1, |ms|);
    assert i < |ms| ==> ms[start..end][i - start] == ms[i];
    ms[start..end]
  }

  function Between(parse: Clock, ms: seq<Message>, startRef: string, endRef: string, limit: nat): (page: seq<Message>)
    ensures |page| <= limit
  {
    var a, b := Resolve(parse, ms, startRef), Resolve(parse, ms, endRef);
    if a == None || b == None then [] else BetweenAt(ms, a.value, b.value, limit)
  }

  function BetweenAt(ms: seq<Message>, i: nat, j: nat, limit: nat): (page: seq<Message>)
    requires i <= |ms| && j <= |ms|
    ensures |page| <= limit
  {
    var lo, hi := Min(i, j), if i > j then i else j;
    if lo + 1 > hi then [] else ms[lo + 1..Min(hi, lo + 1 + limit)]
  }

  /** An id names the first message that has it. */
  lemma IdNames(parse: Clock, ms: seq<Message>, id: string, i: nat)
    ensures Resolve(parse, ms, "msgid=" + id) == Some(i)
       <==> i < |ms| && ms[i].msgID == id && forall j :: 0 <= j < i ==> ms[j].msgID != id
  {
    var ref := "msgid=" + id;
    assert ref[6..] == id && ref[..6] == "msgid=";
  }

  /** A time names the first message at or after it, or the end. */
  lemma TimeNames(parse: Clock, ms: seq<Message>, ts: string, i: nat)
    requires parse(ts).Some?
    ensures Resolve(parse, ms, "timestamp=" + ts) == Some(i)
       <==> i <= |ms| && (forall j :: 0 <= j < i ==> ms[j].time < parse(ts).value)
            && (i < |ms| ==> ms[i].time >= parse(ts).value)
  {
    ResolveTimestamp(parse, ms, ts);
  }

  /** BEFORE: the messages right before the one referred to, as many as there are and fit. */
  lemma BeforeMeans(parse: Clock, ms: seq<Message>, ref: string, limit: nat, i: nat)
    requires Resolve(parse, ms, ref) == Some(i)
    ensures var n := if limit < i then limit else i; Before(parse, ms, ref, limit) == ms[i - n..i]
  {}

  /** AFTER: those right after it. */
  lemma AfterMeans(parse: Clock, ms: seq<Message>, ref: string, limit: nat, i: nat)
    requires Resolve(parse, ms, ref) == Some(i)
    ensures i + 1 >= |ms| ==> After(parse, ms, ref, limit) == []
    ensures i + 1 < |ms| ==>
      var n := if limit < |ms| - i - 1 then limit else |ms| - i - 1; After(parse, ms, ref, limit) == ms[i + 1..i + 1 + n]
  {}

  /** LATEST: the last messages, or with a reference what BEFORE gives. */
  lemma LatestMeans(parse: Clock, ms: seq<Message>, ref: string, limit: nat)
    ensures ref != "*" ==> Latest(parse, ms, ref, limit) == Before(parse, ms, ref, limit)
    ensures var n := if limit < |ms| then limit else |ms|; Latest(parse, ms, "*", limit) == ms[|ms| - n..]
  {}

  /** A reference that names nothing gives an empty page. */
  lemma UnknownReference(parse: Clock, ms: seq<Message>, ref: string, limit: nat)
    requires ref != "*" && Resolve(parse, ms, ref) == None
    ensures Latest(parse, ms, ref, limit) == Before(parse, ms, ref, limit) == After(parse, ms, ref, limit)
         == Around(parse, ms, ref, limit) == []
    ensures forall other :: Between(parse, ms, ref, other, limit) == Between(parse, ms, other, ref, limit) == []
  {}

  // ----- Walking the log backwards -----

  ghost predicate DistinctIDs(ms: seq<Message>) {
    forall i, j :: 0 <= i < j < |ms| ==> ms[i].msgID != ms[j].msgID
  }

  /** Every message is the one its id names. */
  ghost predicate Named(ms: seq<Message>) {
    forall i: nat {:trigger IndexOfID(ms, ms[i].msgID)} :: i < |ms| ==> IndexOfID(ms, ms[i].msgID) == i
  }

  lemma NamedIff(ms: seq<Message>)
    ensures Named(ms) <==> DistinctIDs(ms)
  {
    if !DistinctIDs(ms) {
      var i: nat, j: nat :| i < j < |ms| && ms[i].msgID == ms[j].msgID;
      assert IndexOfID(ms, ms[j].msgID) <= i;
    }
    if !Named(ms) {
      var j: nat :| j < |ms| && IndexOfID(ms, ms[j].msgID) != j;
      assert ms[IndexOfID(ms, ms[j].msgID)].msgID == ms[j].msgID;
    }
  }

  /** A message's id names the first message that has it. */
  lemma ResolveID(parse: Clock, ms: seq<Message>, i: nat)
    requires i < |ms|
    ensures var first := IndexOfID(ms, ms[i].msgID);
      first <= i && ms[first].msgID == ms[i].msgID && Resolve(parse, ms, "msgid=" + ms[i].msgID) == Some(first)
  {
    var ref := "msgid=" + ms[i].msgID;
    assert ref[6..] == ms[i].msgID && ref[..6] == "msgid=";
  }

  /** The pages a reader gets from `page` on, asking each time for what comes before the first message of
      the last page, until a page is empty.  `page` starts at position `at`.  They end, and with distinct
      ids they are all that precedes the end of the page. */
  ghost function PagesBack(parse: Clock, ms: seq<Message>, limit: nat, page: seq<Message>, at: nat): (pages: seq<seq<Message>>)
    requires limit >= 1
    requires at + |page| <= |ms| && page == ms[at..at + |page|] && (page == [] ==> at == 0)
    ensures |Joined(pages)| <= at + |page|
    ensures Named(ms) ==> Joined(pages) == ms[..at + |page|]
    decreases at, |page|
  {
    if page == [] then
      assert Joined([page]) == [] + page;
      [page]
    else
      BackReply(parse, ms, limit, page, at);
      var first := IndexOfID(ms, page[0].msgID);
      var rest := PagesBack(parse, ms, limit, Before(parse, ms, "msgid=" + page[0].msgID, limit), Max0(first - limit));
      JoinedPage(ms, page, at, first, rest);
      [page] + rest
  }

  lemma BackReply(parse: Clock, ms: seq<Message>, limit: nat, page: seq<Message>, at: nat)
    requires limit >= 1 && page != [] && at + |page| <= |ms| && page == ms[at..at + |page|]
    ensures var first := IndexOfID(ms, page[0].msgID);
      var reply, lo := Before(parse, ms, "msgid=" + page[0].msgID, limit), Max0(first - limit);
      && first <= at && (Named(ms) ==> first == at)
      && lo <= first && lo + |reply| == first && reply == ms[lo..first] && (reply == [] ==> lo == 0)
  {
    assert page[0] == ms[at];
    ResolveID(parse, ms, at);
  }

  lemma JoinedPage(ms: seq<Message>, page: seq<Message>, at: nat, first: nat, rest: seq<seq<Message>>)
    requires at + |page| <= |ms| && page == ms[at..at + |page|] && first <= at && |Joined(rest)| <= first
    ensures |Joined([page] + rest)| <= first + |page|
    ensures first == at && Joined(rest) == ms[..first] ==> Joined([page] + rest) == ms[..at + |page|]
  {
    JoinedCons(page, rest);
    Adjacent(ms, at, at + |page|);
  }

  /** LATEST `*` followed by BEFORE on the first message of each page. */
  ghost function AllPages(parse: Clock, ms: seq<Message>, limit: nat): (pages: seq<seq<Message>>)
    requires limit >= 1
    ensures Named(ms) ==> Joined(pages) == ms
  {
    assert ms[..|ms|] == ms;
    PagesBack(parse, ms, limit, Latest(parse, ms, "*", limit), Max0(|ms| - limit))
  }

  /** The pages, last one first. */
  function Joined(pages: seq<seq<Message>>): seq<Message> {
    if pages == [] then [] else Joined(pages[1..]) + pages[0]
  }

  lemma JoinedCons(page: seq<Message>, rest: seq<seq<Message>>)
    ensures Joined([page] + rest) == Joined(rest) + page
  {
    assert ([page] + rest)[1..] == rest;
  }

  lemma Adjacent(ms: seq<Message>, i: nat, j: nat)
    requires i <= j <= |ms|
    ensures ms[..i] + ms[i..j] == ms[..j]
  {}

  predicate Repeats(ms: seq<Message>, i: nat, j: nat) {
    i < j < |ms| && ms[i].msgID == ms[j].msgID
  }

  /** With pages of one message: the message before the first one of the same id comes next. */
  lemma SingleStep(parse: Clock, ms: seq<Message>, at: nat)
    requires at < |ms|
    ensures var first := IndexOfID(ms, ms[at].msgID);
      first <= at
      && (first > 0 ==>
            PagesBack(parse, ms, 1, [ms[at]], at)
            == [[ms[at]]] + PagesBack(parse, ms, 1, [ms[first - 1]], first - 1))
      && (first == 0 ==> PagesBack(parse, ms, 1, [ms[at]], at) == [[ms[at]]] + PagesBack(parse, ms, 1, [], 0))
  {
    ResolveID(parse, ms, at);
    var first := IndexOfID(ms, ms[at].msgID);
    if first > 0 { assert ms[first - 1..first] == [ms[first - 1]]; }
  }

  /** How many messages the pages of one message show, from a position on. */
  ghost function Shown(parse: Clock, ms: seq<Message>, at: nat): nat
    requires at < |ms|
  {
    |Joined(PagesBack(parse, ms, 1, [ms[at]], at))|
  }

  lemma ShownStep(parse: Clock, ms: seq<Message>, at: nat)
    requires at < |ms|
    ensures var first := IndexOfID(ms, ms[at].msgID);
      first <= at && Shown(parse, ms, at) == if first == 0 then 1 else 1 + Shown(parse, ms, first - 1)
  {
    SingleStep(parse, ms, at);
    var first := IndexOfID(ms, ms[at].msgID);
    if first > 0 {
      JoinedCons([ms[at]], PagesBack(parse, ms, 1, [ms[first - 1]], first - 1));
    } else {
      JoinedCons([ms[at]], PagesBack(parse, ms, 1, [], 0));
    }
  }

  /** Pages of one message skip what lies between two messages of one id. */
  lemma {:induction false} SinglesSkip(parse: Clock, ms: seq<Message>, at: nat, i: nat, j: nat)
    requires at < |ms| && Repeats(ms, i, j) && j <= at
    ensures Shown(parse, ms, at) < at + 1
  {
    ShownStep(parse, ms, at);
    var first := IndexOfID(ms, ms[at].msgID);
    if first == at {
      assert j != at;
      SinglesSkip(parse, ms, at - 1, i, j);
    } else if first > 0 {
      ShownAtMost(parse, ms, first - 1);
    }
  }

  lemma ShownAtMost(parse: Clock, ms: seq<Message>, at: nat)
    requires at < |ms|
    ensures Shown(parse, ms, at) <= at + 1
  {}

  /** LATEST `*` followed by BEFORE on the first message of each page always ends.  Its pages in reverse order
      are exactly the log, for every limit, if and only if no two messages of the log have one id. */
  lemma PagingTilesIff(parse: Clock, ms: seq<Message>)
    ensures (forall limit: nat :: limit >= 1 ==> Joined(AllPages(parse, ms, limit)) == ms) <==> DistinctIDs(ms)
  {
    NamedIff(ms);
    if !DistinctIDs(ms) {
      var i: nat, j: nat :| i < j < |ms| && ms[i].msgID == ms[j].msgID;
      NotTiled(parse, ms, i, j);
    }
  }

  lemma NotTiled(parse: Clock, ms: seq<Message>, i: nat, j: nat)
    requires Repeats(ms, i, j)
    ensures Joined(AllPages(parse, ms, 1)) != ms
  {
    SinglesSkip(parse, ms, |ms| - 1, i, j);
    SingleLatest(parse, ms);
  }

  lemma SingleLatest(parse: Clock, ms: seq<Message>)
    requires ms != []
    ensures AllPages(parse, ms, 1) == PagesBack(parse, ms, 1, [ms[|ms| - 1]], |ms| - 1)
  {
    assert ms[|ms| - 1..] == [ms[|ms| - 1]];
  }

  /** Two copies of one message after another: pages of one message show only the later copy. */
  lemma BeforeSkips(parse: Clock, a: Message, x: Message, y: Message)
    requires a.msgID != x.msgID && x.msgID == y.msgID
    ensures Joined(AllPages(parse, [a, x, y], 1)) == [a, y]
  {
    var ms := [a, x, y];
    FirstShown(parse, ms);
    CopyShown(parse, ms);
    SingleLatest(parse, ms);
  }

  lemma FirstShown(parse: Clock, ms: seq<Message>)
    requires ms != []
    ensures Joined(PagesBack(parse, ms, 1, [ms[0]], 0)) == [ms[0]]
  {
    IndexUnique(ms, ms[0].msgID, 0);
    SingleStep(parse, ms, 0);
    LastPage(parse, ms);
    JoinedCons([ms[0]], [[]]);
  }

  lemma CopyShown(parse: Clock, ms: seq<Message>)
    requires |ms| == 3 && ms[0].msgID != ms[1].msgID && ms[1].msgID == ms[2].msgID
    ensures Joined(PagesBack(parse, ms, 1, [ms[2]], 2)) == Joined(PagesBack(parse, ms, 1, [ms[0]], 0)) + [ms[2]]
  {
    IndexUnique(ms, ms[2].msgID, 1);
    SingleStep(parse, ms, 2);
    JoinedCons([ms[2]], PagesBack(parse, ms, 1, [ms[0]], 0));
  }

  lemma IndexUnique(ms: seq<Message>, id: string, i: nat)
    requires i < |ms| && ms[i].msgID == id && forall j :: 0 <= j < i ==> ms[j].msgID != id
    ensures IndexOfID(ms, id) == i
  {}

  lemma LastPage(parse: Clock, ms: seq<Message>)
    ensures PagesBack(parse, ms, 1, [], 0) == [[]] && Joined([[]]) == []
  {
    assert Joined([[]]) == [] + [];
  }

  // ----- Walking the log forwards -----

  /** The reply to AFTER an id. */
  function NextPage(ms: seq<Message>, id: string, limit: nat): seq<Message> {
    var i := IndexOfID(ms, id);
    if i == |ms| then [] else AfterAt(ms, i, limit)
  }

  lemma AfterID(parse: Clock, ms: seq<Message>, id: string, limit: nat)
    ensures After(parse, ms, "msgid=" + id, limit) == NextPage(ms, id, limit)
  {
    var ref := "msgid=" + id;
    assert ref[6..] == id && ref[..6] == "msgid=";
  }

  /** The replies to AFTER a message, then to AFTER the last message of each page, up to an empty one. */
  ghost predicate IsWalk(ms: seq<Message>, limit: nat, id: string, pages: seq<seq<Message>>)
    decreases |pages|
  {
    && pages != [] && pages[0] == NextPage(ms, id, limit)
    && (if pages[0] == [] then |pages| == 1
        else IsWalk(ms, limit, pages[0][|pages[0]| - 1].msgID, pages[1..]))
  }

  function Concatenated(pages: seq<seq<Message>>): seq<Message> {
    if pages == [] then [] else pages[0] + Concatenated(pages[1..])
  }

  lemma ConcatenatedCons(page: seq<Message>, rest: seq<seq<Message>>)
    ensures Concatenated([page] + rest) == page + Concatenated(rest)
  {
    assert ([page] + rest)[1..] == rest;
  }

  lemma Meet(ms: seq<Message>, i: nat, j: nat)
    requires i <= j <= |ms|
    ensures ms[i..j] + ms[j..] == ms[i..]
  {}

  lemma PageAfter(ms: seq<Message>, at: nat, limit: nat)
    requires Named(ms) && at < |ms| && limit >= 1
    ensures NextPage(ms, ms[at].msgID, limit) == if at + 1 == |ms| then [] else ms[at + 1..Min(at + 1 + limit, |ms|)]
  {}

  lemma WalkCons(ms: seq<Message>, limit: nat, id: string, page: seq<Message>, rest: seq<seq<Message>>)
    requires page == NextPage(ms, id, limit) && page != []
    requires IsWalk(ms, limit, page[|page| - 1].msgID, rest)
    ensures IsWalk(ms, limit, id, [page] + rest)
  {
    assert ([page] + rest)[1..] == rest;
  }

  lemma WalkEnd(ms: seq<Message>, limit: nat, id: string) returns (pages: seq<seq<Message>>)
    requires NextPage(ms, id, limit) == []
    ensures IsWalk(ms, limit, id, pages) && Concatenated(pages) == []
  {
    var none: seq<Message> := [];
    pages := [none];
    assert Concatenated(pages) == none + [];
  }

  lemma ConcatenatedTile(ms: seq<Message>, at: nat, next: nat, rest: seq<seq<Message>>)
    requires at < next < |ms| && Concatenated(rest) == ms[next + 1..]
    ensures Concatenated([ms[at + 1..next + 1]] + rest) == ms[at + 1..]
  {
    ConcatenatedCons(ms[at + 1..next + 1], rest);
    Meet(ms, at + 1, next + 1);
  }

  lemma WalkStep(ms: seq<Message>, limit: nat, at: nat, next: nat, rest: seq<seq<Message>>)
    requires Named(ms) && limit >= 1 && at + 1 < |ms| && next == Min(at + limit, |ms| - 1)
    requires IsWalk(ms, limit, ms[next].msgID, rest)
    ensures IsWalk(ms, limit, ms[at].msgID, [ms[at + 1..next + 1]] + rest)
  {
    PageAfter(ms, at, limit);
    var page := ms[at + 1..next + 1];
    assert page[|page| - 1] == ms[next];
    WalkCons(ms, limit, ms[at].msgID, page, rest);
  }

  /** With distinct ids the walk ends, and its pages are exactly the rest of the log. */
  lemma {:induction false} PagesForward(ms: seq<Message>, limit: nat, at: nat) returns (pages: seq<seq<Message>>)
    requires Named(ms) && limit >= 1 && at < |ms|
    ensures IsWalk(ms, limit, ms[at].msgID, pages) && Concatenated(pages) == ms[at + 1..]
    decreases |ms| - at
  {
    if at + 1 == |ms| {
      PageAfter(ms, at, limit);
      pages := WalkEnd(ms, limit, ms[at].msgID);
    } else {
      var next := Min(at + limit, |ms| - 1);
      var rest := PagesForward(ms, limit, next);
      WalkStep(ms, limit, at, next, rest);
      ConcatenatedTile(ms, at, next, rest);
      pages := [ms[at + 1..next + 1]] + rest;
    }
  }

  /** From a message the walk ends, and its pages are exactly what follows the message. */
  ghost predicate Reads(ms: seq<Message>, limit: nat, at: nat)
    requires at < |ms|
  {
    exists pages :: IsWalk(ms, limit, ms[at].msgID, pages) && Concatenated(pages) == ms[at + 1..]
  }

  /** A walk from a message with an earlier copy returns more than what follows it. */
  lemma CopyRereads(ms: seq<Message>, i: nat, j: nat)
    requires Repeats(ms, i, j)
    ensures !Reads(ms, |ms|, j)
  {
    assert IndexOfID(ms, ms[j].msgID) <= i;
    var first := IndexOfID(ms, ms[j].msgID);
    assert first <= i;
    var page := NextPage(ms, ms[j].msgID, |ms|);
    assert |page| == |ms| - first - 1;
    forall pages | IsWalk(ms, |ms|, ms[j].msgID, pages) ensures Concatenated(pages) != ms[j + 1..] {
      assert |Concatenated(pages)| >= |pages[0]|;
    }
  }

  /** From every message and for every limit the walk ends and returns exactly what follows, if and only if
      no two messages of the log have one id. */
  lemma PagesForwardIff(ms: seq<Message>)
    ensures (forall limit: nat, at: nat :: limit >= 1 && at < |ms| ==> Reads(ms, limit, at)) <==> DistinctIDs(ms)
  {
    NamedIff(ms);
    if DistinctIDs(ms) {
      forall limit: nat, at: nat | limit >= 1 && at < |ms| ensures Reads(ms, limit, at) {
        var pages := PagesForward(ms, limit, at);
      }
    } else {
      var i: nat, j: nat :| i < j < |ms| && ms[i].msgID == ms[j].msgID;
      CopyRereads(ms, i, j);
    }
  }

  /** Two copies of one message after another: with pages of one message AFTER returns the later copy again
      and again, so no walk from either ends. */
  lemma {:induction false} AfterRepeats(ms: seq<Message>, i: nat, pages: seq<seq<Message>>)
    requires Repeats(ms, i, i + 1) && IndexOfID(ms, ms[i].msgID) == i
    ensures NextPage(ms, ms[i].msgID, 1) == [ms[i + 1]]
    ensures !IsWalk(ms, 1, ms[i].msgID, pages)
    decreases |pages|
  {
    assert ms[i + 1..i + 2] == [ms[i + 1]];
    if pages != [] { AfterRepeats(ms, i, pages[1..]); }
  }

  // ----- The other requests, in terms of one another -----

  /** AROUND a message is half a page BEFORE it, the message, and the other half AFTER it. */
  lemma AroundSplits(parse: Clock, ms: seq<Message>, ref: string, i: nat, limit: nat)
    requires Resolve(parse, ms, ref) == Some(i) && i < |ms|
    ensures Around(parse, ms, ref, limit)
         == Before(parse, ms, ref, limit / 2) + [ms[i]] + After(parse, ms, ref, limit - limit / 2)
  {
    ThreeParts(ms, Max0(i - limit / 2), i, Min(i + (limit - limit / 2) + 1, |ms|));
  }

  lemma ThreeParts(ms: seq<Message>, lo: nat, at: nat, hi: nat)
    requires lo <= at < hi <= |ms|
    ensures ms[lo..hi] == ms[lo..at] + [ms[at]] + ms[at + 1..hi]
  {}

  /** BETWEEN two references, given in either order, is what comes AFTER the first and before the second. */
  lemma BetweenRefs(parse: Clock, ms: seq<Message>, a: string, b: string, i: nat, j: nat, limit: nat)
    requires Resolve(parse, ms, a) == Some(i) && Resolve(parse, ms, b) == Some(j) && i < j
    ensures Between(parse, ms, a, b, limit) == After(parse, ms, a, Min(limit, j - i - 1))
    ensures Between(parse, ms, b, a, limit) == Between(parse, ms, a, b, limit)
  {
    BetweenPositions(ms, i, j, limit);
  }

  lemma BetweenPositions(ms: seq<Message>, i: nat, j: nat, limit: nat)
    requires i < j <= |ms|
    ensures BetweenAt(ms, i, j, limit) == BetweenAt(ms, j, i, limit) == AfterAt(ms, i, Min(limit, j - i - 1))
  {}

  // ----- Ranges given by timestamps -----

  /** The messages from `lo` on, but before `hi`. */
  function Within(ms: seq<Message>, lo: int, hi: int): seq<Message> {
    if ms == [] then []
    else if lo <= ms[0].time < hi then [ms[0]] + Within(ms[1..], lo, hi)
    else Within(ms[1..], lo, hi)
  }

  lemma TailSlice(ms: seq<Message>, i: nat, j: nat)
    requires ms != [] && i <= j < |ms|
    ensures ms[1..][i..j] == ms[i + 1..j + 1]
  {}

  lemma HeadSlice(ms: seq<Message>, j: nat)
    requires ms != [] && j < |ms|
    ensures [ms[0]] + ms[1..][0..j] == ms[0..j + 1]
  {}

  lemma FirstAtHead(ms: seq<Message>, t: int)
    requires Sorted(ms) && ms != []
    ensures Sorted(ms[1..])
    ensures FirstAtOrAfter(ms, t) == if ms[0].time >= t then 0 else FirstAtOrAfter(ms[1..], t) + 1
    ensures ms[0].time >= t ==> FirstAtOrAfter(ms[1..], t) == 0
  {
    assert |ms| > 1 ==> ms[0].time <= ms[1].time;
  }

  lemma {:induction false} WithinSorted(ms: seq<Message>, lo: int, hi: int)
    requires Sorted(ms) && lo <= hi
    ensures FirstAtOrAfter(ms, lo) <= FirstAtOrAfter(ms, hi)
    ensures Within(ms, lo, hi) == ms[FirstAtOrAfter(ms, lo)..FirstAtOrAfter(ms, hi)]
  {
    if ms != [] {
      FirstAtHead(ms, lo);
      FirstAtHead(ms, hi);
      WithinSorted(ms[1..], lo, hi);
      if ms[0].time < lo {
        TailSlice(ms, FirstAtOrAfter(ms[1..], lo), FirstAtOrAfter(ms[1..], hi));
      } else if ms[0].time < hi {
        HeadSlice(ms, FirstAtOrAfter(ms[1..], hi));
      }
    }
  }

  function Take(ms: seq<Message>, n: nat): seq<Message> { ms[..Min(n, |ms|)] }

  /** A range given by two timestamps, in either order: BETWEEN drops the first message at or after the
      earlier one, and returns as much as fits of those that follow it before the later one. */
  lemma BetweenTimestamps(parse: Clock, ms: seq<Message>, from: string, to: string, limit: nat)
    requires parse(from).Some? && parse(to).Some? && Sorted(ms)
    ensures var s, t := parse(from).value, parse(to).value;
      var range := Within(ms, Min(s, t), if s > t then s else t);
      Between(parse, ms, "timestamp=" + from, "timestamp=" + to, limit)
      == if range == [] then [] else Take(range[1..], limit)
  {
    ResolveTimestamp(parse, ms, from);
    ResolveTimestamp(parse, ms, to);
    BetweenTimes(ms, parse(from).value, parse(to).value, limit);
  }

  lemma BetweenTimes(ms: seq<Message>, s: int, t: int, limit: nat)
    requires Sorted(ms)
    ensures var range := Within(ms, Min(s, t), if s > t then s else t);
      BetweenAt(ms, FirstAtOrAfter(ms, s), FirstAtOrAfter(ms, t), limit)
      == if range == [] then [] else Take(range[1..], limit)
  {
    var lo, hi := Min(s, t), if s > t then s else t;
    WithinSorted(ms, lo, hi);
    PastFirst(ms, FirstAtOrAfter(ms, lo), FirstAtOrAfter(ms, hi), limit);
  }

  lemma PastFirst(ms: seq<Message>, i: nat, j: nat, limit: nat)
    requires i <= j <= |ms|
    ensures BetweenAt(ms, i, j, limit) == BetweenAt(ms, j, i, limit)
    ensures BetweenAt(ms, i, j, limit) == if ms[i..j] == [] then [] else Take(ms[i..j][1..], limit)
  {
    if i < j {
      assert ms[i..j][1..] == ms[i + 1..j];
      assert Take(ms[i + 1..j], limit) == ms[i + 1..Min(j, i + 1 + limit)];
    }
  }

  /** The first message of a range, and no other, is exactly at the earlier bound. */
  predicate OnlyFirstAt(range: seq<Message>, lo: int) {
    range == [] || (range[0].time == lo && (|range| > 1 ==> range[1].time > lo))
  }

  /** For every limit, BETWEEN two timestamps returns the messages `s`, as many as fit. */
  ghost predicate PagesAre(parse: Clock, ms: seq<Message>, from: string, to: string, s: seq<Message>) {
    forall limit: nat :: Between(parse, ms, "timestamp=" + from, "timestamp=" + to, limit) == Take(s, limit)
  }

  lemma PagesAlike(parse: Clock, ms: seq<Message>, from: string, to: string, a: seq<Message>, b: seq<Message>)
    requires PagesAre(parse, ms, from, to, a)
    ensures PagesAre(parse, ms, from, to, b) <==> a == b
  {
    if PagesAre(parse, ms, from, to, b) {
      var page := Between(parse, ms, "timestamp=" + from, "timestamp=" + to, |a| + |b|);
      assert page == Take(a, |a| + |b|) == a;
      assert page == Take(b, |a| + |b|) == b;
    }
  }

  lemma PagesPastFirst(parse: Clock, ms: seq<Message>, from: string, to: string)
    requires parse(from).Some? && parse(to).Some? && Sorted(ms)
    ensures var s, t := parse(from).value, parse(to).value;
      var range := Within(ms, Min(s, t), if s > t then s else t);
      PagesAre(parse, ms, from, to, if range == [] then [] else range[1..])
  {
    forall limit: nat { BetweenTimestamps(parse, ms, from, to, limit); }
  }

  /** Times being whole numbers, the messages strictly between two bounds are those from one past the
      earlier.  BETWEEN returns exactly these, so excludes just the messages at the bounds, if and only if
      exactly one message is at the earlier bound, or the range is empty. */
  lemma BetweenExclusiveIff(parse: Clock, ms: seq<Message>, from: string, to: string)
    requires parse(from).Some? && parse(to).Some? && Sorted(ms)
    ensures var s, t := parse(from).value, parse(to).value;
      var lo, hi := Min(s, t), if s > t then s else t;
      PagesAre(parse, ms, from, to, Within(ms, lo + 1, hi)) <==> OnlyFirstAt(Within(ms, lo, hi), lo)
  {
    var s, t := parse(from).value, parse(to).value;
    var lo, hi := Min(s, t), if s > t then s else t;
    var range := Within(ms, lo, hi);
    PagesPastFirst(parse, ms, from, to);
    PagesAlike(parse, ms, from, to, if range == [] then [] else range[1..], Within(ms, lo + 1, hi));
    StrictIff(ms, lo, hi);
  }

  /** Two messages at the earlier bound: the second is returned.  One after it: it is not. */
  lemma BetweenMisses(parse: Clock, a: Message, b: Message, from: string, to: string)
    requires parse(from) == Some(10) && parse(to) == Some(20)
    ensures a.time == 10 && b.time == 10 ==> Between(parse, [a, b], "timestamp=" + from, "timestamp=" + to, 1) == [b]
    ensures a.time == 15 && b.time == 16 ==> Between(parse, [a, b], "timestamp=" + from, "timestamp=" + to, 2) == [b]
  {
    ResolveTimestamp(parse, [a, b], from);
    ResolveTimestamp(parse, [a, b], to);
    assert [a, b][1..] == [b] && [b][1..] == [] && [a, b][1..2] == [b];
  }

  lemma StrictIff(ms: seq<Message>, lo: int, hi: int)
    requires Sorted(ms) && lo <= hi
    ensures var range, strict := Within(ms, lo, hi), Within(ms, lo + 1, hi);
      strict == (if range == [] then [] else range[1..]) <==> OnlyFirstAt(range, lo)
  {
    WithinSorted(ms, lo, hi);
    var i, j := FirstAtOrAfter(ms, lo), FirstAtOrAfter(ms, hi);
    if lo == hi {
      NoneWithin(ms, lo + 1, hi);
    } else {
      WithinSorted(ms, lo + 1, hi);
      WithinSorted(ms, lo, lo + 1);
      SliceIff(ms, i, FirstAtOrAfter(ms, lo + 1), j, lo);
    }
  }

  lemma {:induction false} NoneWithin(ms: seq<Message>, lo: int, hi: int)
    requires lo >= hi
    ensures Within(ms, lo, hi) == []
  {
    if ms != [] { NoneWithin(ms[1..], lo, hi); }
  }

  lemma SliceIff(ms: seq<Message>, i: nat, k: nat, j: nat, lo: int)
    requires i <= k <= j <= |ms|
    requires forall x :: i <= x < k ==> ms[x].time == lo
    requires forall x :: k <= x < j ==> ms[x].time > lo
    ensures ms[k..j] == (if ms[i..j] == [] then [] else ms[i..j][1..]) <==> OnlyFirstAt(ms[i..j], lo)
  {
    if i < j {
      assert ms[i..j][1..] == ms[i + 1..j] && |ms[k..j]| == j - k && |ms[i + 1..j]| == j - i - 1;
      assert ms[i..j][0] == ms[i];
      if j > i + 1 { assert ms[i..j][1] == ms[i + 1]; }
    }
  }

  lemma ResolveTimestamp(parse: Clock, ms: seq<Message>, ts: string)
    requires parse(ts).Some?
    ensures Resolve(parse, ms, "timestamp=" + ts) == Some(FirstAtOrAfter(ms, parse(ts).value))
  {
    var ref := "timestamp=" + ts;
    assert ref[..10] == "timestamp=" && ref[10..] == ts;
    assert ref[0] != 'm' && "msgid="[0] == 'm';
  }
}
