/** The channel MODE interpreter (main.go, evMode.handle) and the reader of the line it emits.

    Members are known by their nick.  Looking up a client, scanning a number, folding case, the
    acting client's prefix and the clock are parameters of the command.
 */
module Modes {
  import opened Text
  import Decimal

  datatype Ban = Ban(mask: string, who: string, when: int)

  datatype ChanState = ChanState(
    flags: set<char>, key: string, limit: int, bans: map<string, Ban>, members: map<string, string>)

  /** `resolve` gives the current nick of the client a parameter names, if there is one; `scan` is
      the number scanned from a parameter, 0 when there is none. */
  datatype Env = Env(
    resolve: string -> Option<string>, scan: string -> int, fold: string -> string,
    channel: string, who: string, now: int)

  datatype Reply = NotOnChannel(nick: string) | BanList(bans: map<string, Ban>) | UnknownMode(c: char)

  datatype Outcome =
    | ModeIs(flags: set<char>, keyed: bool, args: seq<string>)
    | Lists(letters: string, bans: map<string, Ban>)
    | NotOperator
    | Done(delta: string, params: seq<string>, replies: seq<Reply>, sent: Option<Sent>)

  /** The line broadcast to the channel, and the changes relayed to other servers. */
  datatype Sent = Sent(line: string, relayed: string)

  const SIMPLE_FLAGS: set<char> := {'i', 'm', 'n', 'p', 's', 't'}
  const MODE_LETTERS: set<char> := {'o', 'v', 'b', 'k', 'l'} + SIMPLE_FLAGS

  /** No member holds a mode letter twice. */
  predicate WellFormed(st: ChanState) {
    st.limit >= 0 && forall n :: n in st.members ==> Distinct(st.members[n])
  }

  function RemoveFirst(s: string, c: char): string {
    var i := Find(s, c);
    if i == |s| then s else s[..i] + s[i + 1..]
  }

  /** The interpreter's loop variables, the channel included. */
  datatype Run = Run(
    st: ChanState, idx: nat, add: bool,
    changes: seq<string>, changeParams: seq<string>, replies: seq<Reply>)
  {
    function Reject(r: Reply): Run { this.(replies := replies + [r]) }
    function Change(st': ChanState, c: char): Run {
      this.(st := st', changes := changes + [[if add then '+' else '-', c]])
    }
    function ChangeWith(st': ChanState, c: char, p: string): Run {
      Change(st', c).(changeParams := changeParams + [p])
    }
  }

  /** `o` and `v`: change a member's status, unless it is that already. */
  function StepStatus(e: Env, r: Run, c: char, p: string): Run {
    match e.resolve(p)
    case None => r
    case Some(nick) =>
      if nick !in r.st.members then r.Reject(NotOnChannel(nick))
      else
        var modes := r.st.members[nick];
        if r.add && c !in modes then
          r.ChangeWith(r.st.(members := r.st.members[nick := modes + [c]]), c, nick)
        else if !r.add && c in modes then
          r.ChangeWith(r.st.(members := r.st.members[nick := RemoveFirst(modes, c)]), c, nick)
        else r
  }

  function StepBan(e: Env, r: Run, mask: string): Run {
    if r.add then
      r.ChangeWith(r.st.(bans := r.st.bans[e.fold(mask) := Ban(mask, e.who, e.now)]), 'b', mask)
    else
      r.ChangeWith(r.st.(bans := r.st.bans - {e.fold(mask)}), 'b', mask)
  }

  /** One character of the mode string. */
  function Step(e: Env, ps: seq<string>, r: Run, c: char): Run {
    var r' := r.(idx := r.idx + 1);
    if c == '+' then r.(add := true)
    else if c == '-' then r.(add := false)
    else if c == 'o' || c == 'v' then
      if r.idx >= |ps| then r else StepStatus(e, r', c, ps[r.idx])
    else if c == 'b' then
      if r.idx >= |ps| then r.Reject(BanList(r.st.bans)) else StepBan(e, r', ps[r.idx])
    else if c == 'k' then
      if !r.add then r.ChangeWith(r.st.(key := ""), 'k', "*")
      else if r.idx >= |ps| then r
      else r'.ChangeWith(r.st.(key := ps[r.idx]), 'k', ps[r.idx])
    else if c == 'l' then
      if !r.add then r.Change(r.st.(limit := 0), 'l')
      else if r.idx >= |ps| then r
      else
        var limit := e.scan(ps[r.idx]);
        if limit > 0 then r'.ChangeWith(r.st.(limit := limit), 'l', Decimal.Print(limit)) else r'
    else if c in SIMPLE_FLAGS then
      if r.add && c !in r.st.flags then r.Change(r.st.(flags := r.st.flags + {c}), c)
      else if !r.add && c in r.st.flags then r.Change(r.st.(flags := r.st.flags - {c}), c)
      else r
    else r.Reject(UnknownMode(c))
  }

  function Interpret(e: Env, ps: seq<string>, st: ChanState, modeStr: string): Run {
    if modeStr == "" then Run(st, 0, true, [], [], [])
    else Step(e, ps, Interpret(e, ps, st, modeStr[..|modeStr| - 1]), modeStr[|modeStr| - 1])
  }

  predicate IsChange(x: string) {
    |x| == 2 && x[0] in {'+', '-'} && x[1] in MODE_LETTERS
  }

  /** Writes each sign only where it differs from the one before. */
  function Compress(changes: seq<string>, dir: string): string
    requires forall i :: 0 <= i < |changes| ==> IsChange(changes[i])
  {
    if changes == [] then ""
    else
      assert IsChange(changes[0]);
      var d, mode := changes[0][..1], changes[0][1..];
      (if d != dir then d else "") + mode + Compress(changes[1..], d)
  }

  predicate IsQuery(modeStr: string) {
    forall i :: 0 <= i < |modeStr| ==> modeStr[i] in {'+', '-'}
  }

  predicate IsListQuery(modeStr: string, ps: seq<string>) {
    ps == [] && modeStr != "" && forall i :: 0 <= i < |modeStr| ==> modeStr[i] in {'b', 'e', 'I', '+', '-'}
  }

  predicate IsOp(st: ChanState, client: string) {
    client in st.members && 'o' in st.members[client]
  }

  // ----- The reader -----

  /** What a client knows of a channel. */
  datatype View = View(
    flags: set<char>, key: string, limit: int, bans: set<string>, status: map<string, set<char>>)

  function ViewOf(st: ChanState): View {
    View(st.flags, st.key, st.limit, st.bans.Keys,
         map n | n in st.members :: Elements(st.members[n]))
  }

  /** A reader part-way through a mode string: the current sign and the parameters left. */
  datatype Reader = Reader(view: View, add: bool, rest: seq<string>)

  /** Whether a letter takes a parameter, by `CHANMODES=b,k,l,imnpst` and `PREFIX=(ov)`. */
  predicate TakesParam(c: char, add: bool) {
    c in {'o', 'v', 'b', 'k'} || (c == 'l' && add)
  }

  function Apply(fold: string -> string, v: View, add: bool, c: char, p: string): View {
    if c in {'o', 'v'} then
      if p !in v.status then v
      else v.(status := v.status[p := if add then v.status[p] + {c} else v.status[p] - {c}])
    else if c == 'b' then v.(bans := if add then v.bans + {fold(p)} else v.bans - {fold(p)})
    else if c == 'k' then v.(key := if add then p else "")
    else if c == 'l' then v.(limit := if add then Decimal.Parse(p) else 0)
    else v.(flags := if add then v.flags + {c} else v.flags - {c})
  }

  function ReadChar(fold: string -> string, r: Reader, c: char): Option<Reader> {
    if c == '+' then Some(r.(add := true))
    else if c == '-' then Some(r.(add := false))
    else if TakesParam(c, r.add) then
      if r.rest == [] then None
      else Some(Reader(Apply(fold, r.view, r.add, c, r.rest[0]), r.add, r.rest[1..]))
    else if c == 'l' || c in SIMPLE_FLAGS then Some(r.(view := Apply(fold, r.view, r.add, c, "")))
    else None
  }

  /** Reads a mode string; None when a letter is unknown or lacks its parameter. */
  function Read(fold: string -> string, r: Reader, s: string): Option<Reader>
    decreases s
  {
    if s == "" then Some(r)
    else match ReadChar(fold, r, s[0])
      case None => None
      case Some(r') => Read(fold, r', s[1..])
  }

  lemma {:induction false} ReadAppend(fold: string -> string, r: Reader, a: string, b: string)
    ensures Read(fold, r, a + b)
         == match Read(fold, r, a) case None => None case Some(r') => Read(fold, r', b)
    decreases a
  {
    if a == "" {
      assert a + b == b;
    } else {
      assert (a + b)[0] == a[0] && (a + b)[1..] == a[1..] + b;
      var r' := ReadChar(fold, r, a[0]);
      if r'.Some? { ReadAppend(fold, r'.value, a[1..], b); }
    }
  }

  function Flat(changes: seq<string>): string {
    if changes == [] then "" else Flat(changes[..|changes| - 1]) + changes[|changes| - 1]
  }

  lemma {:induction false} FlatCons(x: string, changes: seq<string>)
    ensures Flat([x] + changes) == x + Flat(changes)
  {
    var all := [x] + changes;
    if changes == [] {
      assert all[..0] == [] && "" + x == x + "";
    } else {
      assert all[..|all| - 1] == [x] + changes[..|changes| - 1];
      FlatCons(x, changes[..|changes| - 1]);
      assert (x + Flat(changes[..|changes| - 1])) + changes[|changes| - 1] == x + Flat(changes);
    }
  }

  function Sign(add: bool): string { if add then "+" else "-" }

  lemma CompressHead(changes: seq<string>, dir: string)
    requires changes != [] && forall i :: 0 <= i < |changes| ==> IsChange(changes[i])
    ensures IsChange(changes[0])
    ensures var d, mode := changes[0][..1], changes[0][1..];
      Compress(changes, dir) == (if d != dir then d else "") + (mode + Compress(changes[1..], d))
  {}

  /** Reading one change and then the rest. */
  function ReadThen(fold: string -> string, r: Reader, x: string, tail: string): Option<Reader>
    requires IsChange(x)
  {
    match Read(fold, r.(add := x[0] == '+'), x[1..])
    case None => None
    case Some(r2) => Read(fold, r2, tail)
  }

  lemma LetterKeepsSign(fold: string -> string, r: Reader, x: string)
    requires IsChange(x)
    ensures var r2 := Read(fold, r, x[1..]); r2.Some? ==> r2.value.add == r.add
  {
    assert x[1..][1..] == "" && x[1..][0] == x[1];
  }

  lemma ReadSigned(fold: string -> string, r: Reader, x: string, tail: string)
    requires IsChange(x)
    ensures Read(fold, r, x[..1] + (x[1..] + tail)) == Read(fold, r.(add := x[0] == '+'), x[1..] + tail)
  {
    assert Read(fold, r, x[..1]) == Some(r.(add := x[0] == '+'));
    ReadAppend(fold, r, x[..1], x[1..] + tail);
  }

  lemma FlatReads(fold: string -> string, r: Reader, x: string, rest: seq<string>, changes: seq<string>)
    requires IsChange(x) && changes != [] && x == changes[0] && rest == changes[1..]
    ensures Read(fold, r, Flat(changes)) == ReadThen(fold, r, x, Flat(rest))
  {
    FlatHead(x, rest, changes);
    ReadSigned(fold, r, x, Flat(rest));
    ReadAppend(fold, r.(add := x[0] == '+'), x[1..], Flat(rest));
  }

  lemma GroupReads(fold: string -> string, r: Reader, changes: seq<string>, dir: string)
    requires changes != [] && forall i :: 0 <= i < |changes| ==> IsChange(changes[i])
    requires dir == "" || dir == Sign(r.add)
    ensures IsChange(changes[0])
    ensures Read(fold, r, Compress(changes, dir)) == ReadThen(fold, r, changes[0], Compress(changes[1..], changes[0][..1]))
  {
    var x := changes[0];
    CompressHead(changes, dir);
    ReadGroup(fold, r, x, dir, Compress(changes[1..], x[..1]));
    ReadAppend(fold, r.(add := x[0] == '+'), x[1..], Compress(changes[1..], x[..1]));
  }

  /** Grouping the signs does not change what is read. */
  lemma {:induction false} CompressReads(fold: string -> string, r: Reader, changes: seq<string>, dir: string)
    requires forall i :: 0 <= i < |changes| ==> IsChange(changes[i])
    requires dir == "" || dir == Sign(r.add)
    ensures Read(fold, r, Compress(changes, dir)) == Read(fold, r, Flat(changes))
    decreases |changes|
  {
    if changes != [] {
      var x, rest := changes[0], changes[1..];
      FlatReads(fold, r, x, rest, changes);
      GroupReads(fold, r, changes, dir);
      LetterKeepsSign(fold, r.(add := x[0] == '+'), x);
      var r2 := Read(fold, r.(add := x[0] == '+'), x[1..]);
      if r2.Some? { CompressReads(fold, r2.value, rest, x[..1]); }
    }
  }

  lemma FlatHead(x: string, rest: seq<string>, changes: seq<string>)
    requires IsChange(x) && changes != [] && x == changes[0] && rest == changes[1..]
    ensures Flat(changes) == x[..1] + (x[1..] + Flat(rest))
  {
    assert changes == [x] + rest && x == x[..1] + x[1..];
    FlatCons(x, rest);
  }

  /** A sign is left out only where it is the current one. */
  lemma ReadGroup(fold: string -> string, r: Reader, x: string, dir: string, tail: string)
    requires IsChange(x) && (dir == "" || dir == Sign(r.add))
    ensures Read(fold, r, (if x[..1] != dir then x[..1] else "") + (x[1..] + tail))
         == Read(fold, r.(add := x[0] == '+'), x[1..] + tail)
  {
    if x[..1] == dir {
      assert "" + (x[1..] + tail) == x[1..] + tail && r.add == (x[0] == '+');
    } else {
      ReadSigned(fold, r, x, tail);
    }
  }

  function LastSign(changes: seq<string>): bool {
    changes == [] || (changes[|changes| - 1] != "" && changes[|changes| - 1][0] == '+')
  }

  /** Reading the changes so far takes the view from `st0` to the current state and consumes exactly
      the parameters emitted so far. */
  ghost predicate Tracks(fold: string -> string, st0: ChanState, r: Run) {
    && (forall i :: 0 <= i < |r.changes| ==> IsChange(r.changes[i]))
    && forall rest :: Read(fold, Reader(ViewOf(st0), true, r.changeParams + rest), Flat(r.changes))
                   == Some(Reader(ViewOf(r.st), LastSign(r.changes), rest))
  }

  lemma ReadChange(fold: string -> string, r: Reader, add: bool, c: char, ps: seq<string>, rest: seq<string>)
    requires c in MODE_LETTERS
    requires if TakesParam(c, add) then |ps| == 1 else ps == []
    requires r.rest == ps + rest
    ensures Read(fold, r, [if add then '+' else '-', c])
         == Some(Reader(Apply(fold, r.view, add, c, if ps == [] then "" else ps[0]), add, rest))
  {
    var x := [if add then '+' else '-', c];
    var signed := r.(add := add);
    assert ReadChar(fold, r, x[0]) == Some(signed);
    assert x[1..] == [c] && [c][1..] == "";
    assert Read(fold, r, x) == Read(fold, signed, [c]);
    if ps != [] { assert (ps + rest)[1..] == rest; } else { assert ps + rest == rest; }
    var done := Reader(Apply(fold, r.view, add, c, if ps == [] then "" else ps[0]), add, rest);
    assert ReadChar(fold, signed, [c][0]) == Some(done);
    assert Read(fold, done, "") == Some(done);
  }

  lemma Extend(fold: string -> string, st0: ChanState, r: Run, r': Run, c: char, ps: seq<string>)
    requires Tracks(fold, st0, r)
    requires c in MODE_LETTERS
    requires if TakesParam(c, r.add) then |ps| == 1 else ps == []
    requires r'.changes == r.changes + [[if r.add then '+' else '-', c]]
    requires r'.changeParams == r.changeParams + ps
    requires Apply(fold, ViewOf(r.st), r.add, c, if ps == [] then "" else ps[0]) == ViewOf(r'.st)
    ensures Tracks(fold, st0, r')
  {
    var x := [if r.add then '+' else '-', c];
    assert r'.changes[..|r.changes|] == r.changes;
    forall rest
      ensures Read(fold, Reader(ViewOf(st0), true, r'.changeParams + rest), Flat(r'.changes))
           == Some(Reader(ViewOf(r'.st), LastSign(r'.changes), rest))
    {
      var start := Reader(ViewOf(st0), true, r'.changeParams + rest);
      assert r'.changeParams + rest == r.changeParams + (ps + rest);
      ReadAppend(fold, start, Flat(r.changes), x);
      ReadChange(fold, Reader(ViewOf(r.st), LastSign(r.changes), ps + rest), r.add, c, ps, rest);
    }
  }

  lemma Unchanged(fold: string -> string, st0: ChanState, r: Run, r': Run)
    requires Tracks(fold, st0, r)
    requires r'.st == r.st && r'.changes == r.changes && r'.changeParams == r.changeParams
    ensures Tracks(fold, st0, r')
  {
    forall rest
      ensures Read(fold, Reader(ViewOf(st0), true, r'.changeParams + rest), Flat(r'.changes))
           == Some(Reader(ViewOf(r'.st), LastSign(r'.changes), rest))
    {
      assert Read(fold, Reader(ViewOf(st0), true, r.changeParams + rest), Flat(r.changes))
          == Some(Reader(ViewOf(r.st), LastSign(r.changes), rest));
    }
  }

  lemma RemoveFirstFacts(s: string, c: char)
    requires Distinct(s)
    ensures Distinct(RemoveFirst(s, c)) && Elements(RemoveFirst(s, c)) == Elements(s) - {c}
  {
    var i, t := Find(s, c), RemoveFirst(s, c);
    if i < |s| {
      forall x ensures x in t <==> x in s && x != c {
        if x in s && x != c {
          var j :| 0 <= j < |s| && s[j] == x;
          assert t[if j < i then j else j - 1] == x;
        }
        if x in t {
          var j :| 0 <= j < |t| && t[j] == x;
          assert s[if j < i then j else j + 1] == x;
        }
      }
    }
  }

  lemma StatusView(st: ChanState, nick: string, modes: string)
    requires nick in st.members
    ensures ViewOf(st.(members := st.members[nick := modes]))
         == ViewOf(st).(status := ViewOf(st).status[nick := Elements(modes)])
  {
    assert ViewOf(st.(members := st.members[nick := modes])).status == ViewOf(st).status[nick := Elements(modes)];
  }

  lemma StatusDone(e: Env, r: Run, c: char, p: string)
    requires WellFormed(r.st) && c in {'o', 'v'}
    ensures ViewOf(StepStatus(e, r, c, p).st)
         == if e.resolve(p).Some? then Apply(e.fold, ViewOf(r.st), r.add, c, e.resolve(p).value) else ViewOf(r.st)
  {
    if e.resolve(p).Some? && e.resolve(p).value in r.st.members {
      var nick := e.resolve(p).value;
      var modes, after := r.st.members[nick], StepStatus(e, r, c, p).st;
      assert after == r.st.(members := r.st.members[nick := after.members[nick]]);
      StatusLetters(modes, after.members[nick], c, r.add);
      StatusView(r.st, nick, after.members[nick]);
    }
  }

  lemma StatusLetters(modes: string, modes': string, c: char, add: bool)
    requires Distinct(modes)
    requires modes' == if add && c !in modes then modes + [c] else if !add && c in modes then RemoveFirst(modes, c) else modes
    ensures Elements(modes') == if add then Elements(modes) + {c} else Elements(modes) - {c}
  {
    RemoveFirstFacts(modes, c);
    ElementsSnoc(modes, c);
    if c in modes { assert c in Elements(modes); } else { assert c !in Elements(modes); }
  }

  lemma ElementsSnoc(s: string, c: char)
    ensures Elements(s + [c]) == Elements(s) + {c}
  {
    forall x ensures x in Elements(s + [c]) <==> x in Elements(s) + {c} {
      assert x in s + [c] <==> x in s || x == c;
    }
  }

  lemma StatusFormed(e: Env, r: Run, c: char, p: string)
    requires WellFormed(r.st) && c in {'o', 'v'}
    ensures WellFormed(StepStatus(e, r, c, p).st)
  {
    if e.resolve(p).Some? && e.resolve(p).value in r.st.members { RemoveFirstFacts(r.st.members[e.resolve(p).value], c); }
  }

  lemma StatusTracks(e: Env, st0: ChanState, r: Run, c: char, p: string)
    requires Tracks(e.fold, st0, r) && WellFormed(r.st) && c in {'o', 'v'}
    ensures Tracks(e.fold, st0, StepStatus(e, r, c, p)) && WellFormed(StepStatus(e, r, c, p).st)
  {
    var r' := StepStatus(e, r, c, p);
    StatusFormed(e, r, c, p);
    if r'.changes == r.changes {
      Unchanged(e.fold, st0, r, r');
    } else {
      StatusDone(e, r, c, p);
      Extend(e.fold, st0, r, r', c, [e.resolve(p).value]);
    }
  }

  lemma BanTracks(e: Env, st0: ChanState, r: Run, mask: string)
    requires Tracks(e.fold, st0, r)
    ensures Tracks(e.fold, st0, StepBan(e, r, mask))
  {
    var r' := StepBan(e, r, mask);
    assert ViewOf(r'.st).bans
        == if r.add then r.st.bans.Keys + {e.fold(mask)} else r.st.bans.Keys - {e.fold(mask)};
    Extend(e.fold, st0, r, r', 'b', [mask]);
  }

  lemma StepTracks(e: Env, ps: seq<string>, st0: ChanState, r: Run, c: char)
    requires Tracks(e.fold, st0, r) && WellFormed(r.st)
    ensures Tracks(e.fold, st0, Step(e, ps, r, c)) && WellFormed(Step(e, ps, r, c).st)
    ensures |Step(e, ps, r, c).changes| >= |r.changes|
    ensures Step(e, ps, r, c).changes == r.changes ==> Step(e, ps, r, c).st == r.st
  {
    var r' := Step(e, ps, r, c);
    var next := r.(idx := r.idx + 1);
    if r'.st == r.st && r'.changes == r.changes && r'.changeParams == r.changeParams {
      Unchanged(e.fold, st0, r, r');
    } else {
      Unchanged(e.fold, st0, r, next);
      if c in {'o', 'v'} {
        StatusTracks(e, st0, next, c, ps[r.idx]);
      } else if c == 'b' {
        BanTracks(e, st0, next, ps[r.idx]);
      } else if c == 'l' && r.add {
        Decimal.ParsePrint(e.scan(ps[r.idx]));
        Extend(e.fold, st0, next, r', c, [Decimal.Print(e.scan(ps[r.idx]))]);
      } else {
        Extend(e.fold, st0, r, r', c, if c == 'k' then [if r.add then ps[r.idx] else "*"] else []);
      }
    }
  }

  lemma {:induction false} InterpretTracks(e: Env, ps: seq<string>, st: ChanState, modeStr: string)
    requires WellFormed(st)
    ensures var r := Interpret(e, ps, st, modeStr);
      Tracks(e.fold, st, r) && WellFormed(r.st) && (r.changes == [] ==> r.st == st)
  {
    if modeStr == "" {
      forall rest: seq<string> ensures [] + rest == rest {}
    } else {
      InterpretTracks(e, ps, st, modeStr[..|modeStr| - 1]);
      StepTracks(e, ps, st, Interpret(e, ps, st, modeStr[..|modeStr| - 1]), modeStr[|modeStr| - 1]);
    }
  }

  /** The emitted delta is exact: a reader of the grouped mode string and its parameters moves from
      what it knew of the channel to what the channel has become, and uses up every parameter. */
  lemma DeltaExact(e: Env, ps: seq<string>, st: ChanState, modeStr: string)
    requires WellFormed(st)
    ensures var r := Interpret(e, ps, st, modeStr);
      && (forall i :: 0 <= i < |r.changes| ==> IsChange(r.changes[i]))
      && Read(e.fold, Reader(ViewOf(st), true, r.changeParams), Compress(r.changes, ""))
         == Some(Reader(ViewOf(r.st), LastSign(r.changes), []))
      && (r.changes == [] ==> r.st == st)
  {
    var r := Interpret(e, ps, st, modeStr);
    InterpretTracks(e, ps, st, modeStr);
    assert r.changeParams + [] == r.changeParams;
    CompressReads(e.fold, Reader(ViewOf(st), true, r.changeParams), r.changes, "");
  }

  /** The line of a change: its parameters are joined as they are. */
  function ModeLine(prefix: string, channel: string, delta: string, params: seq<string>): string {
    ":" + prefix + " MODE " + Join([channel, delta] + params, ' ')
  }

  function Relayed(delta: string, params: seq<string>): string {
    if params == [] then delta else delta + " " + Join(params, ' ')
  }

  function SentFor(e: Env, changes: seq<string>, delta: string, params: seq<string>): Option<Sent> {
    if changes == [] then None else Some(Sent(ModeLine(e.who, e.channel, delta, params), Relayed(delta, params)))
  }

  /** The whole MODE command: a query, a list query, a refusal, or changes with their delta. */
  function Handle(e: Env, ps: seq<string>, st: ChanState, client: string, modeStr: string): (ChanState, Outcome)
    requires WellFormed(st)
  {
    if IsQuery(modeStr) then
      (st, ModeIs(st.flags, st.key != "", KeyArgs(st, client) + LimitArgs(st)))
    else if IsListQuery(modeStr, ps) then (st, Lists(modeStr, st.bans))
    else if !IsOp(st, client) then (st, NotOperator)
    else
      var r := Interpret(e, ps, st, modeStr);
      InterpretTracks(e, ps, st, modeStr);
      var delta := Compress(r.changes, "");
      (r.st, Done(delta, r.changeParams, r.replies, SentFor(e, r.changes, delta, r.changeParams)))
  }

  function KeyArgs(st: ChanState, client: string): seq<string> {
    if st.key != "" && client in st.members then [st.key] else []
  }

  function LimitArgs(st: ChanState): seq<string> {
    if st.limit > 0 then [Decimal.Print(st.limit)] else []
  }

  /** Whatever the command, a reader of its delta ends up with the channel's new state. */
  lemma HandleExact(e: Env, ps: seq<string>, st: ChanState, client: string, modeStr: string)
    requires WellFormed(st)
    ensures var (st', out) := Handle(e, ps, st, client, modeStr);
      && WellFormed(st')
      && (!out.Done? ==> st' == st)
      && (out.Done? ==>
            var read := Read(e.fold, Reader(ViewOf(st), true, out.params), out.delta);
            read.Some? && read.value.view == ViewOf(st') && read.value.rest == [])
      && (out.Done? && out.sent == None ==> st' == st && out.delta == "" && out.params == [])
  {
    InterpretTracks(e, ps, st, modeStr);
    DeltaExact(e, ps, st, modeStr);
    var r := Interpret(e, ps, st, modeStr);
  }

  /** What a client may see and change.  Mode strings of signs alone ask for the modes, and those of `b`, `e`, `I`
      and signs without parameters for lists; of all others, only an operator's are carried out. */
  lemma WhoMayChange(e: Env, ps: seq<string>, st: ChanState, client: string, modeStr: string)
    requires WellFormed(st)
    ensures var (st', out) := Handle(e, ps, st, client, modeStr);
      var signs := forall j :: 0 <= j < |modeStr| ==> modeStr[j] == '+' || modeStr[j] == '-';
      var lists := ps == [] && forall j :: 0 <= j < |modeStr| ==> modeStr[j] in {'b', 'e', 'I', '+', '-'};
      var op := client in st.members && exists j :: 0 <= j < |st.members[client]| && st.members[client][j] == 'o';
      && (out.ModeIs? <==> signs) && (out.Lists? <==> lists && !signs)
      && (out.NotOperator? <==> !signs && !lists && !op) && (out.Done? <==> !signs && !lists && op)
      && (st' != st ==> op)
  {
    if client in st.members { HoldsOp(st.members[client]); }
  }

  lemma HoldsOp(held: string)
    ensures 'o' in held <==> exists j :: 0 <= j < |held| && held[j] == 'o'
  {}

  /** What a query shows: the key to members only, and the limit when there is one. */
  lemma QueryShows(e: Env, ps: seq<string>, st: ChanState, client: string, modeStr: string)
    requires WellFormed(st)
    ensures var (_, out) := Handle(e, ps, st, client, modeStr);
      && (out.ModeIs? ==>
            && out.flags == st.flags && (out.keyed <==> st.key != "")
            && out.args == (if st.key != "" && client in st.members then [st.key] else [])
                           + (if st.limit > 0 then [Decimal.Print(st.limit)] else []))
      && (out.Lists? ==> out.letters == modeStr && out.bans == st.bans)
  {}

  /** What a request of one letter, with one parameter at hand, makes of the channel. */
  lemma SingleLetter(e: Env, p: string, st: ChanState, add: bool, c: char)
    requires WellFormed(st)
    ensures var st' := Interpret(e, [p], st, [if add then '+' else '-', c]).st;
      && (c == 'b' ==> st' == st.(bans := if add then st.bans[e.fold(p) := Ban(p, e.who, e.now)] else st.bans - {e.fold(p)}))
      && (c == 'k' ==> st' == st.(key := if add then p else ""))
      && (c == 'l' ==> st' == if !add then st.(limit := 0) else if e.scan(p) > 0 then st.(limit := e.scan(p)) else st)
      && (c in {'i', 'm', 'n', 'p', 's', 't'} ==> st' == st.(flags := if add then st.flags + {c} else st.flags - {c}))
      && (c in {'o', 'v'} ==> st' == if e.resolve(p) == None || e.resolve(p).value !in st.members then st else
            st.(members := st.members[e.resolve(p).value := GrantedTo(st.members[e.resolve(p).value], add, c)]))
      && (c !in {'b', 'k', 'l', 'i', 'm', 'n', 'p', 's', 't', 'o', 'v'} ==> st' == st)
  {
    var sign := if add then '+' else '-';
    assert [sign, c][..1] == [sign] && [sign][..0] == "";
    assert Interpret(e, [p], st, [sign]) == Run(st, 0, add, [], [], []);
    assert Interpret(e, [p], st, [sign, c]) == Step(e, [p], Run(st, 0, add, [], [], []), c);
    SameFlags(st, c);
    if c in {'o', 'v'} { SameStatus(e, p, st, c); }
  }

  /** What one letter is answered: `b` without a parameter with the bans, a client that is no member and an unknown
      letter with an error. */
  lemma LetterReplies(e: Env, ps: seq<string>, r: Run, c: char)
    ensures Step(e, ps, r, c).replies == r.replies
      + (if c == 'b' && r.idx >= |ps| then [BanList(r.st.bans)]
         else if c in {'o', 'v'} && r.idx < |ps| && e.resolve(ps[r.idx]).Some? && e.resolve(ps[r.idx]).value !in r.st.members
           then [NotOnChannel(e.resolve(ps[r.idx]).value)]
         else if c !in {'+', '-', 'o', 'v', 'b', 'k', 'l', 'i', 'm', 'n', 'p', 's', 't'} then [UnknownMode(c)]
         else [])
  {}

  /** A member's letters after one is given or taken. */
  function GrantedTo(held: string, add: bool, c: char): string {
    if add then if c in held then held else held + [c] else RemoveFirst(held, c)
  }

  lemma SameFlags(st: ChanState, c: char)
    ensures c in st.flags ==> st.flags + {c} == st.flags
    ensures c !in st.flags ==> st.flags - {c} == st.flags
  {}

  lemma SameStatus(e: Env, p: string, st: ChanState, c: char)
    requires e.resolve(p).Some? && e.resolve(p).value in st.members ==> Distinct(st.members[e.resolve(p).value])
    ensures e.resolve(p).Some? && e.resolve(p).value in st.members ==>
      var n := e.resolve(p).value; st.members[n := st.members[n]] == st.members
  {}

  /** Giving and taking a letter changes nothing about the others. */
  lemma GrantedLetters(held: string, add: bool, c: char, d: char)
    requires Distinct(held)
    ensures d in GrantedTo(held, add, c) <==> if d == c then add else d in held
  {
    RemoveFirstFacts(held, c);
  }

  // ----- What was asked -----

  /** A request part-way through: each letter applies in turn with the next unused parameter. */
  datatype Asked = Asked(view: View, add: bool, rest: seq<string>)

  predicate AsksParam(c: char, add: bool) {
    c in {'o', 'v', 'b'} || (c in {'k', 'l'} && add)
  }

  /** What a letter applies with, if its parameter is of use: the client's nick, or the number. */
  function Argument(e: Env, c: char, p: string): Option<string> {
    if c in {'o', 'v'} then e.resolve(p)
    else if c == 'l' then if e.scan(p) > 0 then Some(Decimal.Print(e.scan(p))) else None
    else Some(p)
  }

  function AskChar(e: Env, a: Asked, c: char): Asked {
    if c == '+' || c == '-' then a.(add := c == '+')
    else if AsksParam(c, a.add) then
      if a.rest == [] then a
      else
        var arg := Argument(e, c, a.rest[0]);
        Asked(if arg.Some? then Apply(e.fold, a.view, a.add, c, arg.value) else a.view, a.add, a.rest[1..])
    else if c in {'k', 'l'} + SIMPLE_FLAGS then a.(view := Apply(e.fold, a.view, a.add, c, ""))
    else a
  }

  function Ask(e: Env, a: Asked, s: string): Asked {
    if s == "" then a else AskChar(e, Ask(e, a, s[..|s| - 1]), s[|s| - 1])
  }

  function AskedOf(r: Run, ps: seq<string>): Asked
    requires r.idx <= |ps|
  {
    Asked(ViewOf(r.st), r.add, ps[r.idx..])
  }

  lemma BanDone(e: Env, r: Run, mask: string)
    ensures ViewOf(StepBan(e, r, mask).st) == Apply(e.fold, ViewOf(r.st), r.add, 'b', mask)
  {
    assert ViewOf(StepBan(e, r, mask).st).bans
        == if r.add then r.st.bans.Keys + {e.fold(mask)} else r.st.bans.Keys - {e.fold(mask)};
  }

  lemma FlagDone(e: Env, ps: seq<string>, r: Run, c: char)
    requires c in SIMPLE_FLAGS
    ensures ViewOf(Step(e, ps, r, c).st) == Apply(e.fold, ViewOf(r.st), r.add, c, "")
  {
    assert ViewOf(Step(e, ps, r, c).st).flags == if r.add then r.st.flags + {c} else r.st.flags - {c};
  }

  lemma ParamDone(e: Env, ps: seq<string>, r: Run, c: char)
    requires WellFormed(r.st) && r.idx < |ps| && AsksParam(c, r.add)
    ensures var r', arg := Step(e, ps, r, c), Argument(e, c, ps[r.idx]);
      r'.idx == r.idx + 1 && r'.add == r.add
      && ViewOf(r'.st) == if arg.Some? then Apply(e.fold, ViewOf(r.st), r.add, c, arg.value) else ViewOf(r.st)
  {
    var next, p := r.(idx := r.idx + 1), ps[r.idx];
    if c in {'o', 'v'} {
      StatusDone(e, next, c, p);
    } else if c == 'b' {
      BanDone(e, next, p);
    } else if c == 'l' && e.scan(p) > 0 {
      Decimal.ParsePrint(e.scan(p));
    }
  }

  lemma StepDone(e: Env, ps: seq<string>, r: Run, c: char)
    requires WellFormed(r.st) && r.idx <= |ps|
    ensures Step(e, ps, r, c).idx <= |ps| && AskedOf(Step(e, ps, r, c), ps) == AskChar(e, AskedOf(r, ps), c)
  {
    if c in SIMPLE_FLAGS {
      FlagDone(e, ps, r, c);
    } else if AsksParam(c, r.add) && r.idx < |ps| {
      ParamDone(e, ps, r, c);
      assert ps[r.idx..][0] == ps[r.idx] && ps[r.idx..][1..] == ps[r.idx + 1..];
    }
  }

  /** The command does what was asked: each letter in turn takes effect, with the next unused parameter
      when it takes one, and the letters without their parameter, with one that names nobody or no
      positive number, or unknown, have none. */
  lemma {:induction false} RequestDone(e: Env, ps: seq<string>, st: ChanState, modeStr: string)
    requires WellFormed(st)
    ensures var r := Interpret(e, ps, st, modeStr);
      r.idx <= |ps| && AskedOf(r, ps) == Ask(e, Asked(ViewOf(st), true, ps), modeStr)
  {
    if modeStr == "" {
      assert ps[0..] == ps;
    } else {
      var before := modeStr[..|modeStr| - 1];
      RequestDone(e, ps, st, before);
      InterpretTracks(e, ps, st, before);
      StepDone(e, ps, Interpret(e, ps, st, before), modeStr[|modeStr| - 1]);
    }
  }
}
