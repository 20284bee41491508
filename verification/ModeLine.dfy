/** The MODE line as a client receives it (main.go, evMode.handle and parseMessage): when it says what was
    changed.  Its parameters are joined without marking the last. */
module ModeLines {
  import opened Text
  import opened Lines
  import opened ModeRequests
  import opened Modes
  import Decimal
  import Nicks

  // ----- Lines of unmarked parameters -----

  lemma LastEnd(body: string, last: string)
    requires last != "" && !LineEnd(last[|last| - 1])
    ensures TrimRight(body + ([' '] + last)) == body + ([' '] + last)
  {
    var s := body + ([' '] + last);
    assert s[|s| - 1] == last[|last| - 1];
    TrimNothing(s);
  }

  lemma ColonElsewhere(body: string, last: string)
    requires var s := body + ([' '] + last); FindTrailing(s) < |s|
    ensures var s := body + ([' '] + last); |s[FindTrailing(s) + 2..]| != |last|
  {
    var s := body + ([' '] + last);
    assert s[|body|] == ' ' && s[FindTrailing(s) + 1] == ':';
  }

  lemma SameEnd(body: string, last: string)
    requires var r := TrimRight(body + ([' '] + last)); last != "" ==> r != "" && r[|r| - 1] == last[|last| - 1]
    ensures TrimRight(body + ([' '] + last)) == body + ([' '] + last)
  {
    var s := body + ([' '] + last);
    if last == "" {
      assert s[|s| - 1] == ' ';
      TrimNothing(s);
    } else {
      LastEnd(body, last);
    }
  }

  /** What follows the last space of a line never comes back as its trailing parameter. */
  lemma TrailingDiffers(body: string, last: string)
    ensures var r := TrimRight(body + ([' '] + last)); FindTrailing(r) < |r| ==> r[FindTrailing(r) + 2..] != last
  {
    var r := TrimRight(body + ([' '] + last));
    if FindTrailing(r) < |r| && r[FindTrailing(r) + 2..] == last {
      TrailingUntrimmed(body, last, r, FindTrailing(r));
      ColonElsewhere(body, last);
    }
  }

  lemma TrailingUntrimmed(body: string, last: string, r: string, i: nat)
    requires r == TrimRight(body + ([' '] + last)) && i + 2 <= |r| && r[i + 2..] == last
    ensures r == body + ([' '] + last)
  {
    LastCharacter(r, i + 2, last);
    SameEnd(body, last);
  }

  lemma PlainBack(parts: seq<string>)
    requires parts != [] && Plain(parts)
    ensures Words(TrimRight(Join(parts, ' '))) == parts
  {
    NoTrailing(parts);
    PlainEnd(parts);
    PlainWords(parts);
  }

  lemma PlainEnd(parts: seq<string>)
    requires parts != [] && Plain(parts)
    ensures TrimRight(Join(parts, ' ')) == Join(parts, ' ')
  {
    var mids, last := parts[..|parts| - 1], parts[|parts| - 1];
    assert parts == mids + [last] && Word(last);
    WordNoSpace(last);
    if mids == [] {
      TrimNothing(last);
    } else {
      JoinSnoc(mids, last, ' ');
      JoinEnd(Join(mids, ' '), last);
      LastEnd(Join(mids, ' '), last);
    }
  }

  lemma JoinEnd(body: string, last: string)
    ensures body + [' '] + last == body + ([' '] + last)
  {}

  /** Parts that come back do so without a trailing parameter. */
  lemma BackFields(body: string, last: string, parts: seq<string>, words: seq<string>)
    requires |parts| >= 2 && parts[|parts| - 1] == last && words == Words(TrimRight(body + ([' '] + last)))
    requires words != [] && words[1..] == parts[1..]
    ensures var r := TrimRight(body + ([' '] + last)); FindTrailing(r) == |r| && words == Fields(r)
  {
    WordsLast(TrimRight(body + ([' '] + last)), parts, words);
    TrailingDiffers(body, last);
  }

  lemma WordsLast(r: string, parts: seq<string>, words: seq<string>)
    requires |parts| >= 2 && words == Words(r) && words != [] && words[1..] == parts[1..]
    ensures if FindTrailing(r) < |r| then r[FindTrailing(r) + 2..] == parts[|parts| - 1] else words == Fields(r)
  {
    WordsAre(r, words);
    if FindTrailing(r) < |r| {
      LastOf(Fields(r[..FindTrailing(r)]), r[FindTrailing(r) + 2..], parts);
    }
  }

  lemma BackWords(body: string, last: string, parts: seq<string>, words: seq<string>)
    requires |parts| >= 2 && Word(parts[0]) && parts[|parts| - 1] == last
    requires words == Words(TrimRight(body + ([' '] + last))) && words != [] && words[1..] == parts[1..]
    ensures AllWords(parts) && FindTrailing(body + ([' '] + last)) == |body + ([' '] + last)|
  {
    BackFields(body, last, parts, words);
    FieldsAreWords(TrimRight(body + ([' '] + last)));
    WordsOf(parts, words);
    WordNoSpace(last);
    LastEnd(body, last);
  }

  lemma LastJoined(parts: seq<string>)
    requires |parts| >= 2
    ensures Join(parts, ' ') == Join(parts[..|parts| - 1], ' ') + ([' '] + parts[|parts| - 1])
  {
    var mids, last := parts[..|parts| - 1], parts[|parts| - 1];
    SplitLast(parts);
    JoinSnoc(mids, last, ' ');
    JoinEnd(Join(mids, ' '), last);
  }

  /** Parts that come back are words, and only the first may start with a colon. */
  lemma BackPlain(parts: seq<string>, words: seq<string>)
    requires |parts| >= 2 && Word(parts[0]) && words == Words(TrimRight(Join(parts, ' ')))
    requires words != [] && words[1..] == parts[1..]
    ensures Plain(parts)
  {
    LastJoined(parts);
    BackWords(Join(parts[..|parts| - 1], ' '), parts[|parts| - 1], parts, words);
    NoMarkPlain(parts);
  }

  lemma NoMarkPlain(parts: seq<string>)
    requires AllWords(parts) && FindTrailing(Join(parts, ' ')) == |Join(parts, ' ')|
    ensures Plain(parts)
  {
    assert Join(parts, ' ') + "" == Join(parts, ' ');
    NoColonInside(parts, "");
  }

  lemma LastOf(fields: seq<string>, t: string, parts: seq<string>)
    requires |parts| >= 2 && (fields + [t])[1..] == parts[1..]
    ensures t == parts[|parts| - 1]
  {
    assert |fields + [t]| == |parts|;
    assert (fields + [t])[1..][|parts| - 2] == t && parts[1..][|parts| - 2] == parts[|parts| - 1];
  }

  lemma WordsOf(parts: seq<string>, words: seq<string>)
    requires parts != [] && Word(parts[0]) && AllWords(words) && words != [] && words[1..] == parts[1..]
    ensures AllWords(parts) && Word(parts[|parts| - 1])
  {
    forall i | 0 < i < |parts| ensures Word(parts[i]) { assert parts[i] == parts[1..][i - 1] == words[i]; }
  }

  // ----- The MODE line -----

  lemma LineShape(prefix: string, rest: seq<string>)
    requires rest != []
    ensures ":" + prefix + " MODE " + Join(rest, ' ') == ":" + prefix + " " + Join(["MODE"] + rest, ' ')
  {
    JoinCons("MODE", rest, ' ');
    var a, b := ":" + prefix + " MODE " + Join(rest, ' '), ":" + prefix + " " + ("MODE" + ([' '] + Join(rest, ' ')));
    assert a == b;
  }

  lemma ModeNotBlank(rest: seq<string>)
    requires rest != []
    ensures TrimRight(Join(["MODE"] + rest, ' ')) != ""
  {
    JoinCons("MODE", rest, ' ');
    var s := Join(["MODE"] + rest, ' ');
    assert s[0] == 'M' && !LineEnd(s[0]);
  }

  /** A line of unmarked parameters comes back if and only if its prefix has no space and all of them are
      words without a leading colon. */
  lemma UnmarkedIff(prefix: string, rest: seq<string>, upper: string -> string)
    requires rest != []
    ensures ParseMessage(":" + prefix + " MODE " + Join(rest, ' '), upper) == Some(Message(prefix, upper("MODE"), rest))
       <==> ' ' !in prefix && Middles(rest)
  {
    var parts, line := ["MODE"] + rest, ":" + prefix + " MODE " + Join(rest, ' ');
    LineShape(prefix, rest);
    PrefixHasNoSpace(line, upper);
    assert parts[1..] == rest;
    if ' ' !in prefix {
      ModeNotBlank(rest);
      PrefixParsed(prefix, Join(parts, ' '), upper);
      UnmarkedWords(rest);
    }
  }

  lemma UnmarkedWords(rest: seq<string>)
    requires rest != []
    ensures var words := Words(TrimRight(Join(["MODE"] + rest, ' ')));
      (Middles(rest) ==> words == ["MODE"] + rest) && (words != [] && words[1..] == rest ==> Middles(rest))
  {
    var parts := ["MODE"] + rest;
    var words := Words(TrimRight(Join(parts, ' ')));
    assert parts[1..] == rest && Word("MODE");
    if Middles(rest) {
      MiddlesPlain("MODE", rest);
      PlainBack(parts);
    }
    if words != [] && words[1..] == rest {
      BackPlain(parts, words);
      forall i | 0 <= i < |rest| ensures Middle(rest[i]) { assert parts[i + 1] == rest[i]; }
    }
  }

  // ----- The grouped signs and letters -----

  lemma {:induction false} CompressLetters(changes: seq<string>, dir: string)
    requires forall i :: 0 <= i < |changes| ==> IsChange(changes[i])
    ensures var s := Compress(changes, dir);
      && (forall j :: 0 <= j < |s| ==> s[j] in MODE_LETTERS + {'+', '-'})
      && (changes != [] && dir == "" ==> s != "" && s[0] in {'+', '-'})
    decreases |changes|
  {
    if changes != [] {
      assert IsChange(changes[0]);
      CompressLetters(changes[1..], changes[0][..1]);
    }
  }

  lemma LettersWord(s: string)
    requires s != "" && s[0] in {'+', '-'} && forall j :: 0 <= j < |s| ==> s[j] in MODE_LETTERS + {'+', '-'}
    ensures Middle(s)
  {
    forall j | 0 <= j < |s| ensures !IsSpace(s[j]) {}
  }

  lemma LineAsSent(e: Env, ps: seq<string>, st: ChanState, client: string, modeStr: string, upper: string -> string)
    requires WellFormed(st)
    ensures var out := Handle(e, ps, st, client, modeStr).1;
      out.Done? && out.sent.Some? ==>
        (ParseMessage(out.sent.value.line, upper)
           == Some(Message(e.who, upper("MODE"), [e.channel, out.delta] + out.params))
         <==> ' ' !in e.who && Middle(e.channel) && Middles(out.params))
  {
    var out := Handle(e, ps, st, client, modeStr).1;
    if out.Done? && out.sent.Some? {
      var r := Interpret(e, ps, st, modeStr);
      InterpretTracks(e, ps, st, modeStr);
      CompressLetters(r.changes, "");
      LettersWord(out.delta);
      UnmarkedIff(e.who, [e.channel, out.delta] + out.params, upper);
      MiddlesCons(e.channel, out.delta, out.params);
    }
  }

  lemma MiddlesCons(a: string, b: string, rest: seq<string>)
    ensures Middles([a, b] + rest) <==> Middle(a) && Middle(b) && Middles(rest)
  {
    var all := [a, b] + rest;
    assert all[0] == a && all[1] == b;
    assert forall i :: 0 <= i < |rest| ==> all[i + 2] == rest[i];
  }

  // ----- Which parameters of a request are passed on -----

  /** The parameter of this letter is passed on as it was given. */
  predicate PassedAt(s: string, q: nat)
    requires q < |s|
  {
    s[q] == 'b' || (s[q] == 'k' && SignAfter(s[..q]))
  }

  /** Every mask and every new key in the first `n` letters of a request is a word without a leading colon. */
  ghost predicate PassedWords(s: string, n: nat, ps: seq<string>)
    requires n <= |s|
  {
    forall q: nat :: q < n && PassedAt(s, q) && Taken(s, q) < |ps| ==> Middle(ps[Taken(s, q)])
  }

  ghost predicate NicksMiddle(e: Env) {
    forall p :: e.resolve(p).Some? ==> Middle(e.resolve(p).value)
  }

  lemma StepPosition(e: Env, ps: seq<string>, r: Run, c: char)
    ensures var r' := Step(e, ps, r, c);
      && r'.add == (if c in {'+', '-'} then c == '+' else r.add)
      && r'.idx == r.idx + if AsksParam(c, r.add) && r.idx < |ps| then 1 else 0
  {}

  /** The interpreter is at the parameter that the letters before it leave. */
  lemma {:induction false} PositionTaken(e: Env, ps: seq<string>, st: ChanState, s: string, n: nat)
    requires n <= |s|
    ensures var r := Interpret(e, ps, st, s[..n]);
      r.add == SignAfter(s[..n]) && r.idx == if Taken(s, n) < |ps| then Taken(s, n) else |ps|
  {
    if n > 0 {
      PrefixSnoc(s, n - 1);
      PositionTaken(e, ps, st, s, n - 1);
      StepPosition(e, ps, Interpret(e, ps, st, s[..n - 1]), s[n - 1]);
    }
  }

  lemma PassedSnoc(s: string, n: nat, ps: seq<string>)
    requires n < |s|
    ensures PassedWords(s, n + 1, ps)
       <==> PassedWords(s, n, ps) && (PassedAt(s, n) && Taken(s, n) < |ps| ==> Middle(ps[Taken(s, n)]))
  {}

  lemma MiddlesSnoc(ms: seq<string>, m: string)
    ensures Middles(ms + [m]) <==> Middles(ms) && Middle(m)
  {
    var all := ms + [m];
    assert all[|ms|] == m && forall i :: 0 <= i < |ms| ==> all[i] == ms[i];
  }

  /** Of the parameters of a change only the masks and keys passed on can fail to be words. */
  lemma StepMiddleIff(e: Env, ps: seq<string>, r: Run, c: char)
    requires NicksMiddle(e)
    ensures Middles(Step(e, ps, r, c).changeParams)
       <==> Middles(r.changeParams) && ((c == 'b' || (c == 'k' && r.add)) && r.idx < |ps| ==> Middle(ps[r.idx]))
  {
    var r' := Step(e, ps, r, c);
    if |r'.changeParams| > |r.changeParams| {
      MiddlesSnoc(r.changeParams, r'.changeParams[|r.changeParams|]);
    }
    if c == 'l' && r.add && r.idx < |ps| && e.scan(ps[r.idx]) > 0 { NumeralMiddle(e.scan(ps[r.idx])); }
  }

  lemma {:induction false} ParamsMiddleIff(e: Env, ps: seq<string>, st: ChanState, s: string, n: nat)
    requires NicksMiddle(e) && n <= |s|
    ensures Middles(Interpret(e, ps, st, s[..n]).changeParams) <==> PassedWords(s, n, ps)
  {
    if n > 0 {
      PrefixSnoc(s, n - 1);
      ParamsMiddleIff(e, ps, st, s, n - 1);
      PositionTaken(e, ps, st, s, n - 1);
      PassedSnoc(s, n - 1, ps);
      StepMiddleIff(e, ps, Interpret(e, ps, st, s[..n - 1]), s[n - 1]);
    }
  }

  lemma NickMiddle(nick: string)
    requires Nicks.IsValidNick(nick)
    ensures Middle(nick)
  {
    forall i | 0 <= i < |nick| ensures !IsSpace(nick[i]) { assert Nicks.NickChar(nick[i]); }
  }

  ghost predicate NicksValid(e: Env) {
    forall p :: e.resolve(p).Some? ==> Nicks.IsValidNick(e.resolve(p).value)
  }

  lemma ValidMiddle(e: Env)
    requires NicksValid(e)
    ensures NicksMiddle(e)
  {
    forall p | e.resolve(p).Some? ensures Middle(e.resolve(p).value) { NickMiddle(e.resolve(p).value); }
  }

  /** A line that is broadcast is read as the mode string and the parameters it was made of if and only if the
      prefix has no space, the channel name is a word without a leading colon, and so is every mask and every
      new key of the request. */
  lemma ModeLineIff(e: Env, ps: seq<string>, st: ChanState, client: string, modeStr: string, upper: string -> string)
    requires WellFormed(st) && NicksValid(e)
    ensures var out := Handle(e, ps, st, client, modeStr).1;
      out.Done? && out.sent.Some? ==>
        (ParseMessage(out.sent.value.line, upper)
           == Some(Message(e.who, upper("MODE"), [e.channel, out.delta] + out.params))
         <==> ' ' !in e.who && Middle(e.channel) && PassedWords(modeStr, |modeStr|, ps))
  {
    LineAsSent(e, ps, st, client, modeStr, upper);
    ValidMiddle(e);
    ParamsMiddleIff(e, ps, st, modeStr, |modeStr|);
    assert modeStr[..|modeStr|] == modeStr;
  }

  /** What a client makes of a MODE line: the view it reads from its own, if the line can be read. */
  function ReadLine(fold: string -> string, view: View, line: string, upper: string -> string): Option<View> {
    match ParseMessage(line, upper)
    case None => None
    case Some(m) =>
      if |m.params| < 2 then None
      else
        match Read(fold, Reader(view, true, m.params[2..]), m.params[1])
        case None => None
        case Some(r) => if r.rest == [] then Some(r.view) else None
  }

  /** When it is exact, a client that reads the line ends up with what the channel has become. */
  lemma LineReadExact(e: Env, ps: seq<string>, st: ChanState, client: string, modeStr: string, upper: string -> string)
    requires WellFormed(st) && NicksValid(e) && ' ' !in e.who && Middle(e.channel)
    requires PassedWords(modeStr, |modeStr|, ps)
    ensures var (st', out) := Handle(e, ps, st, client, modeStr);
      out.Done? && out.sent.Some? ==> ReadLine(e.fold, ViewOf(st), out.sent.value.line, upper) == Some(ViewOf(st'))
  {
    HandleExact(e, ps, st, client, modeStr);
    ModeLineIff(e, ps, st, client, modeStr, upper);
    var out := Handle(e, ps, st, client, modeStr).1;
    if out.Done? && out.sent.Some? {
      var all := [e.channel, out.delta] + out.params;
      assert all[1] == out.delta && all[2..] == out.params;
    }
  }

  /** The relayed changes make the same line on the other servers. */
  lemma RelayedLine(prefix: string, channel: string, delta: string, params: seq<string>)
    ensures ":" + prefix + " MODE " + channel + " " + Relayed(delta, params) == ModeLine(prefix, channel, delta, params)
  {
    JoinCons(channel, [delta] + params, ' ');
    JoinCons(delta, params, ' ');
    assert [channel, delta] + params == [channel] + ([delta] + params);
  }

  // ----- The parameters that are lost -----

  /** A key with a space: the channel's key becomes `a b`, and whoever reads the line takes `a` for it. */
  lemma KeyWithSpace(e: Env, st: ChanState, client: string, upper: string -> string)
    requires WellFormed(st) && IsOp(st, client) && ' ' !in e.who && Middle(e.channel)
    ensures var (st', out) := Handle(e, ["a b"], st, client, "+k");
      && st'.key == "a b" && out.Done? && out.sent.Some?
      && ParseMessage(out.sent.value.line, upper) == Some(Message(e.who, upper("MODE"), [e.channel, "+k", "a", "b"]))
      && Read(e.fold, Reader(ViewOf(st), true, ["a", "b"]), "+k").value.view.key == "a"
  {
    KeyHandled(e, st, client, "a b");
    KeyLine(e, upper);
    ReadKey(e.fold, ViewOf(st));
  }

  lemma KeyHandled(e: Env, st: ChanState, client: string, key: string)
    requires WellFormed(st) && IsOp(st, client)
    ensures var (st', out) := Handle(e, [key], st, client, "+k");
      st'.key == key && out.Done? && out.sent == Some(Sent(ModeLine(e.who, e.channel, "+k", [key]), Relayed("+k", [key])))
  {
    KeyChange(e, st, key);
    assert "+k"[1] == 'k';
  }

  lemma KeyLine(e: Env, upper: string -> string)
    requires ' ' !in e.who && Middle(e.channel)
    ensures ParseMessage(ModeLine(e.who, e.channel, "+k", ["a b"]), upper)
         == Some(Message(e.who, upper("MODE"), [e.channel, "+k", "a", "b"]))
  {
    KeySame(e.who, e.channel);
    KeyMiddles(e.channel);
    UnmarkedIff(e.who, [e.channel, "+k", "a", "b"], upper);
  }

  lemma KeySame(prefix: string, channel: string)
    ensures ModeLine(prefix, channel, "+k", ["a b"]) == ":" + prefix + " MODE " + Join([channel, "+k", "a", "b"], ' ')
  {
    SplitKey(channel);
    assert [channel, "+k"] + ["a", "b"] == [channel, "+k", "a", "b"];
  }

  lemma KeyMiddles(channel: string)
    requires Middle(channel)
    ensures Middles([channel, "+k", "a", "b"])
  {
    assert Middle("+k") && Middle("a") && Middle("b");
  }

  lemma KeyChange(e: Env, st: ChanState, key: string)
    ensures var r := Interpret(e, [key], st, "+k");
      r.st == st.(key := key) && r.changes == ["+k"] && r.changeParams == [key] && Compress(r.changes, "") == "+k"
  {
    assert "+k"[..1] == "+" && "+"[..0] == "";
    assert Interpret(e, [key], st, "") == Run(st, 0, true, [], [], []);
    assert Interpret(e, [key], st, "+") == Run(st, 0, true, [], [], []);
    assert [] + ["+k"] == ["+k"] && ["+k"][1..] == [];
    assert Compress([], "+") == "" && "+" + "k" + "" == "+k";
  }

  lemma SplitKey(channel: string)
    ensures Join([channel, "+k"] + ["a b"], ' ') == Join([channel, "+k"] + ["a", "b"], ' ')
  {
    JoinSnoc([channel, "+k"], "a b", ' ');
    JoinSnoc([channel, "+k"], "a", ' ');
    JoinSnoc([channel, "+k", "a"], "b", ' ');
    assert [channel, "+k"] + ["a"] + ["b"] == [channel, "+k"] + ["a", "b"];
    assert [channel, "+k"] + ["a"] == [channel, "+k", "a"];
    assert "a b" == "a" + [' '] + "b";
  }

  lemma ReadKey(fold: string -> string, view: View)
    ensures var r := Read(fold, Reader(view, true, ["a", "b"]), "+k"); r.Some? && r.value.view.key == "a"
  {
    assert "+k"[1..] == "k" && "k"[1..] == "";
  }

  /** So the line is exact whenever the parameters of the command are words without a leading colon. */
  lemma ParamsMiddle(e: Env, ps: seq<string>, st: ChanState, modeStr: string)
    requires Middles(ps) && NicksMiddle(e)
    ensures Middles(Interpret(e, ps, st, modeStr).changeParams)
  {
    ParamsMiddleIff(e, ps, st, modeStr, |modeStr|);
    assert modeStr[..|modeStr|] == modeStr;
  }

  lemma NumeralMiddle(n: nat)
    ensures Middle(Decimal.Print(n))
  {
    var s := Decimal.Print(n);
    forall i | 0 <= i < |s| ensures !IsSpace(s[i]) {}
  }
}
