/** MODE requests (main.go, evMode.handle): when the interpreter reads a request as the advertised
    `CHANMODES=b,k,l,imnpst` has it, by which `-k` takes a parameter, which the interpreter leaves. */
module ModeRequests {
  import opened Text
  import opened Modes
  import Decimal

  predicate RemovesKey(c: char, add: bool) { c == 'k' && !add }

  /** One letter of a request by the advertised rules. */
  function AdvertisedChar(e: Env, a: Asked, c: char): Asked {
    if RemovesKey(c, a.add) then
      Asked(Apply(e.fold, a.view, a.add, c, ""), a.add, if a.rest == [] then [] else a.rest[1..])
    else AskChar(e, a, c)
  }

  function Advertised(e: Env, a: Asked, s: string): Asked {
    if s == "" then a else AdvertisedChar(e, Advertised(e, a, s[..|s| - 1]), s[|s| - 1])
  }

  /** These are the rules by which a reader of the answer takes parameters. */
  lemma AdvertisedTakes(e: Env, a: Asked, c: char)
    requires a.rest != []
    ensures AdvertisedChar(e, a, c).rest == if TakesParam(c, a.add) then a.rest[1..] else a.rest
  {}

  /** The sign after some of a mode string. */
  function SignAfter(s: string): bool {
    if s == "" then true
    else if s[|s| - 1] in {'+', '-'} then s[|s| - 1] == '+'
    else SignAfter(s[..|s| - 1])
  }

  predicate RemovesAt(s: string, i: nat)
    requires i < |s|
  {
    RemovesKey(s[i], SignAfter(s[..i]))
  }

  predicate AsksAt(s: string, i: nat)
    requires i < |s|
  {
    AsksParam(s[i], SignAfter(s[..i]))
  }

  /** Some `k` under a minus sign comes before a letter for which the interpreter takes a parameter. */
  ghost predicate KeyBeforeParam(s: string) {
    exists p: nat, q: nat :: p < q < |s| && RemovesAt(s, p) && AsksAt(s, q)
  }

  ghost predicate NoRemoval(s: string, n: nat)
    requires n <= |s|
  {
    forall i: nat :: i < n ==> !RemovesAt(s, i)
  }

  lemma PrefixSnoc(s: string, n: nat)
    requires n < |s|
    ensures s[..n + 1][..|s[..n + 1]| - 1] == s[..n] && s[..n + 1][|s[..n + 1]| - 1] == s[n]
  {}

  /** After every prefix of the mode string both readings have led to the same view. */
  ghost predicate Alike(s: string) {
    forall e: Env, view: View, ps: seq<string>, n: nat :: n <= |s| ==>
      Ask(e, Asked(view, true, ps), s[..n]).view == Advertised(e, Asked(view, true, ps), s[..n]).view
  }

  // ----- Alike -----

  lemma {:induction false} SameReading(e: Env, a: Asked, s: string, n: nat)
    requires n <= |s| && a.add && !KeyBeforeParam(s)
    ensures var x, y := Ask(e, a, s[..n]), Advertised(e, a, s[..n]);
      x.view == y.view && x.add == y.add == SignAfter(s[..n]) && (NoRemoval(s, n) ==> x.rest == y.rest)
  {
    if n > 0 {
      SameReading(e, a, s, n - 1);
      PrefixSnoc(s, n - 1);
      if AsksAt(s, n - 1) {
        forall i: nat | i < n - 1 ensures !RemovesAt(s, i) {}
      } else if NoRemoval(s, n) {
        assert !RemovesAt(s, n - 1) && NoRemoval(s, n - 1);
      }
    }
  }

  // ----- Not alike -----

  lemma {:induction false} FirstRemoval(s: string, p: nat) returns (first: nat)
    requires p < |s| && RemovesAt(s, p)
    ensures first <= p && RemovesAt(s, first) && NoRemoval(s, first)
    decreases p
  {
    if NoRemoval(s, p) { return p; }
    var i: nat :| i < p && RemovesAt(s, i);
    first := FirstRemoval(s, i);
  }

  ghost predicate NoAsking(s: string, p: nat, q: nat)
    requires q <= |s|
  {
    forall i: nat :: p < i < q ==> !AsksAt(s, i)
  }

  lemma {:induction false} FirstAsking(s: string, p: nat, q: nat) returns (first: nat)
    requires p < q < |s| && AsksAt(s, q)
    ensures p < first <= q && AsksAt(s, first) && NoAsking(s, p, first)
    decreases q
  {
    if NoAsking(s, p, q) { return q; }
    var i: nat :| p < i < q && AsksAt(s, i);
    first := FirstAsking(s, p, i);
  }

  /** How many parameters the interpreter takes for a prefix, and how often the key is removed in it. */
  function Taken(s: string, n: nat): nat
    requires n <= |s|
  {
    if n == 0 then 0 else Taken(s, n - 1) + if AsksAt(s, n - 1) then 1 else 0
  }

  function Removals(s: string, n: nat): nat
    requires n <= |s|
  {
    if n == 0 then 0 else Removals(s, n - 1) + if RemovesAt(s, n - 1) then 1 else 0
  }

  lemma {:induction false} RemovalsGrow(s: string, m: nat, n: nat)
    requires m <= n <= |s|
    ensures Removals(s, m) <= Removals(s, n)
  {
    if m < n { RemovalsGrow(s, m, n - 1); }
  }

  /** Two nicks, masks, keys and numbers that differ, and one parameter of no use. */
  const PROBE := Env(p => if p == "z" then None else Some(p), p => if p == "x" then 1 else if p == "y" then 2 else 0,
                     p => p, "", "", 0)

  function Start(add: bool): View {
    var held: set<char> := if add then {} else {'o', 'v'};
    View({}, "", 0, if add then {} else {"x", "y"}, map["x" := held, "y" := held])
  }

  /** The useless parameter changes nothing of the nicks and of the two masks. */
  ghost predicate Calm(v: View, v0: View) {
    v.status == v0.status && forall m :: m in {"x", "y"} ==> (m in v.bans <==> m in v0.bans)
  }

  lemma CalmStep(a: Asked, v0: View, c: char)
    requires Calm(a.view, v0) && (AsksParam(c, a.add) ==> a.rest != [] && a.rest[0] == "z")
    ensures Calm(AskChar(PROBE, a, c).view, v0)
    ensures AskChar(PROBE, a, c).rest == if AsksParam(c, a.add) then a.rest[1..] else a.rest
    ensures AskChar(PROBE, a, c).add == if c in {'+', '-'} then c == '+' else a.add
  {
    assert "z" !in {"x", "y"};
  }

  /** Up to the first removal the readings are the same, and use up useless parameters. */
  lemma {:induction false} BeforeRemoval(s: string, v0: View, ps: seq<string>, n: nat)
    requires n <= |s| && NoRemoval(s, n) && Taken(s, n) <= |ps|
    requires forall i :: 0 <= i < Taken(s, n) ==> ps[i] == "z"
    ensures var x := Ask(PROBE, Asked(v0, true, ps), s[..n]);
      x == Advertised(PROBE, Asked(v0, true, ps), s[..n]) && Calm(x.view, v0) && x.add == SignAfter(s[..n])
      && x.rest == ps[Taken(s, n)..]
  {
    if n > 0 {
      PrefixSnoc(s, n - 1);
      BeforeRemoval(s, v0, ps, n - 1);
      assert !RemovesAt(s, n - 1);
      CalmStep(Ask(PROBE, Asked(v0, true, ps), s[..n - 1]), v0, s[n - 1]);
    }
  }

  /** A letter that asks for no parameter: the advertised reading takes one if it removes the key. */
  lemma RemovalStep(a: Asked, b: Asked, v0: View, c: char)
    requires a.view == b.view && a.add == b.add && Calm(a.view, v0) && !AsksParam(c, a.add)
    requires RemovesKey(c, a.add) ==> b.rest != []
    ensures var x, y := AskChar(PROBE, a, c), AdvertisedChar(PROBE, b, c);
      && x.view == y.view && Calm(x.view, v0) && x.add == y.add == (if c in {'+', '-'} then c == '+' else a.add)
      && x.rest == a.rest && y.rest == if RemovesKey(c, a.add) then b.rest[1..] else b.rest
  {
    CalmStep(a, v0, c);
  }

  lemma SignSnoc(s: string, n: nat)
    requires n < |s|
    ensures SignAfter(s[..n + 1]) == if s[n] in {'+', '-'} then s[n] == '+' else SignAfter(s[..n])
  {
    PrefixSnoc(s, n);
  }

  /** From the first removal to the next letter that asks for one, only the advertised reading takes
      parameters. */
  lemma {:induction false} AfterRemoval(s: string, v0: View, ps: seq<string>, p: nat, n: nat)
    requires p <= n <= |s| && NoRemoval(s, p) && NoAsking(s, p, n)
    requires p < |s| && RemovesAt(s, p) && Taken(s, p) + Removals(s, n) <= |ps|
    requires forall i :: 0 <= i < Taken(s, p) ==> ps[i] == "z"
    ensures var x, y := Ask(PROBE, Asked(v0, true, ps), s[..n]), Advertised(PROBE, Asked(v0, true, ps), s[..n]);
      && x.view == y.view && Calm(x.view, v0) && x.add == y.add == SignAfter(s[..n])
      && x.rest == ps[Taken(s, p)..] && y.rest == ps[Taken(s, p) + Removals(s, n)..]
  {
    if n == p {
      BeforeRemoval(s, v0, ps, p);
      NoRemovals(s, p);
    } else {
      PrefixSnoc(s, n - 1);
      AfterRemoval(s, v0, ps, p, n - 1);
      SignSnoc(s, n - 1);
      var x, y := Ask(PROBE, Asked(v0, true, ps), s[..n - 1]), Advertised(PROBE, Asked(v0, true, ps), s[..n - 1]);
      assert !AsksAt(s, n - 1) && (y.rest != [] ==> y.rest[1..] == ps[Taken(s, p) + Removals(s, n - 1) + 1..]);
      RemovalStep(x, y, v0, s[n - 1]);
    }
  }

  lemma {:induction false} NoRemovals(s: string, n: nat)
    requires n <= |s| && NoRemoval(s, n)
    ensures Removals(s, n) == 0
  {
    if n > 0 {
      assert !RemovesAt(s, n - 1);
      NoRemovals(s, n - 1);
    }
  }

  /** A letter that gets `x` by the one reading and `y` by the other tells them apart. */
  lemma Apart(a: Asked, b: Asked, c: char)
    requires a.view == b.view && a.add == b.add && Calm(a.view, Start(a.add)) && AsksParam(c, a.add)
    requires a.rest != [] && b.rest != [] && a.rest[0] == "x" && b.rest[0] == "y"
    ensures AskChar(PROBE, a, c).view != AskChar(PROBE, b, c).view
  {
    var v, w := AskChar(PROBE, a, c).view, AskChar(PROBE, b, c).view;
    if c in {'o', 'v'} {
      assert v.status["x"] != w.status["x"];
    } else if c == 'b' {
      assert "x" in v.bans <==> "x" !in w.bans;
    } else if c == 'l' {
      Decimal.ParsePrint(1);
      Decimal.ParsePrint(2);
    } else {
      assert v.key == "x" && w.key == "y";
    }
  }

  function Probes(m: nat, j: nat): seq<string>
    requires j >= 1
  {
    Repeat("z", m) + ["x"] + Repeat("z", j - 1) + ["y"]
  }

  lemma ProbesAt(m: nat, j: nat)
    requires j >= 1
    ensures var ps := Probes(m, j);
      |ps| == m + j + 1 && (forall i :: 0 <= i < m ==> ps[i] == "z") && ps[m] == "x" && ps[m + j] == "y"
  {}

  lemma NotAlike(s: string, p: nat, q: nat)
    requires p < q < |s| && RemovesAt(s, p) && NoRemoval(s, p) && AsksAt(s, q) && NoAsking(s, p, q)
    ensures !Alike(s)
  {
    RemovalsGrow(s, p + 1, q);
    var m, j := Taken(s, p), Removals(s, q);
    var ps, v0 := Probes(m, j), Start(SignAfter(s[..q]));
    ProbesAt(m, j);
    AfterRemoval(s, v0, ps, p, q);
    var x, y := Ask(PROBE, Asked(v0, true, ps), s[..q]), Advertised(PROBE, Asked(v0, true, ps), s[..q]);
    assert x.rest[0] == ps[m] && y.rest[0] == ps[m + j];
    Apart(x, y, s[q]);
    PrefixSnoc(s, q);
    assert Ask(PROBE, Asked(v0, true, ps), s[..q + 1]).view != Advertised(PROBE, Asked(v0, true, ps), s[..q + 1]).view;
  }

  /** The interpreter reads a request, letter by letter, as the advertised rules have it, if and only if no
      `k` under a minus sign comes before a letter that takes a parameter. */
  lemma AlikeIff(s: string)
    ensures Alike(s) <==> !KeyBeforeParam(s)
  {
    if KeyBeforeParam(s) {
      var p: nat, q: nat :| p < q < |s| && RemovesAt(s, p) && AsksAt(s, q);
      var first := FirstRemoval(s, p);
      var next := FirstAsking(s, first, q);
      NotAlike(s, first, next);
    } else {
      forall e: Env, view: View, ps: seq<string>, n: nat | n <= |s|
        ensures Ask(e, Asked(view, true, ps), s[..n]).view == Advertised(e, Asked(view, true, ps), s[..n]).view
      {
        SameReading(e, Asked(view, true, ps), s, n);
      }
    }
  }

  /** So a request without such a `k` leaves the channel as the advertised rules say. */
  lemma RequestAdvertised(e: Env, ps: seq<string>, st: ChanState, modeStr: string)
    requires WellFormed(st) && !KeyBeforeParam(modeStr)
    ensures ViewOf(Interpret(e, ps, st, modeStr).st) == Advertised(e, Asked(ViewOf(st), true, ps), modeStr).view
  {
    RequestDone(e, ps, st, modeStr);
    SameReading(e, Asked(ViewOf(st), true, ps), modeStr, |modeStr|);
    assert modeStr[..|modeStr|] == modeStr;
  }

  /** `-ko key bob` removes the key and then looks for a client named `key`. */
  lemma RemoveKeyThenOp(e: Env, st: ChanState)
    requires WellFormed(st) && e.resolve("key") == None && e.resolve("bob") == Some("bob")
    requires "bob" in st.members && 'o' in st.members["bob"]
    ensures ViewOf(Interpret(e, ["key", "bob"], st, "-ko").st).status == ViewOf(st).status
    ensures var status := Advertised(e, Asked(ViewOf(st), true, ["key", "bob"]), "-ko").view.status;
      "bob" in status && 'o' !in status["bob"]
  {
    var ps := ["key", "bob"];
    assert "-ko"[..2] == "-k" && "-k"[..1] == "-" && "-"[..0] == "";
    assert Interpret(e, ps, st, "-") == Run(st, 0, false, [], [], []);
    assert Advertised(e, Asked(ViewOf(st), true, ps), "-") == Asked(ViewOf(st), false, ps);
    assert Advertised(e, Asked(ViewOf(st), true, ps), "-k").rest == ["bob"];
  }
}
