/** Ban-mask matching (main.go, matchMask).

    Strings are the code's byte strings.  Case folding is a parameter: the matcher folds both
    arguments first, and nothing here depends on which folding is used.
 */
module Glob {
  import opened Text

  /** The wildcard relation: `?` stands for exactly one character, `*` for any run of characters,
      and every other mask character for itself. */
  ghost predicate Matches(s: string, mask: string)
    decreases |mask|
  {
    if mask == "" then s == ""
    else if mask[0] == '*' then exists k :: 0 <= k <= |s| && Matches(s[k..], mask[1..])
    else s != "" && (mask[0] == '?' || mask[0] == s[0]) && Matches(s[1..], mask[1..])
  }

  /** A cursor of the matcher: the loop variables `si`, `mi`, `starIdx` and `matchIdx`. */
  datatype Cursor = Cursor(si: nat, mi: nat, star: int, at: int) {
    predicate Valid(s: string, mask: string) {
      && si <= |s| && mi <= |mask|
      && -1 <= star < mi && -1 <= at <= si
      && (star >= 0 ==> at >= 0)
    }
  }

  const START := Cursor(0, 0, -1, -1)

  /** Skips the stars left in the mask from `mi`. */
  function SkipStars(mask: string, mi: nat): (r: nat)
    requires mi <= |mask|
    decreases |mask| - mi
  {
    if mi < |mask| && mask[mi] == '*' then SkipStars(mask, mi + 1) else mi
  }

  predicate LiteralStep(s: string, mask: string, c: Cursor)
    requires c.Valid(s, mask)
  {
    c.si < |s| && c.mi < |mask| && (mask[c.mi] == '?' || mask[c.mi] == s[c.si])
  }

  /** The answer the matching loop gives when it stands at cursor `c`. */
  function Run(s: string, mask: string, c: Cursor): bool
    requires c.Valid(s, mask)
    decreases |mask| - c.star, |s| - c.at, |s| - c.si
  {
    if c.si == |s| then SkipStars(mask, c.mi) == |mask|
    else if LiteralStep(s, mask, c) then Run(s, mask, c.(si := c.si + 1, mi := c.mi + 1))
    else if c.mi < |mask| && mask[c.mi] == '*' then
      Run(s, mask, Cursor(c.si, c.mi + 1, c.mi, c.si))
    else if c.star != -1 then
      Run(s, mask, Cursor(c.at + 1, c.star + 1, c.star, c.at + 1))
    else false
  }

  method MatchMask(s0: string, mask0: string, fold: string -> string) returns (matched: bool)
    ensures matched == Run(fold(s0), fold(mask0), START)
    ensures matched ==> Matches(fold(s0), fold(mask0))
    ensures '*' !in fold(s0) || '*' !in fold(mask0) ==> matched == Matches(fold(s0), fold(mask0))
  {
    var s, mask := fold(s0), fold(mask0);
    Sound(s, mask);
    if '*' !in s || '*' !in mask { Complete(s, mask); }
    var mi, si := 0, 0;
    var starIdx, matchIdx := -1, -1;
    while si < |s|
      invariant Cursor(si, mi, starIdx, matchIdx).Valid(s, mask)
      invariant Run(s, mask, Cursor(si, mi, starIdx, matchIdx)) == Run(s, mask, START)
      decreases |mask| - starIdx, |s| - matchIdx, |s| - si
    {
      if mi < |mask| && (mask[mi] == '?' || mask[mi] == s[si]) {
        mi := mi + 1;
        si := si + 1;
      } else if mi < |mask| && mask[mi] == '*' {
        starIdx := mi;
        matchIdx := si;
        mi := mi + 1;
      } else if starIdx != -1 {
        mi := starIdx + 1;
        matchIdx := matchIdx + 1;
        si := matchIdx;
      } else {
        return false;
      }
    }
    while mi < |mask| && mask[mi] == '*'
      invariant mi <= |mask|
      invariant (SkipStars(mask, mi) == |mask|) == Run(s, mask, START)
    {
      mi := mi + 1;
    }
    return mi == |mask|;
  }

  /** Some later restart of the last star leads to a match. */
  ghost predicate Restart(s: string, mask: string, c: Cursor)
    requires c.Valid(s, mask)
  {
    c.star >= 0 && exists k :: c.at <= k <= |s| && Matches(s[k..], mask[c.star + 1..])
  }

  lemma {:induction false} StarsMatchEmpty(mask: string, mi: nat)
    requires mi <= |mask|
    ensures (SkipStars(mask, mi) == |mask|) == Matches("", mask[mi..])
    decreases |mask| - mi
  {
    if mi < |mask| && mask[mi] == '*' {
      StarsMatchEmpty(mask, mi + 1);
      assert mask[mi..][1..] == mask[mi + 1..];
      assert ""[0..] == "";
      if Matches("", mask[mi..]) {
        var k :| 0 <= k <= |""| && Matches(""[k..], mask[mi..][1..]);
      }
    }
  }

  lemma StarTakes(s: string, mask: string, i: nat, k: nat, mi: nat)
    requires i <= k <= |s| && mi < |mask| && mask[mi] == '*'
    requires Matches(s[k..], mask[mi + 1..])
    ensures Matches(s[i..], mask[mi..])
  {
    assert s[i..][k - i..] == s[k..];
    assert mask[mi..][1..] == mask[mi + 1..];
  }

  lemma StarGives(s: string, mask: string, i: nat, mi: nat) returns (k: nat)
    requires i <= |s| && mi < |mask| && mask[mi] == '*'
    requires Matches(s[i..], mask[mi..])
    ensures i <= k <= |s| && Matches(s[k..], mask[mi + 1..])
  {
    var rest := mask[mi..];
    assert rest[0] == '*' && rest[1..] == mask[mi + 1..];
    var d: int :| 0 <= d <= |s[i..]| && Matches(s[i..][d..], rest[1..]);
    assert s[i..][d..] == s[i + d..];
    k := i + d;
  }

  lemma LiteralSound(s: string, mask: string, c: Cursor)
    requires c.Valid(s, mask) && c.si < |s| && LiteralStep(s, mask, c) && Matches(s[c.si + 1..], mask[c.mi + 1..])
    ensures Matches(s[c.si..], mask[c.mi..])
  {
    if mask[c.mi] == '*' {
      StarTakes(s, mask, c.si, c.si + 1, c.mi);
    } else {
      assert s[c.si..][1..] == s[c.si + 1..];
      assert mask[c.mi..][1..] == mask[c.mi + 1..];
    }
  }

  /** Whatever the loop accepts is a match, or was one from a restart. */
  lemma {:induction false} RunSound(s: string, mask: string, c: Cursor)
    requires c.Valid(s, mask)
    requires Run(s, mask, c)
    ensures Matches(s[c.si..], mask[c.mi..]) || Restart(s, mask, c)
    decreases |mask| - c.star, |s| - c.at, |s| - c.si
  {
    if c.si == |s| {
      StarsMatchEmpty(mask, c.mi);
      assert s[c.si..] == "";
    } else if LiteralStep(s, mask, c) {
      RunSound(s, mask, c.(si := c.si + 1, mi := c.mi + 1));
      if Matches(s[c.si + 1..], mask[c.mi + 1..]) {
        LiteralSound(s, mask, c);
      }
    } else if c.mi < |mask| && mask[c.mi] == '*' {
      var d := Cursor(c.si, c.mi + 1, c.mi, c.si);
      RunSound(s, mask, d);
      var k :| c.si <= k <= |s| && Matches(s[k..], mask[c.mi + 1..]);
      StarTakes(s, mask, c.si, k, c.mi);
    } else {
      RunSound(s, mask, Cursor(c.at + 1, c.star + 1, c.star, c.at + 1));
    }
  }

  /** Whatever MatchMask accepts matches. */
  lemma Sound(s: string, mask: string)
    ensures Run(s, mask, START) ==> Matches(s, mask)
  {
    if Run(s, mask, START) {
      RunSound(s, mask, START);
      assert s[0..] == s && mask[0..] == mask;
    }
  }

  /** The characters compared since the last star: no star among them, each one agreeing. */
  ghost predicate Segment(s: string, mask: string, c: Cursor)
    requires c.Valid(s, mask)
  {
    c.star >= 0 ==>
      && c.mi - c.star - 1 == c.si - c.at
      && mask[c.star] == '*'
      && forall j :: c.star < j < c.mi ==> mask[j] != '*' && (mask[j] == '?' || mask[j] == s[c.at + j - c.star - 1])
  }

  /** A match of `n` non-star mask characters consumes exactly `n` characters. */
  lemma {:induction false} Consume(s: string, mask: string, i: nat, m: nat, n: nat)
    requires i <= |s| && m + n <= |mask|
    requires forall j :: m <= j < m + n ==> mask[j] != '*'
    requires Matches(s[i..], mask[m..])
    ensures i + n <= |s| && Matches(s[i + n..], mask[m + n..])
    decreases n
  {
    if n > 0 {
      assert mask[m..][1..] == mask[m + 1..];
      assert s[i..][1..] == s[i + 1..];
      Consume(s, mask, i + 1, m + 1, n - 1);
    }
  }

  /** The cursor still leads to a match: straight on, or by a restart. */
  ghost predicate Alive(s: string, mask: string, c: Cursor)
    requires c.Valid(s, mask)
  {
    Matches(s[c.si..], mask[c.mi..]) || Restart(s, mask, c)
  }

  lemma LiteralStepAlive(s: string, mask: string, c: Cursor)
    requires c.Valid(s, mask) && Segment(s, mask, c) && Alive(s, mask, c)
    requires LiteralStep(s, mask, c) && mask[c.mi] != '*'
    ensures var d := c.(si := c.si + 1, mi := c.mi + 1); Segment(s, mask, d) && Alive(s, mask, d)
  {
    assert s[c.si..][1..] == s[c.si + 1..] && mask[c.mi..][1..] == mask[c.mi + 1..];
  }

  /** Where a restart of the old star would arrive at the cursor. */
  lemma RestartArrives(s: string, mask: string, c: Cursor) returns (i: nat)
    requires c.Valid(s, mask) && Segment(s, mask, c) && Alive(s, mask, c)
    ensures c.si <= i <= |s| && Matches(s[i..], mask[c.mi..])
  {
    if Matches(s[c.si..], mask[c.mi..]) {
      i := c.si;
    } else {
      var k :| c.at <= k <= |s| && Matches(s[k..], mask[c.star + 1..]);
      Consume(s, mask, k, c.star + 1, c.si - c.at);
      i := k + (c.si - c.at);
    }
  }

  /** The last restart cannot be the one to succeed, once the cursor it led to cannot. */
  lemma LastRestartFails(s: string, mask: string, c: Cursor)
    requires c.Valid(s, mask) && Segment(s, mask, c) && c.star >= 0
    requires !Matches(s[c.si..], mask[c.mi..])
    ensures !Matches(s[c.at..], mask[c.star + 1..])
  {
    if Matches(s[c.at..], mask[c.star + 1..]) { Consume(s, mask, c.at, c.star + 1, c.si - c.at); }
  }

  lemma BacktrackAlive(s: string, mask: string, c: Cursor)
    requires c.Valid(s, mask) && Segment(s, mask, c) && Alive(s, mask, c)
    requires !Matches(s[c.si..], mask[c.mi..]) && c.si < |s|
    ensures c.star >= 0 && Alive(s, mask, Cursor(c.at + 1, c.star + 1, c.star, c.at + 1))
  {
    LastRestartFails(s, mask, c);
    RestartLater(s, mask, c, Cursor(c.at + 1, c.star + 1, c.star, c.at + 1));
  }

  lemma RestartLater(s: string, mask: string, c: Cursor, d: Cursor)
    requires c.Valid(s, mask) && Restart(s, mask, c) && !Matches(s[c.at..], mask[c.star + 1..])
    requires d == Cursor(c.at + 1, c.star + 1, c.star, c.at + 1)
    ensures d.Valid(s, mask) && Restart(s, mask, d)
  {
    var k :| c.at <= k <= |s| && Matches(s[k..], mask[c.star + 1..]);
    assert d.at <= k && Matches(s[k..], mask[d.star + 1..]);
  }

  /** Backtracking to the last star loses nothing, as long as no star can be read literally. */
  lemma {:induction false} RunComplete(s: string, mask: string, c: Cursor)
    requires c.Valid(s, mask) && Segment(s, mask, c) && Alive(s, mask, c)
    requires '*' !in s || '*' !in mask
    ensures Run(s, mask, c)
    decreases |mask| - c.star, |s| - c.at, |s| - c.si
  {
    if c.si == |s| {
      var i := RestartArrives(s, mask, c);
      StarsMatchEmpty(mask, c.mi);
      assert s[i..] == "";
    } else if LiteralStep(s, mask, c) {
      assert mask[c.mi] in mask && s[c.si] in s;
      LiteralStepAlive(s, mask, c);
      RunComplete(s, mask, c.(si := c.si + 1, mi := c.mi + 1));
    } else if c.mi < |mask| && mask[c.mi] == '*' {
      var i := RestartArrives(s, mask, c);
      var k := StarGives(s, mask, i, c.mi);
      RunComplete(s, mask, Cursor(c.si, c.mi + 1, c.mi, c.si));
    } else {
      BacktrackAlive(s, mask, c);
      RunComplete(s, mask, Cursor(c.at + 1, c.star + 1, c.star, c.at + 1));
    }
  }

  lemma Complete(s: string, mask: string)
    requires '*' !in s || '*' !in mask
    ensures Matches(s, mask) ==> Run(s, mask, START)
  {
    if Matches(s, mask) {
      assert s[0..] == s && mask[0..] == mask;
      RunComplete(s, mask, START);
    }
  }

  lemma {:induction false} AnyMatch(s: string, m: string)
    requires |s| == |m| && forall i :: 0 <= i < |m| ==> m[i] == '?'
    ensures Matches(s, m)
    decreases |m|
  {
    if m != "" { AnyMatch(s[1..], m[1..]); }
  }

  /** A mask that misses `s` although it matches: `p` times `?`, one `*`, then `|s| - p` times `?`,
      where `p` is the position of a star in `s`. */
  function Witness(s: string, p: nat): string
    requires p < |s|
  {
    Repeat('?', p) + "*" + Repeat('?', |s| - p)
  }

  lemma {:induction false} WitnessMatches(s: string, p: nat, i: nat)
    requires i <= p < |s|
    ensures Matches(s[i..], Witness(s, p)[i..])
    decreases p - i
  {
    var m := Witness(s, p);
    if i == p {
      assert m[i..][1..] == Repeat('?', |s| - p);
      assert s[i..][0..] == s[i..];
      AnyMatch(s[i..], m[i..][1..]);
    } else {
      assert m[i..][1..] == m[i + 1..] && s[i..][1..] == s[i + 1..];
      WitnessMatches(s, p, i + 1);
    }
  }

  lemma {:induction false} WitnessMissed(s: string, p: nat, c: Cursor)
    requires p < |s| && s[p] == '*'
    requires c == Cursor(c.si, c.si, -1, -1) && c.si <= |s|
    ensures c.Valid(s, Witness(s, p)) && !Run(s, Witness(s, p), c)
    decreases |s| - c.si
  {
    if c.si < |s| { WitnessMissed(s, p, c.(si := c.si + 1, mi := c.mi + 1)); }
  }

  /** Exactly when the matcher decides the wildcard relation for a folded string: it does so for
      every mask if and only if the string contains no star. */
  lemma ExactIffNoStar(s: string)
    ensures (forall mask :: Run(s, mask, START) == Matches(s, mask)) <==> '*' !in s
  {
    if '*' in s {
      var p: nat :| p < |s| && s[p] == '*';
      var mask := Witness(s, p);
      WitnessMissed(s, p, START);
      WitnessMatches(s, p, 0);
      assert s[0..] == s && mask[0..] == mask;
      assert Run(s, mask, START) != Matches(s, mask);
    } else {
      forall mask ensures Run(s, mask, START) == Matches(s, mask) {
        Sound(s, mask);
        Complete(s, mask);
      }
    }
  }

  // ----- The wildcard relation, position by position -----

  /** Without a star the mask is as long as the string and agrees with it wherever it has no question mark. */
  lemma {:induction false} StarlessMatches(s: string, mask: string)
    requires '*' !in mask
    ensures Matches(s, mask) <==> |s| == |mask| && forall i :: 0 <= i < |mask| ==> mask[i] == '?' || mask[i] == s[i]
    decreases |mask|
  {
    if mask != "" {
      assert mask[0] != '*' && forall c :: c in mask[1..] ==> c in mask;
      if s != "" {
        StarlessMatches(s[1..], mask[1..]);
        if |s| == |mask| && forall i :: 0 <= i < |mask| ==> mask[i] == '?' || mask[i] == s[i] {
          forall i | 0 <= i < |mask[1..]| ensures mask[1..][i] == '?' || mask[1..][i] == s[1..][i] {
            assert mask[1..][i] == mask[i + 1] && s[1..][i] == s[i + 1];
          }
        }
        if Matches(s, mask) {
          forall i | 0 < i < |mask| ensures mask[i] == '?' || mask[i] == s[i] {
            assert mask[1..][i - 1] == mask[i] && s[1..][i - 1] == s[i];
          }
        }
      }
    }
  }

  ghost predicate Around(s: string, a: string, b: string, i: nat, k: nat) {
    i <= k <= |s| && Matches(s[..i], a) && Matches(s[k..], b)
  }

  /** A star between two masks stands for whatever is between what they match. */
  lemma {:induction false} StarMatches(s: string, a: string, b: string)
    requires '*' !in a
    ensures Matches(s, a + "*" + b) <==> exists i: nat, k: nat :: Around(s, a, b, i, k)
    decreases |a|
  {
    var mask := a + "*" + b;
    if a == "" {
      assert mask[0] == '*' && mask[1..] == b;
      if Matches(s, mask) {
        var k :| 0 <= k <= |s| && Matches(s[k..], b);
        assert Around(s, a, b, 0, k);
      }
    } else {
      assert a[0] != '*' && forall c :: c in a[1..] ==> c in a;
      assert mask[0] == a[0] && mask[1..] == a[1..] + "*" + b;
      if s != "" { StarMatches(s[1..], a[1..], b); }
      if Matches(s, mask) {
        var i: nat, k: nat :| Around(s[1..], a[1..], b, i, k);
        assert s[1..][..i] == s[..i + 1][1..] && s[1..][k..] == s[k + 1..];
        assert Around(s, a, b, i + 1, k + 1);
      }
      if i: nat, k: nat :| Around(s, a, b, i, k) {
        assert i > 0 && s[..i][1..] == s[1..][..i - 1] && s[k..] == s[1..][k - 1..];
        assert Around(s[1..], a[1..], b, i - 1, k - 1);
      }
    }
  }
}
