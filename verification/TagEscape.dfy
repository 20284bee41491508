/** Message-tag values (ircv3.go, escapeTagValue and unescapeTagValue; section "Escaping values" of the
    IRCv3 message-tags specification): when unescaping gives the value back. */
module TagEscape {

  /** strings.ReplaceAll for a pattern of one character. */
  function Replace1(s: string, c: char, by_: string): string {
    if s == "" then "" else (if s[0] == c then by_ else [s[0]]) + Replace1(s[1..], c, by_)
  }

  /** strings.ReplaceAll for a pattern of two characters, replaced by one. */
  function Replace2(s: string, a: char, b: char, by_: char): string {
    if |s| < 2 then s
    else if s[0] == a && s[1] == b then [by_] + Replace2(s[2..], a, b, by_)
    else [s[0]] + Replace2(s[1..], a, b, by_)
  }

  function Escape(s: string): string {
    var s1 := Replace1(s, '\\', "\\\\");
    var s2 := Replace1(s1, ';', "\\:");
    var s3 := Replace1(s2, ' ', "\\s");
    var s4 := Replace1(s3, '\r', "\\r");
    Replace1(s4, '\n', "\\n")
  }

  function Unescape(s: string): string {
    var s1 := Replace2(s, '\\', ':', ';');
    var s2 := Replace2(s1, '\\', 's', ' ');
    var s3 := Replace2(s2, '\\', 'r', '\r');
    var s4 := Replace2(s3, '\\', 'n', '\n');
    Replace2(s4, '\\', '\\', '\\')
  }

  const LETTERS: set<char> := {':', 's', 'r', 'n'}
  const SPECIAL: set<char> := {';', ' ', '\r', '\n'}

  /** The character an escape letter stands for. */
  function Meaning(letter: char): char
    requires letter in LETTERS
  {
    if letter == ':' then ';' else if letter == 's' then ' ' else if letter == 'r' then '\r' else '\n'
  }

  function LetterFor(c: char): char
    requires c in SPECIAL
  {
    if c == ';' then ':' else if c == ' ' then 's' else if c == '\r' then 'r' else 'n'
  }

  /** The escaped text after the letters in `done` have been replaced: special characters of those
      letters stand for themselves again, and so does, wrongly, such a letter after a backslash. */
  function Partial(v: string, done: set<char>): string {
    if v == "" then ""
    else if v[0] == '\\' then
      if |v| > 1 && v[1] in done && v[1] in LETTERS then ['\\', Meaning(v[1])] + Partial(v[2..], done)
      else "\\\\" + Partial(v[1..], done)
    else if v[0] in SPECIAL then
      (if LetterFor(v[0]) in done then [v[0]] else ['\\', LetterFor(v[0])]) + Partial(v[1..], done)
    else [v[0]] + Partial(v[1..], done)
  }

  lemma {:induction false} Replace1Append(a: string, b: string, c: char, by_: string)
    ensures Replace1(a + b, c, by_) == Replace1(a, c, by_) + Replace1(b, c, by_)
    decreases |a|
  {
    if a == "" {
      assert a + b == b;
    } else {
      assert (a + b)[1..] == a[1..] + b;
      Replace1Append(a[1..], b, c, by_);
    }
  }

  lemma EscapeCons(c: char, s: string)
    ensures Escape([c] + s) == Escape([c]) + Escape(s)
  {
    var t1, s1 := Replace1([c], '\\', "\\\\"), Replace1(s, '\\', "\\\\");
    Replace1Append([c], s, '\\', "\\\\");
    var t2, s2 := Replace1(t1, ';', "\\:"), Replace1(s1, ';', "\\:");
    Replace1Append(t1, s1, ';', "\\:");
    var t3, s3 := Replace1(t2, ' ', "\\s"), Replace1(s2, ' ', "\\s");
    Replace1Append(t2, s2, ' ', "\\s");
    var t4, s4 := Replace1(t3, '\r', "\\r"), Replace1(s3, '\r', "\\r");
    Replace1Append(t3, s3, '\r', "\\r");
    Replace1Append(t4, s4, '\n', "\\n");
  }

  lemma Keeps1(a: char, c: char, by_: string)
    ensures Replace1([a], c, by_) == if a == c then by_ else [a]
  {
    assert [a][1..] == "" && by_ + "" == by_ && [a] + "" == [a];
  }

  lemma Keeps2(a: char, b: char, c: char, by_: string)
    requires a != c && b != c
    ensures Replace1([a, b], c, by_) == [a, b]
  {
    assert [a, b][1..] == [b];
    Keeps1(b, c, by_);
    assert [a] + [b] == [a, b];
  }

  lemma EscapeOne(c: char)
    ensures Escape([c])
         == if c == '\\' then "\\\\" else if c in SPECIAL then ['\\', LetterFor(c)] else [c]
  {
    Keeps1(c, '\\', "\\\\");
    if c == '\\' {
      Keeps2(c, c, ';', "\\:");
      Keeps2(c, c, ' ', "\\s");
      Keeps2(c, c, '\r', "\\r");
      Keeps2(c, c, '\n', "\\n");
    } else {
      Keeps1(c, ';', "\\:");
      Keeps1(c, ' ', "\\s");
      Keeps1(c, '\r', "\\r");
      Keeps1(c, '\n', "\\n");
      Keeps2('\\', ':', ' ', "\\s");
      Keeps2('\\', ':', '\r', "\\r");
      Keeps2('\\', ':', '\n', "\\n");
      Keeps2('\\', 's', '\r', "\\r");
      Keeps2('\\', 's', '\n', "\\n");
      Keeps2('\\', 'r', '\n', "\\n");
    }
  }

  /** The escapes of the specification: five characters have one, all others stand for themselves. */
  lemma EscapeTable(c: char)
    ensures Escape(";") == "\\:" && Escape(" ") == "\\s" && Escape("\r") == "\\r" && Escape("\n") == "\\n"
    ensures Escape("\\") == "\\\\"
    ensures c !in {';', ' ', '\r', '\n', '\\'} ==> Escape([c]) == [c]
  {
    EscapeOne(';');
    EscapeOne(' ');
    EscapeOne('\r');
    EscapeOne('\n');
    EscapeOne('\\');
    EscapeOne(c);
  }

  /** Escaping goes character by character. */
  lemma {:induction false} EscapeAppend(a: string, b: string)
    ensures Escape(a + b) == Escape(a) + Escape(b)
    decreases |a|
  {
    if a == "" {
      assert a + b == b;
    } else {
      assert a == [a[0]] + a[1..] && a + b == [a[0]] + (a[1..] + b);
      EscapeCons(a[0], a[1..] + b);
      EscapeCons(a[0], a[1..]);
      EscapeAppend(a[1..], b);
    }
  }

  /** The chain of replacements escapes character by character. */
  lemma {:induction false} EscapeIsPartial(v: string)
    ensures Escape(v) == Partial(v, {})
  {
    if v != "" {
      assert v == [v[0]] + v[1..];
      EscapeCons(v[0], v[1..]);
      EscapeOne(v[0]);
      EscapeIsPartial(v[1..]);
    }
  }

  /** No escaped value contains a character that separates tags or lines. */
  lemma {:induction false} EscapedIsSafe(v: string)
    ensures forall c :: c in Escape(v) ==> c !in SPECIAL
  {
    if v != "" {
      assert v == [v[0]] + v[1..];
      EscapeCons(v[0], v[1..]);
      EscapeOne(v[0]);
      EscapedIsSafe(v[1..]);
    }
  }

  lemma PartialHead(v: string, done: set<char>, l: char)
    requires l in LETTERS && (v == "" || v[0] != l)
    ensures Partial(v, done) == "" || Partial(v, done)[0] != l
  {}

  lemma Replace2Skip(x: char, t: string, l: char, m: char)
    requires x != '\\' || t == "" || t[0] != l
    ensures Replace2([x] + t, '\\', l, m) == [x] + Replace2(t, '\\', l, m)
  {
    var s := [x] + t;
    assert s[1..] == t;
    if |s| < 2 { assert t == ""; }
  }

  lemma Replace2Hit(t: string, l: char, m: char)
    ensures Replace2(['\\', l] + t, '\\', l, m) == [m] + Replace2(t, '\\', l, m)
  {
    var s := ['\\', l] + t;
    assert s[2..] == t && s[0] == '\\' && s[1] == l;
  }

  lemma Replace2SkipTwo(x: char, y: char, t: string, l: char, m: char)
    requires x != '\\' || y != l
    requires y != '\\' || t == "" || t[0] != l
    ensures Replace2([x, y] + t, '\\', l, m) == [x, y] + Replace2(t, '\\', l, m)
  {
    assert [x, y] + t == [x] + ([y] + t);
    Replace2Skip(x, [y] + t, l, m);
    Replace2Skip(y, t, l, m);
    assert [x, y] + Replace2(t, '\\', l, m) == [x] + ([y] + Replace2(t, '\\', l, m));
  }

  lemma AmbiguousPartial(v: string, done: set<char>, l: char)
    requires l in LETTERS && l !in done && |v| > 1 && v[0] == '\\' && v[1] == l
    ensures Partial(v, done) == ['\\'] + (['\\', l] + Partial(v[2..], done))
  {
    assert v[1..][1..] == v[2..] && v[1..][0] == l;
    assert Partial(v[1..], done) == [l] + Partial(v[2..], done);
  }

  /** A backslash followed by the letter being replaced: the second of its two backslashes goes. */
  lemma ReplaceAmbiguous(v: string, done: set<char>, l: char)
    requires l in LETTERS && l !in done && |v| > 1 && v[0] == '\\' && v[1] == l
    requires Replace2(Partial(v[2..], done), '\\', l, Meaning(l)) == Partial(v[2..], done + {l})
    ensures Replace2(Partial(v, done), '\\', l, Meaning(l)) == Partial(v, done + {l})
  {
    var m, rest := Meaning(l), Partial(v[2..], done);
    AmbiguousPartial(v, done, l);
    Replace2Skip('\\', ['\\', l] + rest, l, m);
    Replace2Hit(rest, l, m);
    assert ['\\'] + ([m] + Partial(v[2..], done + {l})) == ['\\', m] + Partial(v[2..], done + {l});
  }

  /** Replacing one more escape letter. */
  lemma {:induction false} ReplaceLetter(v: string, done: set<char>, l: char)
    requires l in LETTERS && l !in done
    ensures Replace2(Partial(v, done), '\\', l, Meaning(l)) == Partial(v, done + {l})
    decreases |v|
  {
    var m := Meaning(l);
    if v == "" {
    } else if v[0] == '\\' && |v| > 1 && v[1] == l {
      ReplaceLetter(v[2..], done, l);
      ReplaceAmbiguous(v, done, l);
    } else if v[0] == '\\' && |v| > 1 && v[1] in done && v[1] in LETTERS {
      ReplaceLetter(v[2..], done, l);
      Replace2SkipTwo('\\', Meaning(v[1]), Partial(v[2..], done), l, m);
    } else {
      var rest := Partial(v[1..], done);
      ReplaceLetter(v[1..], done, l);
      if v[0] == '\\' {
        PartialHead(v[1..], done, l);
        Replace2SkipTwo('\\', '\\', rest, l, m);
      } else if v[0] in SPECIAL && LetterFor(v[0]) == l {
        Replace2Hit(rest, l, m);
      } else if v[0] in SPECIAL && LetterFor(v[0]) !in done {
        Replace2SkipTwo('\\', LetterFor(v[0]), rest, l, m);
      } else {
        Replace2Skip(v[0], rest, l, m);
      }
    }
  }

  /** What comes back of a value: itself, but for an escape letter after a backslash, which comes back as
      the character it stands for. */
  function Returned(v: string): string {
    if v == "" then ""
    else if v[0] == '\\' && |v| > 1 && v[1] in LETTERS then ['\\', Meaning(v[1])] + Returned(v[2..])
    else [v[0]] + Returned(v[1..])
  }

  lemma {:induction false} ReplaceBackslashes(v: string)
    ensures Replace2(Partial(v, LETTERS), '\\', '\\', '\\') == Returned(v)
    decreases |v|
  {
    if v == "" {
    } else if v[0] == '\\' && |v| > 1 && v[1] in LETTERS {
      ReplaceBackslashes(v[2..]);
      Replace2SkipTwo('\\', Meaning(v[1]), Partial(v[2..], LETTERS), '\\', '\\');
    } else {
      var rest := Partial(v[1..], LETTERS);
      ReplaceBackslashes(v[1..]);
      if v[0] == '\\' {
        Replace2Hit(rest, '\\', '\\');
      } else {
        Replace2Skip(v[0], rest, '\\', '\\');
      }
    }
  }

  /** What unescaping makes of every escaped value. */
  lemma UnescapeEscape(v: string)
    ensures Unescape(Escape(v)) == Returned(v)
  {
    EscapeIsPartial(v);
    ReplaceLetter(v, {}, ':');
    ReplaceLetter(v, {':'}, 's');
    ReplaceLetter(v, {':', 's'}, 'r');
    ReplaceLetter(v, {':', 's', 'r'}, 'n');
    assert {} + {':'} == {':'} && {':'} + {'s'} == {':', 's'} && {':', 's'} + {'r'} == {':', 's', 'r'};
    assert {':', 's', 'r'} + {'n'} == LETTERS;
    ReplaceBackslashes(v);
  }

  /** No backslash is followed by an escape letter. */
  predicate Unambiguous(v: string) {
    forall i :: 0 <= i < |v| - 1 ==> !(v[i] == '\\' && v[i + 1] in LETTERS)
  }

  lemma {:induction false} ReturnedIff(v: string)
    ensures Returned(v) == v <==> Unambiguous(v)
    decreases |v|
  {
    if v == "" {
    } else if v[0] == '\\' && |v| > 1 && v[1] in LETTERS {
      assert Returned(v)[1] == Meaning(v[1]) != v[1];
    } else {
      ReturnedIff(v[1..]);
      assert v == [v[0]] + v[1..];
      if Unambiguous(v[1..]) {
        forall i | 0 <= i < |v| - 1 ensures !(v[i] == '\\' && v[i + 1] in LETTERS) {
          if i > 0 { assert v[1..][i - 1] == v[i] && v[1..][i - 1 + 1] == v[i + 1]; }
        }
      }
      if Unambiguous(v) {
        forall i | 0 <= i < |v[1..]| - 1 ensures !(v[1..][i] == '\\' && v[1..][i + 1] in LETTERS) {
          assert v[i + 1] == v[1..][i] && v[i + 1 + 1] == v[1..][i + 1];
        }
      }
    }
  }

  /** A value survives escaping and unescaping if and only if no backslash in it is followed by one of
      the letters `:`, `s`, `r` and `n`. */
  lemma RoundTripIff(v: string)
    ensures Unescape(Escape(v)) == v <==> Unambiguous(v)
  {
    UnescapeEscape(v);
    ReturnedIff(v);
  }

  /** A backslash and an `n` come back as a backslash and a newline. */
  lemma BackslashN()
    ensures Unescape(Escape("\\n")) == "\\\n"
  {
    UnescapeEscape("\\n");
    assert "\\n"[2..] == "" && ['\\', '\n'] + "" == "\\\n";
  }
}
