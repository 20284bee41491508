/** IRC lines (main.go, parseMessage and Client.SendFrom; section 2.3.1 of RFC 2812).  Upper-casing a
    command is a parameter. */
module Lines {
  import opened Text

  datatype Message = Message(prefix: string, command: string, params: seq<string>)

  /** The characters of Unicode's White_Space property. */
  predicate IsSpace(c: char) {
    var n := c as int;
    || 0x09 <= n <= 0x0d || n == 0x20 || n == 0x85 || n == 0xa0 || n == 0x1680 || 0x2000 <= n <= 0x200a
    || n == 0x2028 || n == 0x2029 || n == 0x202f || n == 0x205f || n == 0x3000
  }

  /** The 25 characters of that property. */
  lemma WhiteSpace(c: char)
    ensures IsSpace(c) <==> c as int in {
      9, 10, 11, 12, 13, 32, 133, 160, 5760, 8192, 8193, 8194, 8195, 8196, 8197, 8198, 8199, 8200, 8201, 8202,
      8232, 8233, 8239, 8287, 12288}
  {}

  predicate LineEnd(c: char) { c == '\r' || c == '\n' }

  function TrimRight(s: string): (r: string)
    ensures r <= s && (r != "" ==> !LineEnd(r[|r| - 1]))
    ensures forall i :: |r| <= i < |s| ==> LineEnd(s[i])
  {
    if s != "" && LineEnd(s[|s| - 1]) then TrimRight(s[..|s| - 1]) else s
  }

  /** The length of the run of characters at the front that are, or are not, white space. */
  function Run(s: string, space: bool): (n: nat)
    ensures n <= |s| && (forall i :: 0 <= i < n ==> IsSpace(s[i]) == space)
    ensures n < |s| ==> IsSpace(s[n]) != space
  {
    if s != "" && IsSpace(s[0]) == space then 1 + Run(s[1..], space) else 0
  }

  /** The words of a text. */
  function Fields(s: string): seq<string>
    decreases |s|
  {
    var t := s[Run(s, true)..];
    if t == "" then []
    else
      var n := Run(t, false);
      [t[..n]] + Fields(t[n..])
  }

  /** A space followed by a colon. */
  predicate MarkAt(s: string, j: nat) { j + 1 < |s| && s[j] == ' ' && s[j + 1] == ':' }

  /** The position of the first space followed by a colon, or the length when there is none. */
  function FindTrailing(s: string): (i: nat)
    ensures i <= |s| && (i < |s| ==> MarkAt(s, i))
    ensures forall j: nat :: j < i ==> !MarkAt(s, j)
  {
    if s == "" then 0 else if MarkAt(s, 0) then 0 else
      assert forall j: nat :: j > 0 ==> (MarkAt(s, j) <==> MarkAt(s[1..], j - 1));
      1 + FindTrailing(s[1..])
  }

  ghost predicate NoMark(s: string) { forall j: nat :: !MarkAt(s, j) }

  /** The words and the trailing parameter of a line without its prefix. */
  function Words(rest: string): seq<string> {
    var i := FindTrailing(rest);
    if i < |rest| then Fields(rest[..i]) + [rest[i + 2..]] else Fields(rest)
  }

  /** A line without its line end. */
  function ParseTrimmed(line: string, upper: string -> string): Option<Message> {
    if line == "" then None
    else if line[0] == ':' && Find(line, ' ') == |line| then None
    else
      var i := Find(line, ' ');
      var prefix, rest := if line[0] == ':' then line[1..i] else "", if line[0] == ':' then line[i + 1..] else line;
      var words := Words(rest);
      if words == [] then None else Some(Message(prefix, upper(words[0]), words[1..]))
  }

  function ParseMessage(line0: string, upper: string -> string): Option<Message> {
    ParseTrimmed(TrimRight(line0), upper)
  }

  /** Carriage returns and line feeds at the end of a line, and no other characters, make no difference. */
  lemma LineEnds(line: string, c: char, upper: string -> string)
    ensures c == '\r' || c == '\n' ==> ParseMessage(line + [c], upper) == ParseMessage(line, upper)
    ensures c != '\r' && c != '\n' ==> TrimRight(line + [c]) == line + [c]
  {
    TrimOne(line, c);
  }

  lemma TrimOne(line: string, c: char)
    ensures TrimRight(line + [c]) == if c == '\r' || c == '\n' then TrimRight(line) else line + [c]
  {
    assert (line + [c])[..|line|] == line;
  }

  predicate NeedsColon(p: string) { ' ' in p || (p != "" && p[0] == ':') || p == "" }

  function Marked(params: seq<string>): seq<string> {
    if params == [] then []
    else
      var last := params[|params| - 1];
      params[..|params| - 1] + [if NeedsColon(last) then ":" + last else last]
  }

  /** The line SendFrom writes. */
  function SendFrom(prefix: string, cmd: string, params: seq<string>): string {
    ":" + prefix + " " + Join([cmd] + Marked(params), ' ')
  }

  // ----- Words and joined words -----

  predicate Word(p: string) { p != "" && forall i :: 0 <= i < |p| ==> !IsSpace(p[i]) }

  predicate AllWords(parts: seq<string>) { forall i :: 0 <= i < |parts| ==> Word(parts[i]) }

  predicate Middle(p: string) { Word(p) && p[0] != ':' }

  predicate LastOk(p: string) {
    if NeedsColon(p) then p == "" || !LineEnd(p[|p| - 1]) else Word(p)
  }

  /** The parameters a line can carry. */
  predicate Sendable(params: seq<string>) {
    && (forall i :: 0 <= i < |params| - 1 ==> Middle(params[i]))
    && (params != [] ==> LastOk(params[|params| - 1]))
  }

  lemma {:induction false} FieldsAreWords(s: string)
    ensures AllWords(Fields(s))
    decreases |s|
  {
    var t := s[Run(s, true)..];
    if t != "" {
      var n := Run(t, false);
      FieldsAreWords(t[n..]);
      FirstWord(s, t, n);
      FieldsOf(s, t, n);
      ConsWords(t[..n], Fields(t[n..]), Fields(s));
    }
  }

  lemma ConsWords(p: string, rest: seq<string>, parts: seq<string>)
    requires Word(p) && AllWords(rest) && parts == [p] + rest
    ensures AllWords(parts)
  {}

  lemma FirstWord(s: string, t: string, n: nat)
    requires t == s[Run(s, true)..] && t != "" && n == Run(t, false)
    ensures Word(t[..n])
  {}

  lemma FieldsOf(s: string, t: string, n: nat)
    requires t == s[Run(s, true)..] && t != "" && n == Run(t, false)
    ensures Fields(s) == [t[..n]] + Fields(t[n..])
  {}

  lemma RunUnique(s: string, space: bool, n: nat)
    requires n <= |s| && (forall i :: 0 <= i < n ==> IsSpace(s[i]) == space)
    requires n < |s| ==> IsSpace(s[n]) != space
    ensures Run(s, space) == n
  {}

  lemma RunWord(p: string, tail: string)
    requires Word(p) && (tail == "" || IsSpace(tail[0]))
    ensures Run(p + tail, true) == 0 && Run(p + tail, false) == |p|
    ensures (p + tail)[0..] == p + tail && (p + tail)[..|p|] == p && (p + tail)[|p|..] == tail
  {
    assert forall i :: 0 <= i < |p| ==> (p + tail)[i] == p[i];
    RunUnique(p + tail, true, 0);
    RunUnique(p + tail, false, |p|);
  }

  lemma FieldsWord(p: string, tail: string)
    requires Word(p) && (tail == "" || IsSpace(tail[0]))
    ensures Fields(p + tail) == [p] + Fields(tail)
  {
    RunWord(p, tail);
  }

  lemma FieldsSkipSpace(s: string)
    ensures Fields([' '] + s) == Fields(s)
  {
    var t := [' '] + s;
    assert t[1..] == s;
    assert t[Run(t, true)..] == s[Run(s, true)..];
  }

  lemma FieldsStep(p: string, rest: seq<string>)
    requires Word(p)
    ensures Fields(Join([p] + rest, ' ')) == [p] + Fields(Join(rest, ' '))
  {
    JoinCons(p, rest, ' ');
    if rest == [] {
      FieldsWord(p, "");
    } else {
      FieldsWord(p, [' '] + Join(rest, ' '));
      FieldsSkipSpace(Join(rest, ' '));
    }
  }

  /** Words joined by spaces split into the same words. */
  lemma {:induction false} FieldsJoin(parts: seq<string>)
    requires forall i :: 0 <= i < |parts| ==> Word(parts[i])
    ensures Fields(Join(parts, ' ')) == parts
    decreases |parts|
  {
    if parts != [] {
      FieldsJoin(parts[1..]);
      FieldsStep(parts[0], parts[1..]);
      assert parts == [parts[0]] + parts[1..];
    }
  }

  /** No space is followed by a colon in words of which only the first may start with a colon. */
  lemma {:induction false} NoTrailing(parts: seq<string>)
    requires forall i :: 0 <= i < |parts| ==> Word(parts[i]) && (i > 0 ==> parts[i][0] != ':')
    ensures var s := Join(parts, ' ');
      (parts != [] ==> Word(parts[0]) && s != "" && s[0] == parts[0][0] && s[|s| - 1] != ' ')
      && NoMark(s)
    decreases |parts|
  {
    if |parts| > 1 {
      NoTrailing(parts[1..]);
      var s, rest := Join(parts, ' '), Join(parts[1..], ' ');
      assert s == parts[0] + [' '] + rest && rest[0] == parts[1][0];
      forall j: nat ensures !MarkAt(s, j) {
        if j < |parts[0]| { assert s[j] == parts[0][j]; }
        if |parts[0]| < j < |s| - 1 {
          assert s[j] == rest[j - |parts[0]| - 1] && s[j + 1] == rest[j - |parts[0]|];
          assert !MarkAt(rest, j - |parts[0]| - 1);
        }
      }
    } else if |parts| == 1 {
      assert forall j :: 0 <= j < |parts[0]| ==> parts[0][j] != ' ';
    }
  }

  // ----- What a line carries -----

  function Mark(last: string): string { if NeedsColon(last) then ":" + last else last }

  lemma RestShape(cmd: string, params: seq<string>)
    requires params != []
    ensures var mids, last := params[..|params| - 1], params[|params| - 1];
      Join([cmd] + Marked(params), ' ') == Join([cmd] + mids, ' ') + [' '] + Mark(last)
  {
    var mids, last := params[..|params| - 1], params[|params| - 1];
    assert [cmd] + Marked(params) == ([cmd] + mids) + [Mark(last)];
    JoinSnoc([cmd] + mids, Mark(last), ' ');
  }

  lemma TrimNothing(s: string)
    requires s == "" || !LineEnd(s[|s| - 1])
    ensures TrimRight(s) == s
  {}

  lemma TrimAppend(a: string, b: string)
    requires TrimRight(b) != ""
    ensures TrimRight(a + b) == a + TrimRight(b)
  {
    var t, u := TrimRight(a + b), a + TrimRight(b);
    assert u[|u| - 1] == TrimRight(b)[|TrimRight(b)| - 1] == (a + b)[|u| - 1];
    assert forall i :: |u| <= i < |a + b| ==> (a + b)[i] == b[i - |a|];
    assert |t| == |u|;
  }

  lemma PrefixSplit(prefix: string, rest: string)
    requires ' ' !in prefix
    ensures var line := ":" + prefix + " " + rest;
      line[0] == ':' && Find(line, ' ') == |prefix| + 1 && line[1..|prefix| + 1] == prefix && line[|prefix| + 2..] == rest
  {
    FindUnique(":" + prefix + " " + rest, ' ', |prefix| + 1);
  }

  lemma PrefixParsed(prefix: string, rest: string, upper: string -> string)
    requires ' ' !in prefix && TrimRight(rest) != ""
    ensures ParseMessage(":" + prefix + " " + rest, upper)
         == var words := Words(TrimRight(rest));
            if words == [] then None else Some(Message(prefix, upper(words[0]), words[1..]))
  {
    TrimAppend(":" + prefix + " ", rest);
    PrefixSplit(prefix, TrimRight(rest));
  }

  lemma SendableEnds(cmd: string, params: seq<string>)
    requires Word(cmd) && Sendable(params)
    ensures var rest := Join([cmd] + Marked(params), ' '); rest != "" && TrimRight(rest) == rest
  {
    if params == [] {
      assert [cmd] + Marked(params) == [cmd];
      TrimNothing(cmd);
    } else {
      var mids, last := params[..|params| - 1], params[|params| - 1];
      RestShape(cmd, params);
      Associate(Join([cmd] + mids, ' '), last);
      LastOkEnd(last);
      EndsTrimmed(Join([cmd] + mids, ' '), last);
    }
  }

  lemma LastOkEnd(last: string)
    requires LastOk(last)
    ensures last != "" ==> !LineEnd(last[|last| - 1])
  {}

  lemma TrailingAt(body: string, tail: string)
    requires body == "" || body[|body| - 1] != ' '
    requires NoMark(body)
    ensures FindTrailing(body + [' '] + (":" + tail)) == |body|
  {
    var s := body + [' '] + (":" + tail);
    assert s[|body|] == ' ' && s[|body| + 1] == ':';
    assert MarkAt(s, |body|);
    forall j: nat | j < |body| ensures !MarkAt(s, j) {
      assert s[j] == body[j] && !MarkAt(body, j);
      if j + 1 < |body| { assert s[j + 1] == body[j + 1]; }
    }
  }

  /** A command and parameters that stand for themselves. */
  predicate Plain(parts: seq<string>) {
    forall i :: 0 <= i < |parts| ==> Word(parts[i]) && (i > 0 ==> parts[i][0] != ':')
  }

  lemma MarkedWords(parts: seq<string>, last: string)
    requires parts != [] && Plain(parts)
    ensures Words(Join(parts, ' ') + [' '] + (":" + last)) == parts + [last]
  {
    NoTrailing(parts);
    TrailingWords(Join(parts, ' '), last);
    FieldsJoin(parts);
  }

  lemma TrailingWords(body: string, last: string)
    requires body == "" || body[|body| - 1] != ' '
    requires NoMark(body)
    ensures Words(body + [' '] + (":" + last)) == Fields(body) + [last]
  {
    var r := body + [' '] + (":" + last);
    TrailingAt(body, last);
    SplitAround(body, last);
    WordsAre(r, Words(r));
  }

  lemma SplitAround(body: string, last: string)
    ensures var s := body + [' '] + (":" + last); s[..|body|] == body && s[|body| + 2..] == last
  {}

  lemma PlainWords(parts: seq<string>)
    requires Plain(parts)
    ensures Words(Join(parts, ' ')) == parts
  {
    NoTrailing(parts);
    FieldsJoin(parts);
  }

  predicate Middles(mids: seq<string>) { forall i :: 0 <= i < |mids| ==> Middle(mids[i]) }

  lemma MiddlesPlain(cmd: string, mids: seq<string>)
    requires Word(cmd) && Middles(mids)
    ensures Plain([cmd] + mids)
  {
    forall i | 0 < i < |[cmd] + mids| ensures Middle(([cmd] + mids)[i]) { assert ([cmd] + mids)[i] == mids[i - 1]; }
  }

  lemma PlainSnoc(parts: seq<string>, last: string)
    requires Plain(parts) && Word(last) && last[0] != ':'
    ensures Plain(parts + [last])
  {}

  lemma SnocWords(cmd: string, mids: seq<string>, last: string)
    requires Word(cmd) && Middles(mids) && LastOk(last)
    ensures Words(Join([cmd] + mids, ' ') + [' '] + Mark(last)) == [cmd] + mids + [last]
  {
    MiddlesPlain(cmd, mids);
    if NeedsColon(last) {
      MarkedWords([cmd] + mids, last);
    } else {
      PlainSnoc([cmd] + mids, last);
      JoinSnoc([cmd] + mids, last, ' ');
      PlainWords([cmd] + mids + [last]);
    }
  }

  lemma SendableWords(cmd: string, params: seq<string>)
    requires Word(cmd) && Sendable(params)
    ensures Words(Join([cmd] + Marked(params), ' ')) == [cmd] + params
  {
    if params == [] {
      PlainWords([cmd]);
      assert [cmd] + Marked([]) == [cmd] && [cmd] + params == [cmd];
    } else {
      var mids, last := params[..|params| - 1], params[|params| - 1];
      RestShape(cmd, params);
      SendableParts(params);
      SnocWords(cmd, mids, last);
      Regroup(cmd, params);
    }
  }

  lemma SendableParts(params: seq<string>)
    requires Sendable(params) && params != []
    ensures Middles(params[..|params| - 1]) && LastOk(params[|params| - 1])
  {}

  lemma Regroup(cmd: string, params: seq<string>)
    requires params != []
    ensures [cmd] + params[..|params| - 1] + [params[|params| - 1]] == [cmd] + params
  {}

  /** A parameter that starts with a colon puts a space and a colon into the joined text. */
  lemma {:induction false} ColonInside(parts: seq<string>, k: nat) returns (j: nat)
    requires 0 < k < |parts| && parts[k] != "" && parts[k][0] == ':'
    ensures MarkAt(Join(parts, ' '), j)
    decreases k
  {
    var rest := Join(parts[1..], ' ');
    assert Join(parts, ' ') == parts[0] + [' '] + rest;
    if k == 1 {
      j := |parts[0]|;
      assert rest[0] == parts[1][0];
    } else {
      j := ColonInside(parts[1..], k - 1);
      j := |parts[0]| + 1 + j;
    }
  }

  lemma MarkKept(a: string, b: string, j: nat)
    requires MarkAt(a, j)
    ensures MarkAt(a + b, j)
  {
    assert (a + b)[j] == a[j] && (a + b)[j + 1] == a[j + 1];
  }

  lemma NoColonInside(parts: seq<string>, tail: string)
    requires AllWords(parts)
    requires FindTrailing(Join(parts, ' ') + tail) >= |Join(parts, ' ')|
    ensures Plain(parts)
  {
    var body := Join(parts, ' ');
    forall i | 0 < i < |parts| ensures parts[i][0] != ':' {
      assert Word(parts[i]);
      if parts[i][0] == ':' {
        var j := ColonInside(parts, i);
        MarkKept(body, tail, j);
      }
    }
  }

  lemma TrailingPosition(body: string, last: string)
    requires var r := body + ([' '] + Mark(last));
      var i := FindTrailing(r); i < |r| && r[i + 2..] == last
    ensures NeedsColon(last) && FindTrailing(body + ([' '] + Mark(last))) >= |body|
  {
    var r := body + ([' '] + Mark(last));
    var i := FindTrailing(r);
    assert |r| - (i + 2) == |last| && |r| == |body| + 1 + |Mark(last)|;
    assert r[|body|] == ' ';
  }

  lemma NoTrailingPosition(body: string, last: string)
    requires last != ""
    requires var r := body + ([' '] + Mark(last)); FindTrailing(r) == |r|
    ensures last[0] != ':'
  {
    var r := body + ([' '] + Mark(last));
    assert r[|body|] == ' ' && r[|body| + 1] == Mark(last)[0];
    assert !MarkAt(r, |body|);
  }

  lemma EndsTrimmed(body: string, last: string)
    requires last != "" ==> !LineEnd(last[|last| - 1])
    ensures TrimRight(body + ([' '] + Mark(last))) == body + ([' '] + Mark(last))
  {
    var s := body + ([' '] + Mark(last));
    assert s[|s| - 1] == Mark(last)[|Mark(last)| - 1];
    TrimNothing(s);
  }

  lemma TailOfSnoc(fields: seq<string>, t: string, mids: seq<string>, last: string)
    requires (fields + [t])[1..] == mids + [last]
    ensures fields != [] && t == last && fields[1..] == mids
  {
    assert |fields| == |mids| + 1;
    assert fields + [t] == [fields[0]] + (fields[1..] + [t]);
    assert (fields[1..] + [t])[|mids|] == t && (mids + [last])[|mids|] == last;
    assert (fields[1..] + [t])[..|mids|] == fields[1..] && (mids + [last])[..|mids|] == mids;
  }

  lemma AllWordsFrom(cmd: string, mids: seq<string>, fields: seq<string>)
    requires Word(cmd) && AllWords(fields) && |fields| > |mids| && fields[1..|mids| + 1] == mids
    ensures AllWords([cmd] + mids)
  {
    forall i | 0 < i < |[cmd] + mids| ensures Word(([cmd] + mids)[i]) {
      assert ([cmd] + mids)[i] == mids[i - 1] == fields[i];
    }
  }

  lemma LastCharacter(r: string, n: nat, last: string)
    requires n <= |r| && r[n..] == last
    ensures last != "" ==> r != "" && r[|r| - 1] == last[|last| - 1]
  {}

  /** The parameters come back with a trailing one: it is the last one sent. */
  lemma TrailingSendable(cmd: string, mids: seq<string>, last: string, body: string, r: string, i: nat, s: string, t: string)
    requires Word(cmd) && body == Join([cmd] + mids, ' ') && r == TrimRight(body + ([' '] + Mark(last)))
    requires i == FindTrailing(r) && i + 2 <= |r| && s == r[..i] && t == r[i + 2..]
    requires (Fields(s) + [t])[1..] == mids + [last]
    ensures Plain([cmd] + mids) && LastOk(last)
  {
    TrailingFields(cmd, mids, last, Fields(s), t, s);
    TrailingEnd(cmd, mids, last, body, r, i);
  }

  lemma TrailingEnd(cmd: string, mids: seq<string>, last: string, body: string, r: string, i: nat)
    requires AllWords([cmd] + mids) && body == Join([cmd] + mids, ' ') && r == TrimRight(body + ([' '] + Mark(last)))
    requires i == FindTrailing(r) && i + 2 <= |r| && r[i + 2..] == last
    ensures Plain([cmd] + mids) && LastOk(last)
  {
    LastCharacter(r, i + 2, last);
    TrailingUncut(body, last, r);
    TrailingPosition(body, last);
    NoColonInside([cmd] + mids, [' '] + Mark(last));
  }

  /** A line that still ends in its last parameter lost nothing; nor is there a line end to lose. */
  lemma TrailingUncut(body: string, last: string, r: string)
    requires r == TrimRight(body + ([' '] + Mark(last))) && (last != "" ==> r != "" && r[|r| - 1] == last[|last| - 1])
    ensures r == body + ([' '] + Mark(last)) && (last == "" || !LineEnd(last[|last| - 1]))
  {
    EndsTrimmed(body, last);
  }

  lemma TrailingFields(cmd: string, mids: seq<string>, last: string, fields: seq<string>, t: string, s: string)
    requires Word(cmd) && fields == Fields(s) && (fields + [t])[1..] == mids + [last]
    ensures t == last && AllWords([cmd] + mids)
  {
    TailOfSnoc(fields, t, mids, last);
    FieldsAreWords(s);
    AllWordsFrom(cmd, mids, fields);
  }

  /** The parameters come back without a trailing one. */
  lemma WordsOnlySendable(cmd: string, mids: seq<string>, last: string, body: string)
    requires Word(cmd) && body == Join([cmd] + mids, ' ')
    requires var r := TrimRight(body + ([' '] + Mark(last)));
      FindTrailing(r) == |r| && Fields(r) != [] && Fields(r)[1..] == mids + [last]
    ensures Plain([cmd] + mids) && LastOk(last)
  {
    var r := TrimRight(body + ([' '] + Mark(last)));
    LastField(cmd, mids, last, r, Fields(r));
    EndsTrimmed(body, last);
    NoTrailingPosition(body, last);
    NoColonInside([cmd] + mids, [' '] + Mark(last));
    WordNoSpace(last);
  }

  lemma LastField(cmd: string, mids: seq<string>, last: string, s: string, fields: seq<string>)
    requires Word(cmd) && fields == Fields(s) && fields != [] && fields[1..] == mids + [last]
    ensures AllWords([cmd] + mids) && Word(last)
  {
    FieldsAreWords(s);
    assert fields[1..][|mids|] == last && fields[|mids| + 1] == last;
    assert fields[1..][..|mids|] == mids && fields[1..|mids| + 1] == mids;
    AllWordsFrom(cmd, mids, fields);
  }

  lemma WordNoSpace(p: string)
    requires Word(p)
    ensures ' ' !in p && !LineEnd(p[|p| - 1])
  {}

  lemma PlainSendable(cmd: string, mids: seq<string>, last: string)
    requires Plain([cmd] + mids) && LastOk(last)
    ensures Sendable(mids + [last])
  {
    forall i | 0 <= i < |mids| ensures Middle((mids + [last])[i]) {
      assert ([cmd] + mids)[i + 1] == mids[i];
    }
  }

  lemma EitherSendable(cmd: string, mids: seq<string>, last: string, body: string)
    requires Word(cmd) && body == Join([cmd] + mids, ' ')
    requires var words := Words(TrimRight(body + ([' '] + Mark(last)))); words != [] && words[1..] == mids + [last]
    ensures Plain([cmd] + mids) && LastOk(last)
  {
    var r := TrimRight(body + ([' '] + Mark(last)));
    WordsAre(r, Words(r));
    var i := FindTrailing(r);
    if i < |r| {
      TrailingSendable(cmd, mids, last, body, r, i, r[..i], r[i + 2..]);
    } else {
      WordsOnlySendable(cmd, mids, last, body);
    }
  }

  lemma WordsAre(r: string, words: seq<string>)
    requires words == Words(r)
    ensures var i := FindTrailing(r); words == if i < |r| then Fields(r[..i]) + [r[i + 2..]] else Fields(r)
  {}

  lemma RestIs(cmd: string, mids: seq<string>, last: string)
    ensures Join([cmd] + Marked(mids + [last]), ' ') == Join([cmd] + mids, ' ') + ([' '] + Mark(last))
  {
    var params := mids + [last];
    RestShape(cmd, params);
    assert params[..|params| - 1] == mids;
    Associate(Join([cmd] + mids, ' '), last);
  }

  lemma Associate(body: string, last: string)
    ensures body + [' '] + Mark(last) == body + ([' '] + Mark(last))
  {}

  /** Only sendable parameters come back. */
  lemma WordsSendable(cmd: string, mids: seq<string>, last: string, words: seq<string>)
    requires Word(cmd)
    requires words == Words(TrimRight(Join([cmd] + Marked(mids + [last]), ' ')))
    requires words != [] && words[1..] == mids + [last]
    ensures Sendable(mids + [last])
  {
    RestIs(cmd, mids, last);
    EitherSendable(cmd, mids, last, Join([cmd] + mids, ' '));
    PlainSendable(cmd, mids, last);
  }

  lemma RestNotBlank(cmd: string, params: seq<string>)
    requires Word(cmd)
    ensures TrimRight(Join([cmd] + Marked(params), ' ')) != ""
  {
    var parts := [cmd] + Marked(params);
    var s := Join(parts, ' ');
    assert s[0] == cmd[0] && !LineEnd(s[0]);
  }

  lemma SentWords(cmd: string, params: seq<string>, words: seq<string>)
    requires Word(cmd) && Sendable(params)
    requires words == Words(TrimRight(Join([cmd] + Marked(params), ' ')))
    ensures words == [cmd] + params
  {
    SendableEnds(cmd, params);
    SendableWords(cmd, params);
  }

  lemma ReadBackSendable(cmd: string, params: seq<string>, words: seq<string>)
    requires Word(cmd)
    requires words == Words(TrimRight(Join([cmd] + Marked(params), ' ')))
    requires words != [] && words[1..] == params
    ensures Sendable(params)
  {
    if params != [] {
      var mids, last := params[..|params| - 1], params[|params| - 1];
      SplitLast(params);
      WordsSendable(cmd, mids, last, words);
    }
  }

  lemma SplitLast(params: seq<string>)
    requires params != []
    ensures params[..|params| - 1] + [params[|params| - 1]] == params
  {}

  /** A parsed prefix has no space. */
  lemma PrefixHasNoSpace(line: string, upper: string -> string)
    ensures var m := ParseMessage(line, upper); m.Some? ==> ' ' !in m.value.prefix
  {
    var t := TrimRight(line);
    if t != "" && t[0] == ':' && Find(t, ' ') < |t| {
      assert forall k :: 0 <= k < |t[1..Find(t, ' ')]| ==> t[1..Find(t, ' ')][k] == t[..Find(t, ' ')][k + 1];
    }
  }

  /** A line written by SendFrom parses to the same prefix and parameters, and to the upper-cased command,
      if and only if the prefix has no space and the parameters are sendable: the middle ones non-empty,
      without white space and not starting with a colon; the last one a word, or marked with a colon and
      not ending in a line end. */
  lemma SendParsesIff(prefix: string, cmd: string, params: seq<string>, upper: string -> string)
    requires Word(cmd)
    ensures ParseMessage(SendFrom(prefix, cmd, params), upper) == Some(Message(prefix, upper(cmd), params))
       <==> ' ' !in prefix && Sendable(params)
  {
    PrefixHasNoSpace(SendFrom(prefix, cmd, params), upper);
    if ' ' !in prefix {
      var rest := Join([cmd] + Marked(params), ' ');
      RestNotBlank(cmd, params);
      PrefixParsed(prefix, rest, upper);
      var words := Words(TrimRight(rest));
      if Sendable(params) { SentWords(cmd, params, words); }
      if words != [] && words[1..] == params { ReadBackSendable(cmd, params, words); }
    }
  }

  /** The text sent: the last parameter is marked when it is empty, starts with a colon or has a space. */
  lemma SentText(prefix: string, cmd: string, mids: seq<string>, last: string)
    ensures SendFrom(prefix, cmd, []) == ":" + prefix + " " + cmd
    ensures SendFrom(prefix, cmd, mids + [last])
         == ":" + prefix + " " + (Join([cmd] + mids, ' ')
            + ([' '] + if last == "" || last[0] == ':' || ' ' in last then ":" + last else last))
  {
    assert [cmd] + Marked([]) == [cmd];
    RestIs(cmd, mids, last);
  }

  /** The sendable parameters, written out. */
  lemma SendableMeans(mids: seq<string>, last: string)
    ensures Sendable([])
    ensures Sendable(mids + [last])
       <==> && (forall i :: 0 <= i < |mids| ==> mids[i] != "" && mids[i][0] != ':' && forall c :: c in mids[i] ==> !IsSpace(c))
            && (last == ""
                || if last[0] == ':' || ' ' in last then last[|last| - 1] !in {'\r', '\n'} else forall c :: c in last ==> !IsSpace(c))
  {
    var params := mids + [last];
    assert forall i :: 0 <= i < |mids| ==> params[i] == mids[i];
    assert Middles(mids) <==> forall i :: 0 <= i < |mids| ==> Middle(params[i]);
  }

  // ----- Lines without a prefix, as clients send them -----

  /** A command and marked parameters. */
  function Bare(cmd: string, params: seq<string>): string { Join([cmd] + Marked(params), ' ') }

  lemma BareParsed(line: string, upper: string -> string)
    requires TrimRight(line) != "" && line[0] != ':'
    ensures ParseMessage(line, upper)
         == var words := Words(TrimRight(line));
            if words == [] then None else Some(Message("", upper(words[0]), words[1..]))
  {}

  lemma {:induction false} FieldsLength(s: string)
    ensures Fields(s) != [] ==> |Join(Fields(s), ' ')| <= |s| - Run(s, true)
    decreases |s|
  {
    var t := s[Run(s, true)..];
    if t != "" {
      var n := Run(t, false);
      FieldsLength(t[n..]);
      JoinCons(t[..n], Fields(t[n..]), ' ');
    }
  }

  lemma SnocLength(s: string, t: string)
    ensures |Join(Fields(s) + [t], ' ')| <= |s| + 1 + |t|
  {
    var fields := Fields(s);
    FieldsLength(s);
    if fields != [] { JoinSnoc(fields, t, ' '); }
  }

  /** The words of a line, joined again, are no longer than the line. */
  lemma WordsLength(r: string)
    requires Words(r) != []
    ensures |Join(Words(r), ' ')| <= |r|
  {
    var i := FindTrailing(r);
    WordsAre(r, Words(r));
    if i < |r| {
      SnocLength(r[..i], r[i + 2..]);
    } else {
      FieldsLength(r);
    }
  }

  lemma MarkedLength(params: seq<string>)
    requires params != []
    ensures |Join(Marked(params), ' ')| <= |Join(params, ' ')| + 1
  {
    var mids, last := params[..|params| - 1], params[|params| - 1];
    SplitLast(params);
    assert Marked(params) == mids + [Mark(last)];
    if mids != [] {
      JoinSnoc(mids, last, ' ');
      JoinSnoc(mids, Mark(last), ' ');
    }
  }

  lemma FirstIsWord(r: string)
    requires |Words(r)| >= 2
    ensures Words(r)[0] != ""
  {
    var i := FindTrailing(r);
    FieldsAreWords(if i < |r| then r[..i] else r);
  }

  /** The parameters of a line are too long to be read from less than the line. */
  lemma TooShort(params: seq<string>, r: string, words: seq<string>)
    requires params != [] && r <= Join(Marked(params), ' ') && words == Words(r) && words != []
    ensures words[1..] != params
  {
    WordsLength(r);
    MarkedLength(params);
    if |words| >= 2 {
      FirstIsWord(r);
      assert words == [words[0]] + words[1..];
      JoinCons(words[0], words[1..], ' ');
    }
  }

  lemma BareSplit(cmd: string, params: seq<string>)
    requires Word(cmd) && params != []
    ensures Bare(cmd, params) == cmd + ([' '] + Join(Marked(params), ' ')) && Find(Bare(cmd, params), ' ') == |cmd|
  {
    JoinCons(cmd, Marked(params), ' ');
    WordNoSpace(cmd);
    FindUnique(Bare(cmd, params), ' ', |cmd|);
  }

  /** A command that starts with a colon is taken for a prefix. */
  lemma ColonTaken(cmd: string, params: seq<string>, upper: string -> string)
    requires Word(cmd) && cmd[0] == ':'
    ensures var m := ParseMessage(Bare(cmd, params), upper); m.Some? ==> m.value.params != params
  {
    var line := Bare(cmd, params);
    var t := TrimRight(line);
    RestNotBlank(cmd, params);
    JoinCons(cmd, Marked(params), ' ');
    PrefixForm(line, t, upper);
    if params == [] {
      WordNoSpace(cmd);
      assert line == cmd + "" == cmd;
    } else {
      if Find(t, ' ') < |t| { RestTooShort(cmd, params, line, t); }
    }
  }

  lemma RestTooShort(cmd: string, params: seq<string>, line: string, t: string)
    requires Word(cmd) && params != [] && line == Bare(cmd, params) && t <= line && Find(t, ' ') < |t|
    ensures var words := Words(t[Find(t, ' ') + 1..]); words != [] ==> words[1..] != params
  {
    BareSplit(cmd, params);
    CutAfter(line, t, cmd, Join(Marked(params), ' '));
    var r := t[Find(t, ' ') + 1..];
    if Words(r) != [] { TooShort(params, r, Words(r)); }
  }

  lemma PrefixForm(line: string, t: string, upper: string -> string)
    requires t == TrimRight(line) && t != "" && t[0] == ':'
    ensures var m, i := ParseMessage(line, upper), Find(t, ' ');
      m.Some? ==> i < |t| && Words(t[i + 1..]) != [] && m.value.params == Words(t[i + 1..])[1..]
  {
    var i := Find(t, ' ');
    if i < |t| { TrimmedForm(t, i, Words(t[i + 1..]), upper); }
  }

  lemma TrimmedForm(t: string, i: nat, words: seq<string>, upper: string -> string)
    requires t != "" && t[0] == ':' && i == Find(t, ' ') && i < |t| && words == Words(t[i + 1..])
    ensures ParseTrimmed(t, upper) == if words == [] then None else Some(Message(t[1..i], upper(words[0]), words[1..]))
  {}

  lemma CutAfter(line: string, t: string, head: string, rest: string)
    requires line == head + ([' '] + rest) && t <= line && Find(line, ' ') == |head|
    ensures Find(t, ' ') < |t| ==> t[Find(t, ' ') + 1..] <= rest
  {
    if Find(t, ' ') < |t| {
      FoundSame(t, line);
      AfterHead(head, rest, line);
      CutSame(line, t, |head|, rest);
    }
  }

  lemma FoundSame(t: string, line: string)
    requires t <= line && Find(t, ' ') < |t|
    ensures Find(line, ' ') == Find(t, ' ')
  {
    var i := Find(t, ' ');
    assert line[..i] == t[..i] && line[i] == t[i];
    FindUnique(line, ' ', i);
  }

  lemma AfterHead(head: string, rest: string, line: string)
    requires line == head + ([' '] + rest)
    ensures line[|head| + 1..] == rest
  {}

  lemma CutSame(line: string, t: string, i: nat, rest: string)
    requires i < |t| && t <= line && line[i + 1..] == rest
    ensures t[i + 1..] <= rest
  {}

  /** A command and marked parameters without a prefix parse to the upper-cased command and the parameters if
      and only if the command does not start with a colon and the parameters are sendable. */
  lemma BareParsesIff(cmd: string, params: seq<string>, upper: string -> string)
    requires Word(cmd)
    ensures ParseMessage(Bare(cmd, params), upper) == Some(Message("", upper(cmd), params))
       <==> cmd[0] != ':' && Sendable(params)
  {
    var rest := Bare(cmd, params);
    RestNotBlank(cmd, params);
    if cmd[0] == ':' {
      ColonTaken(cmd, params, upper);
    } else {
      var words := Words(TrimRight(rest));
      JoinCons(cmd, Marked(params), ' ');
      BareParsed(rest, upper);
      if Sendable(params) { SentWords(cmd, params, words); }
      if words != [] && words[1..] == params { ReadBackSendable(cmd, params, words); }
    }
  }

  /** What comes out as a command is a word, or a trailing parameter alone. */
  lemma CommandIsWord(line: string)
    ensures var m := ParseMessage(line, s => s);
      m.Some? ==> Word(m.value.command) || (m.value.params == [] && |m.value.command| + 2 <= |line|)
  {
    var t := TrimRight(line);
    if t != "" && t[0] != ':' { WordsHead(t); }
    if t != "" && t[0] == ':' && Find(t, ' ') < |t| { WordsHead(t[Find(t, ' ') + 1..]); }
  }

  lemma WordsHead(r: string)
    ensures var words := Words(r); words != [] ==> Word(words[0]) || (|words| == 1 && |words[0]| + 2 <= |r|)
  {
    var i := FindTrailing(r);
    if i < |r| { FieldsAreWords(r[..i]); } else { FieldsAreWords(r); }
  }

  /** For every command and all parameters: with the command left as it is, the line comes back if and only if
      the command is a word without a leading colon and the parameters are sendable. */
  lemma BareReturnsIff(cmd: string, params: seq<string>)
    ensures ParseMessage(Bare(cmd, params), s => s) == Some(Message("", cmd, params)) <==> Middle(cmd) && Sendable(params)
  {
    if Word(cmd) {
      BareParsesIff(cmd, params, s => s);
    } else {
      CommandIsWord(Bare(cmd, params));
      assert params == [] ==> [cmd] + Marked(params) == [cmd];
    }
  }

  // ----- Runs of white space, and the trailing parameter -----

  predicate Blank(s: string) { forall i :: 0 <= i < |s| ==> IsSpace(s[i]) }

  predicate Gaps(gaps: seq<string>) {
    (forall i :: 0 <= i < |gaps| ==> Blank(gaps[i])) && forall i :: 1 <= i < |gaps| ==> gaps[i] != ""
  }

  /** Words with white space before each of them, and `tail` after them. */
  function Spaced(words: seq<string>, gaps: seq<string>, tail: string): string
    requires |words| == |gaps|
  {
    if words == [] then tail else gaps[0] + (words[0] + Spaced(words[1..], gaps[1..], tail))
  }

  lemma FieldsBlank(g: string, s: string)
    requires Blank(g)
    ensures Fields(g + s) == Fields(s)
  {
    var t := g + s;
    assert forall i :: 0 <= i < |s| ==> t[|g| + i] == s[i];
    RunUnique(t, true, |g| + Run(s, true));
    assert t[Run(t, true)..] == s[Run(s, true)..];
  }

  lemma SpacedHead(words: seq<string>, gaps: seq<string>, tail: string)
    requires |words| == |gaps| && Gaps(gaps) && Blank(tail) && (words != [] ==> gaps[0] != "")
    ensures var s := Spaced(words, gaps, tail); s == "" || IsSpace(s[0])
  {}

  lemma GapWord(gap: string, word: string, rest: string)
    requires Blank(gap) && Word(word) && (rest == "" || IsSpace(rest[0]))
    ensures Fields(gap + (word + rest)) == [word] + Fields(rest)
  {
    FieldsBlank(gap, word + rest);
    FieldsWord(word, rest);
  }

  lemma BlankFields(s: string)
    requires Blank(s)
    ensures Fields(s) == []
  {
    RunUnique(s, true, |s|);
  }

  /** Words come back from whatever white space is before, between and after them. */
  lemma {:induction false} SpacedFields(words: seq<string>, gaps: seq<string>, tail: string)
    requires |words| == |gaps| && AllWords(words) && Gaps(gaps) && Blank(tail)
    ensures Fields(Spaced(words, gaps, tail)) == words
    decreases |words|
  {
    if words == [] {
      BlankFields(tail);
    } else {
      SpacedFields(words[1..], gaps[1..], tail);
      SpacedHead(words[1..], gaps[1..], tail);
      GapWord(gaps[0], words[0], Spaced(words[1..], gaps[1..], tail));
    }
  }

  lemma NoMarkConcat(a: string, b: string)
    requires NoMark(a) && NoMark(b) && (b == "" || b[0] != ':')
    ensures NoMark(a + b)
  {
    var s := a + b;
    forall j: nat | j + 1 < |s| ensures !MarkAt(s, j) {
      if j + 1 < |a| { assert s[j] == a[j] && s[j + 1] == a[j + 1] && !MarkAt(a, j); }
      if j >= |a| { assert s[j] == b[j - |a|] && s[j + 1] == b[j + 1 - |a|] && !MarkAt(b, j - |a|); }
    }
  }

  lemma {:induction false} SpacedNoMark(words: seq<string>, gaps: seq<string>, tail: string)
    requires |words| == |gaps| && Middles(words) && Gaps(gaps) && Blank(tail)
    ensures var s := Spaced(words, gaps, tail); NoMark(s) && (s == "" || s[0] != ':')
    decreases |words|
  {
    if words != [] {
      var rest := Spaced(words[1..], gaps[1..], tail);
      assert Middle(words[0]);
      SpacedNoMark(words[1..], gaps[1..], tail);
      NoMarkConcat(words[0], rest);
      NoMarkConcat(gaps[0], words[0] + rest);
    }
  }

  lemma MarkFound(head: string, t: string)
    requires NoMark(head)
    ensures var s := head + (" :" + t); FindTrailing(s) == |head| && s[..|head|] == head && s[|head| + 2..] == t
  {
    var s := head + (" :" + t);
    assert s[|head|] == ' ' && s[|head| + 1] == ':';
    assert MarkAt(s, |head|);
    forall j: nat | j < |head| ensures !MarkAt(s, j) {
      assert s[j] == head[j] && (j + 1 < |head| ==> s[j + 1] == head[j + 1]) && !MarkAt(head, j);
    }
  }

  lemma TrimEnds(s: string, ends: string)
    requires (s == "" || !LineEnd(s[|s| - 1])) && forall i :: 0 <= i < |ends| ==> LineEnd(ends[i])
    ensures TrimRight(s + ends) == s
  {
    var r := TrimRight(s + ends);
    assert s != "" ==> (s + ends)[|s| - 1] == s[|s| - 1];
    assert forall i :: 0 <= i < |ends| ==> (s + ends)[|s| + i] == ends[i];
    assert |r| == |s|;
  }

  lemma SnocTail(words: seq<string>, t: string)
    requires words != []
    ensures (words + [t])[0] == words[0] && (words + [t])[1..] == words[1..] + [t]
  {}

  lemma MarkedLine(head: string, t: string, line: string)
    requires line == head + (" :" + t)
    ensures line != "" && line[0] == (if head == "" then ' ' else head[0])
    ensures line[|line| - 1] == if t == "" then ':' else t[|t| - 1]
  {}

  lemma ParsedAs(full: string, line: string, words: seq<string>, upper: string -> string)
    requires TrimRight(full) == line && line != "" && line[0] != ':' && words == Words(line) && words != []
    ensures ParseMessage(full, upper) == Some(Message("", upper(words[0]), words[1..]))
  {}

  lemma WordsAround(head: string, t: string, line: string)
    requires NoMark(head) && line == head + (" :" + t)
    ensures Words(line) == Fields(head) + [t]
  {
    MarkFound(head, t);
  }

  lemma HeadParsed(head: string, t: string, line: string, ends: string, upper: string -> string)
    requires NoMark(head) && (head == "" || head[0] != ':') && Fields(head) != [] && line == head + (" :" + t)
    requires (t == "" || !LineEnd(t[|t| - 1])) && forall i :: 0 <= i < |ends| ==> LineEnd(ends[i])
    ensures ParseMessage(line + ends, upper) == Some(Message("", upper(Fields(head)[0]), Fields(head)[1..] + [t]))
  {
    var words := Fields(head);
    MarkedLine(head, t, line);
    TrimEnds(line, ends);
    WordsAround(head, t, line);
    SnocTail(words, t);
    ParsedAs(line + ends, line, words + [t], upper);
  }

  /** A line with a trailing parameter: the words before the first space and colon, and all that follows it,
      spaces and colons included. */
  lemma TrailingParsed(words: seq<string>, gaps: seq<string>, tail: string, t: string, ends: string, upper: string -> string)
    requires |words| == |gaps| && words != [] && Middles(words) && Gaps(gaps) && Blank(tail)
    requires (t == "" || !LineEnd(t[|t| - 1])) && forall i :: 0 <= i < |ends| ==> LineEnd(ends[i])
    ensures ParseMessage(Spaced(words, gaps, tail) + (" :" + t) + ends, upper)
         == Some(Message("", upper(words[0]), words[1..] + [t]))
  {
    var head := Spaced(words, gaps, tail);
    SpacedNoMark(words, gaps, tail);
    SpacedFields(words, gaps, tail);
    HeadParsed(head, t, head + (" :" + t), ends, upper);
  }

  lemma WordTrimmed(word: string, tail: string) returns (kept: string)
    requires Word(word) && Blank(tail)
    ensures Blank(kept) && TrimRight(word + tail) == word + kept && word + kept != ""
  {
    var r := TrimRight(word + tail);
    assert (word + tail)[|word| - 1] == word[|word| - 1];
    assert |r| >= |word|;
    kept := tail[..|r| - |word|];
  }

  /** Trimming a line of words only shortens the white space after them. */
  lemma {:induction false} SpacedTrimmed(words: seq<string>, gaps: seq<string>, tail: string) returns (kept: string)
    requires |words| == |gaps| && AllWords(words) && words != [] && Blank(tail)
    ensures Blank(kept) && TrimRight(Spaced(words, gaps, tail)) == Spaced(words, gaps, kept) != ""
    decreases |words|
  {
    var rest := Spaced(words[1..], gaps[1..], tail);
    if |words| == 1 {
      kept := WordTrimmed(words[0], tail);
    } else {
      kept := SpacedTrimmed(words[1..], gaps[1..], tail);
      TrimAppend(words[0], rest);
    }
    TrimAppend(gaps[0], words[0] + rest);
  }

  /** A line without one: its words, whatever white space and line ends are around them. */
  lemma SpacedParsed(words: seq<string>, gaps: seq<string>, tail: string, upper: string -> string)
    requires |words| == |gaps| && words != [] && Middles(words) && Gaps(gaps) && Blank(tail)
    ensures ParseMessage(Spaced(words, gaps, tail), upper) == Some(Message("", upper(words[0]), words[1..]))
  {
    var kept := SpacedTrimmed(words, gaps, tail);
    SpacedNoMark(words, gaps, kept);
    SpacedFields(words, gaps, kept);
    NoMarkParsed(Spaced(words, gaps, tail), Spaced(words, gaps, kept), words, upper);
  }

  lemma NoMarkParsed(full: string, line: string, words: seq<string>, upper: string -> string)
    requires TrimRight(full) == line && line != "" && line[0] != ':' && NoMark(line) && Fields(line) == words && words != []
    ensures ParseMessage(full, upper) == Some(Message("", upper(words[0]), words[1..]))
  {
    ParsedAs(full, line, words, upper);
  }

  // ----- The sender's parameter slice -----

  /** SendFrom marks the last parameter in the slice it was given. */
  method Send(prefix: string, cmd: string, params: array<string>) returns (line: string)
    modifies params
    ensures line == SendFrom(prefix, cmd, old(params[..]))
    ensures params[..] == Marked(old(params[..]))
  {
    if params.Length > 0 {
      var last := params[params.Length - 1];
      ghost var was := params[..];
      if ' ' in last || HasPrefix(last, ":") || last == "" {
        params[params.Length - 1] := ":" + last;
      }
      assert params[..] == was[..|was| - 1] + [params[params.Length - 1]];
      CommandFirst(cmd, params[..]);
      line := ":" + prefix + " " + cmd + " " + Join(params[..], ' ');
      Reassociate(prefix, cmd, Join(params[..], ' '));
    } else {
      line := ":" + prefix + " " + cmd;
    }
  }

  lemma CommandFirst(cmd: string, params: seq<string>)
    requires params != []
    ensures Join([cmd] + params, ' ') == cmd + [' '] + Join(params, ' ')
  {
    assert ([cmd] + params)[1..] == params;
  }

  lemma Reassociate(prefix: string, cmd: string, rest: string)
    ensures ":" + prefix + " " + (cmd + [' '] + rest) == ":" + prefix + " " + cmd + " " + rest
  {}

  /** Sending the same slice again writes the same line exactly when its last parameter needed no mark. */
  lemma ResendIff(prefix: string, cmd: string, params: seq<string>)
    ensures SendFrom(prefix, cmd, Marked(params)) == SendFrom(prefix, cmd, params)
       <==> params == [] || !NeedsColon(params[|params| - 1])
  {
    if params != [] {
      var mids, last := params[..|params| - 1], params[|params| - 1];
      assert params == mids + [last];
      RestIs(cmd, mids, last);
      assert Marked(params) == mids + [Mark(last)];
      RestIs(cmd, mids, Mark(last));
    }
  }
}
