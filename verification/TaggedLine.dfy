/** Tagged lines (ircv3.go, ParseMessageWithTags and FormatTags): exactly which of them come back. */
module TaggedLines {
  import opened Text
  import opened TagEscape
  import opened Lines

  datatype Tagged = Tagged(msg: Message, tags: map<string, string>)

  function TagPart(key: string, value: string): string {
    if value == "" then key else key + "=" + Escape(value)
  }

  function TagParts(keys: seq<string>, tags: map<string, string>): (parts: seq<string>)
    requires forall k :: k in keys ==> k in tags
    ensures |parts| == |keys| && forall i :: 0 <= i < |keys| ==> parts[i] == TagPart(keys[i], tags[keys[i]])
  {
    seq(|keys|, i requires 0 <= i < |keys| => assert keys[i] in keys; TagPart(keys[i], tags[keys[i]]))
  }

  function TagText(keys: seq<string>, tags: map<string, string>): string
    requires forall k :: k in keys ==> k in tags
  {
    if keys == [] then "" else "@" + Join(TagParts(keys, tags), ';') + " "
  }

  /** The text of the tags in some order. */
  ghost predicate IsTagText(s: string, tags: map<string, string>) {
    exists keys :: Visits(keys, tags.Keys) && s == TagText(keys, tags)
  }

  lemma VisitsSnoc(keys: seq<string>, done: set<string>, k: string)
    requires Visits(keys, done) && k !in done
    ensures Visits(keys + [k], done + {k})
  {
    assert forall x :: x in keys + [k] <==> x in keys || x == k;
    assert k !in keys;
  }

  lemma TagPartsSnoc(keys: seq<string>, tags: map<string, string>, k: string)
    requires (forall j :: j in keys ==> j in tags) && k in tags
    ensures forall j :: j in keys + [k] ==> j in tags
    ensures TagParts(keys + [k], tags) == TagParts(keys, tags) + [TagPart(k, tags[k])]
  {}

  method FormatTags(tags: map<string, string>) returns (s: string)
    ensures IsTagText(s, tags)
  {
    ghost var keys: seq<string> := [];
    if |tags| == 0 {
      assert Visits<string>([], tags.Keys);
      return "";
    }
    var parts: seq<string> := [];
    var rest := tags.Keys;
    while rest != {}
      invariant rest <= tags.Keys && Visits(keys, tags.Keys - rest) && parts == TagParts(keys, tags)
      decreases rest
    {
      var k :| k in rest;
      VisitsSnoc(keys, tags.Keys - rest, k);
      TagPartsSnoc(keys, tags, k);
      assert tags.Keys - rest + {k} == tags.Keys - (rest - {k});
      parts := parts + [TagPart(k, tags[k])];
      keys := keys + [k];
      rest := rest - {k};
    }
    s := "@" + Join(parts, ';') + " ";
    assert tags.Keys - rest == tags.Keys;
    assert Visits(keys, tags.Keys) && keys != [] && s == TagText(keys, tags);
  }

  function ParseTag(tag: string): (string, string) {
    var i := Find(tag, '=');
    if i < |tag| then (tag[..i], Unescape(tag[i + 1..])) else (tag, "")
  }

  /** A later tag replaces an earlier one with the same key. */
  function TagMap(parts: seq<string>): map<string, string> {
    if parts == [] then map[]
    else
      var (k, v) := ParseTag(parts[|parts| - 1]);
      TagMap(parts[..|parts| - 1])[k := v]
  }

  /** A tag is split at its first equals sign; without one its value is empty. */
  lemma TagMeans(key: string, value: string)
    requires '=' !in key
    ensures ParseTag(key + "=" + value) == (key, Unescape(value)) && ParseTag(key) == (key, "")
  {
    var t := key + "=" + value;
    FindUnique(t, '=', |key|);
    assert t[..|key|] == key && t[|key| + 1..] == value;
    FindUnique(key, '=', |key|);
  }

  predicate LastTag(parts: seq<string>, key: string, i: nat) {
    i < |parts| && ParseTag(parts[i]).0 == key && forall j :: i < j < |parts| ==> ParseTag(parts[j]).0 != key
  }

  /** Of several tags with one key the last counts. */
  lemma {:induction false} LastTagCounts(parts: seq<string>, key: string, i: nat)
    requires LastTag(parts, key, i)
    ensures key in TagMap(parts) && TagMap(parts)[key] == ParseTag(parts[i]).1
  {
    if i < |parts| - 1 {
      assert forall j :: 0 <= j < |parts| - 1 ==> parts[..|parts| - 1][j] == parts[j];
      LastTagCounts(parts[..|parts| - 1], key, i);
    }
  }

  method ParseTags(text: string) returns (tags: map<string, string>)
    ensures tags == TagMap(Split(text, ';'))
  {
    tags := map[];
    var parts := Split(text, ';');
    for n := 0 to |parts|
      invariant tags == TagMap(parts[..n])
    {
      var tag := parts[n];
      assert parts[..n + 1][..n] == parts[..n];
      var i := Find(tag, '=');
      if i != |tag| {
        tags := tags[tag[..i] := Unescape(tag[i + 1..])];
      } else {
        tags := tags[tag := ""];
      }
    }
    assert parts[..|parts|] == parts;
  }

  function WithTags(m: Option<Message>, tags: map<string, string>): Option<Tagged> {
    match m
    case None => None
    case Some(msg) => Some(Tagged(msg, tags))
  }

  /** What ParseMessageWithTags reads from a line. */
  function ParseTagged(line0: string, upper: string -> string): Option<Tagged> {
    var line := TrimRight(line0);
    if line == "" then None
    else if line[0] == '@' then
      var i := Find(line, ' ');
      if i == |line| then None
      else WithTags(ParseMessage(line[i + 1..], upper), TagMap(Split(line[1..i], ';')))
    else WithTags(ParseMessage(line, upper), map[])
  }

  method ParseMessageWithTags(line0: string, upper: string -> string) returns (r: Option<Tagged>)
    ensures r == ParseTagged(line0, upper)
  {
    var line := TrimRight(line0);
    if line == "" { return None; }
    var tags: map<string, string> := map[];
    if line[0] == '@' {
      var i := Find(line, ' ');
      if i == |line| { return None; }
      tags := ParseTags(line[1..i]);
      line := line[i + 1..];
    }
    var msg := ParseMessage(line, upper);
    if msg == None { return None; }
    return Some(Tagged(msg.value, tags));
  }

  // ----- Splitting what was joined -----

  lemma {:induction false} JoinAvoids(parts: seq<string>, sep: char, c: char)
    requires c != sep && forall i :: 0 <= i < |parts| ==> c !in parts[i]
    ensures c !in Join(parts, sep)
    decreases |parts|
  {
    if |parts| > 1 { JoinAvoids(parts[1..], sep, c); }
  }

  // ----- Keys and values -----

  predicate CleanKey(k: string) { ';' !in k && '=' !in k && ' ' !in k }

  function ReturnedTags(tags: map<string, string>): map<string, string> {
    map k | k in tags :: Returned(tags[k])
  }

  predicate CleanKeys(tags: map<string, string>) { forall k :: k in tags ==> CleanKey(k) }

  lemma PartAvoids(k: string, v: string)
    requires CleanKey(k)
    ensures ';' !in TagPart(k, v) && ' ' !in TagPart(k, v)
  {
    EscapedIsSafe(v);
  }

  lemma PartParsed(k: string, v: string)
    requires CleanKey(k)
    ensures ParseTag(TagPart(k, v)) == (k, Returned(v))
  {
    UnescapeEscape(v);
    if v == "" {
      FindUnique(k, '=', |k|);
    } else {
      var t := TagPart(k, v);
      FindUnique(t, '=', |k|);
      assert t[..|k|] == k && t[|k| + 1..] == Escape(v);
    }
  }

  lemma {:induction false} PartsParsed(keys: seq<string>, tags: map<string, string>)
    requires forall k :: k in keys ==> k in tags
    requires CleanKeys(tags)
    ensures TagMap(TagParts(keys, tags)) == map k | k in keys :: Returned(tags[k])
  {
    if keys != [] {
      var init, k := keys[..|keys| - 1], keys[|keys| - 1];
      assert keys == init + [k] && k in keys;
      assert forall j :: j in init ==> j in keys;
      assert TagParts(keys, tags)[..|keys| - 1] == TagParts(init, tags);
      PartsParsed(init, tags);
      PartParsed(k, tags[k]);
    }
  }

  lemma PartsAvoid(keys: seq<string>, tags: map<string, string>)
    requires (forall k :: k in keys ==> k in tags) && CleanKeys(tags)
    ensures forall i :: 0 <= i < |keys| ==> ';' !in TagParts(keys, tags)[i] && ' ' !in TagParts(keys, tags)[i]
  {
    forall i | 0 <= i < |keys| ensures ';' !in TagParts(keys, tags)[i] && ' ' !in TagParts(keys, tags)[i] {
      assert keys[i] in keys;
      PartAvoids(keys[i], tags[keys[i]]);
    }
  }

  lemma TextParsed(keys: seq<string>, tags: map<string, string>)
    requires Visits(keys, tags.Keys) && CleanKeys(tags) && keys != []
    ensures var inner := Join(TagParts(keys, tags), ';');
      ' ' !in inner && TagMap(Split(inner, ';')) == ReturnedTags(tags)
  {
    PartsAvoid(keys, tags);
    JoinAvoids(TagParts(keys, tags), ';', ' ');
    SplitJoin(TagParts(keys, tags), ';');
    PartsParsed(keys, tags);
    assert (map k | k in keys :: Returned(tags[k])) == ReturnedTags(tags);
  }

  // ----- The whole line -----

  lemma TrimTwice(s: string)
    ensures TrimRight(TrimRight(s)) == TrimRight(s)
  {
    TrimNothing(TrimRight(s));
  }

  lemma TrimParses(s: string, upper: string -> string)
    ensures ParseMessage(TrimRight(s), upper) == ParseMessage(s, upper)
  {
    TrimTwice(s);
  }

  lemma TagSection(inner: string, line: string, upper: string -> string)
    requires ' ' !in inner && TrimRight(line) != ""
    ensures ParseTagged("@" + inner + " " + line, upper) == WithTags(ParseMessage(line, upper), TagMap(Split(inner, ';')))
  {
    TrimAppend("@" + inner + " ", line);
    SectionSplit(inner, TrimRight(line));
    TrimParses(line, upper);
  }

  lemma SectionSplit(inner: string, rest: string)
    requires ' ' !in inner
    ensures var t := "@" + inner + " " + rest;
      t[0] == '@' && Find(t, ' ') == |inner| + 1 && t[1..|inner| + 1] == inner && t[|inner| + 2..] == rest
  {
    FindUnique("@" + inner + " " + rest, ' ', |inner| + 1);
  }

  lemma NoTagSection(line: string, upper: string -> string)
    requires TrimRight(line) != "" && line[0] != '@'
    ensures ParseTagged(line, upper) == WithTags(ParseMessage(line, upper), map[])
  {
    TrimParses(line, upper);
  }

  lemma SentLine(prefix: string, cmd: string, params: seq<string>)
    ensures var line := SendFrom(prefix, cmd, params); line[0] == ':' && TrimRight(line) != ""
  {
    var line := SendFrom(prefix, cmd, params);
    assert line[0] == ':' && !LineEnd(line[0]);
  }

  lemma SectionParsed(keys: seq<string>, tags: map<string, string>, line: string, upper: string -> string)
    requires Visits(keys, tags.Keys) && CleanKeys(tags) && keys != [] && TrimRight(line) != ""
    ensures ParseTagged(TagText(keys, tags) + line, upper) == WithTags(ParseMessage(line, upper), ReturnedTags(tags))
  {
    TextParsed(keys, tags);
    TagSection(Join(TagParts(keys, tags), ';'), line, upper);
  }

  lemma NoText(keys: seq<string>, tags: map<string, string>, line: string)
    requires Visits(keys, tags.Keys) && keys == []
    ensures TagText(keys, tags) + line == line && ReturnedTags(tags) == map[]
  {
    assert "" + line == line;
    assert tags.Keys == {};
  }

  /** With clean keys the parsed tags are the unescaped escaped values, and the message is the one the
      line parses to without its tags. */
  lemma TaggedParsed(keys: seq<string>, tags: map<string, string>, line: string, upper: string -> string)
    requires Visits(keys, tags.Keys) && CleanKeys(tags)
    requires TrimRight(line) != "" && line[0] != '@'
    ensures ParseTagged(TagText(keys, tags) + line, upper) == WithTags(ParseMessage(line, upper), ReturnedTags(tags))
  {
    if keys == [] {
      NoText(keys, tags, line);
      NoTagSection(line, upper);
    } else {
      SectionParsed(keys, tags, line, upper);
    }
  }

  lemma {:induction false} ParsedKeysClean(parts: seq<string>)
    requires forall i :: 0 <= i < |parts| ==> ';' !in parts[i] && ' ' !in parts[i]
    ensures CleanKeys(TagMap(parts))
  {
    if parts != [] {
      var tag := parts[|parts| - 1];
      ParsedKeysClean(parts[..|parts| - 1]);
      assert ParseTag(tag).0 <= tag;
      assert forall c :: c in ParseTag(tag).0 ==> c in tag;
    }
  }

  lemma {:induction false} SplitAvoids(s: string, sep: char, c: char)
    requires c !in s
    ensures forall i :: 0 <= i < |Split(s, sep)| ==> c !in Split(s, sep)[i]
    decreases |s|
  {
    var i := Find(s, sep);
    if i < |s| { SplitAvoids(s[i + 1..], sep, c); }
  }

  /** The keys of a parsed line have no semicolon, equals sign or space. */
  lemma ParsedTagsClean(line: string, upper: string -> string)
    ensures var r := ParseTagged(line, upper); r.Some? ==> CleanKeys(r.value.tags)
  {
    var t := TrimRight(line);
    if t != "" && t[0] == '@' && Find(t, ' ') < |t| {
      var inner := t[1..Find(t, ' ')];
      assert forall k :: 0 <= k < |inner| ==> inner[k] == t[..Find(t, ' ')][k + 1];
      SplitAvoids(inner, ';', ' ');
      ParsedKeysClean(Split(inner, ';'));
    }
  }

  lemma ValuesReturnIff(tags: map<string, string>)
    ensures ReturnedTags(tags) == tags <==> forall k :: k in tags ==> Unambiguous(tags[k])
  {
    forall k | k in tags ensures Returned(tags[k]) == tags[k] <==> Unambiguous(tags[k]) {
      UnescapeEscape(tags[k]);
      RoundTripIff(tags[k]);
    }
    var back := ReturnedTags(tags);
    if back == tags {
      forall k | k in tags ensures Unambiguous(tags[k]) { assert back[k] == Returned(tags[k]); }
    }
  }

  /** Formatted tags before a line come back, with what the line alone parses to, if and only if their keys are
      clean and their values unambiguous. */
  lemma TagsBeforeIff(text: string, tags: map<string, string>, line: string, m: Message, upper: string -> string)
    requires IsTagText(text, tags) && TrimRight(line) != "" && line[0] != '@'
    ensures ParseTagged(text + line, upper) == Some(Tagged(m, tags))
       <==> CleanKeys(tags) && (forall k :: k in tags ==> Unambiguous(tags[k])) && ParseMessage(line, upper) == Some(m)
  {
    ParsedTagsClean(text + line, upper);
    if CleanKeys(tags) {
      TextParses(text, tags, line, upper);
      WithTagsIff(ParseMessage(line, upper), ReturnedTags(tags), m, tags);
      ValuesReturnIff(tags);
    }
  }

  lemma TextParses(text: string, tags: map<string, string>, line: string, upper: string -> string)
    requires IsTagText(text, tags) && CleanKeys(tags) && TrimRight(line) != "" && line[0] != '@'
    ensures ParseTagged(text + line, upper) == WithTags(ParseMessage(line, upper), ReturnedTags(tags))
  {
    var keys :| Visits(keys, tags.Keys) && text == TagText(keys, tags);
    TaggedParsed(keys, tags, line, upper);
  }

  lemma WithTagsIff(parsed: Option<Message>, returned: map<string, string>, m: Message, tags: map<string, string>)
    ensures WithTags(parsed, returned) == Some(Tagged(m, tags)) <==> parsed == Some(m) && returned == tags
  {}

  /** Formatted tags followed by a sent line parse back to the same tags, prefix and parameters if and
      only if the keys are clean, the values unambiguous, the prefix without space and the parameters
      sendable, whatever the order in which the tags were written. */
  lemma TaggedRoundTripIff(text: string, tags: map<string, string>,
                           prefix: string, cmd: string, params: seq<string>, upper: string -> string)
    requires IsTagText(text, tags) && Word(cmd)
    ensures ParseTagged(text + SendFrom(prefix, cmd, params), upper)
            == Some(Tagged(Message(prefix, upper(cmd), params), tags))
       <==> CleanKeys(tags) && (forall k :: k in tags ==> Unambiguous(tags[k])) && ' ' !in prefix && Sendable(params)
  {
    SentLine(prefix, cmd, params);
    TagsBeforeIff(text, tags, SendFrom(prefix, cmd, params), Message(prefix, upper(cmd), params), upper);
    SendParsesIff(prefix, cmd, params, upper);
  }

  /** Formatted tags followed by a command and parameters without a prefix, as a client sends them. */
  lemma TaggedBareIff(text: string, tags: map<string, string>, cmd: string, params: seq<string>, upper: string -> string)
    requires IsTagText(text, tags) && Word(cmd) && cmd[0] != '@'
    ensures ParseTagged(text + Bare(cmd, params), upper) == Some(Tagged(Message("", upper(cmd), params), tags))
       <==> CleanKeys(tags) && (forall k :: k in tags ==> Unambiguous(tags[k])) && cmd[0] != ':' && Sendable(params)
  {
    RestNotBlank(cmd, params);
    JoinCons(cmd, Marked(params), ' ');
    TagsBeforeIff(text, tags, Bare(cmd, params), Message("", upper(cmd), params), upper);
    BareParsesIff(cmd, params, upper);
  }
}
