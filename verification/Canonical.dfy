/** Canonical JSON, the bytes that are signed (s2s.go, canonicalizeMap, canonicalizeValue and
    canonicalizeArray).  The encoder of primitives, Go's json.Marshal, is a parameter. */
module Canonical {
  import opened Text
  import opened Lamport

  /** A number is an integer of the program's, or a float64, which parsed text has only; the finite
      float64s are named by natural numbers. */
  datatype Prim = Null | Bool(b: bool) | Int(n: int) | Float(f: nat) | Str(s: string)

  datatype Json = Value(prim: Prim) | Arr(items: seq<Json>) | Obj(fields: map<string, Json>)

  /** What json.Unmarshal can give. */
  predicate Parsed(v: Json)
    decreases v
  {
    match v
    case Value(p) => !p.Int?
    case Arr(items) => forall i | 0 <= i < |items| :: Parsed(items[i])
    case Obj(fields) => forall k | k in fields :: Parsed(fields[k])
  }

  // ----- Sorted keys -----

  function Insert(k: string, ks: seq<string>): seq<string> {
    if ks == [] || LexLess(k, ks[0]) then [k] + ks else [ks[0]] + Insert(k, ks[1..])
  }

  /** sort.Strings. */
  function Sort(ks: seq<string>): seq<string> {
    if ks == [] then [] else Insert(ks[0], Sort(ks[1..]))
  }

  predicate Increasing(ks: seq<string>) {
    ks == [] || ((forall i :: 0 < i < |ks| ==> LexLess(ks[0], ks[i])) && Increasing(ks[1..]))
  }

  lemma {:induction false} InsertKeeps(k: string, ks: seq<string>)
    requires Increasing(ks) && k !in ks
    ensures Increasing(Insert(k, ks)) && Elements(Insert(k, ks)) == Elements(ks) + {k}
  {
    if ks != [] {
      assert ks == [ks[0]] + ks[1..];
      LexTotal(k, ks[0]);
      if LexLess(k, ks[0]) {
        forall i | 0 < i < |[k] + ks| ensures LexLess(k, ([k] + ks)[i]) {
          if i > 1 { LexTransitive(k, ks[0], ks[i - 1]); }
        }
        assert ([k] + ks)[1..] == ks;
      } else {
        var rest := Insert(k, ks[1..]);
        InsertKeeps(k, ks[1..]);
        forall i | 0 <= i < |rest| ensures LexLess(ks[0], rest[i]) {
          assert rest[i] in Elements(ks[1..]) + {k};
        }
        assert ([ks[0]] + rest)[1..] == rest;
      }
    }
  }

  lemma {:induction false} SortKeeps(ks: seq<string>)
    requires Distinct(ks)
    ensures Increasing(Sort(ks)) && Elements(Sort(ks)) == Elements(ks)
  {
    if ks != [] {
      assert ks == [ks[0]] + ks[1..];
      assert forall i :: 0 <= i < |ks[1..]| ==> ks[1..][i] == ks[i + 1];
      SortKeeps(ks[1..]);
      assert ks[0] !in Elements(ks[1..]);
      InsertKeeps(ks[0], Sort(ks[1..]));
    }
  }

  lemma IncreasingHead(ks: seq<string>)
    requires Increasing(ks) && ks != []
    ensures ks[0] !in ks[1..] && Elements(ks[1..]) == Elements(ks) - {ks[0]}
  {
    assert forall i :: 0 <= i < |ks[1..]| ==> ks[1..][i] == ks[i + 1];
    LexIrreflexive(ks[0]);
    assert ks == [ks[0]] + ks[1..];
  }

  lemma HeadLeast(ks: seq<string>, k: string)
    requires Increasing(ks) && k in Elements(ks)
    ensures k == ks[0] || LexLess(ks[0], k)
  {
    var i :| 0 <= i < |ks| && ks[i] == k;
  }

  /** There is one increasing sequence of a set. */
  lemma {:induction false} IncreasingUnique(a: seq<string>, b: seq<string>)
    requires Increasing(a) && Increasing(b) && Elements(a) == Elements(b)
    ensures a == b
    decreases |a|
  {
    if a != [] {
      HeadLeast(a, b[0]);
      HeadLeast(b, a[0]);
      LexTotal(a[0], b[0]);
      IncreasingHead(a);
      IncreasingHead(b);
      IncreasingUnique(a[1..], b[1..]);
    }
  }

  lemma {:induction false} SomeVisit(keys: set<string>)
    ensures exists ks: seq<string> :: Visits(ks, keys)
  {
    if keys == {} {
      assert Visits<string>([], keys);
    } else {
      var k :| k in keys;
      SomeVisit(keys - {k});
      var ks :| Visits(ks, keys - {k});
      assert k !in Elements(ks);
      assert Visits([k] + ks, keys);
    }
  }

  /** Sorting makes the order in which a map's keys were visited irrelevant. */
  lemma OrderIrrelevant(a: seq<string>, b: seq<string>, keys: set<string>)
    requires Visits(a, keys) && Visits(b, keys)
    ensures Sort(a) == Sort(b)
  {
    SortKeeps(a);
    SortKeeps(b);
    IncreasingUnique(Sort(a), Sort(b));
  }

  ghost function KeyOrder(keys: set<string>): (ks: seq<string>)
    ensures Increasing(ks) && Elements(ks) == keys
  {
    SomeVisit(keys);
    var any :| Visits(any, keys);
    SortKeeps(any);
    Sort(any)
  }

  /** Every two keys, in this order, are ordered by the first position where they differ. */
  ghost predicate Ascending(ks: seq<string>) {
    forall i, j :: 0 <= i < j < |ks| ==> Before(ks[i], ks[j])
  }

  lemma {:induction false} IncreasingPairs(ks: seq<string>)
    ensures Increasing(ks) <==> forall i, j :: 0 <= i < j < |ks| ==> LexLess(ks[i], ks[j])
  {
    if ks != [] {
      var rest := ks[1..];
      IncreasingPairs(rest);
      if Increasing(ks) {
        forall i, j | 0 <= i < j < |ks| ensures LexLess(ks[i], ks[j]) {
          if i > 0 { assert ks[i] == rest[i - 1] && ks[j] == rest[j - 1]; }
        }
      }
      if forall i, j :: 0 <= i < j < |ks| ==> LexLess(ks[i], ks[j]) {
        forall i, j | 0 <= i < j < |rest| ensures LexLess(rest[i], rest[j]) {
          assert rest[i] == ks[i + 1] && rest[j] == ks[j + 1];
        }
      }
    }
  }

  lemma AscendingIff(ks: seq<string>)
    ensures Ascending(ks) <==> Increasing(ks)
  {
    IncreasingPairs(ks);
    forall i, j | 0 <= i < j < |ks| ensures LexLess(ks[i], ks[j]) <==> Before(ks[i], ks[j]) {
      LexLessAt(ks[i], ks[j]);
    }
  }

  /** The keys are printed in the one order in which they ascend. */
  lemma KeysAscend(keys: set<string>, ks: seq<string>)
    ensures Ascending(ks) && Elements(ks) == keys <==> ks == KeyOrder(keys)
  {
    AscendingIff(ks);
    if Ascending(ks) && Elements(ks) == keys { IncreasingUnique(ks, KeyOrder(keys)); }
  }

  // ----- The printer -----

  ghost function Canon(v: Json, enc: Prim -> string): string
    decreases v, 1
  {
    match v
    case Value(p) => enc(p)
    case Arr(items) => "[" + CanonItems(v, 0, enc) + "]"
    case Obj(fields) => "{" + CanonFields(v, KeyOrder(fields.Keys), enc) + "}"
  }

  ghost function CanonItems(v: Json, i: nat, enc: Prim -> string): string
    requires v.Arr? && i <= |v.items|
    decreases v, 0, |v.items| - i, 1
  {
    if i == |v.items| then "" else Canon(v.items[i], enc) + ItemsAfter(v, i + 1, enc)
  }

  ghost function ItemsAfter(v: Json, i: nat, enc: Prim -> string): string
    requires v.Arr? && i <= |v.items|
    decreases v, 0, |v.items| - i, 2
  {
    if i == |v.items| then "" else "," + CanonItems(v, i, enc)
  }

  ghost function CanonFields(v: Json, ks: seq<string>, enc: Prim -> string): string
    requires v.Obj? && forall k :: k in ks ==> k in v.fields
    decreases v, 0, |ks|, 1
  {
    if ks == [] then ""
    else
      assert ks[0] in ks;
      enc(Str(ks[0])) + (":" + (Canon(v.fields[ks[0]], enc) + FieldsAfter(v, ks[1..], enc)))
  }

  ghost function FieldsAfter(v: Json, ks: seq<string>, enc: Prim -> string): string
    requires v.Obj? && forall k :: k in ks ==> k in v.fields
    decreases v, 0, |ks|, 2
  {
    if ks == [] then "" else "," + CanonFields(v, ks, enc)
  }

  // ----- The text as a whole -----

  ghost function ItemTexts(v: Json, i: nat, enc: Prim -> string): (r: seq<string>)
    requires v.Arr? && i <= |v.items|
    ensures |r| == |v.items| - i && forall j :: 0 <= j < |r| ==> r[j] == Canon(v.items[i + j], enc)
    decreases |v.items| - i
  {
    if i == |v.items| then [] else [Canon(v.items[i], enc)] + ItemTexts(v, i + 1, enc)
  }

  ghost function FieldTexts(v: Json, ks: seq<string>, enc: Prim -> string): (r: seq<string>)
    requires v.Obj? && forall k :: k in ks ==> k in v.fields
    ensures |r| == |ks|
    ensures forall j :: 0 <= j < |r| ==> r[j] == enc(Str(ks[j])) + ":" + Canon(v.fields[ks[j]], enc)
  {
    if ks == [] then []
    else
      assert ks[0] in ks;
      [enc(Str(ks[0])) + ":" + Canon(v.fields[ks[0]], enc)] + FieldTexts(v, ks[1..], enc)
  }

  lemma {:induction false} ItemsJoined(v: Json, i: nat, enc: Prim -> string)
    requires v.Arr? && i <= |v.items|
    ensures CanonItems(v, i, enc) == Join(ItemTexts(v, i, enc), ',')
    decreases |v.items| - i
  {
    if i < |v.items| {
      ItemsJoined(v, i + 1, enc);
      JoinCons(Canon(v.items[i], enc), ItemTexts(v, i + 1, enc), ',');
      assert "," == [','];
    }
  }

  lemma {:induction false} FieldsJoined(v: Json, ks: seq<string>, enc: Prim -> string)
    requires v.Obj? && forall k :: k in ks ==> k in v.fields
    ensures CanonFields(v, ks, enc) == Join(FieldTexts(v, ks, enc), ',')
  {
    if ks != [] {
      assert ks[0] in ks;
      var name, val := enc(Str(ks[0])), Canon(v.fields[ks[0]], enc);
      FieldsJoined(v, ks[1..], enc);
      JoinCons(name + ":" + val, FieldTexts(v, ks[1..], enc), ',');
      FieldTexts1(name, val, FieldsAfter(v, ks[1..], enc));
      assert "," == [','];
    }
  }

  lemma FieldTexts1(name: string, val: string, after: string)
    ensures name + (":" + (val + after)) == name + ":" + val + after
  {}

  /** An array is its items' texts, in order and separated by commas, in brackets. */
  lemma ArrayText(v: Json, enc: Prim -> string)
    requires v.Arr?
    ensures Canon(v, enc) == "[" + Join(ItemTexts(v, 0, enc), ',') + "]"
  {
    ItemsJoined(v, 0, enc);
  }

  /** An object is its fields' texts, separated by commas, in braces; its keys ascend. */
  lemma ObjectText(v: Json, ks: seq<string>, enc: Prim -> string)
    requires v.Obj? && Ascending(ks) && Elements(ks) == v.fields.Keys
    ensures forall k :: k in ks ==> k in v.fields
    ensures Canon(v, enc) == "{" + Join(FieldTexts(v, ks, enc), ',') + "}"
  {
    KeysAscend(v.fields.Keys, ks);
    FieldsJoined(v, ks, enc);
  }

  ghost function FieldText(v: Json, k: string, enc: Prim -> string): string
    requires v.Obj? && k in v.fields
  {
    enc(Str(k)) + ":" + Canon(v.fields[k], enc)
  }

  lemma TwoFields(v: Json, k: string, l: string, enc: Prim -> string)
    requires v.Obj? && v.fields.Keys == {k, l} && Before(k, l)
    ensures Canon(v, enc) == "{" + (FieldText(v, k, enc) + "," + FieldText(v, l, enc)) + "}"
  {
    var ks := [k, l];
    assert Ascending(ks) && Elements(ks) == v.fields.Keys;
    ObjectText(v, ks, enc);
    var texts := FieldTexts(v, ks, enc);
    JoinCons(texts[0], [texts[1]], ',');
    assert texts == [texts[0]] + [texts[1]] && "," == [','];
  }

  /** Of an envelope's fields `origin` is printed before `seq`, in whatever order they are visited. */
  lemma OriginBeforeSeq(v: Json, enc: Prim -> string)
    requires v.Obj? && v.fields.Keys == {"origin", "seq"}
    ensures Canon(v, enc) == "{" + (FieldText(v, "origin", enc) + "," + FieldText(v, "seq", enc)) + "}"
  {
    assert LessAt("origin", "seq", 0);
    TwoFields(v, "origin", "seq", enc);
  }

  method CanonicalizeValue(v: Json, enc: Prim -> string) returns (out: string)
    ensures out == Canon(v, enc)
    decreases v, 1
  {
    match v
    case Obj(fields) => out := CanonicalizeMap(v, enc);
    case Arr(items) => out := CanonicalizeArray(v, enc);
    case Value(p) => out := enc(p);
  }

  /** What is still to be written before the closing bracket, when `i` items are. */
  ghost function PendingItems(v: Json, i: nat, enc: Prim -> string): string
    requires v.Arr? && i <= |v.items|
  {
    if i == 0 then CanonItems(v, 0, enc) else ItemsAfter(v, i, enc)
  }

  lemma ItemStep(v: Json, i: nat, out: string, enc: Prim -> string)
    requires v.Arr? && i < |v.items|
    ensures out + PendingItems(v, i, enc)
         == out + (if i > 0 then "," else "") + Canon(v.items[i], enc) + PendingItems(v, i + 1, enc)
  {
    if i > 0 { Shift(out, ",", CanonItems(v, i, enc)); }
    Shift(out + if i > 0 then "," else "", Canon(v.items[i], enc), PendingItems(v, i + 1, enc));
  }

  method CanonicalizeArray(v: Json, enc: Prim -> string) returns (out: string)
    requires v.Arr?
    ensures out == Canon(v, enc)
    decreases v, 0
  {
    out := "[";
    for i := 0 to |v.items|
      invariant out + PendingItems(v, i, enc) == "[" + PendingItems(v, 0, enc)
    {
      ItemStep(v, i, out, enc);
      if i > 0 { out := out + ","; }
      var item := CanonicalizeValue(v.items[i], enc);
      out := out + item;
    }
    out := out + "]";
  }

  /** The keys of a map, visited in any order and sorted. */
  method SortedKeys(m: map<string, Json>) returns (keys: seq<string>)
    ensures keys == KeyOrder(m.Keys)
  {
    keys := [];
    var left := m.Keys;
    while left != {}
      invariant left <= m.Keys && Visits(keys, m.Keys - left)
      decreases left
    {
      var k :| k in left;
      Visit(keys, k);
      keys := keys + [k];
      left := left - {k};
    }
    SortOrders(keys, m.Keys);
    keys := Sort(keys);
  }

  ghost function PendingFields(v: Json, keys: seq<string>, i: nat, enc: Prim -> string): string
    requires v.Obj? && (forall k :: k in keys ==> k in v.fields) && i <= |keys|
  {
    if i == 0 then CanonFields(v, keys, enc) else FieldsAfter(v, keys[i..], enc)
  }

  lemma FieldStep(v: Json, keys: seq<string>, i: nat, out: string, enc: Prim -> string)
    requires v.Obj? && (forall k :: k in keys ==> k in v.fields) && i < |keys|
    ensures out + PendingFields(v, keys, i, enc)
         == out + (if i > 0 then "," else "") + enc(Str(keys[i])) + ":" + Canon(v.fields[keys[i]], enc)
            + PendingFields(v, keys, i + 1, enc)
  {
    assert keys[0..] == keys;
    if i > 0 { Shift(out, ",", CanonFields(v, keys[i..], enc)); }
    NextField(v, keys[i..], keys[i + 1..], enc);
    FieldShift(out + if i > 0 then "," else "", enc(Str(keys[i])), Canon(v.fields[keys[i]], enc),
               PendingFields(v, keys, i + 1, enc));
  }

  method CanonicalizeMap(v: Json, enc: Prim -> string) returns (out: string)
    requires v.Obj?
    ensures out == Canon(v, enc)
    decreases v, 0
  {
    var keys := SortedKeys(v.fields);
    out := "{";
    for i := 0 to |keys|
      invariant out + PendingFields(v, keys, i, enc) == "{" + PendingFields(v, keys, 0, enc)
    {
      FieldStep(v, keys, i, out, enc);
      if i > 0 { out := out + ","; }
      assert keys[i] in v.fields.Keys;
      var val := CanonicalizeValue(v.fields[keys[i]], enc);
      out := out + enc(Str(keys[i])) + ":" + val;
    }
    out := out + "}";
  }

  lemma NextField(v: Json, ks: seq<string>, rest: seq<string>, enc: Prim -> string)
    requires v.Obj? && (forall k :: k in ks ==> k in v.fields) && ks != [] && ks[1..] == rest
    ensures forall k :: k in rest ==> k in v.fields
    ensures ks[0] in v.fields && CanonFields(v, ks, enc)
            == enc(Str(ks[0])) + (":" + (Canon(v.fields[ks[0]], enc) + FieldsAfter(v, rest, enc)))
  {}

  lemma Shift(out: string, item: string, rest: string)
    ensures out + (item + rest) == out + item + rest
  {}

  lemma FieldShift(out: string, key: string, val: string, rest: string)
    ensures out + (key + (":" + (val + rest))) == out + key + ":" + val + rest
  {}

  lemma Visit(keys: seq<string>, k: string)
    requires Distinct(keys) && k !in keys
    ensures Distinct(keys + [k]) && Elements(keys + [k]) == Elements(keys) + {k}
  {}

  lemma SortOrders(keys: seq<string>, all: set<string>)
    requires Visits(keys, all)
    ensures Sort(keys) == KeyOrder(all)
  {
    SortKeeps(keys);
    IncreasingUnique(Sort(keys), KeyOrder(all));
  }

  // ----- Unique decoding -----

  const CLOSERS: set<char> := {',', ':', ']', '}'}

  predicate Ends(s: string) { s == "" || s[0] in CLOSERS }

  /** On parsed primitives the encoder is injective, its end can be seen from what may follow, and no
      encoding starts like an array, an object or a separator. */
  ghost predicate SelfDelimiting(enc: Prim -> string) {
    && (forall p: Prim :: !p.Int? ==> enc(p) != "" && enc(p)[0] !in CLOSERS + {'[', '{'})
    && forall p: Prim, q: Prim, s, t ::
         !p.Int? && !q.Int? && Ends(s) && Ends(t) && enc(p) + s == enc(q) + t ==> p == q && s == t
  }

  lemma CanonHead(v: Json, enc: Prim -> string)
    requires SelfDelimiting(enc) && Parsed(v)
    ensures var c := Canon(v, enc); c != "" && c[0] !in CLOSERS && (c[0] == '[' <==> v.Arr?) && (c[0] == '{' <==> v.Obj?)
  {
    match v
    case Value(p) => assert enc(p)[0] !in CLOSERS + {'[', '{'};
    case Arr(_) =>
    case Obj(_) =>
  }

  lemma Cancel(c: string, a: string, b: string)
    requires c + a == c + b
    ensures a == b
  {
    assert a == (c + a)[|c|..] && b == (c + b)[|c|..];
  }

  lemma Bracketed(open_: string, inner: string, close: string, s: string)
    ensures open_ + inner + close + s == open_ + (inner + (close + s))
  {}

  lemma HeadOf(a: string, s: string)
    requires a != ""
    ensures a + s != "" && (a + s)[0] == a[0]
  {}

  /** Two values with the same canonical text, each followed by something that ends a value, are equal,
      and so is what follows. */
  lemma {:induction false} CanonUnique(v: Json, w: Json, s: string, t: string, enc: Prim -> string)
    requires SelfDelimiting(enc) && Parsed(v) && Parsed(w) && Ends(s) && Ends(t)
    requires Canon(v, enc) + s == Canon(w, enc) + t
    ensures v == w && s == t
    decreases v, 1
  {
    CanonHead(v, enc);
    CanonHead(w, enc);
    HeadOf(Canon(v, enc), s);
    HeadOf(Canon(w, enc), t);
    match v
    case Value(p) => assert w.Value?;
    case Arr(items) =>
      Bracketed("[", CanonItems(v, 0, enc), "]", s);
      Bracketed("[", CanonItems(w, 0, enc), "]", t);
      Cancel("[", CanonItems(v, 0, enc) + ("]" + s), CanonItems(w, 0, enc) + ("]" + t));
      ItemsUnique(v, w, 0, s, t, enc);
      assert v.items[0..] == v.items && w.items[0..] == w.items;
    case Obj(fields) =>
      var ks, ls := KeyOrder(v.fields.Keys), KeyOrder(w.fields.Keys);
      Bracketed("{", CanonFields(v, ks, enc), "}", s);
      Bracketed("{", CanonFields(w, ls, enc), "}", t);
      Cancel("{", CanonFields(v, ks, enc) + ("}" + s), CanonFields(w, ls, enc) + ("}" + t));
      FieldsUnique(v, w, ks, ls, s, t, enc);
      assert forall k :: k in v.fields <==> k in w.fields;
      assert v.fields == w.fields;
  }

  lemma {:induction false} ItemsUnique(v: Json, w: Json, i: nat, s: string, t: string, enc: Prim -> string)
    requires SelfDelimiting(enc) && Parsed(v) && Parsed(w) && v.Arr? && w.Arr? && i <= |v.items| && i <= |w.items|
    requires CanonItems(v, i, enc) + ("]" + s) == CanonItems(w, i, enc) + ("]" + t)
    ensures v.items[i..] == w.items[i..] && s == t
    decreases v, 0, |v.items| - i
  {
    if i == |v.items| || i == |w.items| {
      ItemsHead(v, i, s, enc);
      ItemsHead(w, i, t, enc);
      Cancel("]", s, t);
    } else {
      var a, b := ItemsAfter(v, i + 1, enc), ItemsAfter(w, i + 1, enc);
      Shift(Canon(v.items[i], enc), a, "]" + s);
      Shift(Canon(w.items[i], enc), b, "]" + t);
      CanonUnique(v.items[i], w.items[i], a + ("]" + s), b + ("]" + t), enc);
      if i + 1 < |v.items| && i + 1 < |w.items| {
        Shift(",", CanonItems(v, i + 1, enc), "]" + s);
        Shift(",", CanonItems(w, i + 1, enc), "]" + t);
        Cancel(",", CanonItems(v, i + 1, enc) + ("]" + s), CanonItems(w, i + 1, enc) + ("]" + t));
        ItemsUnique(v, w, i + 1, s, t, enc);
        assert v.items[i..] == [v.items[i]] + v.items[i + 1..] && w.items[i..] == [w.items[i]] + w.items[i + 1..];
      } else {
        AfterHead(v, i + 1, s, enc);
        AfterHead(w, i + 1, t, enc);
        Cancel("]", s, t);
      }
    }
  }

  lemma ItemsHead(v: Json, i: nat, s: string, enc: Prim -> string)
    requires SelfDelimiting(enc) && Parsed(v) && v.Arr? && i <= |v.items|
    ensures var r := CanonItems(v, i, enc) + ("]" + s); r[0] == ']' <==> i == |v.items|
    ensures i == |v.items| ==> CanonItems(v, i, enc) + ("]" + s) == "]" + s
  {
    if i < |v.items| { CanonHead(v.items[i], enc); }
  }

  lemma AfterHead(v: Json, i: nat, s: string, enc: Prim -> string)
    requires v.Arr? && i <= |v.items|
    ensures var r := ItemsAfter(v, i, enc) + ("]" + s); r[0] == ']' <==> i == |v.items|
    ensures i == |v.items| ==> ItemsAfter(v, i, enc) + ("]" + s) == "]" + s
  {}

  lemma {:induction false} FieldsUnique(v: Json, w: Json, ks: seq<string>, ls: seq<string>, s: string, t: string,
                                        enc: Prim -> string)
    requires SelfDelimiting(enc) && Parsed(v) && Parsed(w) && v.Obj? && w.Obj?
    requires (forall k :: k in ks ==> k in v.fields) && (forall k :: k in ls ==> k in w.fields)
    requires CanonFields(v, ks, enc) + ("}" + s) == CanonFields(w, ls, enc) + ("}" + t)
    ensures ks == ls && (forall k :: k in ks ==> v.fields[k] == w.fields[k]) && s == t
    decreases v, 0, |ks|
  {
    if ks == [] || ls == [] {
      FieldsHead(v, ks, s, enc);
      FieldsHead(w, ls, t, enc);
      Cancel("}", s, t);
    } else {
      FirstField(v, w, ks, ls, s, t, enc);
      if |ks| > 1 && |ls| > 1 {
        Shift(",", CanonFields(v, ks[1..], enc), "}" + s);
        Shift(",", CanonFields(w, ls[1..], enc), "}" + t);
        Cancel(",", CanonFields(v, ks[1..], enc) + ("}" + s), CanonFields(w, ls[1..], enc) + ("}" + t));
        FieldsUnique(v, w, ks[1..], ls[1..], s, t, enc);
      } else {
        FieldsAfterHead(v, ks[1..], s, enc);
        FieldsAfterHead(w, ls[1..], t, enc);
        Cancel("}", s, t);
      }
      assert ks == [ks[0]] + ks[1..] && ls == [ls[0]] + ls[1..];
    }
  }

  lemma {:induction false} FirstField(v: Json, w: Json, ks: seq<string>, ls: seq<string>, s: string, t: string,
                                      enc: Prim -> string)
    requires SelfDelimiting(enc) && Parsed(v) && Parsed(w) && v.Obj? && w.Obj? && ks != [] && ls != []
    requires (forall k :: k in ks ==> k in v.fields) && (forall k :: k in ls ==> k in w.fields)
    requires CanonFields(v, ks, enc) + ("}" + s) == CanonFields(w, ls, enc) + ("}" + t)
    ensures ks[0] == ls[0] && v.fields[ks[0]] == w.fields[ls[0]]
    ensures FieldsAfter(v, ks[1..], enc) + ("}" + s) == FieldsAfter(w, ls[1..], enc) + ("}" + t)
    decreases v, 0, |ks|, 0
  {
    assert ks[0] in ks && ls[0] in ls;
    var a, b := FieldsAfter(v, ks[1..], enc), FieldsAfter(w, ls[1..], enc);
    var x, y := Canon(v.fields[ks[0]], enc), Canon(w.fields[ls[0]], enc);
    FieldRegroup(enc(Str(ks[0])), x, a, "}" + s);
    FieldRegroup(enc(Str(ls[0])), y, b, "}" + t);
    KeySplit(Str(ks[0]), Str(ls[0]), x + (a + ("}" + s)), y + (b + ("}" + t)), enc);
    CanonUnique(v.fields[ks[0]], w.fields[ls[0]], a + ("}" + s), b + ("}" + t), enc);
  }

  lemma FieldRegroup(key: string, val: string, rest: string, s: string)
    ensures key + (":" + (val + rest)) + s == key + (":" + (val + (rest + s)))
  {}

  lemma KeySplit(p: Prim, q: Prim, x: string, y: string, enc: Prim -> string)
    requires SelfDelimiting(enc) && !p.Int? && !q.Int? && enc(p) + (":" + x) == enc(q) + (":" + y)
    ensures p == q && x == y
  {
    assert Ends(":" + x) && Ends(":" + y);
    Cancel(":", x, y);
  }

  lemma FieldsHead(v: Json, ks: seq<string>, s: string, enc: Prim -> string)
    requires SelfDelimiting(enc) && v.Obj? && forall k :: k in ks ==> k in v.fields
    ensures var r := CanonFields(v, ks, enc) + ("}" + s); r[0] == '}' <==> ks == []
    ensures ks == [] ==> CanonFields(v, ks, enc) + ("}" + s) == "}" + s
  {
    if ks != [] { assert enc(Str(ks[0])) != "" && enc(Str(ks[0]))[0] !in CLOSERS + {'[', '{'}; }
  }

  lemma FieldsAfterHead(v: Json, ks: seq<string>, s: string, enc: Prim -> string)
    requires v.Obj? && forall k :: k in ks ==> k in v.fields
    ensures var r := FieldsAfter(v, ks, enc) + ("}" + s); r[0] == '}' <==> ks == []
    ensures ks == [] ==> FieldsAfter(v, ks, enc) + ("}" + s) == "}" + s
  {}

  /** Equal canonical text means equal values. */
  lemma CanonInjective(v: Json, w: Json, enc: Prim -> string)
    requires SelfDelimiting(enc) && Parsed(v) && Parsed(w) && Canon(v, enc) == Canon(w, enc)
    ensures v == w
  {
    assert Canon(v, enc) + "" == Canon(w, enc) + "";
    CanonUnique(v, w, "", "", enc);
  }
}
