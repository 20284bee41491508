/** Go's JSON text of primitive values (encoding/json, with HTML escaping as json.Marshal does), and why
    it can stand in canonical JSON.  How a float64 is printed is a parameter. */
module JsonText {
  import opened Canonical
  import opened Text
  import Decimal

  const HEX := "0123456789abcdef"

  function Hex4(n: nat): string
    requires n < 0x10000
  {
    [HEX[n / 16 / 16 / 16], HEX[n / 16 / 16 % 16], HEX[n / 16 % 16], HEX[n % 16]]
  }

  predicate Escaped(c: char) {
    (c as int) < 0x20 || c in {'"', '\\', '<', '>', '&'} || c as int == 0x2028 || c as int == 0x2029
  }

  /** The letter of a short escape, or `u`. */
  function EscapeLetter(c: char): char
    requires Escaped(c)
  {
    if c == '"' || c == '\\' then c
    else if c as int == 8 then 'b' else if c as int == 9 then 't' else if c as int == 10 then 'n'
    else if c as int == 12 then 'f' else if c as int == 13 then 'r' else 'u'
  }

  function Code(c: char): string {
    if !Escaped(c) then [c]
    else if EscapeLetter(c) == 'u' then ['\\', 'u'] + Hex4(c as int)
    else ['\\', EscapeLetter(c)]
  }

  function Body(s: string): string { if s == "" then "" else Code(s[0]) + Body(s[1..]) }

  function Quoted(s: string): string { ['"'] + Body(s) + ['"'] }

  function Encode(p: Prim, num: nat -> string): string {
    match p
    case Null => "null"
    case Bool(b) => if b then "true" else "false"
    case Int(n) => if n >= 0 then Decimal.Print(n) else "-" + Decimal.Print(-n)
    case Float(f) => num(f)
    case Str(s) => Quoted(s)
  }

  /** json.Marshal on primitives. */
  function Encoder(num: nat -> string): Prim -> string { p => Encode(p, num) }

  // ----- Strings -----

  lemma HexDigit(i: nat, j: nat)
    requires i < 16 && j < 16 && HEX[i] == HEX[j]
    ensures i == j
  {}

  lemma Hex4Injective(m: nat, n: nat)
    requires m < 0x10000 && n < 0x10000 && Hex4(m) == Hex4(n)
    ensures m == n
  {
    assert Hex4(m)[0] == Hex4(n)[0] && Hex4(m)[1] == Hex4(n)[1] && Hex4(m)[2] == Hex4(n)[2] && Hex4(m)[3] == Hex4(n)[3];
    HexDigit(m / 16 / 16 / 16, n / 16 / 16 / 16);
    HexDigit(m / 16 / 16 % 16, n / 16 / 16 % 16);
    HexDigit(m / 16 % 16, n / 16 % 16);
    HexDigit(m % 16, n % 16);
    SixteenTimes(m / 16 / 16, n / 16 / 16);
    SixteenTimes(m / 16, n / 16);
    SixteenTimes(m, n);
  }

  lemma SixteenTimes(m: nat, n: nat)
    requires m / 16 == n / 16 && m % 16 == n % 16
    ensures m == n
  {}

  lemma LetterInjective(c: char, d: char)
    requires Escaped(c) && Escaped(d) && EscapeLetter(c) == EscapeLetter(d) && EscapeLetter(c) != 'u'
    ensures c == d
  {}

  lemma CodeStart(c: char, x: string)
    ensures var r := Code(c) + x;
      r[0] != '"' && (r[0] == '\\' <==> Escaped(c)) && (Escaped(c) ==> |r| > 1 && r[1] == EscapeLetter(c))
      && (!Escaped(c) ==> r[0] == c)
  {}

  lemma Tail(a: string, x: string, b: string, y: string)
    requires a + x == b + y && |a| == |b|
    ensures a == b && x == y
  {
    assert a == (a + x)[..|a|] && b == (b + y)[..|b|];
    assert x == (a + x)[|a|..] && y == (b + y)[|b|..];
  }

  /** No code of a character is the start of another one's. */
  lemma CodeUnique(c: char, d: char, x: string, y: string)
    requires Code(c) + x == Code(d) + y
    ensures c == d && x == y
  {
    CodeStart(c, x);
    CodeStart(d, y);
    Tail(Code(c), x, Code(d), y);
    if Escaped(c) {
      if EscapeLetter(c) == 'u' {
        Tail(['\\', 'u'], Hex4(c as int), ['\\', 'u'], Hex4(d as int));
        Hex4Injective(c as int, d as int);
      } else {
        LetterInjective(c, d);
      }
    }
  }

  lemma {:induction false} BodyUnique(s: string, t: string, x: string, y: string)
    requires Body(s) + (['"'] + x) == Body(t) + (['"'] + y)
    ensures s == t && x == y
  {
    BodyStart(s, x);
    BodyStart(t, y);
    if s == "" || t == "" {
      Tail(['"'], x, ['"'], y);
    } else {
      Regroup(Code(s[0]), Body(s[1..]), ['"'] + x);
      Regroup(Code(t[0]), Body(t[1..]), ['"'] + y);
      CodeUnique(s[0], t[0], Body(s[1..]) + (['"'] + x), Body(t[1..]) + (['"'] + y));
      BodyUnique(s[1..], t[1..], x, y);
      assert s == [s[0]] + s[1..] && t == [t[0]] + t[1..];
    }
  }

  lemma Regroup(a: string, b: string, c: string)
    ensures a + b + c == a + (b + c)
  {}

  lemma BodyStart(s: string, x: string)
    ensures var r := Body(s) + (['"'] + x); r[0] == '"' <==> s == ""
    ensures s == "" ==> Body(s) + (['"'] + x) == ['"'] + x
  {
    if s != "" { CodeStart(s[0], Body(s[1..])); }
  }

  lemma QuotedShape(s: string, x: string)
    ensures Quoted(s) + x == ['"'] + (Body(s) + (['"'] + x))
  {}

  /** A quoted string can be told from what follows it. */
  lemma QuotedUnique(s: string, t: string, x: string, y: string)
    requires Quoted(s) + x == Quoted(t) + y
    ensures s == t && x == y
  {
    QuotedShape(s, x);
    QuotedShape(t, y);
    Tail(['"'], Body(s) + (['"'] + x), ['"'], Body(t) + (['"'] + y));
    BodyUnique(s, t, x, y);
  }

  // ----- Reading a string back (section 7 of RFC 8259) -----

  function HexValue(c: char): Option<nat> {
    if '0' <= c <= '9' then Some(c as int - '0' as int)
    else if 'a' <= c <= 'f' then Some(c as int - 'a' as int + 10)
    else if 'A' <= c <= 'F' then Some(c as int - 'A' as int + 10)
    else None
  }

  /** The character a two-character escape stands for. */
  function Unescaped(c: char): Option<char> {
    if c == '"' || c == '\\' || c == '/' then Some(c)
    else if c == 'b' then Some(8 as char) else if c == 'f' then Some(12 as char) else if c == 'n' then Some(10 as char)
    else if c == 'r' then Some(13 as char) else if c == 't' then Some(9 as char)
    else None
  }

  /** The first character of a string's body and what follows it. */
  function ReadChar(s: string): Option<(char, string)> {
    if s == "" || s[0] == '"' then None
    else if s[0] != '\\' then Some((s[0], s[1..]))
    else if |s| >= 2 && s[1] != 'u' then
      match Unescaped(s[1]) case None => None case Some(c) => Some((c, s[2..]))
    else if |s| >= 6 && HexValue(s[2]).Some? && HexValue(s[3]).Some? && HexValue(s[4]).Some? && HexValue(s[5]).Some? then
      var n := ((HexValue(s[2]).value * 16 + HexValue(s[3]).value) * 16 + HexValue(s[4]).value) * 16 + HexValue(s[5]).value;
      if 0xd800 <= n < 0xe000 then None else Some((n as char, s[6..]))
    else None
  }

  /** A string's body up to its closing quote, and what follows that. */
  function ReadBody(s: string): Option<(string, string)>
    decreases |s|
  {
    if s != "" && s[0] == '"' then Some(("", s[1..]))
    else match ReadChar(s)
      case None => None
      case Some((c, rest)) =>
        if |rest| >= |s| then None
        else match ReadBody(rest)
          case None => None
          case Some((text, after)) => Some(([c] + text, after))
  }

  lemma HexRead(i: nat)
    requires i < 16
    ensures HexValue(HEX[i]) == Some(i)
  {}

  lemma FourDigits(n: nat)
    requires n < 0x10000
    ensures ((n / 16 / 16 / 16 * 16 + n / 16 / 16 % 16) * 16 + n / 16 % 16) * 16 + n % 16 == n
    ensures n / 16 / 16 / 16 < 16
  {
    assert n / 16 / 16 == n / 16 / 16 / 16 * 16 + n / 16 / 16 % 16;
    assert n / 16 == n / 16 / 16 * 16 + n / 16 % 16;
  }

  lemma HexCharRead(n: nat, x: string)
    requires n < 0x10000 && !(0xd800 <= n < 0xe000)
    ensures ReadChar(['\\', 'u'] + Hex4(n) + x) == Some((n as char, x))
  {
    var s := ['\\', 'u'] + Hex4(n) + x;
    HexRead(n / 16 / 16 / 16);
    HexRead(n / 16 / 16 % 16);
    HexRead(n / 16 % 16);
    HexRead(n % 16);
    FourDigits(n);
    assert s[2] == Hex4(n)[0] && s[3] == Hex4(n)[1] && s[4] == Hex4(n)[2] && s[5] == Hex4(n)[3] && s[6..] == x;
  }

  lemma CodeRead(c: char, x: string)
    ensures Code(c) + x != "" && (Code(c) + x)[0] != '"' && ReadChar(Code(c) + x) == Some((c, x))
  {
    CodeStart(c, x);
    if Escaped(c) && EscapeLetter(c) == 'u' {
      HexCharRead(c as int, x);
    } else if Escaped(c) {
      assert (Code(c) + x)[2..] == x;
    } else {
      assert (Code(c) + x)[1..] == x;
    }
  }

  /** A reader of JSON gets the string back from its quoted text, and what follows it. */
  lemma {:induction false} BodyRead(s: string, x: string)
    ensures ReadBody(Body(s) + (['"'] + x)) == Some((s, x))
    decreases |s|
  {
    BodyStart(s, x);
    if s == "" {
      assert (['"'] + x)[1..] == x;
    } else {
      var rest := Body(s[1..]) + (['"'] + x);
      Regroup(Code(s[0]), Body(s[1..]), ['"'] + x);
      CodeRead(s[0], rest);
      BodyRead(s[1..], x);
      assert s == [s[0]] + s[1..];
    }
  }

  /** No quoted text has a control character, or one of those Go escapes for HTML and JavaScript. */
  lemma {:induction false} QuotedIsSafe(s: string)
    ensures forall c :: c in Quoted(s) ==> c as int >= 0x20 && c !in {'<', '>', '&'} && c as int != 0x2028 && c as int != 0x2029
  {
    BodySafe(s);
  }

  lemma {:induction false} BodySafe(s: string)
    ensures forall c :: c in Body(s) ==> c as int >= 0x20 && c !in {'<', '>', '&'} && c as int != 0x2028 && c as int != 0x2029
  {
    if s != "" {
      BodySafe(s[1..]);
      CodeSafe(s[0]);
    }
  }

  lemma CodeSafe(c: char)
    ensures forall d :: d in Code(c) ==> d as int >= 0x20 && d !in {'<', '>', '&'} && d as int != 0x2028 && d as int != 0x2029
  {
    if Escaped(c) && EscapeLetter(c) == 'u' {
      HexSafe(c as int);
    }
  }

  lemma HexSafe(n: nat)
    requires n < 0x10000
    ensures forall d :: d in Hex4(n) ==> '0' <= d <= '9' || 'a' <= d <= 'f'
  {
    HexCharAt(n / 16 / 16 / 16);
    HexCharAt(n / 16 / 16 % 16);
    HexCharAt(n / 16 % 16);
    HexCharAt(n % 16);
  }

  lemma HexCharAt(i: nat)
    requires i < 16
    ensures '0' <= HEX[i] <= '9' || 'a' <= HEX[i] <= 'f'
  {}

  // ----- Numbers and the literals -----

  predicate NumberChar(c: char) { '0' <= c <= '9' || c in {'-', '+', '.', 'e', 'E'} }

  /** Different numbers are printed differently, in the characters of JSON numbers. */
  ghost predicate PrintsNumbers(num: nat -> string) {
    && (forall x: nat, y: nat :: num(x) == num(y) ==> x == y)
    && forall x: nat :: num(x) != "" && num(x)[0] != 'e' && num(x)[0] != 'E' && AllNumberChars(num(x))
  }

  predicate AllNumberChars(s: string) { forall i :: 0 <= i < |s| ==> NumberChar(s[i]) }

  function LeadingNumber(s: string): (n: nat)
    ensures n <= |s| && AllNumberChars(s[..n]) && (n < |s| ==> !NumberChar(s[n]))
  {
    if s != "" && NumberChar(s[0]) then 1 + LeadingNumber(s[1..]) else 0
  }

  lemma LeadingUnique(s: string, n: nat)
    requires n <= |s| && (forall i :: 0 <= i < n ==> NumberChar(s[i])) && (n < |s| ==> !NumberChar(s[n]))
    ensures LeadingNumber(s) == n
  {
    var m := LeadingNumber(s);
    assert forall i :: 0 <= i < m ==> s[i] == s[..m][i];
  }

  lemma NumberLength(a: string, x: string)
    requires AllNumberChars(a) && Ends(x)
    ensures LeadingNumber(a + x) == |a|
  {
    assert forall i :: 0 <= i < |a| ==> (a + x)[i] == a[i];
    assert x != "" ==> (a + x)[|a|] == x[0];
    LeadingUnique(a + x, |a|);
  }

  lemma NumberUnique(a: string, b: string, x: string, y: string)
    requires AllNumberChars(a) && AllNumberChars(b) && Ends(x) && Ends(y) && a + x == b + y
    ensures a == b && x == y
  {
    NumberLength(a, x);
    NumberLength(b, y);
    Tail(a, x, b, y);
  }

  lemma Literals(num: nat -> string)
    ensures Encoder(num)(Null) == "null" && Encoder(num)(Bool(true)) == "true" && Encoder(num)(Bool(false)) == "false"
    ensures Encoder(num)(Int(7)) == "7" && Encoder(num)(Int(-7)) == "-7"
  {}

  /** What the first character tells of a primitive. */
  predicate StartOf(p: Prim, c: char) {
    match p
    case Null => c == 'n'
    case Bool(b) => c == if b then 't' else 'f'
    case Int(_) => true
    case Float(_) => NumberChar(c) && c != 'e' && c != 'E'
    case Str(_) => c == '"'
  }

  lemma EncodeStart(p: Prim, s: string, num: nat -> string)
    requires PrintsNumbers(num) && !p.Int?
    ensures Encode(p, num) != "" && StartOf(p, Encode(p, num)[0]) && (Encode(p, num) + s)[0] == Encode(p, num)[0]
  {
    if p.Float? { assert AllNumberChars(num(p.f)) && num(p.f) != ""; }
  }

  lemma EncodeUnique(p: Prim, q: Prim, s: string, t: string, num: nat -> string)
    requires PrintsNumbers(num) && !p.Int? && !q.Int? && Ends(s) && Ends(t) && Encode(p, num) + s == Encode(q, num) + t
    ensures p == q && s == t
  {
    EncodeStart(p, s, num);
    EncodeStart(q, t, num);
    match p
    case Null => Tail("null", s, "null", t);
    case Bool(b) => Tail(Encode(p, num), s, Encode(q, num), t);
    case Float(x) =>
      assert AllNumberChars(num(x)) && AllNumberChars(num(q.f));
      NumberUnique(num(x), num(q.f), s, t);
    case Str(x) => QuotedUnique(x, q.s, s, t);
  }

  /** The encoder canonical JSON relies on: strings as Go escapes them, with any printing of numbers that
      keeps different numbers apart. */
  lemma EncodeSelfDelimiting(num: nat -> string)
    requires PrintsNumbers(num)
    ensures SelfDelimiting(Encoder(num))
  {
    var enc := Encoder(num);
    forall p: Prim | !p.Int? ensures enc(p) != "" && enc(p)[0] !in CLOSERS + {'[', '{'} { EncodeStart(p, "", num); }
    forall p: Prim, q: Prim, s, t | !p.Int? && !q.Int? && Ends(s) && Ends(t) && enc(p) + s == enc(q) + t
      ensures p == q && s == t
    {
      EncodeUnique(p, q, s, t, num);
    }
  }

  /** Canonical JSON is uniquely decodable: parsed values with the same text are equal. */
  lemma CanonicalDecodable(v: Json, w: Json, num: nat -> string)
    requires PrintsNumbers(num) && Parsed(v) && Parsed(w) && Canon(v, Encoder(num)) == Canon(w, Encoder(num))
    ensures v == w
  {
    EncodeSelfDelimiting(num);
    CanonInjective(v, w, Encoder(num));
  }

  /** Some printings do keep numbers apart. */
  lemma DecimalPrints()
    ensures PrintsNumbers(Decimal.Print)
  {
    forall x: nat, y: nat | Decimal.Print(x) == Decimal.Print(y) ensures x == y {
      Decimal.ParsePrint(x);
      Decimal.ParsePrint(y);
    }
  }
}
