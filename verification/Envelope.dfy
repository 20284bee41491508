/** Signing and reading envelopes (s2s.go).  Rounding an integer to a float64, truncating one to an
    integer, encoding primitives and the signature scheme are parameters. */
module Envelopes {
  import opened Text
  import opened Canonical

  const ALGORITHM := "ed25519"
  const RESERVED: set<string> := {"@context", "@type", "@id", "seq", "origin", "ts", "sig", "sigAlg"}

  datatype Env = Env(context: Json, type_: string, id: string, seq_: int, origin: string, ts: string,
                     sig: string, sigAlg: string, payload: map<string, Json>)

  function Text_(s: string): Json { Value(Str(s)) }

  // ----- What marshalling and parsing again does to a value -----

  /** Every integer becomes a float64; a float64 is printed so that it is read back. */
  function Reparse(v: Json, round: int -> nat): Json
    decreases v
  {
    match v
    case Value(p) => if p.Int? then Value(Float(round(p.n))) else v
    case Arr(items) => Arr(seq(|items|, i requires 0 <= i < |items| => Reparse(items[i], round)))
    case Obj(fields) => Obj(map k | k in fields :: Reparse(fields[k], round))
  }

  lemma {:induction false} ReparseParsed(v: Json, round: int -> nat)
    ensures Parsed(Reparse(v, round))
    decreases v
  {
    match v
    case Value(p) =>
    case Arr(items) => forall i | 0 <= i < |items| { ReparseParsed(items[i], round); }
    case Obj(fields) => forall k | k in fields { ReparseParsed(fields[k], round); }
  }

  lemma {:induction false} ParsedKept(v: Json, round: int -> nat)
    requires Parsed(v)
    ensures Reparse(v, round) == v
    decreases v
  {
    match v
    case Value(p) =>
    case Arr(items) => forall i | 0 <= i < |items| ensures Reparse(v, round).items[i] == items[i] { ParsedKept(items[i], round); }
      assert Reparse(v, round).items == items;
    case Obj(fields) => forall k | k in fields ensures Reparse(v, round).fields[k] == fields[k] { ParsedKept(fields[k], round); }
      assert Reparse(v, round).fields == fields;
  }

  function ReparseMap(m: map<string, Json>, round: int -> nat): map<string, Json> {
    map k | k in m :: Reparse(m[k], round)
  }

  // ----- Writing and reading -----

  function Base(e: Env): map<string, Json> {
    var m := map["@context" := e.context, "@type" := Text_(e.type_), "@id" := Text_(e.id),
                 "seq" := Value(Int(e.seq_)), "origin" := Text_(e.origin), "ts" := Text_(e.ts)];
    if e.sig != "" then m["sig" := Text_(e.sig)]["sigAlg" := Text_(e.sigAlg)] else m
  }

  /** The fields MarshalJSON writes: the payload's come last and win. */
  function Flatten(e: Env): map<string, Json> { Base(e) + e.payload }

  method MarshalFields(e: Env) returns (m: map<string, Json>)
    ensures m == Flatten(e)
  {
    m := map["@context" := e.context, "@type" := Text_(e.type_), "@id" := Text_(e.id),
             "seq" := Value(Int(e.seq_)), "origin" := Text_(e.origin), "ts" := Text_(e.ts)];
    if e.sig != "" {
      m := m["sig" := Text_(e.sig)]["sigAlg" := Text_(e.sigAlg)];
    }
    var left := e.payload.Keys;
    while left != {}
      invariant left <= e.payload.Keys
      invariant m == Base(e) + (map k | k in e.payload && k !in left :: e.payload[k])
      decreases left
    {
      var k :| k in left;
      m := m[k := e.payload[k]];
      left := left - {k};
    }
  }

  predicate HasString(m: map<string, Json>, k: string) { k in m && m[k].Value? && m[k].prim.Str? }

  function StringAt(m: map<string, Json>, k: string): string { if HasString(m, k) then m[k].prim.s else "" }

  /** UnmarshalJSON into a zero envelope. */
  function Read(m: map<string, Json>, trunc: nat -> int): Env {
    Env(if "@context" in m then m["@context"] else Value(Null),
        StringAt(m, "@type"), StringAt(m, "@id"),
        if "seq" in m && m["seq"].Value? && m["seq"].prim.Float? then trunc(m["seq"].prim.f) else 0,
        StringAt(m, "origin"), StringAt(m, "ts"), StringAt(m, "sig"), StringAt(m, "sigAlg"),
        m - RESERVED)
  }

  method UnmarshalJSON(m: map<string, Json>, trunc: nat -> int) returns (e: Env)
    ensures e == Read(m, trunc)
  {
    var context, seq_ := Value(Null), 0;
    var type_, id, origin, ts, sig, sigAlg := "", "", "", "", "", "";
    if "@context" in m { context := m["@context"]; }
    if HasString(m, "@type") { type_ := m["@type"].prim.s; }
    if HasString(m, "@id") { id := m["@id"].prim.s; }
    if "seq" in m && m["seq"].Value? && m["seq"].prim.Float? { seq_ := trunc(m["seq"].prim.f); }
    if HasString(m, "origin") { origin := m["origin"].prim.s; }
    if HasString(m, "ts") { ts := m["ts"].prim.s; }
    if HasString(m, "sig") { sig := m["sig"].prim.s; }
    if HasString(m, "sigAlg") { sigAlg := m["sigAlg"].prim.s; }
    var payload := CopyExcept(m, RESERVED);
    e := Env(context, type_, id, seq_, origin, ts, sig, sigAlg, payload);
  }

  /** A copy of a map without some keys. */
  method CopyExcept(m: map<string, Json>, drop: set<string>) returns (r: map<string, Json>)
    ensures r == m - drop
  {
    r := map[];
    var left := m.Keys;
    while left != {}
      invariant left <= m.Keys && r == (map k | k in m && k !in left && k !in drop :: m[k])
      decreases left
    {
      var k :| k in left;
      if k !in drop { r := r[k := m[k]]; }
      left := left - {k};
    }
  }

  /** The fields the next server reads from an envelope's line. */
  function Wire(e: Env, round: int -> nat): map<string, Json> { ReparseMap(Flatten(e), round) }

  /** What is left of an envelope after the wire: its numbers are float64s. */
  function OverWire(e: Env, round: int -> nat, trunc: nat -> int): Env {
    e.(context := Reparse(e.context, round), seq_ := trunc(round(e.seq_)), payload := ReparseMap(e.payload, round))
  }

  lemma WirePayload(e: Env, round: int -> nat)
    requires e.payload.Keys !! RESERVED
    ensures Wire(e, round) - RESERVED == ReparseMap(e.payload, round)
  {
    assert forall k :: k in RESERVED ==> k !in e.payload;
    assert forall k :: k in Base(e) ==> k in RESERVED;
  }

  lemma WireClean(e: Env, round: int -> nat, trunc: nat -> int)
    requires e.payload.Keys !! RESERVED
    ensures Read(Wire(e, round), trunc) == OverWire(e, round, trunc).(sigAlg := if e.sig == "" then "" else e.sigAlg)
  {
    WirePayload(e, round);
    WireText(e, round, "@type", e.type_);
    WireText(e, round, "@id", e.id);
    WireText(e, round, "origin", e.origin);
    WireText(e, round, "ts", e.ts);
    WireField(e, round, "@context");
    WireField(e, round, "seq");
    if e.sig == "" {
      WireField(e, round, "sig");
      WireField(e, round, "sigAlg");
    } else {
      WireText(e, round, "sig", e.sig);
      WireText(e, round, "sigAlg", e.sigAlg);
    }
  }

  lemma WireField(e: Env, round: int -> nat, k: string)
    requires e.payload.Keys !! RESERVED && k in RESERVED
    ensures k in Wire(e, round) <==> k in Base(e)
    ensures k in Base(e) ==> Wire(e, round)[k] == Reparse(Base(e)[k], round)
  {
    assert k !in e.payload;
  }

  lemma WireText(e: Env, round: int -> nat, k: string, s: string)
    requires e.payload.Keys !! RESERVED && k in RESERVED && k in Base(e) && Base(e)[k] == Text_(s)
    ensures StringAt(Wire(e, round), k) == s
  {
    WireField(e, round, k);
  }

  /** An envelope comes back from the wire if and only if its payload uses none of the reserved names
      and it has no algorithm without a signature. */
  lemma EnvelopeReturnsIff(e: Env, round: int -> nat, trunc: nat -> int)
    ensures Read(Wire(e, round), trunc) == OverWire(e, round, trunc)
       <==> e.payload.Keys !! RESERVED && (e.sig != "" || e.sigAlg == "")
  {
    var m := Wire(e, round);
    if e.payload.Keys !! RESERVED {
      WireClean(e, round, trunc);
    } else {
      var k :| k in e.payload && k in RESERVED;
      assert k in OverWire(e, round, trunc).payload && k !in Read(m, trunc).payload;
    }
  }

  /** What is read, field by field: texts and numbers where the fields hold such, and zero values elsewhere. */
  lemma ReadMeans(m: map<string, Json>, trunc: nat -> int)
    ensures var e := Read(m, trunc);
      && e.context == (if "@context" in m then m["@context"] else Value(Null))
      && e.seq_ == (if "seq" in m && m["seq"].Value? && m["seq"].prim.Float? then trunc(m["seq"].prim.f) else 0)
      && TextRead(m, "@type", e.type_) && TextRead(m, "@id", e.id) && TextRead(m, "origin", e.origin)
      && TextRead(m, "ts", e.ts) && TextRead(m, "sig", e.sig) && TextRead(m, "sigAlg", e.sigAlg)
      && e.payload == m - {"@context", "@type", "@id", "seq", "origin", "ts", "sig", "sigAlg"}
  {}

  predicate TextRead(m: map<string, Json>, k: string, s: string) {
    if k in m && m[k].Value? && m[k].prim.Str? then m[k] == Value(Str(s)) else s == ""
  }

  /** What is on the wire, name by name: the payload's own fields, and the rest where the payload has none. */
  lemma WireNames(e: Env, round: int -> nat, k: string)
    ensures var m := Wire(e, round);
      && (k in e.payload ==> k in m && m[k] == Reparse(e.payload[k], round))
      && (k !in e.payload && k == "@context" ==> k in m && m[k] == Reparse(e.context, round))
      && (k !in e.payload && k == "@type" ==> k in m && m[k] == Value(Str(e.type_)))
      && (k !in e.payload && k == "@id" ==> k in m && m[k] == Value(Str(e.id)))
      && (k !in e.payload && k == "seq" ==> k in m && m[k] == Value(Float(round(e.seq_))))
      && (k !in e.payload && k == "origin" ==> k in m && m[k] == Value(Str(e.origin)))
      && (k !in e.payload && k == "ts" ==> k in m && m[k] == Value(Str(e.ts)))
      && (k !in e.payload && k == "sig" && e.sig != "" ==> k in m && m[k] == Value(Str(e.sig)))
      && (k !in e.payload && k == "sigAlg" && e.sig != "" ==> k in m && m[k] == Value(Str(e.sigAlg)))
      && (k !in e.payload && k in m ==> k in {"@context", "@type", "@id", "seq", "origin", "ts", "sig", "sigAlg"})
      && (k !in e.payload && k in {"sig", "sigAlg"} && e.sig == "" ==> k !in m)
  {}

  // ----- Signing and verifying -----

  const SIGNATURE: set<string> := {"sig", "sigAlg"}

  ghost function SignedBytes(m: map<string, Json>, enc: Prim -> string): string {
    Canon(Obj(m - SIGNATURE), enc)
  }

  function Cleared(e: Env): Env { e.(sig := "", sigAlg := "") }

  /** The bytes Sign signs: those of CanonicalJSON, which writes the envelope and parses it first. */
  ghost function SignBytes(e: Env, round: int -> nat, enc: Prim -> string): string {
    SignedBytes(ReparseMap(Flatten(Cleared(e)), round), enc)
  }

  ghost function Signed(e: Env, signer: string -> string, round: int -> nat, enc: Prim -> string): Env {
    e.(sig := signer(SignBytes(e, round, enc)), sigAlg := ALGORITHM)
  }

  class Envelope {
    var env: Env

    constructor (e: Env)
      ensures env == e
    {
      env := e;
    }

    /** CanonicalJSON of this envelope. */
    method CanonicalJSON(round: int -> nat, enc: Prim -> string) returns (bytes: string)
      ensures bytes == SignedBytes(Wire(env, round), enc)
    {
      var m := MarshalFields(env);
      m := ReparseMap(m, round);
      m := m - {"sig"};
      m := m - {"sigAlg"};
      assert m == Wire(env, round) - SIGNATURE;
      bytes := CanonicalizeMap(Obj(m), enc);
    }

    method Sign(signer: string -> string, round: int -> nat, enc: Prim -> string)
      modifies this
      ensures env == Signed(old(env), signer, round, enc)
    {
      env := env.(sig := "");
      env := env.(sigAlg := "");
      var bytes := CanonicalJSON(round, enc);
      env := env.(sig := signer(bytes));
      env := env.(sigAlg := ALGORITHM);
    }
  }

  datatype Verdict = Accepted | UnsupportedAlgorithm | MissingSignature | Undecodable | BadSignature

  /** How signatures are decoded from their text, and checked. */
  datatype Scheme = Scheme(decode: string -> Option<string>, check: (string, string) -> bool)

  ghost function Verified(m: map<string, Json>, scheme: Scheme, enc: Prim -> string): Verdict {
    if !("sigAlg" in m && m["sigAlg"] == Text_(ALGORITHM)) then UnsupportedAlgorithm
    else if !HasString(m, "sig") then MissingSignature
    else
      match scheme.decode(m["sig"].prim.s)
      case None => Undecodable
      case Some(sig) => if scheme.check(SignedBytes(m, enc), sig) then Accepted else BadSignature
  }

  /** Whether a text decodes to a valid signature of some bytes. */
  predicate Signs(scheme: Scheme, bytes: string, text: string) {
    scheme.decode(text).Some? && scheme.check(bytes, scheme.decode(text).value)
  }

  method VerifyEnvelopeData(m: map<string, Json>, scheme: Scheme, enc: Prim -> string)
    returns (r: Verdict)
    ensures r == Verified(m, scheme, enc)
  {
    if !HasString(m, "sigAlg") || m["sigAlg"].prim.s != ALGORITHM {
      return UnsupportedAlgorithm;
    }
    if !HasString(m, "sig") { return MissingSignature; }
    var sig := scheme.decode(m["sig"].prim.s);
    if sig == None { return Undecodable; }
    var copy := CopyExcept(m, SIGNATURE);
    var bytes := CanonicalizeMap(Obj(copy), enc);
    return if scheme.check(bytes, sig.value) then Accepted else BadSignature;
  }

  /** Fields are accepted if and only if they name the algorithm and have a signature that is valid for the canonical
      text of all other fields. */
  lemma AcceptedIff(m: map<string, Json>, scheme: Scheme, enc: Prim -> string)
    ensures Verified(m, scheme, enc) == Accepted
       <==> "sigAlg" in m && m["sigAlg"] == Value(Str("ed25519")) && "sig" in m && m["sig"].Value? && m["sig"].prim.Str?
            && scheme.decode(m["sig"].prim.s).Some?
            && scheme.check(Canon(Obj(m - {"sig", "sigAlg"}), enc), scheme.decode(m["sig"].prim.s).value)
  {}

  /** The bytes a receiver checks are the bytes that were signed, whatever the payload holds. */
  lemma SignedBytesSurvive(e: Env, sig: string, sigAlg: string, round: int -> nat, enc: Prim -> string)
    ensures SignedBytes(Wire(e.(sig := sig, sigAlg := sigAlg), round), enc) == SignBytes(e, round, enc)
  {
    var a, b := Wire(e.(sig := sig, sigAlg := sigAlg), round), Wire(Cleared(e), round);
    assert a - SIGNATURE == b - SIGNATURE;
  }

  /** The fields after a number of servers have parsed and forwarded them. */
  function Hops(m: map<string, Json>, n: nat, round: int -> nat): map<string, Json> {
    if n == 0 then m else ReparseMap(Hops(m, n - 1, round), round)
  }

  lemma {:induction false} HopsKeep(e: Env, n: nat, round: int -> nat)
    ensures Hops(Wire(e, round), n, round) == Wire(e, round)
  {
    if n > 0 {
      HopsKeep(e, n - 1, round);
      var m := Wire(e, round);
      forall k | k in m ensures Reparse(m[k], round) == m[k] {
        ReparseParsed(Flatten(e)[k], round);
        ParsedKept(m[k], round);
      }
      assert ReparseMap(m, round) == m;
    }
  }

  /** After any number of hops a signed envelope verifies if and only if its payload carries neither
      another algorithm nor, under the name `sig`, anything but a valid signature. */
  lemma SignedVerifiesIff(e: Env, hops: nat, signer: string -> string, scheme: Scheme,
                          round: int -> nat, enc: Prim -> string)
    requires var bytes := SignBytes(e, round, enc); signer(bytes) != "" && Signs(scheme, bytes, signer(bytes))
    ensures Verified(Hops(Wire(Signed(e, signer, round, enc), round), hops, round), scheme, enc) == Accepted
       <==> && ("sigAlg" in e.payload ==> e.payload["sigAlg"] == Text_(ALGORITHM))
            && ("sig" in e.payload ==> HasString(e.payload, "sig")
                                       && Signs(scheme, SignBytes(e, round, enc), e.payload["sig"].prim.s))
  {
    var s := Signed(e, signer, round, enc);
    HopsKeep(s, hops, round);
    SignedBytesSurvive(e, s.sig, s.sigAlg, round, enc);
    var m := Wire(s, round);
    assert Flatten(s)["sigAlg"] == if "sigAlg" in e.payload then e.payload["sigAlg"] else Text_(ALGORITHM);
    assert Flatten(s)["sig"] == if "sig" in e.payload then e.payload["sig"] else Text_(s.sig);
  }

  /** The signed bytes determine every field but the signature's own two. */
  lemma SignedContentIff(m: map<string, Json>, n: map<string, Json>, enc: Prim -> string)
    requires SelfDelimiting(enc) && Parsed(Obj(m)) && Parsed(Obj(n))
    ensures SignedBytes(m, enc) == SignedBytes(n, enc) <==> m - SIGNATURE == n - SIGNATURE
  {
    if SignedBytes(m, enc) == SignedBytes(n, enc) { CanonInjective(Obj(m - SIGNATURE), Obj(n - SIGNATURE), enc); }
  }
}
