/** did:key identifiers (identity.go): CreateDIDKey, ParseDID and DeriveEd25519FromDIDKey. */
module Dids {
  import opened Text
  import opened Base58
  import opened Radix

  const KEY_SIZE := 32

  datatype Did = Did(method_: string, identifier: string, fragment: string, base: string)

  datatype DidError =
    | NotADid | TooFewParts | NotADidKey | NotMultibase | BadBase58(error: DecodeError)
    | TooShort | BadLength(length: nat) | UnsupportedKey(b0: byte, b1: byte)

  function ParseDID(did: string): Result<Did, DidError> {
    if !HasPrefix(did, "did:") then Err(NotADid)
    else
      var i := Find(did, '#');
      var base := did[..i];
      var a := Find(base, ':');
      if a == |base| then Err(TooFewParts)
      else
        var rest := base[a + 1..];
        var b := Find(rest, ':');
        if b == |rest| then Err(TooFewParts)
        else Ok(Did(rest[..b], rest[b + 1..], if i < |did| then did[i + 1..] else "", base))
  }

  function DeriveEd25519(did: Did): Result<seq<byte>, DidError> {
    if did.method_ != "key" then Err(NotADidKey)
    else if !HasPrefix(did.identifier, "z") then Err(NotMultibase)
    else match Decode(did.identifier[1..])
      case Err(e) => Err(BadBase58(e))
      case Ok(d) =>
        if |d| < 2 then Err(TooShort)
        else if d[0] == 0xed && d[1] == 0x01 then
          if |d[2..]| != KEY_SIZE then Err(BadLength(|d[2..]|)) else Ok(d[2..])
        else Err(UnsupportedKey(d[0], d[1]))
  }

  /** A string is refused unless it starts with `did:` and has two colons before any `#`. */
  lemma DidRefused(did: string)
    ensures ParseDID(did) == Err(NotADid) <==> !("did:" <= did)
    ensures ParseDID(did) == Err(TooFewParts) <==> "did:" <= did && multiset(did[..Find(did, '#')])[':'] < 2
  {
    var base := did[..Find(did, '#')];
    FirstColon(base);
    if Find(base, ':') < |base| { FirstColon(base[Find(base, ':') + 1..]); }
  }

  lemma FirstColon(s: string)
    ensures var i := Find(s, ':');
      if i == |s| then multiset(s)[':'] == 0 else multiset(s)[':'] == 1 + multiset(s[i + 1..])[':']
  {
    var i := Find(s, ':');
    if i < |s| {
      Rejoin(s, i);
      assert multiset(s) == multiset(s[..i]) + multiset{':'} + multiset(s[i + 1..]);
    }
  }

  /** Why a DID has no key: its method, its first letter, its letters, its length, its prefix bytes, or the number of
      bytes after them. */
  lemma NoKeyBecause(did: Did)
    ensures var r := DeriveEd25519(did);
      && (r == Err(NotADidKey) <==> did.method_ != "key")
      && (r == Err(NotMultibase) <==> did.method_ == "key" && (did.identifier == "" || did.identifier[0] != 'z'))
      && (did.method_ == "key" && did.identifier != "" && did.identifier[0] == 'z' ==>
            match Decode(did.identifier[1..])
            case Err(e) => r == Err(BadBase58(e))
            case Ok(d) =>
              && (r == Err(TooShort) <==> |d| < 2)
              && (|d| >= 2 && d[..2] != [0xed, 0x01] ==> r == Err(UnsupportedKey(d[0], d[1])))
              && (|d| >= 2 && d[..2] == [0xed, 0x01] && |d| != 34 ==> r == Err(BadLength(|d| - 2)))
              && (|d| >= 2 && d[..2] == [0xed, 0x01] && |d| == 34 ==> r == Ok(d[2..])))
  {}

  function Multicodec(key: seq<byte>): seq<byte> {
    [0xed, 0x01] + key
  }

  function CreateDIDKey(key: seq<byte>): string {
    "did:key:z" + Encode(Multicodec(key))
  }

  /** The parts of a DID: the method to the second colon, the identifier to the `#`, and the fragment after it. */
  lemma DidParts(method_: string, id: string, fragment: string)
    requires ':' !in method_ && '#' !in method_ && '#' !in id
    ensures ParseDID("did:" + method_ + ":" + id) == Ok(Did(method_, id, "", "did:" + method_ + ":" + id))
    ensures ParseDID("did:" + method_ + ":" + id + "#" + fragment)
         == Ok(Did(method_, id, fragment, "did:" + method_ + ":" + id))
  {
    var base := "did:" + method_ + ":" + id;
    BaseParts(base, method_, id);
    FindUnique(base, '#', |base|);
    StartsAlike(base, base);
    PartsOf(base, base, base[4..], method_, id);
    FragmentAt(base, fragment);
    StartsAlike(base + "#" + fragment, base);
    PartsOf(base + "#" + fragment, base, base[4..], method_, id);
  }

  lemma FragmentAt(base: string, fragment: string)
    requires '#' !in base
    ensures var did := base + "#" + fragment;
      Find(did, '#') == |base| && did[..|base|] == base && did[|base| + 1..] == fragment && base <= did
  {
    FindUnique(base + "#" + fragment, '#', |base|);
  }

  lemma StartsAlike(did: string, base: string)
    requires base <= did && HasPrefix(base, "did:")
    ensures HasPrefix(did, "did:") && did[..|base|] == base
  {}

  lemma PartsOf(did: string, base: string, rest: string, method_: string, id: string)
    requires Find(did, '#') == |base| && HasPrefix(did, "did:") && did[..|base|] == base
    requires Find(base, ':') == 3 && |base| >= 4 && rest == base[4..]
    requires Find(rest, ':') == |method_| && |method_| < |rest| && rest[..|method_|] == method_ && rest[|method_| + 1..] == id
    ensures ParseDID(did) == Ok(Did(method_, id, if |base| < |did| then did[|base| + 1..] else "", base))
  {}

  lemma BaseParts(base: string, method_: string, id: string)
    requires base == "did:" + method_ + ":" + id && ':' !in method_ && '#' !in method_ && '#' !in id
    ensures HasPrefix(base, "did:") && '#' !in base && Find(base, ':') == 3
    ensures var rest := base[4..];
      Find(rest, ':') == |method_| && |method_| < |rest| && rest[..|method_|] == method_ && rest[|method_| + 1..] == id
  {
    var rest := base[4..];
    assert rest == method_ + ":" + id;
    FindUnique(rest, ':', |method_|);
    assert base[..3] == "did" && base[3] == ':' && base[..4] == "did:";
    FindUnique(base, ':', 3);
  }

  /** What a `did:key:` string parses to. */
  lemma ParsedKey(id: string, did: string)
    requires '#' !in id && did[..Find(did, '#')] == "did:key:" + id
    ensures ParseDID(did).Ok?
    ensures ParseDID(did).value.method_ == "key" && ParseDID(did).value.identifier == id
  {
    KeyBase(id);
    assert did[..4] == ("did:key:" + id)[..4];
  }

  lemma KeyBase(id: string)
    ensures var base := "did:key:" + id; base[..4] == "did:" && Find(base, ':') == 3 && base[4..] == "key:" + id
    ensures var rest := "key:" + id; Find(rest, ':') == 3 && rest[..3] == "key" && rest[4..] == id
  {
    FindUnique("did:key:" + id, ':', 3);
    FindUnique("key:" + id, ':', 3);
  }

  lemma DidPrefix(did: string, i: nat)
    requires HasPrefix(did, "did:") && i <= |did| && '#' !in did[..i] && (i < |did| ==> did[i] == '#')
    ensures i >= 4 && did[..i] == "did:" + did[..i][4..] && Find(did[..i], ':') == 3
  {
    assert did[0] == 'd' && did[1] == 'i' && did[2] == 'd' && did[3] == ':';
    FindUnique(did[..i], ':', 3);
  }

  /** The only strings that parse to method `key`. */
  lemma KeyMethod(did: string)
    requires ParseDID(did).Ok? && ParseDID(did).value.method_ == "key"
    ensures did[..Find(did, '#')] == "did:key:" + ParseDID(did).value.identifier
  {
    var i := Find(did, '#');
    DidPrefix(did, i);
    KeyRest(did[..i], did[..i][4..]);
  }

  lemma KeyRest(base: string, rest: string)
    requires base == "did:" + rest && Find(rest, ':') < |rest| && rest[..Find(rest, ':')] == "key"
    ensures base == "did:key:" + rest[Find(rest, ':') + 1..]
  {
    Rejoin(rest, 3);
    Assoc("did:", "key:", rest[4..]);
  }

  lemma Assoc(a: string, b: string, c: string)
    ensures a + (b + c) == (a + b) + c
  {}

  lemma DeriveFrom(d: Did, letters: string, key: seq<byte>)
    requires d.method_ == "key" && d.identifier == "z" + letters
    ensures DeriveEd25519(d) == Ok(key) <==> |key| == KEY_SIZE && Decode(letters) == Ok(Multicodec(key))
  {
    assert d.identifier[1..] == letters;
    assert Multicodec(key)[2..] == key;
    match Decode(letters)
    case Err(_) =>
    case Ok(data) => if |data| >= 2 { assert data == [data[0], data[1]] + data[2..]; }
  }

  lemma DecodesTo(letters: string, data: seq<byte>)
    requires data != []
    ensures Decode(letters) == Ok(data) <==> letters == Encode(data)
  {
    DecodeEncode(data);
    if Decode(letters) == Ok(data) { EncodeDecode(letters); }
  }

  lemma NoHash(letters: string)
    requires IsBase58(letters)
    ensures '#' !in "z" + letters
  {
    assert forall i :: 0 <= i < |letters| ==> DigitOf(letters[i]).Some?;
  }

  /** A DID yields an Ed25519 key exactly when, up to its fragment, it is the did:key of that key. */
  lemma DeriveInvertsCreate(did: string, key: seq<byte>)
    ensures (ParseDID(did).Ok? && DeriveEd25519(ParseDID(did).value) == Ok(key))
       <==> (|key| == KEY_SIZE && did[..Find(did, '#')] == CreateDIDKey(key))
  {
    if did[..Find(did, '#')] == CreateDIDKey(key) { Derives(did, key); }
    if ParseDID(did).Ok? && DeriveEd25519(ParseDID(did).value) == Ok(key) { DerivesOnly(did, key); }
  }

  lemma Derives(did: string, key: seq<byte>)
    requires did[..Find(did, '#')] == CreateDIDKey(key)
    ensures ParseDID(did).Ok? && (DeriveEd25519(ParseDID(did).value) == Ok(key) <==> |key| == KEY_SIZE)
  {
    var data := Multicodec(key);
    EncodeIsBase58(data);
    NoHash(Encode(data));
    Joined(Encode(data));
    ParsedKey("z" + Encode(data), did);
    DeriveFrom(ParseDID(did).value, Encode(data), key);
    DecodesTo(Encode(data), data);
  }

  lemma DerivesOnly(did: string, key: seq<byte>)
    requires ParseDID(did).Ok? && DeriveEd25519(ParseDID(did).value) == Ok(key)
    ensures |key| == KEY_SIZE && did[..Find(did, '#')] == CreateDIDKey(key)
  {
    KeyMethod(did);
    var id := ParseDID(did).value.identifier;
    assert id == "z" + id[1..];
    DeriveFrom(ParseDID(did).value, id[1..], key);
    DecodesTo(id[1..], Multicodec(key));
    Joined(Encode(Multicodec(key)));
  }

  lemma Joined(letters: string)
    ensures "did:key:z" + letters == "did:key:" + ("z" + letters)
  {}

  // ----- What keys look like -----

  lemma Squared(base: int, n: nat, p: int)
    requires Pow(base, n) == p
    ensures Pow(base, 2 * n) == p * p
  {
    PowAdd(base, n, n);
  }

  lemma Powers()
    ensures Pow(256, 32) == 0x1_00000000_00000000_00000000_00000000_00000000_00000000_00000000_00000000
    ensures Pow(58, 44) == 389790918707373377135528568990913592653094657612049369038476873218241589149696
  {
    assert Pow(256, 1) == 256 && Pow(58, 1) == 58;
    Squared(256, 1, 256);
    Squared(256, 2, 0x1_0000);
    Squared(256, 4, 0x1_00000000);
    Squared(256, 8, 0x1_00000000_00000000);
    Squared(256, 16, 0x1_00000000_00000000_00000000_00000000);
    Squared(58, 1, 58);
    assert Pow(58, 3) == Pow(58, 2) * 58;
    assert Pow(58, 4) == Pow(58, 3) * 58;
    assert Pow(58, 5) == Pow(58, 4) * 58;
    PowAdd(58, 5, 6);
    assert Pow(58, 6) == Pow(58, 5) * 58;
    Squared(58, 11, Pow(58, 5) * Pow(58, 6));
    Squared(58, 22, Pow(58, 11) * Pow(58, 11));
  }

  /** The base-58 digits of the prefix bytes ed 01 and 32 more bytes start with those of `6Mk`. */
  lemma PrefixDigits(key: seq<byte>)
    requires |key| == KEY_SIZE
    ensures Val(Multicodec(key), 256) >= 0 && [5, 20, 43] <= ToBase(Val(Multicodec(key), 256), 58)
  {
    var v := Val(Multicodec(key), 256);
    ValRange(key, 256);
    ValConcat([0xed, 0x01], key, 256);
    assert [0xed, 0x01][..1] == [0xed] && [0xed][..0] == [];
    assert Val([0xed, 0x01], 256) == 0xed01;
    Powers();
    TopDigits(v, 18023, 44, 58);
    assert ToBase(18023, 58) == ToBase(310, 58) + [43] && ToBase(310, 58) == ToBase(5, 58) + [20];
    assert ToBase(5, 58) == ToBase(0, 58) + [5];
  }

  /** Every DID made from a key starts with `did:key:z6Mk`. */
  lemma KeysLookAlike(key: seq<byte>)
    requires |key| == KEY_SIZE
    ensures "did:key:z6Mk" <= CreateDIDKey(key)
  {
    PrefixDigits(key);
    var d := Multicodec(key);
    var v := Val(d, 256);
    ToBaseVal(v, 58);
    Runs();
    assert d[0] == 0xed;
    LeadingCountUnique(d, 0, 0);
    var letters := Letters(ToBase(v, 58));
    assert letters[0] == '6' && letters[1] == 'M' && letters[2] == 'k';
    assert Encode(d) == "" + letters;
    assert "did:key:z6Mk" == "did:key:z" + ['6', 'M', 'k'];
    assert letters == ['6', 'M', 'k'] + letters[3..];
  }
}
