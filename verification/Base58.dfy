/** EncodeBase58 and DecodeBase58 (identity.go): radix conversion in place between bytes and the
    58-letter alphabet, and the proof that the two are inverse to each other. */
module Base58 {
  import opened Radix
  import opened Text

  /** The alphabet, split where it skips a letter. */
  const ALPHABET := "123456789" + "ABCDEFGH" + "JKLMN" + "PQRSTUVWXYZ" + "abcdefghijk" + "mnopqrstuvwxyz"

  lemma AlphabetText()
    ensures ALPHABET == "123456789ABCDEFGHJKLMNPQRSTUVWXYZabcdefghijkmnopqrstuvwxyz"
  {
    var a := "123456789" + "ABCDEFGH";
    assert a == "123456789ABCDEFGH";
    var b := a + "JKLMN";
    assert b == "123456789ABCDEFGHJKLMN";
    var c := b + "PQRSTUVWXYZ";
    assert c == "123456789ABCDEFGHJKLMNPQRSTUVWXYZ";
    var d := c + "abcdefghijk";
    assert d == "123456789ABCDEFGHJKLMNPQRSTUVWXYZabcdefghijk";
    assert ALPHABET == d + "mnopqrstuvwxyz";
  }

  /** The digit a letter stands for. */
  function DigitOf(c: char): (r: Option<int>) {
    if '1' <= c <= '9' then Some(c as int - '1' as int)
    else if 'A' <= c <= 'H' then Some(c as int - 'A' as int + 9)
    else if 'J' <= c <= 'N' then Some(c as int - 'J' as int + 17)
    else if 'P' <= c <= 'Z' then Some(c as int - 'P' as int + 22)
    else if 'a' <= c <= 'k' then Some(c as int - 'a' as int + 33)
    else if 'm' <= c <= 'z' then Some(c as int - 'm' as int + 44)
    else None
  }

  /** The runs of consecutive letters the alphabet consists of. */
  lemma Runs()
    ensures |ALPHABET| == 58
    ensures forall i :: 0 <= i < 9 ==> ALPHABET[i] as int == '1' as int + i
    ensures forall i :: 9 <= i < 17 ==> ALPHABET[i] as int == 'A' as int + i - 9
    ensures forall i :: 17 <= i < 22 ==> ALPHABET[i] as int == 'J' as int + i - 17
    ensures forall i :: 22 <= i < 33 ==> ALPHABET[i] as int == 'P' as int + i - 22
    ensures forall i :: 33 <= i < 44 ==> ALPHABET[i] as int == 'a' as int + i - 33
    ensures forall i :: 44 <= i < 58 ==> ALPHABET[i] as int == 'm' as int + i - 44
  {}

  lemma DigitOfLetter(i: int)
    requires 0 <= i < 58
    ensures |ALPHABET| == 58 && DigitOf(ALPHABET[i]) == Some(i)
  {
    Runs();
  }

  lemma LetterOfDigit(c: char)
    requires DigitOf(c).Some?
    ensures |ALPHABET| == 58 && 0 <= DigitOf(c).value < 58 && ALPHABET[DigitOf(c).value] == c
  {
    Runs();
  }

  type byte = b: int | 0 <= b < 256

  datatype DecodeError = EmptyInput | InvalidCharacter(c: char)

  function Letters(d: seq<int>): (r: string)
    requires Digits(d, 58)
    ensures |r| == |d|
  {
    Runs();
    seq(|d|, i requires 0 <= i < |d| => ALPHABET[d[i]])
  }

  predicate IsBase58(s: string) {
    forall i :: 0 <= i < |s| ==> DigitOf(s[i]).Some?
  }

  function DigitsOf(s: string): (r: seq<int>)
    requires IsBase58(s)
    ensures |r| == |s| && Digits(r, 58)
  {
    seq(|s|, i requires 0 <= i < |s| => DigitOf(s[i]).value)
  }

  /** One `1` for each leading zero byte, then the base-58 digits of the number the bytes denote. */
  function Encode(data: seq<byte>): string {
    ValRange(data, 256);
    ToBaseVal(Val(data, 256), 58);
    Repeat('1', LeadingCount(data, 0)) + Letters(ToBase(Val(data, 256), 58))
  }

  /** One zero byte for each leading `1`, then the bytes of the number the letters denote. */
  function Decode(s: string): Result<seq<byte>, DecodeError> {
    if s == "" then Err(EmptyInput)
    else if !IsBase58(s) then Err(InvalidCharacter(FirstInvalid(s)))
    else
      ValRange(DigitsOf(s), 58);
      ToBaseVal(Val(DigitsOf(s), 58), 256);
      var bytes: seq<byte> := Repeat(0, LeadingCount(s, '1')) + ToBase(Val(DigitsOf(s), 58), 256);
      Ok(bytes)
  }

  function FirstInvalid(s: string): char
    requires !IsBase58(s)
  {
    if DigitOf(s[0]).None? then s[0] else FirstInvalid(s[1..])
  }

  // ----- The two functions are inverse to each other -----

  lemma LettersDigits(d: seq<int>)
    requires Digits(d, 58)
    ensures IsBase58(Letters(d)) && DigitsOf(Letters(d)) == d
    ensures Canonical(d) ==> Letters(d) == "" || Letters(d)[0] != '1'
  {
    Runs();
    forall i | 0 <= i < |d| ensures DigitOf(Letters(d)[i]) == Some(d[i]) { DigitOfLetter(d[i]); }
    assert DigitsOf(Letters(d)) == d;
    DigitOfLetter(0);
  }

  lemma DigitsLetters(s: string)
    requires IsBase58(s)
    ensures Letters(DigitsOf(s)) == s
  {
    forall i | 0 <= i < |s| ensures Letters(DigitsOf(s))[i] == s[i] { LetterOfDigit(s[i]); }
  }

  /** A byte string is its leading zeros followed by the canonical digits of its value. */
  lemma Decompose(d: seq<int>, base: int)
    requires base >= 2 && Digits(d, base)
    ensures Val(d, base) >= 0
    ensures d == Repeat(0, LeadingCount(d, 0)) + ToBase(Val(d, base), base)
  {
    var z := LeadingCount(d, 0);
    var rest := d[z..];
    assert d == Repeat(0, z) + rest;
    LeadingZeros(z, rest, base);
    CanonicalUnique(rest, base);
  }

  lemma OneIsZero(c: char)
    ensures DigitOf(c) == Some(0) <==> c == '1'
  {}

  /** The encoder's two parts are the letters of one digit string. */
  lemma SpelledAsOne(z: nat, digits: seq<int>)
    requires Digits(digits, 58) && Canonical(digits)
    ensures Repeat('1', z) + Letters(digits) == Letters(Repeat(0, z) + digits)
    ensures LeadingCount(Repeat('1', z) + Letters(digits), '1') == z
  {
    var s, t := Repeat('1', z) + Letters(digits), Letters(Repeat(0, z) + digits);
    Runs();
    forall i | 0 <= i < |s| ensures s[i] == t[i] {}
    assert s == t;
    LettersDigits(digits);
    LeadingCountUnique(s, '1', z);
  }

  /** Decoding what was encoded returns the bytes, leading zeros included. */
  lemma DecodeEncode(d: seq<byte>)
    requires d != []
    ensures Decode(Encode(d)) == Ok(d)
  {
    Decompose(d, 256);
    EncodedDigits(d);
    EncodeSome(d);
  }

  /** What a decoder finds in an encoded byte string. */
  lemma EncodedDigits(d: seq<byte>)
    ensures IsBase58(Encode(d)) && LeadingCount(Encode(d), '1') == LeadingCount(d, 0)
    ensures Val(DigitsOf(Encode(d)), 58) == Val(d, 256)
  {
    var v, z := Val(d, 256), LeadingCount(d, 0);
    ValRange(d, 256);
    ToBaseVal(v, 58);
    SpelledAsOne(z, ToBase(v, 58));
    LettersDigits(Repeat(0, z) + ToBase(v, 58));
    LeadingZeros(z, ToBase(v, 58), 58);
  }

  lemma EncodeSome(d: seq<byte>)
    requires d != []
    ensures Encode(d) != ""
  {
    Decompose(d, 256);
    ToBaseVal(Val(d, 256), 58);
    if LeadingCount(d, 0) == 0 { CanonicalUnique(d, 256); }
  }

  /** Encoding what was decoded returns the string, leading ones included. */
  lemma EncodeDecode(s: string)
    requires s != "" && IsBase58(s)
    ensures Decode(s).Ok? && Encode(Decode(s).value) == s
  {
    var t, z := DigitsOf(s), LeadingCount(s, '1');
    forall i | 0 <= i < |s| ensures t[i] == 0 <==> s[i] == '1' { OneIsZero(s[i]); }
    LeadingCountUnique(t, 0, z);
    Decompose(t, 58);
    var v := Val(t, 58);
    ToBaseVal(v, 58);
    ToBaseVal(v, 256);
    LeadingZeros(z, ToBase(v, 256), 256);
    LeadingCountUnique(Decode(s).value, 0, z);
    SpelledAsOne(z, ToBase(v, 58));
    DigitsLetters(s);
  }

  lemma EncodeIsBase58(d: seq<byte>)
    ensures IsBase58(Encode(d)) && (d != [] ==> Encode(d) != "")
  {
    EncodedDigits(d);
    if d != [] { EncodeSome(d); }
  }

  // ----- The buffer of |data| * 138 / 100 + 1 digits is large enough -----

  function BufferSize(n: nat): nat { n * 138 / 100 + 1 }

  lemma {:induction false} BufferEnough(n: nat)
    ensures Pow(256, n) <= Pow(58, BufferSize(n))
  {
    if n < 8 {
      assert Pow(256, 1) <= Pow(58, 2) && Pow(256, 2) <= Pow(58, 3) && Pow(256, 3) <= Pow(58, 5);
      assert Pow(256, 4) <= Pow(58, 6) && Pow(256, 5) <= Pow(58, 7);
      assert Pow(256, 6) <= Pow(58, 9) && Pow(256, 7) <= Pow(58, 10);
    } else {
      BufferEnough(n - 8);
      PowAdd(256, n - 8, 8);
      PowAdd(58, BufferSize(n - 8), 11);
      PowMonotone(58, BufferSize(n - 8) + 11, BufferSize(n));
      assert Pow(256, 8) <= Pow(58, 11);
      PowPositive(58, BufferSize(n - 8));
      PowPositive(256, 8);
      MulMono(Pow(256, n - 8), Pow(58, BufferSize(n - 8)), Pow(256, 8));
      MulMono(Pow(256, 8), Pow(58, 11), Pow(58, BufferSize(n - 8)));
    }
  }

  // ----- The loops -----

  /** The buffer with its digits from `k` on multiplied, and `carry` still to be added to digit `k - 1`. */
  ghost predicate Multiplied(was: seq<int>, b: int, k: nat, carry: int, now: seq<int>) {
    k <= |was| == |now| && now[..k] == was[..k] && Progress(was, 256, 58, b, k, carry, now[k..])
  }

  lemma MultipliedStart(was: seq<int>, b: int)
    ensures Multiplied(was, b, |was|, b, was)
  {
    ProgressStart(was, 256, 58, b);
    assert was[|was|..] == [];
  }

  lemma MultipliedStep(was: seq<int>, b: int, k: nat, carry: int, now: seq<int>)
    requires 0 < k && Multiplied(was, b, k, carry, now)
    ensures var t := carry + 256 * now[k - 1]; Multiplied(was, b, k - 1, t / 58, now[k - 1 := t % 58])
  {
    var t := carry + 256 * now[k - 1];
    assert now[k - 1] == now[..k][k - 1] == was[k - 1];
    ProgressStep(was, 256, 58, b, k, carry, now[k..]);
    var next := now[k - 1 := t % 58];
    assert next[k - 1..] == [t % 58] + now[k..];
    assert next[..k - 1] == now[..k][..k - 1] == was[..k - 1];
  }

  /** Past the first digit there is nothing left to carry, when the product fits. */
  lemma NothingLeft(was: seq<int>, b: int, k: nat, carry: int, now: seq<int>)
    requires Multiplied(was, b, k, carry, now) && MulAdd(was, 256, 58, b).1 == 0
    ensures k == 0 ==> carry == 0
  {
    if k == 0 { ProgressCarry(was, 256, 58, b, carry, now[0..]); }
  }

  lemma MultipliedDone(was: seq<int>, b: int, k: nat, now: seq<int>)
    requires Multiplied(was, b, k, 0, now) && forall i :: 0 <= i < k ==> was[i] == 0
    ensures now == MulAdd(was, 256, 58, b).0
  {
    ProgressDone(was, 256, 58, b, k, now[k..]);
    assert now == now[..k] + now[k..];
  }

  /** EncodeBase58's inner loop: multiply by 256 and add a byte, from the last digit down to where
      the number starts.  `j` never drops below 0, because the product leaves no carry. */
  method MultiplyBuffer(buf: array<int>, high: int, b: int) returns (high': int)
    requires -1 <= high < buf.Length && b >= 0
    requires forall i :: 0 <= i <= high ==> buf[i] == 0
    requires MulAdd(buf[..], 256, 58, b).1 == 0
    modifies buf
    ensures -1 <= high' < buf.Length
    ensures forall i :: 0 <= i <= high' ==> buf[i] == 0
    ensures buf[..] == MulAdd(old(buf[..]), 256, 58, b).0
  {
    ghost var was := buf[..];
    high' := high;
    var carry := b;
    var j := buf.Length - 1;
    MultipliedStart(was, b);
    while j > high' || carry != 0
      invariant -1 <= high' <= j < buf.Length && high' <= high
      invariant Multiplied(was, b, j + 1, carry, buf[..])
      decreases j
    {
      NothingLeft(was, b, j + 1, carry, buf[..]);
      assert j >= 0;
      ghost var now := buf[..];
      MultipliedStep(was, b, j + 1, carry, now);
      carry := carry + 256 * buf[j];
      buf[j] := carry % 58;
      carry := carry / 58;
      assert buf[..] == now[j := buf[j]];
      if j <= high' { high' := j - 1; }
      j := j - 1;
    }
    MultipliedDone(was, b, j + 1, buf[..]);
    assert buf[..j + 1] == was[..j + 1];
  }

  /** A product that fits the buffer leaves no carry. */
  lemma FullWidth(was: seq<int>, b: byte)
    requires Digits(was, 58) && 256 * Val(was, 58) + b < Pow(58, |was|)
    ensures MulAdd(was, 256, 58, b).1 == 0 && Digits(MulAdd(was, 256, 58, b).0, 58)
    ensures Val(MulAdd(was, 256, 58, b).0, 58) == 256 * Val(was, 58) + b
  {
    MulAddVal(was, 256, 58, b);
    var r := MulAdd(was, 256, 58, b);
    ValRange(r.0, 58);
    PowPositive(58, |was|);
    if r.1 >= 1 { MulMono(1, r.1, Pow(58, |was|)); }
  }

  /** The number the first `k + 1` bytes denote still fits the buffer. */
  lemma PrefixFits(data: seq<byte>, k: nat, size: nat)
    requires k < |data| && size == BufferSize(|data|)
    ensures Val(data[..k + 1], 256) == 256 * Val(data[..k], 256) + data[k]
    ensures Val(data[..k + 1], 256) < Pow(58, size)
  {
    assert data[..k + 1] == data[..k] + [data[k]];
    ValSnoc(data[..k], data[k], 256);
    ValRange(data[..k + 1], 256);
    PowMonotone(256, k + 1, |data|);
    BufferEnough(|data|);
  }

  /** The conversion part of EncodeBase58: the number in a buffer of base-58 digits, with zeros up
      to position `high`. */
  method Convert(data: seq<byte>) returns (buf: array<int>, high: int)
    ensures fresh(buf) && -1 <= high < buf.Length && Digits(buf[..], 58)
    ensures forall i :: 0 <= i <= high ==> buf[i] == 0
    ensures Val(buf[..], 58) == Val(data, 256)
  {
    var size := |data| * 138 / 100 + 1;
    buf := new int[size](i => 0);
    high := size - 1;
    AllZero(buf[..]);
    for k := 0 to |data|
      invariant -1 <= high < size && Digits(buf[..], 58)
      invariant forall i :: 0 <= i <= high ==> buf[i] == 0
      invariant Val(buf[..], 58) == Val(data[..k], 256)
    {
      PrefixFits(data, k, size);
      FullWidth(buf[..], data[k]);
      high := MultiplyBuffer(buf, high, data[k]);
    }
    assert data[..|data|] == data;
  }

  /** Dropping the buffer's zeros leaves the digits of its value. */
  lemma Significant(d: seq<int>, n: nat)
    requires Digits(d, 58) && n <= |d| && (forall i :: 0 <= i < n ==> d[i] == 0)
    requires n < |d| ==> d[n] != 0
    ensures Val(d, 58) >= 0 && d[n..] == ToBase(Val(d, 58), 58)
  {
    assert d == Repeat(0, n) + d[n..];
    LeadingZeros(n, d[n..], 58);
    CanonicalUnique(d[n..], 58);
  }

  method EncodeBase58(data: seq<byte>) returns (result: string)
    ensures result == Encode(data)
  {
    if |data| == 0 {
      return "";
    }
    var zeros := 0;
    while zeros < |data| && data[zeros] == 0
      invariant 0 <= zeros <= |data|
      invariant forall i :: 0 <= i < zeros ==> data[i] == 0
    {
      zeros := zeros + 1;
    }
    LeadingCountUnique(data, 0, zeros);
    var buf, high := Convert(data);
    while high < buf.Length - 1 && buf[high + 1] == 0
      invariant -1 <= high < buf.Length
      invariant forall i :: 0 <= i <= high ==> buf[i] == 0
    {
      high := high + 1;
    }
    Significant(buf[..], high + 1);
    result := WriteDigits(zeros, buf, high + 1);
  }

  /** The ones and the letters of the digits from a position on. */
  method WriteDigits(zeros: nat, buf: array<int>, from: nat) returns (result: string)
    requires Digits(buf[..], 58) && from <= buf.Length
    ensures result == Repeat('1', zeros) + Letters(buf[from..])
  {
    ghost var digits := buf[from..];
    result := "";
    for i := 0 to zeros
      invariant result == Repeat('1', i)
    {
      result := result + "1";
    }
    Runs();
    for i := from to buf.Length
      invariant result == Repeat('1', zeros) + Letters(digits)[..i - from]
    {
      result := result + [ALPHABET[buf[i]]];
    }
    assert Letters(digits)[..|digits|] == Letters(digits);
  }

  lemma {:induction false} AllZero(d: seq<int>)
    requires forall i :: 0 <= i < |d| ==> d[i] == 0
    ensures Val(d, 58) == 0
  {
    if d != [] { AllZero(d[..|d| - 1]); }
  }

  /** One letter of the decoder: multiplying in place and prepending the carry is exact. */
  lemma PushLetter(d: seq<int>, x: int)
    requires Digits(d, 256) && Canonical(d) && 0 <= x < 58
    ensures var r := MulAdd(d, 58, 256, x);
      r.1 >= 0 && Digits(ToBase(r.1, 256) + r.0, 256) && Canonical(ToBase(r.1, 256) + r.0)
      && Val(ToBase(r.1, 256) + r.0, 256) == 58 * Val(d, 256) + x
  {
    var r := MulAdd(d, 58, 256, x);
    MulAddVal(d, 58, 256, x);
    ToBaseVal(r.1, 256);
    ValConcat(ToBase(r.1, 256), r.0, 256);
    if r.1 == 0 && d != [] { MulAddCanonical(d, 58, 256, x); }
  }

  method DecodeBase58(s: string) returns (r: Result<seq<byte>, DecodeError>)
    ensures r == Decode(s)
  {
    if s == "" {
      return Err(EmptyInput);
    }
    r := Accumulate(s);
    if r.Err? {
      DecodeInvalid(s);
      return;
    }
    var bytes := PrependZeros(s, r.value);
    DecodeValid(s, r.value, bytes);
    return Ok(bytes);
  }

  lemma DecodeInvalid(s: string)
    requires s != "" && !IsBase58(s)
    ensures Decode(s) == Err(InvalidCharacter(FirstInvalid(s)))
  {}

  lemma DecodeValid(s: string, body: seq<int>, bytes: seq<byte>)
    requires s != "" && IsBase58(s) && Val(DigitsOf(s), 58) >= 0 && body == ToBase(Val(DigitsOf(s), 58), 256)
    requires bytes == Repeat(0, LeadingCount(s, '1')) + body
    ensures Decode(s) == Ok(bytes)
  {}

  method PrependZeros(s: string, body: seq<byte>) returns (result: seq<byte>)
    ensures result == Repeat(0, LeadingCount(s, '1')) + body
  {
    result := body;
    var ones := 0;
    while ones < |s| && s[ones] == '1'
      invariant 0 <= ones <= |s|
      invariant forall i :: 0 <= i < ones ==> s[i] == '1'
      invariant result == Repeat(0, ones) + body
    {
      result := [0] + result;
      ones := ones + 1;
    }
    LeadingCountUnique(s, '1', ones);
  }

  /** The conversion part of DecodeBase58: the bytes of the number the letters denote. */
  method Accumulate(s: string) returns (r: Result<seq<byte>, DecodeError>)
    ensures !IsBase58(s) ==> r == Err(InvalidCharacter(FirstInvalid(s)))
    ensures IsBase58(s) ==> r.Ok? && Val(DigitsOf(s), 58) >= 0 && r.value == ToBase(Val(DigitsOf(s), 58), 256)
  {
    var result: seq<int> := [];
    for k := 0 to |s|
      invariant IsBase58(s[..k]) && Digits(result, 256) && Canonical(result)
      invariant Val(result, 256) == Val(DigitsOf(s[..k]), 58)
    {
      var val := DigitOf(s[k]);
      if val == None {
        FirstInvalidAt(s, k);
        return Err(InvalidCharacter(s[k]));
      }
      LetterOfDigit(s[k]);
      assert DigitsOf(s[..k + 1]) == DigitsOf(s[..k]) + [val.value];
      ValSnoc(DigitsOf(s[..k]), val.value, 58);
      result := TimesFiftyEight(result, val.value);
    }
    assert s[..|s|] == s;
    CanonicalUnique(result, 256);
    return Ok(result);
  }

  /** The body of DecodeBase58's main loop: multiply by 58, add, and prepend the carry's bytes. */
  method TimesFiftyEight(d: seq<int>, x: int) returns (result: seq<int>)
    requires Digits(d, 256) && Canonical(d) && 0 <= x < 58
    ensures Digits(result, 256) && Canonical(result) && Val(result, 256) == 58 * Val(d, 256) + x
  {
    PushLetter(d, x);
    var carry;
    result, carry := MultiplyInPlace(d, x);
    result := PrependBytes(result, carry);
  }

  method MultiplyInPlace(d: seq<int>, x: int) returns (result: seq<int>, carry: int)
    requires x >= 0
    ensures MulAdd(d, 58, 256, x) == (result, carry)
  {
    result := d;
    carry := x;
    ProgressStart(d, 58, 256, x);
    assert result[|d|..] == [];
    for i := |d| downto 0
      invariant |result| == |d|
      invariant result[..i] == d[..i]
      invariant Progress(d, 58, 256, x, i, carry, result[i..])
    {
      ghost var tail := result[i + 1..];
      ProgressStep(d, 58, 256, x, i + 1, carry, tail);
      carry := carry + 58 * result[i];
      result := result[i := carry % 256];
      carry := carry / 256;
      assert result[i..] == [result[i]] + tail;
    }
    ProgressCarry(d, 58, 256, x, carry, result[0..]);
  }

  method PrependBytes(low: seq<int>, out: int) returns (result: seq<int>)
    requires out >= 0
    ensures result == ToBase(out, 256) + low
  {
    var carry := out;
    result := low;
    while carry > 0
      invariant carry >= 0
      invariant ToBase(carry, 256) + result == ToBase(out, 256) + low
    {
      result := [carry % 256] + result;
      carry := carry / 256;
    }
  }

  lemma {:induction false} FirstInvalidAt(s: string, k: nat)
    requires k < |s| && IsBase58(s[..k]) && DigitOf(s[k]).None?
    ensures !IsBase58(s) && FirstInvalid(s) == s[k]
    decreases k
  {
    if k > 0 {
      assert DigitOf(s[..k][0]).Some?;
      assert s[1..][..k - 1] == s[..k][1..];
      FirstInvalidAt(s[1..], k - 1);
    }
  }
}
