/** Decimal numerals, as `%d` prints them. */
module Decimal {
  function DigitChar(d: int): (c: char)
    requires 0 <= d < 10
    ensures '0' <= c <= '9'
  {
    ('0' as int + d) as char
  }

  function Print(n: nat): (s: string)
    ensures s != "" && forall i :: 0 <= i < |s| ==> '0' <= s[i] <= '9'
  {
    if n < 10 then [DigitChar(n)] else Print(n / 10) + [DigitChar(n % 10)]
  }

  /** Reads a numeral; anything but a digit counts as 0. */
  function Parse(s: string): nat {
    if s == "" then 0
    else
      var c := s[|s| - 1];
      10 * Parse(s[..|s| - 1]) + (if '0' <= c <= '9' then c as int - '0' as int else 0)
  }

  lemma {:induction false} ParsePrint(n: nat)
    ensures Parse(Print(n)) == n
  {
    if n >= 10 {
      ParsePrint(n / 10);
      var s := Print(n);
      assert s[..|s| - 1] == Print(n / 10);
    } else {
      assert Print(n)[..0] == "";
    }
  }

  lemma PrintSnoc(n: nat, d: nat)
    requires d < 10
    ensures Print(n * 10 + d) == (if n == 0 then "" else Print(n)) + [DigitChar(d)]
  {
    var m := n * 10 + d;
    assert m / 10 == n && m % 10 == d;
  }

  /** All ten digits, most significant first. */
  lemma PrintExample()
    ensures Print(9876543210) == "9876543210"
  {
    PrintSnoc(0, 9);
    PrintSnoc(9, 8);
    PrintSnoc(98, 7);
    PrintSnoc(987, 6);
    PrintSnoc(9876, 5);
    PrintSnoc(98765, 4);
    PrintSnoc(987654, 3);
    PrintSnoc(9876543, 2);
    PrintSnoc(98765432, 1);
    PrintSnoc(987654321, 0);
  }
}
