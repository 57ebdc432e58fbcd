/** Decimal numerals as byte strings. */
module Decimal {
  import opened Bytes

  predicate IsDigit(c: byte) {
    0x30 <= c <= 0x39
  }

  /** The numeral of n, highest digit first. */
  function Digits(n: nat): (s: seq<byte>)
    ensures s != []
    ensures forall i :: 0 <= i < |s| ==> IsDigit(s[i])
  {
    (if n < 10 then [] else Digits(n / 10)) + [0x30 + n % 10]
  }

  /** Digits taken from the front of s until something else comes. */
  function ParseDigits(acc: nat, s: seq<byte>): nat
    decreases |s|
  {
    if s == [] || !IsDigit(s[0]) then acc else ParseDigits(acc * 10 + (s[0] - 0x30), s[1..])
  }

  lemma {:induction false} ParseConcat(acc: nat, s: seq<byte>, t: seq<byte>)
    requires forall i :: 0 <= i < |s| ==> IsDigit(s[i])
    ensures ParseDigits(acc, s + t) == ParseDigits(ParseDigits(acc, s), t)
    decreases |s|
  {
    if s == [] {
      assert s + t == t;
    } else {
      assert (s + t)[1..] == s[1..] + t;
      ParseConcat(acc * 10 + (s[0] - 0x30), s[1..], t);
    }
  }

  /** Parsing undoes printing, whatever non-digit follows. */
  lemma ParsePrinted(n: nat, t: seq<byte>)
    requires t == [] || !IsDigit(t[0])
    ensures ParseDigits(0, Digits(n) + t) == n
  {
    ParseNumeral(n);
    ParseConcat(0, Digits(n), t);
  }

  lemma {:induction false} ParseNumeral(n: nat)
    ensures ParseDigits(0, Digits(n)) == n
  {
    var last: byte := 0x30 + n % 10;
    var front := if n < 10 then [] else Digits(n / 10);
    if n >= 10 {
      ParseNumeral(n / 10);
    }
    ParseConcat(0, front, [last]);
    assert ParseDigits(n / 10, [last]) == n / 10 * 10 + n % 10 by {
      assert [last][1..] == [];
    }
  }

  /** No numeral but that of zero starts with a zero. */
  lemma {:induction false} NoLeadingZero(n: nat)
    ensures Digits(n)[0] == 0x30 <==> n == 0
  {
    if n >= 10 {
      NoLeadingZero(n / 10);
      assert Digits(n)[0] == Digits(n / 10)[0];
    }
  }

  /** How many digits a bounded number has. */
  lemma {:induction false} DigitCount(n: nat, k: nat)
    requires k > 0 && n < Pow10(k)
    ensures |Digits(n)| <= k
    decreases k
  {
    if n >= 10 {
      DigitCount(n / 10, k - 1);
    }
  }

  function Pow10(k: nat): nat {
    if k == 0 then 1 else 10 * Pow10(k - 1)
  }
}
