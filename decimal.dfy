/** Decimal rendering of naturals, as Python's `str()` and f-strings write them. */
module Decimal {

  predicate IsDigit(c: char) {
    '0' <= c <= '9'
  }

  predicate AllDigits(r: string) {
    forall t :: 0 <= t < |r| ==> IsDigit(r[t])
  }

  function DigitChar(d: nat): (c: char)
    requires d < 10
    ensures IsDigit(c)
  {
    ('0' as int + d) as char
  }

  function DigitValue(c: char): (d: nat)
    requires IsDigit(c)
    ensures d < 10 && DigitChar(d) == c
  {
    c as int - '0' as int
  }

  /** The shortest decimal numeral of `x`, without sign or leading zeros. */
  function NatToString(x: nat): (r: string)
    ensures |r| >= 1 && AllDigits(r)
    ensures |r| > 1 ==> r[0] != '0'
    decreases x
  {
    if x < 10 then [DigitChar(x)] else NatToString(x / 10) + [DigitChar(x % 10)]
  }

  /** Reads a decimal numeral back. */
  function ParseNat(r: string): nat
    requires AllDigits(r)
  {
    if r == [] then 0 else 10 * ParseNat(r[..|r| - 1]) + DigitValue(r[|r| - 1])
  }

  lemma {:induction false} ParseNatToString(x: nat)
    ensures ParseNat(NatToString(x)) == x
    decreases x
  {
    var r := NatToString(x);
    if x >= 10 {
      ParseNatToString(x / 10);
      assert r[..|r| - 1] == NatToString(x / 10);
    }
  }

  /** Different numbers never print alike, so ids built from them can be told apart. */
  lemma NatToStringInjective(x: nat, y: nat)
    ensures NatToString(x) == NatToString(y) ==> x == y
  {
    ParseNatToString(x);
    ParseNatToString(y);
  }
}
