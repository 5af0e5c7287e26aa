/** Decimal numerals, as JavaScript writes an integer status code into a template string. */
module Decimal {

  predicate IsDigit(c: char) {
    '0' <= c <= '9'
  }

  predicate AllDigits(s: string) {
    forall k :: 0 <= k < |s| ==> IsDigit(s[k])
  }

  function DigitChar(d: nat): (c: char)
    requires d < 10
    ensures IsDigit(c)
  {
    ('0' as int + d) as char
  }

  /** The shortest decimal numeral of `n`: digits only, no leading zero. */
  function FromNat(n: nat): (s: string)
    ensures |s| >= 1 && AllDigits(s)
    ensures |s| > 1 ==> s[0] != '0'
  {
    if n < 10 then [DigitChar(n)] else FromNat(n / 10) + [DigitChar(n % 10)]
  }

  /** The number a string of digits denotes. */
  function Value(s: string): nat
    requires AllDigits(s)
  {
    if |s| == 0 then 0 else 10 * Value(s[..|s| - 1]) + (s[|s| - 1] as int - '0' as int)
  }

  /** Round trip: reading back the numeral gives the number, so a message that ends in
      `FromNat(n)` names `n` and no other number. */
  lemma {:induction false} ValueFromNat(n: nat)
    ensures Value(FromNat(n)) == n
  {
    if n >= 10 {
      ValueFromNat(n / 10);
      var s := FromNat(n);
      assert s[..|s| - 1] == FromNat(n / 10);
    }
  }
}
