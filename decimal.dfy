/** Decimal text of naturals, as `operator<<` writes an `unsigned` and
    `operator>>` reads one back from a whitespace-separated token. */
module Decimal {
  import opened Wrappers

  predicate IsDigit(c: char) { '0' <= c <= '9' }

  function DigitChar(d: nat): char
    requires d < 10
  {
    ('0' as int + d) as char
  }

  function DigitOf(c: char): nat
    requires IsDigit(c)
  {
    c as int - '0' as int
  }

  function NatToString(n: nat): (s: string)
    ensures |s| > 0 && forall i | 0 <= i < |s| :: IsDigit(s[i])
  {
    if n < 10 then [DigitChar(n)] else NatToString(n / 10) + [DigitChar(n % 10)]
  }

  function DigitsValue(s: string): nat
    requires forall i | 0 <= i < |s| :: IsDigit(s[i])
  {
    if s == [] then 0 else 10 * DigitsValue(s[..|s| - 1]) + DigitOf(s[|s| - 1])
  }

  /** A token of decimal digits and its value; anything else is rejected. */
  function ParseNat(s: string): (r: Option<nat>)
    ensures r.Some? <==> |s| > 0 && forall i | 0 <= i < |s| :: IsDigit(s[i])
  {
    if |s| > 0 && forall i | 0 <= i < |s| :: IsDigit(s[i]) then Some(DigitsValue(s)) else None
  }

  lemma {:induction false} ParseNatToString(n: nat)
    ensures ParseNat(NatToString(n)) == Some(n)
  {
    var s := NatToString(n);
    if n >= 10 {
      ParseNatToString(n / 10);
      assert s[..|s| - 1] == NatToString(n / 10);
      assert DigitOf(s[|s| - 1]) == n % 10;
    } else {
      assert s[..|s| - 1] == [];
      assert DigitsValue([]) == 0;
      assert DigitOf(s[0]) == n;
      assert DigitsValue(s) == 10 * DigitsValue(s[..|s| - 1]) + DigitOf(s[|s| - 1]);
    }
  }
}
