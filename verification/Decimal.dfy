/** Decimal notation of naturals, as `%d` prints them. */
module Decimal {

  function DigitChar(d: nat): char
    requires d < 10
  {
    (48 + d) as char
  }

  function ToDecimal(n: nat): (s: string)
    ensures s != "" && forall k :: 0 <= k < |s| ==> '0' <= s[k] <= '9'
  {
    if n < 10 then [DigitChar(n)] else ToDecimal(n / 10) + [DigitChar(n % 10)]
  }

  /** The number a string of decimal digits denotes. */
  function Denotes(s: string): int {
    if s == [] then 0 else 10 * Denotes(s[..|s| - 1]) + (s[|s| - 1] as int - '0' as int)
  }

  /** What is printed denotes the number, without leading zeros. */
  lemma {:induction false} DecimalDenotes(n: nat)
    ensures Denotes(ToDecimal(n)) == n && (ToDecimal(n)[0] == '0' <==> n == 0)
  {
    var s := ToDecimal(n);
    if n < 10 {
      assert s[..0] == [] && Denotes([]) == 0;
    } else {
      DecimalDenotes(n / 10);
      assert s[..|s| - 1] == ToDecimal(n / 10);
    }
  }

  /** Different numbers print differently. */
  lemma {:induction false} DecimalInjective(m: nat, n: nat)
    requires ToDecimal(m) == ToDecimal(n)
    ensures m == n
    decreases m
  {
    var s := ToDecimal(m);
    assert s[|s| - 1] == DigitChar(m % 10) == DigitChar(n % 10);
    LongWhenLarge(m);
    LongWhenLarge(n);
    if m >= 10 && n >= 10 {
      assert ToDecimal(m / 10) == s[..|s| - 1] == ToDecimal(n / 10);
      DecimalInjective(m / 10, n / 10);
    }
  }

  lemma LongWhenLarge(n: nat)
    ensures |ToDecimal(n)| >= 2 <==> n >= 10
  {
  }
}
