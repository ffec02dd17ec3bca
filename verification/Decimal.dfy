/** Natural numbers as the decimal digits a formatter prints. */
module Decimal {

  function Digits(n: nat): (s: string)
    ensures s != [] && forall i :: 0 <= i < |s| ==> '0' <= s[i] <= '9'
  {
    if n < 10 then ['0' + (n as char)] else Digits(n / 10) + ['0' + ((n % 10) as char)]
  }

  lemma {:induction false} DigitsInjective(m: nat, n: nat)
    requires Digits(m) == Digits(n)
    ensures m == n
  {
    if m < 10 && n < 10 {
      assert Digits(m)[0] == Digits(n)[0];
    } else if m >= 10 && n >= 10 {
      var s, t := Digits(m), Digits(n);
      assert s[..|s| - 1] == Digits(m / 10) && t[..|t| - 1] == Digits(n / 10);
      DigitsInjective(m / 10, n / 10);
      assert s[|s| - 1] == t[|t| - 1];
      assert m % 10 == n % 10;
    }
  }

  // The number that digits spell, the most significant one first.
  function Spelled(s: string): int {
    if s == [] then 0 else 10 * Spelled(s[..|s| - 1]) + (s[|s| - 1] as int - '0' as int)
  }

  /** The digits spell the number, without leading zeros. */
  lemma {:induction false} DigitsSpellNumber(n: nat)
    ensures Spelled(Digits(n)) == n
    ensures |Digits(n)| > 1 ==> Digits(n)[0] != '0'
  {
    var s := Digits(n);
    if n < 10 {
      assert s[..0] == [];
    } else {
      DigitsSpellNumber(n / 10);
      assert s[..|s| - 1] == Digits(n / 10);
    }
  }

  function Pow10(k: nat): nat {
    if k == 0 then 1 else 10 * Pow10(k - 1)
  }

  /** A number has at most k digits exactly when it is below ten to the k. */
  lemma {:induction false} DigitCount(n: nat, k: nat)
    requires k >= 1
    ensures |Digits(n)| <= k <==> n < Pow10(k)
  {
    if k == 1 {
      assert Pow10(1) == 10 * Pow10(0);
    } else if n < 10 {
      DigitCount(n, k - 1);
    } else {
      DigitCount(n / 10, k - 1);
    }
  }
}
