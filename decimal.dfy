/** Counter values travel as text: the walks keep `str(value)`, and the
    traffic code reads them back with `int(...)`. This module models both for
    plain decimal digits. */
module Decimal {

  predicate IsDigit(c: char) {
    '0' <= c <= '9'
  }

  /** Text that `int(...)` reads as a non-negative number: one or more digits. */
  predicate IsDecimal(s: string) {
    |s| > 0 && forall i :: 0 <= i < |s| ==> IsDigit(s[i])
  }

  function DigitValue(c: char): (d: nat)
    requires IsDigit(c)
    ensures d < 10
  {
    (c as int - '0' as int) as nat
  }

  function DigitChar(d: nat): (c: char)
    requires d < 10
    ensures IsDigit(c) && DigitValue(c) == d
  {
    ('0' as int + d) as char
  }

  function Pow10(k: nat): (p: nat)
    ensures p >= 1
  {
    if k == 0 then 1 else 10 * Pow10(k - 1)
  }

  /** `int(s)` for a string of decimal digits, read most significant first. */
  function Value(s: string): nat
    requires IsDecimal(s)
    decreases |s|
  {
    if |s| == 1 then DigitValue(s[0])
    else 10 * Value(s[..|s| - 1]) + DigitValue(s[|s| - 1])
  }

  /** `k` digits read as a number below `10^k`, and as at least `10^(k-1)`
      when the first digit is not `0`. */
  lemma {:induction false} ValueBounds(s: string)
    requires IsDecimal(s)
    ensures Value(s) < Pow10(|s|)
    ensures s[0] != '0' ==> Pow10(|s| - 1) <= Value(s)
    decreases |s|
  {
    if |s| > 1 {
      var init := s[..|s| - 1];
      assert IsDecimal(init) by {
        forall i | 0 <= i < |init| ensures IsDigit(init[i]) { assert init[i] == s[i]; }
      }
      assert init[0] == s[0];
      ValueBounds(init);
      assert IsDigit(s[|s| - 1]);
    }
  }

  /** `str(n)` of a non-negative counter: its decimal digits without leading
      zeros. */
  function Format(n: nat): (s: string)
    ensures IsDecimal(s)
    ensures |s| > 1 ==> s[0] != '0'
  {
    if n < 10 then [DigitChar(n)]
    else Format(n / 10) + [DigitChar(n % 10)]
  }

  /** Reading back the text of a counter gives the counter. */
  lemma {:induction false} ValueFormat(n: nat)
    ensures Value(Format(n)) == n
  {
    if n >= 10 {
      var s := Format(n);
      ValueFormat(n / 10);
      assert s[..|s| - 1] == Format(n / 10);
      assert s[|s| - 1] == DigitChar(n % 10);
    }
  }
}
