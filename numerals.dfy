/**
 * Decimal numerals as the history names its date buckets: `Integer.toString`
 * for writing a bucket name, and `StringUtils.isNumeric` with
 * `Integer.parseInt` for reading one back.
 */
module Numerals {

  /** The largest Java `int`; `Integer.parseInt` rejects anything above it. */
  const MAX_INT: nat := 0x7fff_ffff

  predicate IsDigit(ch: char) {
    '0' <= ch <= '9'
  }

  /** `StringUtils.isNumeric`: not empty, and every character a decimal digit. */
  predicate IsNumeric(s: string) {
    s != "" && forall i :: 0 <= i < |s| ==> IsDigit(s[i])
  }

  function DigitValue(ch: char): (r: nat)
    requires IsDigit(ch)
    ensures r < 10
  {
    ch as int - '0' as int
  }

  function DigitChar(d: nat): (ch: char)
    requires d < 10
    ensures IsDigit(ch) && DigitValue(ch) == d
  {
    ('0' as int + d) as char
  }

  /** The number a string of decimal digits denotes: `Integer.parseInt` for values that fit an `int`. */
  function DecimalValue(s: string): nat
    requires forall i :: 0 <= i < |s| ==> IsDigit(s[i])
    decreases |s|
  {
    if s == [] then 0
    else 10 * DecimalValue(s[..|s| - 1]) + DigitValue(s[|s| - 1])
  }

  /** `Integer.toString` of a non-negative number: its digits, most significant first, without leading zeros. */
  function Decimal(n: nat): (r: string)
    ensures IsNumeric(r)
    ensures '/' !in r
    decreases n
  {
    if n < 10 then [DigitChar(n)]
    else Decimal(n / 10) + [DigitChar(n % 10)]
  }

  /** Reading back a written number gives that number. */
  lemma {:induction false} DecimalRoundTrip(n: nat)
    ensures DecimalValue(Decimal(n)) == n
    decreases n
  {
    if n >= 10 {
      var s := Decimal(n);
      assert s[..|s| - 1] == Decimal(n / 10);
      DecimalRoundTrip(n / 10);
    }
  }

  /** Different numbers are written differently. */
  lemma DecimalInjective(m: nat, n: nat)
    ensures Decimal(m) == Decimal(n) ==> m == n
  {
    DecimalRoundTrip(m);
    DecimalRoundTrip(n);
  }
}
