/** Decimal rendering of the inactivity time used in the inactivity warning:
    `Long.toString` of a non-negative value and `String.substring(0, length - 3)`. */
module DecimalText {

  /** 10 to the power k. */
  function Pow10(k: nat): (r: nat)
    ensures r >= 1
  {
    if k == 0 then 1 else 10 * Pow10(k - 1)
  }

  predicate IsDigit(c: char) {
    '0' <= c <= '9'
  }

  /** The character of a single decimal digit. */
  function Digit(d: nat): (c: char)
    requires d < 10
    ensures IsDigit(c)
  {
    ('0' as int + d) as char
  }

  function DigitValue(c: char): nat {
    if IsDigit(c) then c as int - '0' as int else 0
  }

  /** The decimal digits of n without leading zeros, as `Long.toString` prints a
      non-negative long. */
  function DecimalString(n: nat): (r: string)
    ensures 1 <= |r| && forall i :: 0 <= i < |r| ==> IsDigit(r[i])
    ensures r[0] == '0' <==> n == 0
    ensures n < Pow10(|r|)
    ensures n >= 10 ==> Pow10(|r| - 1) <= n
    ensures n < 10 ==> |r| == 1
  {
    if n < 10 then [Digit(n)] else DecimalString(n / 10) + [Digit(n % 10)]
  }

  /** Reads a string of decimal digits back as a number (the inverse of DecimalString). */
  function ParseDecimal(s: string): nat {
    if s == [] then 0 else 10 * ParseDecimal(s[..|s| - 1]) + DigitValue(s[|s| - 1])
  }

  lemma {:induction false} ParseDecimalString(n: nat)
    ensures ParseDecimal(DecimalString(n)) == n
  {
    var s := DecimalString(n);
    if n >= 10 {
      assert s[..|s| - 1] == DecimalString(n / 10);
      ParseDecimalString(n / 10);
    }
  }

  /** `s.substring(0, s.length() - 3)`: defined when s has at least three characters. */
  function DropLastThree(s: string): (r: string)
    requires |s| >= 3
    ensures |r| == |s| - 3
    ensures forall i :: 0 <= i < |r| ==> r[i] == s[i]
  {
    s[..|s| - 3]
  }

  lemma {:induction false} DropLastDigit(n: nat)
    requires n >= 10
    ensures |DecimalString(n)| >= 2
    ensures DecimalString(n)[..|DecimalString(n)| - 1] == DecimalString(n / 10)
  {
  }

  /** Dropping the last three digits of a number of at least four digits divides it
      by 1000, rounding down. */
  lemma {:induction false} DropLastThreeDigits(n: nat)
    requires n >= 1000
    ensures |DecimalString(n)| >= 3
    ensures DropLastThree(DecimalString(n)) == DecimalString(n / 1000)
  {
    DropLastDigit(n);
    DropLastDigit(n / 10);
    DropLastDigit(n / 100);
    assert n / 10 / 10 == n / 100;
    assert n / 100 / 10 == n / 1000;
    var s := DecimalString(n);
    assert s[..|s| - 3] == s[..|s| - 1][..|s| - 2][..|s| - 3];
  }
}
