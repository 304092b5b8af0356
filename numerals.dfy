/** Digit strings: how JavaScript renders a natural number in decimal
    (`Number.prototype.toString` for the integers the timer displays) and how
    a run of digits is read back as a number (the digit loop of `parseInt`). */
module Numerals {

  predicate IsDecimalDigit(c: char) {
    '0' <= c <= '9'
  }

  predicate AllDecimal(s: string) {
    forall i :: 0 <= i < |s| ==> IsDecimalDigit(s[i])
  }

  /** The value `parseInt` gives an alphanumeric character as a digit
      (0-9, then a-z / A-Z for 10-35); 36 for any other character, which is
      a digit in no radix. */
  function DigitValue(c: char): nat {
    if '0' <= c <= '9' then c as int - '0' as int
    else if 'a' <= c <= 'z' then c as int - 'a' as int + 10
    else if 'A' <= c <= 'Z' then c as int - 'A' as int + 10
    else 36
  }

  predicate IsRadixDigit(c: char, radix: nat) {
    DigitValue(c) < radix
  }

  function DigitChar(d: nat): (c: char)
    requires d < 10
    ensures IsDecimalDigit(c) && DigitValue(c) == d
  {
    ('0' as int + d) as char
  }

  /** The number a digit string denotes, most significant digit first. */
  function ValueOf(ds: string, radix: nat): nat {
    if ds == [] then 0
    else ValueOf(ds[..|ds| - 1], radix) * radix + DigitValue(ds[|ds| - 1])
  }

  /** The shortest decimal rendering of `n`: digits only, never empty, and
      without a leading zero unless `n` is zero. */
  function Decimal(n: nat): (r: string)
    ensures |r| >= 1 && AllDecimal(r)
    ensures r[0] == '0' ==> n == 0
  {
    if n < 10 then [DigitChar(n)] else Decimal(n / 10) + [DigitChar(n % 10)]
  }

  /** Reading the decimal rendering back gives the number. */
  lemma {:induction false} DecimalValue(n: nat)
    ensures ValueOf(Decimal(n), 10) == n
  {
    if n >= 10 {
      var r := Decimal(n);
      assert r[..|r| - 1] == Decimal(n / 10);
      DecimalValue(n / 10);
    }
  }

  /** The rendering has one digit below 10, two below 100, and three or
      more from 100 on: nothing is ever cut off. */
  lemma {:induction false} DecimalLength(n: nat)
    ensures |Decimal(n)| == 1 <==> n < 10
    ensures |Decimal(n)| == 2 <==> 10 <= n < 100
    ensures |Decimal(n)| >= 3 <==> n >= 100
  {
    if n >= 10 {
      DecimalLength(n / 10);
    }
  }

  /** Distinct numbers have distinct renderings. */
  lemma DecimalInjective(a: nat, b: nat)
    requires Decimal(a) == Decimal(b)
    ensures a == b
  {
    DecimalValue(a);
    DecimalValue(b);
  }

  /** A leading zero does not change the value of a digit string. */
  lemma {:induction false} LeadingZero(ds: string, radix: nat)
    ensures ValueOf(['0'] + ds, radix) == ValueOf(ds, radix)
  {
    if ds != [] {
      var z := ['0'] + ds;
      assert z[..|z| - 1] == ['0'] + ds[..|ds| - 1];
      assert z[|z| - 1] == ds[|ds| - 1];
      LeadingZero(ds[..|ds| - 1], radix);
    }
  }

  /** `k` zero characters. */
  function Zeros(k: nat): (z: string)
    ensures |z| == k && forall i :: 0 <= i < k ==> z[i] == '0'
  {
    if k == 0 then [] else ['0'] + Zeros(k - 1)
  }

  /** Any number of leading zeros does not change the value. */
  lemma {:induction false} LeadingZeros(k: nat, ds: string, radix: nat)
    ensures ValueOf(Zeros(k) + ds, radix) == ValueOf(ds, radix)
  {
    if k > 0 {
      assert Zeros(k) + ds == ['0'] + (Zeros(k - 1) + ds);
      LeadingZero(Zeros(k - 1) + ds, radix);
      LeadingZeros(k - 1, ds, radix);
    } else {
      assert Zeros(k) + ds == ds;
    }
  }
}
