/** `parseInt(input)` with no radix argument, as section 19.2.5 of ECMA-262
    (the ECMAScript Language Specification) defines it, and the settings
    form's `parseInt(input) || 0` (src/App.jsx:126). */
module JsParseInt {
  import opened Numerals

  /** The characters the trimming step of parseInt removes: ECMAScript's
      WhiteSpace (tab, vertical tab, form feed, ZWNBSP and the Unicode
      space separators) and LineTerminator (LF, CR, LS, PS). */
  predicate IsStrWhiteSpace(c: char) {
    var u := c as int;
    || u == 0x09 || u == 0x0A || u == 0x0B || u == 0x0C || u == 0x0D
    || u == 0x20 || u == 0xA0 || u == 0x1680 || 0x2000 <= u <= 0x200A
    || u == 0x2028 || u == 0x2029 || u == 0x202F || u == 0x205F
    || u == 0x3000 || u == 0xFEFF
  }

  /** The input with its leading white space removed. */
  function TrimStart(s: string): (r: string)
    ensures |r| <= |s|
    ensures r == [] || !IsStrWhiteSpace(r[0])
  {
    if s != [] && IsStrWhiteSpace(s[0]) then TrimStart(s[1..]) else s
  }

  /** Trimming removes white space and nothing else: what it drops is all
      white space, and what is left is the rest of the input. */
  lemma {:induction false} TrimStartDropsWhiteSpace(s: string)
    ensures var k := |s| - |TrimStart(s)|;
      && TrimStart(s) == s[k..]
      && forall i :: 0 <= i < k ==> IsStrWhiteSpace(s[i])
  {
    if s != [] && IsStrWhiteSpace(s[0]) {
      TrimStartDropsWhiteSpace(s[1..]);
      var k := |s| - |TrimStart(s)|;
      assert s[1..][k - 1..] == s[k..];
      forall i | 0 <= i < k ensures IsStrWhiteSpace(s[i]) {
        if i > 0 { assert s[i] == s[1..][i - 1]; }
      }
    }
  }

  /** The longest prefix of `s` made of digits of the given radix. */
  function LeadingDigits(s: string, radix: nat): (ds: string)
    ensures ds <= s
    ensures forall i :: 0 <= i < |ds| ==> IsRadixDigit(ds[i], radix)
    ensures |ds| == |s| || !IsRadixDigit(s[|ds|], radix)
  {
    if s == [] || !IsRadixDigit(s[0], radix) then []
    else [s[0]] + LeadingDigits(s[1..], radix)
  }

  /** A JavaScript number as parseInt can return it: NaN or an integer. */
  datatype JsNumber = NaN | Int(value: int)

  /** The input without a leading `-` or `+`. */
  function StripSign(s: string): string {
    if s != [] && (s[0] == '-' || s[0] == '+') then s[1..] else s
  }

  predicate HasHexPrefix(u: string) {
    |u| >= 2 && u[0] == '0' && (u[1] == 'x' || u[1] == 'X')
  }

  /** The unsigned part: radix 16 after a `0x`/`0X` prefix, else radix 10;
      the longest run of digits, or NaN when that run is empty. */
  function ParseUnsigned(u: string): JsNumber {
    var radix := if HasHexPrefix(u) then 16 else 10;
    var digits := LeadingDigits(if HasHexPrefix(u) then u[2..] else u, radix);
    if digits == [] then NaN else Int(ValueOf(digits, radix))
  }

  function Negate(x: JsNumber): JsNumber {
    match x
    case NaN => NaN
    case Int(v) => Int(-v)
  }

  /** parseInt with radix undefined: skip leading white space, take an
      optional sign, then read the unsigned part; a minus sign negates it. */
  function ParseInt(input: string): (r: JsNumber)
    ensures r.Int? ==> TrimStart(input) != []
    ensures r.Int? && r.value < 0 ==> TrimStart(input)[0] == '-'
  {
    var s := TrimStart(input);
    var magnitude := ParseUnsigned(StripSign(s));
    if s != [] && s[0] == '-' then Negate(magnitude) else magnitude
  }

  /** `parseInt(input) || 0`: NaN falls back to 0 (so does -0, which is 0
      here already); every other result is kept, negative ones included. */
  function MinutesSetting(input: string): (minutes: int)
    ensures ParseInt(input) == Int(minutes) || (ParseInt(input) == NaN && minutes == 0)
  {
    match ParseInt(input)
    case NaN => 0
    case Int(v) => v
  }

  /** Digits followed by a non-digit: the digits are the whole run. */
  lemma {:induction false} LeadingDigitsOfNumeral(ds: string, rest: string)
    requires AllDecimal(ds)
    requires rest == [] || !IsDecimalDigit(rest[0])
    ensures LeadingDigits(ds + rest, 10) == ds
  {
    if ds != [] {
      assert (ds + rest)[1..] == ds[1..] + rest;
      LeadingDigitsOfNumeral(ds[1..], rest);
    } else {
      assert ds + rest == rest;
    }
  }

  /** White space before the number is skipped. */
  lemma {:induction false} TrimWhiteSpace(w: string, s: string)
    requires forall i :: 0 <= i < |w| ==> IsStrWhiteSpace(w[i])
    ensures TrimStart(w + s) == TrimStart(s)
  {
    if w != [] {
      assert (w + s)[1..] == w[1..] + s;
      TrimWhiteSpace(w[1..], s);
    } else {
      assert w + s == s;
    }
  }

  lemma ParseIntSkipsWhiteSpace(w: string, s: string)
    requires forall i :: 0 <= i < |w| ==> IsStrWhiteSpace(w[i])
    ensures ParseInt(w + s) == ParseInt(s)
  {
    TrimWhiteSpace(w, s);
  }

  /** An explicit sign in front of the unsigned part. */
  lemma ParseIntSigned(u: string)
    ensures ParseInt("-" + u) == Negate(ParseUnsigned(u))
    ensures ParseInt("+" + u) == ParseUnsigned(u)
  {
    assert ("-" + u)[0] == '-' && ("-" + u)[1..] == u;
    assert ("+" + u)[0] == '+' && ("+" + u)[1..] == u;
  }

  /** Without white space or a sign in front, the unsigned part is all. */
  lemma ParseIntUnsigned(u: string)
    requires u == [] || IsDecimalDigit(u[0])
    ensures ParseInt(u) == ParseUnsigned(u)
  {
  }

  /** A run of decimal digits, ended by the end of the input or by a
      non-digit and not read as a `0x` prefix, parses to its value, with a
      sign in front as without. */
  lemma ParseIntDigits(ds: string, rest: string)
    requires ds != [] && AllDecimal(ds)
    requires rest == [] || !IsDecimalDigit(rest[0])
    requires !HasHexPrefix(ds + rest)
    ensures ParseInt(ds + rest) == Int(ValueOf(ds, 10))
    ensures ParseInt("-" + (ds + rest)) == Int(-(ValueOf(ds, 10) as int))
    ensures ParseInt("+" + (ds + rest)) == Int(ValueOf(ds, 10))
  {
    LeadingDigitsOfNumeral(ds, rest);
    assert ParseUnsigned(ds + rest) == Int(ValueOf(ds, 10));
    assert (ds + rest)[0] == ds[0];
    ParseIntUnsigned(ds + rest);
    ParseIntSigned(ds + rest);
  }

  /** Digits read as a `0x` prefix only when they are a lone "0" before an
      'x' or 'X'. */
  lemma DigitsNotHex(ds: string, rest: string)
    requires ds != [] && AllDecimal(ds)
    requires |ds| >= 2 || ds[0] != '0' || rest == [] || (rest[0] != 'x' && rest[0] != 'X')
    ensures !HasHexPrefix(ds + rest)
  {
    var u := ds + rest;
    assert u[0] == ds[0];
    if |ds| >= 2 {
      assert u[1] == ds[1];
    } else if rest != [] {
      assert u[1] == rest[0];
    }
  }

  /** The decimal numeral of `n` after `k` leading zeros is all digits, has
      the value `n`, and starts a `0x` prefix only as a lone "0" before an
      'x' or 'X'. */
  lemma PaddedNumeral(k: nat, n: nat, rest: string)
    requires rest == [] || (!IsDecimalDigit(rest[0]) && (k != 0 || n != 0 || (rest[0] != 'x' && rest[0] != 'X')))
    ensures var ds := Zeros(k) + Decimal(n);
      ds != [] && AllDecimal(ds) && ValueOf(ds, 10) == n && !HasHexPrefix(ds + rest)
  {
    var d := Decimal(n);
    var ds := Zeros(k) + d;
    assert ValueOf(ds, 10) == n by {
      LeadingZeros(k, d, 10);
      DecimalValue(n);
    }
    forall i | 0 <= i < |ds| ensures IsDecimalDigit(ds[i]) {
      if i >= k {
        assert ds[i] == d[i - k];
      }
    }
    if k == 0 {
      assert ds == d;
    }
    DigitsNotHex(ds, rest);
  }

  /** What a number field holds (a decimal integer, possibly with leading
      zeros and possibly followed by a fraction or an exponent) parses to
      the digits before the fraction or the exponent. */
  lemma ParseIntNumeral(k: nat, n: nat, rest: string)
    requires rest == [] || (!IsDecimalDigit(rest[0]) && (k != 0 || n != 0 || (rest[0] != 'x' && rest[0] != 'X')))
    ensures ParseInt(Zeros(k) + Decimal(n) + rest) == Int(n)
  {
    PaddedNumeral(k, n, rest);
    ParseIntDigits(Zeros(k) + Decimal(n), rest);
  }

  /** With a sign in front, the sign is kept: a minus sign gives the
      negative value. */
  lemma ParseIntSignedNumeral(k: nat, n: nat, rest: string)
    requires rest == [] || (!IsDecimalDigit(rest[0]) && (k != 0 || n != 0 || (rest[0] != 'x' && rest[0] != 'X')))
    ensures ParseInt("-" + (Zeros(k) + Decimal(n) + rest)) == Int(-(n as int))
    ensures ParseInt("+" + (Zeros(k) + Decimal(n) + rest)) == Int(n)
  {
    PaddedNumeral(k, n, rest);
    ParseIntDigits(Zeros(k) + Decimal(n), rest);
  }

  /** Input that does not start with a sign or a digit (after white space)
      is not a number, and the setting falls back to 0. */
  lemma ParseIntNoDigits(s: string)
    requires s == [] || (!IsDecimalDigit(s[0]) && !IsStrWhiteSpace(s[0]) && s[0] != '-' && s[0] != '+')
    ensures ParseInt(s) == NaN
    ensures MinutesSetting(s) == 0
  {
  }

  /** A negative setting only comes from input with an explicit minus sign. */
  lemma NegativeNeedsMinus(s: string)
    requires MinutesSetting(s) < 0
    ensures TrimStart(s) != [] && TrimStart(s)[0] == '-'
  {
  }

  /** Sample inputs: leading blanks and a sign, a fraction, a hex prefix. */
  lemma ParseIntBlankAndSign()
    ensures ParseInt(" -5") == Int(-5)
  {
    assert Decimal(5) == "5";
    ParseIntSignedNumeral(0, 5, "");
    assert "-" + (Zeros(0) + Decimal(5) + "") == "-5";
    ParseIntSkipsWhiteSpace(" ", "-5");
    assert " " + "-5" == " -5";
  }

  lemma ParseIntFraction()
    ensures ParseInt("7.9") == Int(7)
  {
    assert Decimal(7) == "7";
    ParseIntNumeral(0, 7, ".9");
    assert Zeros(0) + Decimal(7) + ".9" == "7.9";
  }

  lemma ParseIntLeadingZeros()
    ensures ParseInt("007.5") == Int(7)
  {
    assert Zeros(2) + Decimal(7) + ".5" == "007.5" by {
      assert Zeros(2) == "00";
      assert Decimal(7) == "7";
    }
    ParseIntNumeral(2, 7, ".5");
  }

  lemma ParseIntSignedLeadingZero()
    ensures ParseInt("-05") == Int(-5)
  {
    assert "-" + (Zeros(1) + Decimal(5) + "") == "-05" by {
      assert Zeros(1) == "0";
      assert Decimal(5) == "5";
    }
    ParseIntSignedNumeral(1, 5, "");
  }

  lemma ParseIntHexPrefix()
    ensures ParseInt("0x1f") == Int(31)
  {
    assert LeadingDigits("1f", 16) == "1f";
    assert ValueOf("1f", 16) == 31;
    assert ParseUnsigned("0x1f") == Int(31);
  }
}
