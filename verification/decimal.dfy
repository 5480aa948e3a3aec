/** Decimal text: Java's `String.valueOf` and `String.format("%0<n>d", …)` on
    integers, `Integer.valueOf` for reading them back, and `String.length()`,
    which counts UTF-16 code units. */
module Decimal {
  import opened Numeric
  import opened Results

  predicate IsDigit(c: char) {
    '0' <= c <= '9'
  }

  predicate AllDigits(s: string) {
    forall i :: 0 <= i < |s| ==> IsDigit(s[i])
  }

  function DigitValue(c: char): (d: nat)
    requires IsDigit(c)
    ensures d < 10
  {
    c as int - '0' as int
  }

  function DigitChar(d: nat): (c: char)
    requires d < 10
    ensures IsDigit(c) && DigitValue(c) == d
  {
    (d + '0' as int) as char
  }

  /** The number a string of decimal digits denotes, most significant digit
      first. */
  function Value(s: string): (v: nat)
    requires AllDigits(s)
    ensures v < Pow(10, |s|)
    decreases |s|
  {
    if |s| == 0 then 0 else Value(s[..|s| - 1]) * 10 + DigitValue(s[|s| - 1])
  }

  /** Digit strings of the same length are equal when their values are:
      the last digit is the value modulo 10, the rest its quotient. */
  lemma {:induction false} ValueInjective(s: string, t: string)
    requires AllDigits(s) && AllDigits(t) && |s| == |t|
    requires Value(s) == Value(t)
    ensures s == t
    decreases |s|
  {
    if |s| > 0 {
      var n := |s|;
      var ds, dt := DigitValue(s[n - 1]), DigitValue(t[n - 1]);
      var hs, ht := Value(s[..n - 1]), Value(t[..n - 1]);
      assert hs * 10 + ds == ht * 10 + dt;
      DivisionUnique(Value(s), 10, hs, ds);
      DivisionUnique(Value(s), 10, ht, dt);
      ValueInjective(s[..n - 1], t[..n - 1]);
      assert s == s[..n - 1] + [s[n - 1]] && t == t[..n - 1] + [t[n - 1]];
    }
  }

  /** The shortest decimal text of `v`: no leading zero except for 0 itself. */
  function ToDecimal(v: nat): (s: string)
    ensures 1 <= |s|
    ensures AllDigits(s) && Value(s) == v
    ensures |s| > 1 ==> s[0] != '0'
  {
    if v < 10 then [DigitChar(v)]
    else
      var init := ToDecimal(v / 10);
      var s := init + [DigitChar(v % 10)];
      assert s[..|s| - 1] == init;
      s
  }

  /** A number below 10^n needs at most n digits. */
  lemma {:induction false} ToDecimalFits(v: nat, n: nat)
    ensures 1 <= n && v < Pow(10, n) ==> |ToDecimal(v)| <= n
  {
    if 1 <= n && v < Pow(10, n) && v >= 10 {
      ToDecimalFits(v / 10, n - 1);
    }
  }

  function Zeros(n: nat): (z: string)
    ensures |z| == n && AllDigits(z)
    ensures forall i :: 0 <= i < n ==> z[i] == '0'
  {
    seq(n, i => '0')
  }

  /** Leading zeros do not change the value. */
  lemma {:induction false} ValueOfZeroPrefixed(n: nat, s: string)
    requires AllDigits(s)
    ensures AllDigits(Zeros(n) + s)
    ensures Value(Zeros(n) + s) == Value(s)
    decreases |s|, n
  {
    var t := Zeros(n) + s;
    assert AllDigits(t);
    if |s| > 0 {
      assert t[..|t| - 1] == Zeros(n) + s[..|s| - 1];
      ValueOfZeroPrefixed(n, s[..|s| - 1]);
    } else if n > 0 {
      assert t[..|t| - 1] == Zeros(n - 1) + s;
      ValueOfZeroPrefixed(n - 1, s);
    }
  }

  /** `String.format("%0" + width + "d", v)` for a non-negative `v`: the
      decimal text of `v`, left-padded with zeros to at least `width`
      characters. */
  function FormatZeroPadded(v: nat, width: nat): (s: string)
    ensures AllDigits(s) && Value(s) == v
    ensures |s| >= width
    ensures 1 <= width && v < Pow(10, width) ==> |s| == width
  {
    var digits := ToDecimal(v);
    ToDecimalFits(v, width);
    if |digits| >= width then digits
    else
      ValueOfZeroPrefixed(width - |digits|, digits);
      Zeros(width - |digits|) + digits
  }

  /** `String.valueOf(int)`: a minus sign exactly for negative numbers,
      then the digits of the magnitude without leading zeros. */
  function JavaIntToString(x: int): (s: string)
    ensures 1 <= |s|
    ensures s[0] == '-' <==> x < 0
    ensures var digits := if x < 0 then s[1..] else s;
      && 1 <= |digits| && AllDigits(digits)
      && Value(digits) == (if x < 0 then -x else x)
      && (|digits| > 1 ==> digits[0] != '0')
  {
    if x < 0 then "-" + ToDecimal(-x) else ToDecimal(x)
  }

  /** `Integer.valueOf(String)` in base 10: an optional sign followed by at
      least one digit, denoting a value within the range of an `int`. `None`
      stands for the `NumberFormatException` Java throws otherwise. */
  function ParseJavaInt(s: string): (r: Option<int>)
    ensures r.Some? ==> IsInt32(r.value)
    ensures r.Some? ==>
      && 1 <= |s|
      && var digits := if s[0] == '-' || s[0] == '+' then s[1..] else s;
      && 1 <= |digits| && AllDigits(digits)
      && r.value == (if s[0] == '-' then 0 - Value(digits) else Value(digits))
  {
    if |s| == 0 then None
    else SignedDigits(s[0] == '-', if s[0] == '-' || s[0] == '+' then s[1..] else s)
  }

  /** What follows the sign: at least one digit, whose value, negated for a
      minus sign, fits in an `int`. */
  function SignedDigits(negative: bool, digits: string): Option<int> {
    if |digits| == 0 || !AllDigits(digits) then None
    else
      var magnitude: int := Value(digits);
      var v := if negative then -magnitude else magnitude;
      if IsInt32(v) then Some(v) else None
  }

  /** A non-empty run of digits is read as its value when that fits in an
      `int`, and refused otherwise. */
  lemma ParseJavaIntOfDigits(digits: string)
    requires 1 <= |digits| && AllDigits(digits)
    ensures ParseJavaInt(digits) == if IsInt32(Value(digits)) then Some(Value(digits) as int) else None
  {
    assert IsDigit(digits[0]);
  }

  /** A sign followed by a non-empty run of digits is read as the signed
      value when that fits in an `int`, and refused otherwise. */
  lemma ParseJavaIntOfSignedDigits(text: string)
    requires 2 <= |text| && (text[0] == '-' || text[0] == '+') && AllDigits(text[1..])
    ensures var v: int := if text[0] == '-' then 0 - Value(text[1..]) else Value(text[1..]);
      ParseJavaInt(text) == if IsInt32(v) then Some(v) else None
  {
  }

  /** `Integer.valueOf(String.valueOf(x)) == x` for every `int`. */
  lemma ParseJavaIntOfToString(x: int)
    requires IsInt32(x)
    ensures ParseJavaInt(JavaIntToString(x)) == Some(x)
  {
    var s := JavaIntToString(x);
    if x < 0 {
      assert s[1..] == ToDecimal(-x);
    } else {
      assert IsDigit(s[0]);
    }
  }

  /** `String.length()`: the number of UTF-16 code units, two for each
      character beyond the Basic Multilingual Plane. */
  function JavaLength(s: string): (n: nat)
    ensures |s| <= n <= 2 * |s|
    ensures (forall i :: 0 <= i < |s| ==> s[i] as int <= 0xFFFF) ==> n == |s|
    decreases |s|
  {
    if |s| == 0 then 0
    else JavaLength(s[..|s| - 1]) + (if s[|s| - 1] as int > 0xFFFF then 2 else 1)
  }

  /** A character outside the Basic Multilingual Plane counts twice: the
      six-character text "12345" followed by an emoji has length 7. */
  lemma JavaLengthCountsSurrogatePairs()
    ensures JavaLength("12345\U{1F600}") == 7
    ensures |"12345\U{1F600}"| == 6
  {
  }
}
