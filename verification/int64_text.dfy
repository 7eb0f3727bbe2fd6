/** Signed 64-bit integers and their decimal text form.

    `ParseInt64` models the conversion of a string to `int64_t` that the
    range predicate relies on: an optional leading `+` or `-`, then at
    least one decimal digit, and nothing else; a value outside the signed
    64-bit range is a failure, never a wrap-around.  `FormatInt64` is the
    canonical printer, used as the parser's partner in a round trip. */
module Int64Text {
  import opened Optional

  const INT64_MIN: int := -0x8000_0000_0000_0000
  const INT64_MAX: int := 0x7FFF_FFFF_FFFF_FFFF

  type Int64 = x: int | INT64_MIN <= x <= INT64_MAX

  predicate IsDigit(c: char) {
    '0' <= c <= '9'
  }

  predicate AllDigits(s: string) {
    forall i :: 0 <= i < |s| ==> IsDigit(s[i])
  }

  predicate IsSign(c: char) {
    c == '-' || c == '+'
  }

  function DigitValue(c: char): (d: nat)
    requires IsDigit(c)
    ensures d < 10
  {
    (c as int) - ('0' as int)
  }

  function DigitChar(d: nat): (c: char)
    requires d < 10
    ensures IsDigit(c) && DigitValue(c) == d
  {
    (('0' as int) + d) as char
  }

  /** The value of a run of decimal digits, most significant digit first. */
  function DigitsValue(s: string): nat
    requires AllDigits(s)
  {
    if |s| == 0 then 0 else DigitsValue(s[..|s| - 1]) * 10 + DigitValue(s[|s| - 1])
  }

  /** The shortest decimal digits of `n` (no leading zero unless `n` is 0). */
  function Digits(n: nat): (s: string)
    ensures |s| > 0 && AllDigits(s)
  {
    if n < 10 then [DigitChar(n)] else Digits(n / 10) + [DigitChar(n % 10)]
  }

  /** Decimal text to a signed 64-bit integer; `None` is the conversion's
      failure (the source catches it as an exception). */
  function ParseInt64(s: string): (r: Option<Int64>)
    ensures r.Some? ==> |s| > 0
    ensures r.Some? ==> forall i :: 0 <= i < |s| ==> IsDigit(s[i]) || (i == 0 && IsSign(s[i]))
  {
    var signed := |s| > 0 && IsSign(s[0]);
    var digits := if signed then s[1..] else s;
    if |digits| == 0 || !AllDigits(digits) then None
    else
      var magnitude: int := DigitsValue(digits);
      var v := if signed && s[0] == '-' then -magnitude else magnitude;
      if InRange(v) then Some(v) else None
  }

  /** Canonical decimal text of a signed 64-bit integer. */
  function FormatInt64(x: Int64): (s: string)
    ensures |s| > 0
  {
    if x < 0 then "-" + Digits(-(x as int)) else Digits(x)
  }

  /** Reading back the digits of `n` gives `n`. */
  lemma {:induction false} DigitsValueOfDigits(n: nat)
    ensures DigitsValue(Digits(n)) == n
  {
    var s := Digits(n);
    if n < 10 {
      assert s[..|s| - 1] == [];
    } else {
      var prefix := Digits(n / 10);
      DigitsValueOfDigits(n / 10);
      assert s[..|s| - 1] == prefix;
    }
  }

  /** Parsing the canonical text of any 64-bit value gives that value back. */
  lemma ParseFormatRoundTrip(x: Int64)
    ensures ParseInt64(FormatInt64(x)) == Some(x)
  {
    if x < 0 {
      ParseNegative(-(x as int));
    } else {
      ParseNonNegative(x);
    }
  }

  lemma ParseNonNegative(n: nat)
    requires n <= INT64_MAX
    ensures ParseInt64(Digits(n)) == Some(n)
  {
    var s := Digits(n);
    DigitsValueOfDigits(n);
    assert !IsSign(s[0]) by { assert IsDigit(s[0]); }
  }

  lemma ParseNegative(n: nat)
    requires 0 < n <= -INT64_MIN
    ensures ParseInt64("-" + Digits(n)) == Some(-(n as int))
  {
    var s := "-" + Digits(n);
    assert s[1..] == Digits(n);
    DigitsValueOfDigits(n);
  }

  /** `z` zero digits, the padding the conversion allows before a number. */
  function Zeros(z: nat): (s: string)
    ensures |s| == z && AllDigits(s)
    ensures forall i :: 0 <= i < z ==> s[i] == '0'
  {
    seq(z, _ => '0')
  }

  /** Leading zeros do not change the value of a run of digits. */
  lemma {:induction false} ZerosValue(z: nat, s: string)
    requires AllDigits(s)
    ensures AllDigits(Zeros(z) + s) && DigitsValue(Zeros(z) + s) == DigitsValue(s)
  {
    var t := Zeros(z) + s;
    if |s| == 0 {
      assert t == Zeros(z);
      ZerosAreZero(z);
    } else {
      ZerosValue(z, s[..|s| - 1]);
      assert t[..|t| - 1] == Zeros(z) + s[..|s| - 1];
      assert t[|t| - 1] == s[|s| - 1];
    }
  }

  lemma {:induction false} ZerosAreZero(z: nat)
    ensures DigitsValue(Zeros(z)) == 0
  {
    if z > 0 {
      ZerosAreZero(z - 1);
      assert Zeros(z)[..z - 1] == Zeros(z - 1);
    }
  }

  predicate InRange(v: int) {
    INT64_MIN <= v <= INT64_MAX
  }

  /** The value an optional sign and a run of digits denote. */
  function SignedValue(sign: string, digits: string): int
    requires AllDigits(digits)
  {
    if sign == "-" then -(DigitsValue(digits) as int) else DigitsValue(digits)
  }

  /** Every text made of an optional sign, any number of leading zeros and
      the digits of a magnitude within the signed 64-bit range is accepted,
      and converts to the signed magnitude. */
  lemma ParseSignedPadded(sign: string, z: nat, n: nat)
    requires sign == "" || sign == "+" || sign == "-"
    requires if sign == "-" then n <= -INT64_MIN else n <= INT64_MAX
    ensures ParseInt64(sign + Zeros(z) + Digits(n)) == Some(if sign == "-" then -(n as int) else n)
  {
    var digits := Zeros(z) + Digits(n);
    assert sign + Zeros(z) + Digits(n) == sign + digits;
    ZerosValue(z, Digits(n));
    DigitsValueOfDigits(n);
    ParseSignedDigits(sign, digits);
  }

  /** An optional sign followed by a non-empty run of digits, leading zeros
      allowed, converts to the signed value of the digits when that value
      is within the signed 64-bit range, and fails otherwise. */
  lemma ParseSignedDigits(sign: string, digits: string)
    requires sign == "" || sign == "+" || sign == "-"
    requires |digits| > 0 && AllDigits(digits)
    ensures InRange(SignedValue(sign, digits)) ==> ParseInt64(sign + digits) == Some(SignedValue(sign, digits))
    ensures !InRange(SignedValue(sign, digits)) ==> ParseInt64(sign + digits) == None
  {
    var t := sign + digits;
    if sign == "" {
      assert t == digits;
      assert !IsSign(t[0]) by { assert IsDigit(digits[0]); }
    } else {
      assert t[1..] == digits;
    }
  }

  /** Text accepted by the parser never contains the range separator. */
  lemma ParsedHasNoColon(s: string)
    requires ParseInt64(s).Some?
    ensures ':' !in s
  {
  }

  /** Magnitudes beyond the signed 64-bit range are rejected, not wrapped:
      `n` above INT64_MAX as a positive literal, and `n` above 2^63 after a
      minus sign. */
  lemma OverflowRejected(n: nat)
    ensures n > INT64_MAX ==> ParseInt64(Digits(n)) == None
    ensures n > -INT64_MIN ==> ParseInt64("-" + Digits(n)) == None
  {
    DigitsValueOfDigits(n);
    var t := "-" + Digits(n);
    assert t[1..] == Digits(n);
  }

  /** The empty string, a lone sign and a non-digit are all rejected. */
  lemma MalformedRejected(s: string)
    ensures |s| == 0 ==> ParseInt64(s) == None
    ensures |s| == 1 && IsSign(s[0]) ==> ParseInt64(s) == None
    ensures |s| > 0 && !IsDigit(s[|s| - 1]) ==> ParseInt64(s) == None
  {
  }
}
