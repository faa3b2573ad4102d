/** Laying out a decimal floating-point number: plain, with a point, or with an exponent. */
module WriteFloat {
  import opened Options
  import opened Arith
  import opened Rounding

  datatype Format = General | Exp | Fixed

  datatype FloatSpecs = FloatSpecs(precision: int, format: Format, upper: bool, showpoint: bool)

  // ----- reading a printed number

  predicate IsExpChar(c: char) { c == 'e' || c == 'E' }

  function Until(s: string, stop: char -> bool): (n: nat)
    ensures n <= |s| && (n < |s| ==> stop(s[n]))
    ensures forall i :: 0 <= i < n ==> !stop(s[i])
  {
    if s == "" || stop(s[0]) then 0
    else
      assert forall i :: 0 < i < |s| ==> s[i] == s[1..][i - 1];
      1 + Until(s[1..], stop)
  }

  /** The digits of a number without exponent, and how many of them follow the point. */
  function ReadPlain(s: string, point: char): (string, nat) {
    var p := Until(s, c => c == point);
    if p == |s| then (s, 0) else (s[..p] + s[p + 1..], |s| - p - 1)
  }

  /** An exponent with its sign. */
  function ReadExponent(s: string): int {
    if s == "" then 0 else if s[0] == '-' then -Decimal(s[1..]) else Decimal(s[1..])
  }

  /** A printed number as an integer and a power of ten that multiply to its value. */
  function ReadFloat(s: string, point: char): (int, int) {
    var e := Until(s, IsExpChar);
    var (digits, fraction) := ReadPlain(s[..e], point);
    (Decimal(digits), (if e < |s| then ReadExponent(s[e + 1..]) else 0) - fraction)
  }

  /**
   m * 10^k is d * 10^exp, where d is spelled by `digits`, and it is written with `pad` more
   zeros; without digits it is zero.
   */
  ghost predicate Stands(m: int, k: int, digits: string, exp: int, pad: nat) {
    if digits == "" then m == 0 else k == exp - pad && m == Decimal(digits) * Pow(10, pad)
  }

  // ----- shapes

  function Zeros(n: nat): (s: string)
    ensures |s| == n && AllDigits(s)
    ensures forall i :: 0 <= i < n ==> s[i] == '0'
  {
    if n == 0 then "" else Zeros(n - 1) + "0"
  }

  lemma {:induction false} AppendZeros(s: string, n: nat)
    ensures Decimal(s + Zeros(n)) == Decimal(s) * Pow(10, n)
  {
    ZerosAreZero(n);
    DecimalConcat(s, Zeros(n));
  }

  lemma {:induction false} ZerosAreZero(n: nat)
    ensures Decimal(Zeros(n)) == 0
  {
    if n > 0 {
      ZerosAreZero(n - 1);
      DecimalSnoc(Zeros(n - 1), '0');
    }
  }

  lemma PrependZeros(n: nat, s: string)
    ensures Decimal(Zeros(n) + s) == Decimal(s)
  {
    ZerosAreZero(n);
    DecimalConcat(Zeros(n), s);
  }

  predicate IsPoint(point: char) { !IsDigit(point) && !IsExpChar(point) }

  lemma UntilAt(s: string, n: nat, stop: char -> bool)
    requires n <= |s| && (n < |s| ==> stop(s[n]))
    requires forall i :: 0 <= i < n ==> !stop(s[i])
    ensures Until(s, stop) == n
  {}

  lemma ReadPlainWhole(whole: string, point: char)
    requires AllDigits(whole) && IsPoint(point)
    ensures ReadPlain(whole, point) == (whole, 0)
  {
    UntilAt(whole, |whole|, c => c == point);
  }

  lemma ReadPlainPoint(whole: string, fraction: string, point: char)
    requires AllDigits(whole) && IsPoint(point)
    ensures ReadPlain(whole + [point] + fraction, point) == (whole + fraction, |fraction|)
  {
    var s, n := whole + [point] + fraction, |whole|;
    assert forall i :: 0 <= i < n ==> s[i] == whole[i];
    UntilAt(s, n, c => c == point);
    assert s[..n] == whole && s[n + 1..] == fraction;
  }

  /** The part of a number before the exponent. */
  function Mantissa(whole: string, fraction: Option<string>, point: char): string {
    if fraction.None? then whole else whole + [point] + fraction.value
  }

  function Fraction(fraction: Option<string>): string { if fraction.None? then "" else fraction.value }

  lemma ReadMantissa(whole: string, fraction: Option<string>, point: char)
    requires AllDigits(whole) && AllDigits(Fraction(fraction)) && IsPoint(point)
    ensures ReadPlain(Mantissa(whole, fraction, point), point) == (whole + Fraction(fraction), |Fraction(fraction)|)
    ensures forall i :: 0 <= i < |Mantissa(whole, fraction, point)| ==> !IsExpChar(Mantissa(whole, fraction, point)[i])
  {
    if fraction.None? {
      assert whole + "" == whole;
      ReadPlainWhole(whole, point);
    } else {
      ReadPlainPoint(whole, fraction.value, point);
    }
  }

  /** A number without an exponent. */
  lemma ReadFixed(whole: string, fraction: Option<string>, point: char)
    requires AllDigits(whole) && AllDigits(Fraction(fraction)) && IsPoint(point)
    ensures var number := ReadFloat(Mantissa(whole, fraction, point), point);
            number.0 == Decimal(whole + Fraction(fraction)) && number.1 + |Fraction(fraction)| == 0
    ensures Until(Mantissa(whole, fraction, point), IsExpChar) == |Mantissa(whole, fraction, point)|
  {
    ReadMantissa(whole, fraction, point);
    ReadUnscaled(Mantissa(whole, fraction, point), point);
  }

  lemma ReadUnscaled(m: string, point: char)
    requires forall i :: 0 <= i < |m| ==> !IsExpChar(m[i])
    ensures Until(m, IsExpChar) == |m|
    ensures ReadFloat(m, point).0 == Decimal(ReadPlain(m, point).0) && ReadFloat(m, point).1 + ReadPlain(m, point).1 == 0
  {
    UntilAt(m, |m|, IsExpChar);
    assert m[..|m|] == m;
  }

  lemma CutAt(m: string, c: char, rest: string)
    ensures var s := m + [c] + rest; s[..|m|] == m && s[|m|] == c && s[|m| + 1..] == rest
    ensures var s := m + [c] + rest; forall i :: 0 <= i < |m| ==> s[i] == m[i]
  {}

  /** A number with an exponent. */
  lemma ReadScaled(whole: string, fraction: Option<string>, point: char, e: char, exponent: string)
    requires AllDigits(whole) && AllDigits(Fraction(fraction)) && IsPoint(point) && IsExpChar(e)
    ensures var number := ReadFloat(Mantissa(whole, fraction, point) + [e] + exponent, point);
            number.0 == Decimal(whole + Fraction(fraction)) &&
            number.1 == ReadExponent(exponent) - |Fraction(fraction)|
    ensures var s := Mantissa(whole, fraction, point) + [e] + exponent; Until(s, IsExpChar) < |s| && s[Until(s, IsExpChar)] == e
  {
    ReadMantissa(whole, fraction, point);
    ReadWithExponent(Mantissa(whole, fraction, point), point, e, exponent);
  }

  lemma ReadWithExponent(m: string, point: char, e: char, exponent: string)
    requires IsExpChar(e) && forall i :: 0 <= i < |m| ==> !IsExpChar(m[i])
    ensures var number := ReadFloat(m + [e] + exponent, point);
            number.0 == Decimal(ReadPlain(m, point).0) && number.1 == ReadExponent(exponent) - ReadPlain(m, point).1
    ensures var s := m + [e] + exponent; Until(s, IsExpChar) == |m| < |s| && s[|m|] == e
  {
    CutAt(m, e, exponent);
    UntilAt(m + [e] + exponent, |m|, IsExpChar);
  }

  // ----- the exponent

  /** A sign and at least two digits. */
  method WriteExponent(exp: int) returns (out: string)
    requires -10000 < exp < 10000
    ensures ReadExponent(out) == exp
    ensures |out| >= 3 && (out[0] == '+' || out[0] == '-') && AllDigits(out[1..])
  {
    var sign, n := if exp < 0 then '-' else '+', if exp < 0 then -exp else exp;
    var digits := "";
    ghost var top := n;
    if n >= 100 {
      var pair := n / 100;
      digits := if n >= 1000 then [DigitChar(pair / 10)] + [DigitChar(pair % 10)] else [DigitChar(pair % 10)];
      n := n % 100;
    }
    ExponentDigits(digits, top);
    digits := digits + [DigitChar(n / 10)] + [DigitChar(n % 10)];
    out := [sign] + digits;
    assert out[1..] == digits;
  }

  lemma TwoDigits(s: string, n: nat)
    requires n < 100
    ensures Decimal(s + [DigitChar(n / 10)] + [DigitChar(n % 10)]) == 100 * Decimal(s) + n
  {
    DecimalSnoc(s, DigitChar(n / 10));
    DecimalSnoc(s + [DigitChar(n / 10)], DigitChar(n % 10));
  }

  lemma ExponentDigits(top: string, n: nat)
    requires n < 10000
    requires top == if n >= 1000 then [DigitChar(n / 100 / 10)] + [DigitChar(n / 100 % 10)]
                    else if n >= 100 then [DigitChar(n / 100 % 10)] else ""
    ensures Decimal(top) == n / 100 && Decimal(top + [DigitChar(n % 100 / 10)] + [DigitChar(n % 100 % 10)]) == n
  {
    var pair := n / 100;
    assert Decimal("") == 0;
    if n >= 1000 {
      TwoDigits("", pair);
      assert "" + [DigitChar(pair / 10)] == [DigitChar(pair / 10)];
    } else if n >= 100 {
      DecimalSnoc("", DigitChar(pair % 10));
      assert "" + [DigitChar(pair % 10)] == [DigitChar(pair % 10)];
    }
    TwoDigits(top, n % 100);
  }

  // ----- the layouts

  /** What is written reads back as digits * 10^exp, and has an exponent if it should. */
  ghost predicate Correct(out: string, digits: string, exp: int, pad: nat, point: char, scaled: bool) {
    var (m, k) := ReadFloat(out, point);
    Stands(m, k, digits, exp, pad) && (Until(out, IsExpChar) < |out| <==> scaled)
  }

  predicate UsesExponent(specs: FloatSpecs, outputExp: int) {
    specs.format == Exp ||
    (specs.format == General && (outputExp < -4 || outputExp >= if specs.precision > 0 then specs.precision else 16))
  }

  /** The zeros that fill the significand up to the precision. */
  function Wanted(size: nat, specs: FloatSpecs): nat {
    if specs.showpoint && specs.precision > size then specs.precision - size else 0
  }

  /** The zeros behind the significand: those of an integer, and those that `showpoint` asks for. */
  function Padding(size: nat, exp: int, specs: FloatSpecs): nat {
    if UsesExponent(specs, exp + size - 1) || (exp < 0 && exp + size > 0) then
      Wanted(size, specs)
    else if exp < 0 then 0
    else if !specs.showpoint then exp
    else if specs.precision > exp + size then specs.precision - size
    else if specs.format == Fixed then exp
    else exp + 1
  }

  /** Appending zeros and lowering the exponent by as many keeps the value. */
  lemma PaddedStands(digits: string, zeros: nat, exp: int)
    requires AllDigits(digits)
    ensures Stands(Decimal(digits + Zeros(zeros)), exp - zeros, digits, exp, zeros)
  {
    AppendZeros(digits, zeros);
    if digits == "" { assert Decimal(digits) == 0; }
  }

  /** One digit, perhaps a fraction, and the exponent. */
  method WriteScaled(digits: string, exp: int, specs: FloatSpecs, point: char) returns (out: string)
    requires AllDigits(digits) && digits != "" && IsPoint(point) && -10000 < exp + |digits| - 1 < 10000
    ensures Correct(out, digits, exp, Wanted(|digits|, specs), point, true)
    ensures |out| > 0 && out[0] == digits[0]
    ensures Until(out, IsExpChar) < |out| && out[Until(out, IsExpChar)] == if specs.upper then 'E' else 'e'
  {
    out := [digits[0]];
    var zeros := specs.precision - |digits|;
    if |digits| > 1 || specs.showpoint { out := out + [point]; }
    out := out + digits[1..];
    if !specs.showpoint || zeros < 0 { zeros := 0; }
    out := out + Zeros(zeros);
    ghost var pointed := |digits| > 1 || specs.showpoint;
    ScaledMantissa(digits, zeros, pointed, point);
    var e := if specs.upper then 'E' else 'e';
    var exponent := WriteExponent(exp + |digits| - 1);
    ScaledStands(digits, exp, zeros, pointed, point, e, exponent);
    out := out + [e] + exponent;
  }

  ghost function ScaledFraction(digits: string, zeros: nat, pointed: bool): Option<string>
    requires digits != ""
  {
    if pointed then Some(digits[1..] + Zeros(zeros)) else None
  }

  lemma ScaledMantissa(digits: string, zeros: nat, pointed: bool, point: char)
    requires digits != "" && (|digits| > 1 || zeros > 0 ==> pointed)
    ensures var m := Mantissa([digits[0]], ScaledFraction(digits, zeros, pointed), point);
            (pointed ==> m == [digits[0]] + [point] + digits[1..] + Zeros(zeros)) &&
            (!pointed ==> m == [digits[0]] + digits[1..] + Zeros(zeros))
  {}

  lemma ScaledStands(digits: string, exp: int, zeros: nat, pointed: bool, point: char, e: char, exponent: string)
    requires AllDigits(digits) && digits != "" && IsPoint(point) && IsExpChar(e)
    requires |digits| > 1 || zeros > 0 ==> pointed
    requires ReadExponent(exponent) == exp + |digits| - 1
    ensures var out := Mantissa([digits[0]], ScaledFraction(digits, zeros, pointed), point) + [e] + exponent;
            Correct(out, digits, exp, zeros, point, true) && Until(out, IsExpChar) < |out| && out[Until(out, IsExpChar)] == e
  {
    var fraction := ScaledFraction(digits, zeros, pointed);
    ReadScaled([digits[0]], fraction, point, e, exponent);
    PaddedStands(digits, zeros, exp);
    assert [digits[0]] + Fraction(fraction) == digits + Zeros(zeros);
  }

  /** At least as many digits in front of the point as there are: 1234e7 -> 12340000000[.0+]. */
  method WriteInteger(digits: string, exp: int, specs: FloatSpecs, point: char) returns (out: string)
    requires AllDigits(digits) && IsPoint(point) && exp >= 0
    requires !UsesExponent(specs, exp + |digits| - 1)
    ensures Correct(out, digits, exp, Padding(|digits|, exp, specs), point, false)
    ensures !specs.showpoint ==> out == digits + Zeros(exp)
  {
    out := digits + Zeros(exp);
    if specs.showpoint {
      out := out + [point];
      var zeros := specs.precision - (exp + |digits|);
      if zeros <= 0 {
        zeros := if specs.format != Fixed then 1 else 0;
      }
      out := out + Zeros(zeros);
      IntegerStands(digits, exp, zeros, Some(Zeros(zeros)), point);
    } else {
      IntegerStands(digits, exp, 0, None, point);
    }
  }

  lemma AppendMore(digits: string, m: nat, n: nat)
    ensures (digits + Zeros(m)) + Zeros(n) == digits + Zeros(m + n)
  {}

  lemma IntegerStands(digits: string, exp: nat, n: nat, fraction: Option<string>, point: char)
    requires AllDigits(digits) && IsPoint(point) && Fraction(fraction) == Zeros(n)
    ensures Correct(Mantissa(digits + Zeros(exp), fraction, point), digits, exp, exp + n, point, false)
  {
    AllDigitsConcat(digits, Zeros(exp));
    AppendMore(digits, exp, n);
    FixedCorrect(digits + Zeros(exp), fraction, digits, exp, exp + n, point);
  }

  lemma AllDigitsConcat(a: string, b: string)
    requires AllDigits(a) && AllDigits(b)
    ensures AllDigits(a + b)
  {}

  /** A number without an exponent that reads as the digits and some more zeros. */
  lemma FixedCorrect(whole: string, fraction: Option<string>, digits: string, exp: int, pad: nat, point: char)
    requires AllDigits(digits) && AllDigits(whole) && AllDigits(Fraction(fraction)) && IsPoint(point)
    requires whole + Fraction(fraction) == digits + Zeros(pad) && |Fraction(fraction)| == pad - exp
    ensures Correct(Mantissa(whole, fraction, point), digits, exp, pad, point, false)
  {
    ReadFixed(whole, fraction, point);
    PaddedStands(digits, pad, exp);
  }

  /** The point among the digits: 1234e-2 -> 12.34[0+]. */
  method WriteSplit(digits: string, exp: int, specs: FloatSpecs, point: char) returns (out: string)
    requires AllDigits(digits) && IsPoint(point) && 0 < exp + |digits| < |digits|
    ensures Correct(out, digits, exp, Wanted(|digits|, specs), point, false)
    ensures |out| > exp + |digits| && out[exp + |digits|] == point
  {
    var k := exp + |digits|;
    out := digits[..k] + [point] + digits[k..];
    var zeros := 0;
    if specs.showpoint && specs.precision > |digits| {
      zeros := specs.precision - |digits|;
      out := out + Zeros(zeros);
    }
    SplitStands(digits, k, exp, zeros, point);
    assert out == Mantissa(digits[..k], Some(digits[k..] + Zeros(zeros)), point);
  }

  lemma Rejoin(digits: string, k: nat, more: string)
    requires k <= |digits|
    ensures digits[..k] + (digits[k..] + more) == digits + more
  {}

  lemma SplitStands(digits: string, k: nat, exp: int, zeros: nat, point: char)
    requires AllDigits(digits) && IsPoint(point) && k == exp + |digits| <= |digits|
    ensures Correct(Mantissa(digits[..k], Some(digits[k..] + Zeros(zeros)), point), digits, exp, zeros, point, false)
  {
    AllDigitsConcat(digits[k..], Zeros(zeros));
    Rejoin(digits, k, Zeros(zeros));
    FixedCorrect(digits[..k], Some(digits[k..] + Zeros(zeros)), digits, exp, zeros, point);
  }

  /** Zeros behind the point before the first digit: 1234e-6 -> 0.001234. */
  method WriteSmall(digits: string, exp: int, specs: FloatSpecs, point: char) returns (out: string)
    requires AllDigits(digits) && IsPoint(point) && exp + |digits| <= 0
    ensures Correct(out, digits, exp, 0, point, false)
    ensures |out| > 0 && out[0] == '0'
  {
    out := "0";
    var zeros := -(exp + |digits|);
    if |digits| == 0 && specs.precision >= 0 && specs.precision < zeros {
      zeros := specs.precision;
    }
    ghost var fraction: Option<string> := None;
    if zeros != 0 || |digits| != 0 || specs.showpoint {
      out := out + [point] + Zeros(zeros) + digits;
      fraction := Some(Zeros(zeros) + digits);
    }
    SmallStands(digits, exp, zeros, fraction, point);
    assert out == Mantissa("0", fraction, point);
  }

  lemma SmallStands(digits: string, exp: int, zeros: nat, fraction: Option<string>, point: char)
    requires AllDigits(digits) && IsPoint(point) && (digits != "" ==> zeros == -(exp + |digits|))
    requires fraction == Some(Zeros(zeros) + digits) || (fraction == None && digits == "")
    ensures Correct(Mantissa("0", fraction, point), digits, exp, 0, point, false)
  {
    ReadFixed("0", fraction, point);
    assert Zeros(1) == "0";
    PrependZeros(1, Fraction(fraction));
    PrependZeros(zeros, digits);
    assert Decimal("") == 0 && Pow(10, 0) == 1;
  }

  // ----- which numbers are written with an exponent

  /** m * 10^k is less than 10^x. */
  ghost predicate IsBelow(m: int, k: int, x: int) {
    if k >= x then m * Pow(10, k - x) < 1 else m < Pow(10, x - k)
  }

  lemma {:induction false} DigitsRange(digits: string)
    requires digits != "" && AllDigits(digits) && digits[0] != '0'
    ensures Pow(10, |digits| - 1) <= Decimal(digits) < Pow(10, |digits|)
  {
    var n := |digits| - 1;
    if n == 0 {
      assert digits[..0] == "" && Decimal("") == 0;
    } else {
      DigitsRange(digits[..n]);
    }
  }

  /** The place of the first digit says how large a number is. */
  lemma FirstPlace(m: int, k: int, digits: string, exp: int, pad: nat, x: int)
    requires digits != "" && AllDigits(digits) && digits[0] != '0' && Stands(m, k, digits, exp, pad)
    ensures IsBelow(m, k, x) <==> exp + |digits| - 1 < x
  {
    var n, d, p := |digits|, Decimal(digits), Pow(10, pad);
    DigitsRange(digits);
    PowPos(10, pad);
    MulMono(Pow(10, n - 1), d, p);
    MulStrict(d, Pow(10, n), p);
    PowAdd(10, n - 1, pad);
    PowAdd(10, n, pad);
    PowPos(10, n - 1 + pad);
    if k >= x {
      PowPos(10, k - x);
      MulPos(m, Pow(10, k - x));
    } else if n + pad <= x - k {
      PowMono(10, n + pad, x - k);
    } else {
      PowMono(10, x - k, n - 1 + pad);
    }
  }

  /** In the general format a number has an exponent if it is very small or larger than its precision. */
  lemma GeneralExponent(m: int, k: int, digits: string, exp: int, pad: nat, specs: FloatSpecs)
    requires digits != "" && AllDigits(digits) && digits[0] != '0' && Stands(m, k, digits, exp, pad)
    requires specs.format == General
    ensures UsesExponent(specs, exp + |digits| - 1) <==>
            IsBelow(m, k, -4) || !IsBelow(m, k, if specs.precision > 0 then specs.precision else 16)
  {
    FirstPlace(m, k, digits, exp, pad, -4);
    FirstPlace(m, k, digits, exp, pad, if specs.precision > 0 then specs.precision else 16);
  }

  /**
   Writes digits * 10^exp. What is written reads back as exactly that, it has an exponent
   exactly if the format asks for one, and as many zeros as it should behind the digits. The
   fixed format never asks for an exponent, the exponent format always does, and the general
   one does for numbers below 10^-4, and from 10^precision (or 10^16) on.
   */
  method WriteFloat(digits: string, exp: int, specs: FloatSpecs, point: char) returns (out: string)
    requires AllDigits(digits) && IsPoint(point)
    requires UsesExponent(specs, exp + |digits| - 1) ==> digits != "" && -10000 < exp + |digits| - 1 < 10000
    ensures Correct(out, digits, exp, Padding(|digits|, exp, specs), point, UsesExponent(specs, exp + |digits| - 1))
    ensures var e := Until(out, IsExpChar);
            (e < |out| ==> out[e] == if specs.upper then 'E' else 'e') &&
            match specs.format
            case Fixed => e == |out|
            case Exp => e < |out|
            case General =>
              digits != "" && digits[0] != '0' ==>
                var (m, k) := ReadFloat(out, point);
                (e < |out| <==> IsBelow(m, k, -4) || !IsBelow(m, k, if specs.precision > 0 then specs.precision else 16))
  {
    if UsesExponent(specs, exp + |digits| - 1) {
      out := WriteScaled(digits, exp, specs, point);
    } else if exp >= 0 {
      out := WriteInteger(digits, exp, specs, point);
    } else if exp + |digits| > 0 {
      out := WriteSplit(digits, exp, specs, point);
    } else {
      out := WriteSmall(digits, exp, specs, point);
    }
    if specs.format == General && digits != "" && digits[0] != '0' {
      var (m, k) := ReadFloat(out, point);
      GeneralExponent(m, k, digits, exp, Padding(|digits|, exp, specs), specs);
    }
  }
}
