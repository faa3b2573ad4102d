/**
 The fast digit generator with its fixed-precision handler. It works on a scaled value that
 is known only up to an error of one unit, and must give up whenever that error could
 change the rounding.
 */
module Grisu {
  import opened Arith
  import opened Rounding
  import opened FormatDecimal

  datatype RoundDirection = Undecided | Up | Down

  datatype Outcome = More | Done | Failed

  /** Twice the distance between q units and the scaled value, plus the error, is within a unit. */
  ghost predicate Safe(q: int, unit: int, scaled: int, error: int) {
    2 * (q * unit - scaled + error) <= unit && 2 * (scaled - q * unit + error) <= unit
  }

  /**
   The direction in which every value within `error` of `remainder` rounds, if they all agree.
   The comparisons are arranged so that no intermediate result wraps around.
   */
  function GetRoundDirection(divisor: Word64, remainder: Word64, error: Word64): (d: RoundDirection)
    requires remainder < divisor && error < divisor && error < divisor - error
    ensures d == Down <==> 2 * (remainder + error) <= divisor
    ensures d == Up <==> d != Down && 2 * (remainder - error) >= divisor
  {
    Fits(divisor - remainder);
    Fits(error * 2);
    if remainder <= U64(divisor - remainder) && LowEnough(divisor, remainder, error) then Down
    else if remainder >= error && HighEnough(divisor, remainder, error) then Up
    else Undecided
  }

  lemma Fits(x: nat)
    requires x < TWO64
    ensures U64(x) == x
  {}

  predicate LowEnough(divisor: Word64, remainder: Word64, error: Word64): (b: bool)
    requires remainder * 2 <= divisor && error * 2 < divisor
    ensures b <==> 2 * (remainder + error) <= divisor
  {
    Fits(error * 2);
    Fits(remainder * 2);
    Fits(divisor - remainder * 2);
    U64(error * 2) <= U64(divisor - U64(remainder * 2))
  }

  predicate HighEnough(divisor: Word64, remainder: Word64, error: Word64): (b: bool)
    requires error <= remainder < divisor
    ensures b <==> 2 * (remainder - error) >= divisor
  {
    Fits(remainder - error);
    Fits(divisor - (remainder - error));
    U64(remainder - error) >= U64(divisor - U64(remainder - error))
  }

  /** The decision is right for every value r that the remainder may stand for. */
  lemma DirectionIsSafe(divisor: Word64, remainder: Word64, error: Word64, r: int)
    requires remainder < divisor && error < divisor && error < divisor - error
    requires remainder - error <= r <= remainder + error
    ensures GetRoundDirection(divisor, remainder, error) == Down ==> 2 * r <= divisor
    ensures GetRoundDirection(divisor, remainder, error) == Up ==> 2 * r >= divisor
  {}

  lemma RoundedSafe(dec: int, divisor: Word64, remainder: Word64, error: Word64, scaled: int)
    requires remainder < divisor && error < divisor && error < divisor - error
    requires dec * divisor + remainder == scaled
    ensures GetRoundDirection(divisor, remainder, error) == Down ==> Safe(dec, divisor, scaled, error)
    ensures GetRoundDirection(divisor, remainder, error) == Up ==> Safe(dec + 1, divisor, scaled, error)
  {
    Distribute(dec, 1, divisor);
  }

  /** A safe result is within half a unit of every value the scaled value may stand for. */
  lemma SafeForAll(q: int, unit: int, scaled: int, error: int, v: real)
    requires Safe(q, unit, scaled, error)
    requires scaled as real - error as real <= v <= scaled as real + error as real
    ensures -(unit as real) <= 2.0 * ((q * unit) as real - v) <= unit as real
  {
    assert (2 * (q * unit - scaled + error)) as real <= unit as real;
    assert (2 * (scaled - q * unit + error)) as real <= unit as real;
  }

  /** All nines carried out of the first digit: one place fewer, in units ten times as large. */
  lemma SafeCoarser(q: int, unit: int, scaled: int, error: int)
    requires Safe(10 * q, unit, scaled, error) && unit >= 0
    ensures Safe(q, 10 * unit, scaled, error)
  {
    MulAssoc(q, 10, unit);
  }

  /** A remainder with its error that lies on both sides of a half. */
  predicate InDoubt(divisor: nat, remainder: nat, error: nat) {
    2 * (remainder + error) > divisor && 2 * (remainder - error) < divisor
  }

  /**
   When the n-th digit is refused: behind the point, if the error may change the digit; and at
   the last place, if the error is half a unit or leaves the rounding in doubt.
   */
  predicate Refuses(n: nat, precision: int, divisor: nat, remainder: nat, error: nat, integral: bool) {
    (!integral && error >= remainder) ||
    (n >= precision && (2 * error >= divisor || InDoubt(divisor, remainder, error)))
  }

  /** The last of the digits is refused, with what remains of the scaled value behind them. */
  ghost predicate RefusedAt(buf: seq<char>, precision: int, unit: nat, scaled: int, error: nat, integral: bool) {
    var r := scaled - Decimal(buf) * unit;
    0 <= r < unit && Refuses(|buf|, precision, unit, r, error, integral)
  }

  class FixedHandler {
    var buf: seq<char>
    var precision: int
    var exp10: int
    const fixed: bool

    constructor (precision: int, exp10: int, fixed: bool)
      ensures buf == [] && this.precision == precision && this.exp10 == exp10 && this.fixed == fixed
    {
      this.buf, this.precision, this.exp10, this.fixed := [], precision, exp10, fixed;
    }

    /**
     Makes a fixed precision relative to the first digit. Without digits to generate, the
     value itself, cut by ten to prevent overflow, decides between 0 and 1 in units of 10^exp.
     */
    method OnStart(divisor: Word64, remainder: Word64, error: Word64, exp: int) returns (r: Outcome)
      requires buf == [] && remainder < divisor && error < divisor && error < divisor - error
      modifies this
      ensures exp10 == old(exp10) && precision == if fixed then old(precision) + exp + exp10 else old(precision)
      ensures r == More ==> buf == [] && (fixed ==> precision > 0)
      ensures r == Failed ==> buf == []
      ensures r == Failed <==> fixed && precision == 0 && InDoubt(divisor, remainder, error)
      ensures r == Done ==> fixed && precision <= 0 && (precision < 0 <==> buf == [])
      ensures r == Done && precision == 0 ==>
                (buf == "0" && 2 * (remainder + error) <= divisor) || (buf == "1" && 2 * (remainder - error) >= divisor)
    {
      if !fixed { return More; }
      precision := precision + exp + exp10;
      if precision > 0 { return More; }
      if precision < 0 { return Done; }
      var dir := GetRoundDirection(divisor, remainder, error);
      if dir == Undecided { return Failed; }
      buf := buf + [if dir == Up then '1' else '0'];
      return Done;
    }

    /** Increments the last digit in place; `overflow` if the first one left the digits. */
    method Increment() returns (overflow: bool)
      requires |buf| > 0 && AllDigits(buf)
      modifies `buf
      ensures |buf| == |old(buf)|
      ensures !overflow ==> AllDigits(buf) && Decimal(buf) == old(Decimal(buf)) + 1
      ensures overflow ==> old(Decimal(buf)) + 1 == Pow(10, |buf|) && CharValue(buf[0]) == 10
                           && forall j :: 0 < j < |buf| ==> buf[j] == '0'
    {
      ghost var digits := buf;
      var i := |buf| - 1;
      var last := DigitChar(CharValue(buf[i]) + 1);
      DecimalUpdate(buf, i, last);
      buf := buf[i := last];
      while i > 0 && buf[i] > '9'
        invariant 0 <= i < |buf| == |digits|
        invariant forall j :: 0 <= j < i ==> buf[j] == digits[j]
        invariant forall j :: i < j < |buf| ==> buf[j] == '0'
        invariant CharValue(buf[i]) == CharValue(digits[i]) + 1
        invariant Decimal(buf) == Decimal(digits) + 1
      {
        var next := DigitChar(CharValue(buf[i - 1]) + 1);
        CarryKeepsValue(buf, i, next);
        buf := buf[i := '0'][i - 1 := next];
        i := i - 1;
      }
      overflow := buf[0] > '9';
      if overflow { DecimalRound(buf); }
    }

    /**
     Takes one digit. While the error may still change the digits, or at the last place the
     rounding, it fails; a successful result is safe in units of `divisor`, or ten times that
     if the carry moved the whole number up.
     */
    method OnDigit(digit: char, divisor: Word64, remainder: Word64, error: Word64, integral: bool, ghost scaled: int)
      returns (r: Outcome)
      requires AllDigits(buf) && IsDigit(digit) && remainder < divisor
      requires integral ==> error == 1 && divisor > 2
      requires (10 * Decimal(buf) + CharValue(digit)) * divisor + remainder == scaled
      modifies this
      ensures precision == old(precision)
      ensures r == More ==> buf == old(buf) + [digit] && |buf| < precision && exp10 == old(exp10)
                            && (!integral ==> error < remainder)
      ensures r == Failed ==> buf == old(buf) + [digit] && exp10 == old(exp10)
      ensures r == Failed <==> Refuses(|old(buf)| + 1, precision, divisor, remainder, error, integral)
      ensures r == Failed ==> RefusedAt(buf, precision, divisor, scaled, error, integral)
      ensures r == Done ==> Rounded(buf, |old(buf)| + 1, exp10 - old(exp10), fixed, precision, divisor, scaled, error)
    {
      DecimalSnoc(buf, digit);
      buf := buf + [digit];
      ghost var n := |buf|;
      if !integral && error >= remainder { return Failed; }
      if |buf| < precision { return More; }
      if !integral {
        if error >= divisor || error >= divisor - error { return Failed; }
      }
      r := Round(divisor, remainder, error, scaled);
    }

    /** Rounds at the last digit, if the error leaves no doubt. */
    method Round(divisor: Word64, remainder: Word64, error: Word64, ghost scaled: int) returns (r: Outcome)
      requires AllDigits(buf) && |buf| >= precision && |buf| > 0
      requires remainder < divisor && error < divisor && error < divisor - error
      requires Decimal(buf) * divisor + remainder == scaled
      modifies this
      ensures precision == old(precision) && r != More
      ensures r == Failed ==> buf == old(buf) && exp10 == old(exp10)
      ensures r == Failed <==> InDoubt(divisor, remainder, error)
      ensures r == Done ==> Rounded(buf, |old(buf)|, exp10 - old(exp10), fixed, precision, divisor, scaled, error)
    {
      RoundedSafe(Decimal(buf), divisor, remainder, error, scaled);
      var dir := GetRoundDirection(divisor, remainder, error);
      if dir != Up {
        return if dir == Down then Done else Failed;
      }
      var overflow := Increment();
      if overflow {
        CarryOut(divisor, scaled, error);
      }
      return Done;
    }

    /** All digits were nines: a one, and either one more zero or a larger exponent. */
    method CarryOut(ghost divisor: nat, ghost scaled: int, ghost error: nat)
      requires |buf| > 0 && CharValue(buf[0]) == 10 && forall j :: 0 < j < |buf| ==> buf[j] == '0'
      requires |buf| >= precision && Safe(Pow(10, |buf|), divisor, scaled, error)
      modifies this
      ensures precision == old(precision)
      ensures Rounded(buf, |old(buf)|, exp10 - old(exp10), fixed, precision, divisor, scaled, error)
    {
      buf := buf[0 := '1'];
      CarriedOut(buf);
      SafeCoarser(Decimal(buf), divisor, scaled, error);
      if fixed {
        buf := buf + ['0'];
      } else {
        exp10 := exp10 + 1;
      }
    }
  }

  lemma OneAndZeros(buf: seq<char>)
    requires |buf| > 0 && buf[0] == '1' && forall j :: 0 < j < |buf| ==> buf[j] == '0'
    ensures Decimal(buf) == Pow(10, |buf| - 1)
  {
    DecimalRound(buf);
    var c, p := CharValue(buf[0]), Pow(10, |buf| - 1);
    assert c == 1 && c * p == p;
  }

  /** A one and zeros: a power of ten, and the next one with one more zero. */
  lemma CarriedOut(buf: seq<char>)
    requires |buf| > 0 && buf[0] == '1' && forall j :: 0 < j < |buf| ==> buf[j] == '0'
    ensures AllDigits(buf) && 10 * Decimal(buf) == Pow(10, |buf|)
    ensures AllDigits(buf + ['0']) && Decimal(buf + ['0']) == Pow(10, |buf|)
  {
    OneAndZeros(buf);
    NextPower(|buf|);
    DecimalSnoc(buf, '0');
  }

  lemma NextPower(n: nat)
    requires n > 0
    ensures Pow(10, n) == 10 * Pow(10, n - 1)
  {}

  /** A finished number with n digits: safe, of the requested length, one longer or moved up after a carry. */
  ghost predicate Rounded(buf: seq<char>, n: nat, up: int, fixed: bool, precision: int, divisor: nat, scaled: int, error: nat) {
    && AllDigits(buf) && n >= precision && 0 <= up <= 1 && (fixed ==> up == 0)
    && (|buf| == n || (|buf| == n + 1 && fixed && Decimal(buf) == Pow(10, n)))
    && Safe(Decimal(buf), if up == 1 then 10 * divisor else divisor, scaled, error)
  }

  // ----- digit generation

  /** Digits so far, the rest of the integral part and the fraction make up the scaled value. */
  ghost predicate Whole(dec: int, exp: nat, integral: nat, fractional: nat, one: nat, f: int) {
    (dec * Pow(10, exp) + integral) * one + fractional == f
  }

  /** Behind the decimal point the value and its error are scaled up instead. */
  ghost predicate Part(dec: int, k: nat, fractional: nat, one: nat, f: int) {
    dec * one + fractional == f * Pow(10, k)
  }

  lemma IntegralStep(dec: int, exp: nat, integral: nat, fractional: nat, one: nat, f: int)
    requires exp > 0 && integral < Pow(10, exp) && Whole(dec, exp, integral, fractional, one, f)
    requires fractional < one
    ensures var p := Pow(10, exp - 1);
            var digit, rest := integral / p, integral % p;
            && 0 <= digit < 10 && 0 <= rest < p
            && Whole(10 * dec + digit, exp - 1, rest, fractional, one, f)
            && 0 <= rest * one + fractional < p * one
            && (10 * dec + digit) * (p * one) + (rest * one + fractional) == f
  {
    var p := Pow(10, exp - 1);
    PowPos(10, exp - 1);
    var digit, rest := integral / p, integral % p;
    OneDigit(integral, p);
    SplitDigit(dec, digit, rest, integral, p, one);
    BelowUnit(rest, fractional, p, one);
  }

  lemma OneDigit(x: nat, p: nat)
    requires p > 0 && x < 10 * p
    ensures 0 <= x / p < 10 && 0 <= x % p < p && x == x / p * p + x % p
  {
    var q := x / p;
    if q >= 10 { MulMono(10, q, p); }
  }

  lemma SplitDigit(dec: int, digit: int, rest: int, integral: int, p: int, one: int)
    requires integral == digit * p + rest
    ensures dec * (10 * p) + integral == (10 * dec + digit) * p + rest
    ensures ((10 * dec + digit) * p + rest) * one == (10 * dec + digit) * (p * one) + rest * one
  {
    MulAssoc(dec, 10, p);
    Distribute(10 * dec, digit, p);
    Distribute((10 * dec + digit) * p, rest, one);
    MulAssoc(10 * dec + digit, p, one);
  }

  lemma BelowUnit(rest: nat, fractional: nat, p: nat, one: nat)
    requires rest < p && fractional < one
    ensures 0 <= rest * one + fractional < p * one
  {
    MulMono(rest + 1, p, one);
    Distribute(rest, 1, one);
  }

  lemma FractionStep(dec: int, k: nat, fractional: nat, one: nat, f: int)
    requires fractional < one && Part(dec, k, fractional, one, f)
    ensures var x := fractional * 10;
            var digit, rest := x / one, x % one;
            0 <= digit < 10 && 0 <= rest < one && Part(10 * dec + digit, k + 1, rest, one, f)
  {
    var x := fractional * 10;
    var digit, rest := x / one, x % one;
    OneDigit(x, one);
    MulAssoc(f, Pow(10, k), 10);
    MulAssoc(dec, one, 10);
    MulAssoc(dec, 10, one);
    Distribute(10 * dec, digit, one);
  }

  /** The result of the whole generation, for a value f with an error of one unit in the last place. */
  ghost predicate Generated(buf: seq<char>, exp: int, up: int, fixed: bool, precision: int, f: nat, one: nat) {
    && AllDigits(buf) && 0 <= up <= 1 && (fixed ==> up == 0)
    && (buf == [] ==> fixed && precision < 0 && exp >= 0 && Safe(0, 10 * (Pow(10, exp) * one), f, 1))
    && (buf != [] ==>
          Sized(buf, fixed, precision) &&
          if exp >= 0 then Safe(Decimal(buf), (if up == 1 then 10 else 1) * (Pow(10, exp) * one), f, 1)
          else Safe(Decimal(buf), (if up == 1 then 10 else 1) * one, f * Pow(10, -exp), Pow(10, -exp)))
  }

  /** As many digits as the precision, but at least one; and one more after a carry in a fixed format. */
  ghost predicate Sized(buf: seq<char>, fixed: bool, precision: int) {
    var n := if precision > 1 then precision else 1;
    |buf| == n || (fixed && |buf| == n + 1 && Decimal(buf) == Pow(10, n))
  }

  /**
   The state in which the generation is refused: before the first digit, because the value is
   in doubt between zero and one unit; or at a digit, with what remains of the value behind it.
   */
  ghost predicate Refused(buf: seq<char>, exp: int, precision: int, f: nat, one: nat) {
    if buf == [] then exp > 0 && precision == 0 && InDoubt(Pow(10, exp - 1) * one, f / 10, 10)
    else if exp >= 0 then RefusedAt(buf, precision, Pow(10, exp) * one, f, 1, true)
    else RefusedAt(buf, precision, one, f * Pow(10, -exp), Pow(10, -exp), false)
  }

  /**
   Generates decimal digits of f / 2^-e. The last digit has the weight 10^exp. A result that
   is not a failure is within half a unit of every value that f may stand for; a failure
   leaves exp and the number of digits adding up to the length of the integral part.
   */
  method GrisuGenDigits(f: Word64, e: int, handler: FixedHandler) returns (result: Outcome, exp: int)
    requires -60 <= e <= -32 && Pow(2, -e) > 0 && f / Pow(2, -e) > 0
    requires handler.buf == []
    modifies handler
    ensures result != More
    ensures result == Done ==>
              Generated(handler.buf, exp, handler.exp10 - old(handler.exp10), handler.fixed, handler.precision, f, Pow(2, -e))
    ensures result == Failed ==> exp + |handler.buf| == |Printed(f / Pow(2, -e))| && handler.exp10 == old(handler.exp10)
    ensures result == Failed ==> Refused(handler.buf, exp, handler.precision, f, Pow(2, -e))
    ensures handler.precision == if handler.fixed
                                 then old(handler.precision) + |Printed(f / Pow(2, -e))| + old(handler.exp10)
                                 else old(handler.precision)
  {
    var one := Pow(2, -e);
    OneRange(-e);
    var integral: nat, fractional: nat := f / one, f % one;
    exp := FastCount(integral);
    FastCountCorrect(integral);
    PrintedIsDecimal(integral);
    StartFits(f, one, integral, exp);
    result := handler.OnStart(Pow(10, exp - 1) * one, f / 10, 10, exp);
    if result != More {
      if result == Done { StartSafe(handler.buf, handler.precision, f, one, exp); }
      return;
    }
    ghost var kappa, precision, exp10 := exp, handler.precision, handler.exp10;
    result, exp, fractional := IntegralDigits(f, one, integral, fractional, exp, handler);
    if result != More { return; }
    result, exp := FractionalDigits(f, one, fractional, handler);
  }

  lemma OneRange(k: nat)
    requires 32 <= k <= 60
    ensures TWO32 <= Pow(2, k) <= Pow(2, 60) == 0x1000_0000_0000_0000
  {
    PowTwo32();
    PowAdd(2, 32, 16);
    assert Pow(2, 12) == 4096;
    PowAdd(2, 48, 12);
    PowMono(2, 32, k);
    PowMono(2, k, 60);
  }

  lemma StartFits(f: Word64, one: nat, integral: nat, exp: nat)
    requires TWO32 <= one && integral == f / one && exp > 0 && Pow(10, exp - 1) <= integral < Pow(10, exp)
    ensures 0 <= Pow(10, exp - 1) * one <= f < Pow(10, exp) * one
    ensures f / 10 < Pow(10, exp - 1) * one && 10 < Pow(10, exp - 1) * one - 10
    ensures Whole(0, exp, integral, f % one, one, f)
  {
    var p := Pow(10, exp - 1);
    PowPos(10, exp - 1);
    assert f == integral * one + f % one;
    MulUpto(p, integral, one);
    MulMono(integral + 1, 10 * p, one);
    Distribute(integral, 1, one);
    MulAssoc(10, p, one);
    MulMono(1, p, one);
  }

  /** The decision made on a tenth of the value is safe for the value. */
  lemma StartSafe(buf: seq<char>, precision: int, f: Word64, one: nat, exp: nat)
    requires one >= TWO32 && exp > 0 && f < Pow(10, exp) * one
    requires precision <= 0 && (precision < 0 <==> buf == [])
    requires precision == 0 ==>
               (buf == "0" && 2 * (f / 10 + 10) <= Pow(10, exp - 1) * one) ||
               (buf == "1" && 2 * (f / 10 - 10) >= Pow(10, exp - 1) * one)
    ensures Generated(buf, exp, 0, true, precision, f, one)
  {
    var unit := Pow(10, exp) * one;
    MulAssoc(10, Pow(10, exp - 1), one);
    if precision == 0 {
      DecimalSnoc([], buf[0]);
      assert [] + [buf[0]] == buf;
    }
  }

  lemma UnitFits(f: Word64, one: nat, exp: nat, kappa: nat)
    requires exp < kappa && one > 2 && Pow(10, kappa - 1) * one <= f
    ensures 2 < Pow(10, exp) * one < TWO64
  {
    PowMono(10, exp, kappa - 1);
    MulUpto(Pow(10, exp), Pow(10, kappa - 1), one);
    MulUpto(1, Pow(10, exp), one);
  }

  /** The state between two digits before the decimal point. */
  ghost predicate Ongoing(buf: seq<char>, exp: nat, integral: nat, fractional: nat, one: nat, f: int, kappa: nat, precision: int) {
    && exp <= kappa && integral < Pow(10, exp) && AllDigits(buf) && |buf| + exp == kappa
    && Whole(Decimal(buf), exp, integral, fractional, one, f)
    && (buf == [] || |buf| < precision)
  }

  /** One digit before the decimal point. */
  method IntegralDigit(f: Word64, one: Word64, integral: nat, fractional: nat, exp: nat, handler: FixedHandler, ghost kappa: nat)
    returns (result: Outcome, rest: nat)
    requires TWO32 <= one && fractional < one && 0 < exp <= kappa && Pow(10, kappa - 1) * one <= f
    requires Ongoing(handler.buf, exp, integral, fractional, one, f, kappa, handler.precision)
    modifies handler
    ensures handler.precision == old(handler.precision)
    ensures result == Done ==>
              Generated(handler.buf, exp - 1, handler.exp10 - old(handler.exp10), handler.fixed, handler.precision, f, one)
    ensures result == Failed ==> exp - 1 + |handler.buf| == kappa && handler.exp10 == old(handler.exp10)
    ensures result == Failed ==> |handler.buf| > 0 && Refused(handler.buf, exp - 1, handler.precision, f, one)
    ensures result == More ==> 0 < |handler.buf| < handler.precision && handler.exp10 == old(handler.exp10)
    ensures result == More ==> Ongoing(handler.buf, exp - 1, rest, fractional, one, f, kappa, handler.precision)
  {
    ghost var digits := handler.buf;
    IntegralStep(Decimal(digits), exp, integral, fractional, one, f);
    UnitFits(f, one, exp - 1, kappa);
    var p := Pow(10, exp - 1);
    PowPos(10, exp - 1);
    var digit := integral / p;
    rest := integral % p;
    var remainder := rest * one + fractional;
    result := handler.OnDigit(DigitChar(digit), p * one, remainder, 1, true, f);
    if result == Done {
      WholeDone(handler.buf, |digits| + 1, exp - 1, handler.exp10 - old(handler.exp10), handler.fixed, handler.precision, f, one);
    }
    DecimalSnoc(digits, DigitChar(digit));
  }

  /** The digits before the decimal point; at most ten. */
  method IntegralDigits(f: Word64, one: Word64, start: nat, fractional: nat, kappa: nat, handler: FixedHandler)
    returns (result: Outcome, exp: int, rest: nat)
    requires TWO32 <= one && fractional < one && kappa > 0 && start < Pow(10, kappa)
    requires Whole(0, kappa, start, fractional, one, f) && handler.buf == []
    requires Pow(10, kappa - 1) * one <= f
    modifies handler
    ensures handler.precision == old(handler.precision)
    ensures result == Done ==>
              Generated(handler.buf, exp, handler.exp10 - old(handler.exp10), handler.fixed, handler.precision, f, one)
    ensures result == Failed ==> exp + |handler.buf| == kappa && handler.exp10 == old(handler.exp10)
    ensures result == Failed ==> |handler.buf| > 0 && Refused(handler.buf, exp, handler.precision, f, one)
    ensures result == More ==> |handler.buf| < handler.precision
    ensures result == More ==>
              && exp == 0 && rest == fractional && Part(Decimal(handler.buf), 0, rest, one, f)
              && AllDigits(handler.buf) && |handler.buf| == kappa && handler.exp10 == old(handler.exp10)
  {
    var integral: nat := start;
    exp, rest := kappa, fractional;
    while exp > 0
      invariant exp >= 0 && Ongoing(handler.buf, exp, integral, fractional, one, f, kappa, handler.precision)
      invariant handler.exp10 == old(handler.exp10) && handler.precision == old(handler.precision)
      invariant exp < kappa ==> handler.buf != []
    {
      result, integral := IntegralDigit(f, one, integral, fractional, exp, handler, kappa);
      exp := exp - 1;
      if result != More { return; }
    }
    return More, 0, fractional;
  }

  lemma WholeDone(buf: seq<char>, n: nat, exp: nat, up: int, fixed: bool, precision: int, f: nat, one: nat)
    requires n == 1 || (n > 0 && n - 1 < precision)
    requires Pow(10, exp) * one >= 0 && Rounded(buf, n, up, fixed, precision, Pow(10, exp) * one, f, 1)
    ensures Generated(buf, exp, up, fixed, precision, f, one)
  {}

  lemma PartDone(buf: seq<char>, n: nat, exp: int, up: int, fixed: bool, precision: int, f: nat, one: nat, error: nat)
    requires exp < 0 && error == Pow(10, -exp) && n > 0 && n - 1 < precision
    requires Rounded(buf, n, up, fixed, precision, one, f * Pow(10, -exp), error)
    ensures Generated(buf, exp, up, fixed, precision, f, one)
  {}

  /** Moves the next digit out of the fraction. */
  method ShiftDigit(fractional: nat, one: nat, ghost dec: int, ghost k: nat, ghost f: int) returns (c: char, rest: nat)
    requires fractional < one <= 0x1000_0000_0000_0000 && Part(dec, k, fractional, one, f)
    ensures IsDigit(c) && rest < one && Part(10 * dec + CharValue(c), k + 1, rest, one, f)
  {
    FractionStep(dec, k, fractional, one, f);
    Fits(fractional * 10);
    var x := U64(fractional * 10);
    c := DigitChar(x / one);
    rest := x % one;
  }

  /** The digits behind the decimal point; the error grows tenfold until it decides. */
  method FractionalDigits(f: Word64, one: Word64, start: nat, handler: FixedHandler) returns (result: Outcome, exp: int)
    requires 2 < one <= 0x1000_0000_0000_0000 && start < one
    requires Part(Decimal(handler.buf), 0, start, one, f) && AllDigits(handler.buf)
    requires 0 < |handler.buf| < handler.precision
    modifies handler
    ensures handler.precision == old(handler.precision) && result != More
    ensures result == Done ==>
              Generated(handler.buf, exp, handler.exp10 - old(handler.exp10), handler.fixed, handler.precision, f, one)
    ensures result == Failed ==> exp + |handler.buf| == old(|handler.buf|) && handler.exp10 == old(handler.exp10)
    ensures result == Failed ==> |handler.buf| > 0 && Refused(handler.buf, exp, handler.precision, f, one)
  {
    var fractional: nat, error: nat := start, 1;
    exp := 0;
    while true
      invariant exp <= 0 && fractional < one && error == Pow(10, -exp) && 0 < error < one
      invariant Part(Decimal(handler.buf), -exp, fractional, one, f)
      invariant AllDigits(handler.buf) && |handler.buf| + exp == old(|handler.buf|)
      invariant 0 < |handler.buf| < handler.precision
      invariant handler.exp10 == old(handler.exp10) && handler.precision == old(handler.precision)
      decreases one - error
    {
      ghost var k := -exp;
      var c, rest := ShiftDigit(fractional, one, Decimal(handler.buf), k, f);
      Fits(error * 10);
      fractional, error, exp := rest, U64(error * 10), exp - 1;
      DecimalSnoc(handler.buf, c);
      ghost var n := |handler.buf| + 1;
      result := handler.OnDigit(c, one, fractional, error, false, f * Pow(10, k + 1));
      if result == Done {
        PartDone(handler.buf, n, exp, handler.exp10 - old(handler.exp10), handler.fixed, handler.precision, f, one, error);
      }
      if result != More { return; }
    }
  }
}
