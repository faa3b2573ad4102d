/** The fixed-precision results of the exact digit generator, stated about the value f * 2^e. */
module FormatFixed {
  import opened Arith
  import opened BigInteger
  import opened Rounding
  import opened FallbackFormat

  /** Inputs the callers provide: a nonzero value below 10^(exp10 + 1). */
  ghost predicate Admissible(f: nat, e: int, exp10: int) {
    && 0 < f < TWO64 / 4 && -0x4000_0000 < exp10 < 0x4000_0000 && (e >= 0 ==> exp10 >= 0)
    && ScaledNum(f, e, exp10) < 10 * ScaledDen(e, exp10)
  }

  /** `buf` is a string of digits that, in units of 10^exp, is the value rounded half to even. */
  ghost predicate Correct(buf: seq<char>, exp: int, f: nat, e: int) {
    AllDigits(buf) && RoundsTo(Decimal(buf), ScaledNum(f, e, exp), ScaledDen(e, exp))
  }

  /**
   n digits. The result is the correctly rounded value, or twice the value if the set-up
   doubled it. For a decimal exponent that is not too large either, a doubled set-up never
   gives a correct result; without digits to generate it does unless the value is between a
   quarter and a half.
   */
  method FormatFixed(f: nat, e: int, closer: bool, n: nat, exp10: int) returns (buf: seq<char>, exp: int)
    requires Admissible(f, e, exp10)
    ensures |buf| == if n == 0 then 1 else n
    ensures n == 0 ==> exp == exp10 + 1
    ensures n == 0 ==> buf == if 2 * Factor(e, closer) * ScaledNum(f, e, exp) > ScaledDen(e, exp) then "1" else "0"
    ensures n > 0 ==> exp10 - n + 1 <= exp <= exp10 - n + 2
    ensures !Doubled(e, closer) ==> Correct(buf, exp, f, e)
    ensures Doubled(e, closer) && 2 * ScaledNum(f, e, exp10) < 10 * ScaledDen(e, exp10) ==>
              AllDigits(buf) && RoundsTo(Decimal(buf), 2 * ScaledNum(f, e, exp), ScaledDen(e, exp))
    ensures n > 0 && ScaledNum(f, e, exp10) >= ScaledDen(e, exp10) ==>
              (Correct(buf, exp, f, e) <==> !Doubled(e, closer))
    ensures n == 0 && Doubled(e, closer) ==>
              (Correct(buf, exp, f, e) <==>
               4 * ScaledNum(f, e, exp) <= ScaledDen(e, exp) || 2 * ScaledNum(f, e, exp) > ScaledDen(e, exp))
  {
    var numerator, denominator, lower, upperStore := SetUp(f, e, closer, exp10);
    ghost var start, d, k := numerator.Val(), denominator.Val(), Factor(e, closer);
    StartFraction(f, e, closer, exp10);
    StartBounds(start, d, k, f, e, exp10);
    exp := exp10 - (n - 1);
    if n == 0 {
      denominator.MulAssign32(10);
      var result := Bigint.AddCompare(numerator, numerator, denominator);
      buf := if result > 0 then "1" else "0";
      ZeroOutcome(buf, start, d, f, e, closer, exp10);
      return;
    }
    var bump: bool;
    buf, bump := FixedDigits(numerator, denominator, n);
    if bump { exp := exp + 1; }
    FixedMeans(buf, bump, start, d, k, f, e, exp10, n);
    if k == 2 && ScaledNum(f, e, exp10) >= ScaledDen(e, exp10) {
      DoubledIsWrong(buf, bump, start, d, f, e, exp10, n);
    }
  }

  lemma StartBounds(start: nat, d: nat, k: nat, f: nat, e: int, x: int)
    requires 1 <= k <= 2 && Stands(start, d, k, f, e, x)
    requires ScaledNum(f, e, x) < 10 * ScaledDen(e, x)
    ensures start < 20 * d
    ensures k * ScaledNum(f, e, x) < 10 * ScaledDen(e, x) <==> start < 10 * d
  {
    var a, b := k * ScaledNum(f, e, x), ScaledDen(e, x);
    ScaledDenPos(e, x);
    FractionBelow(start, d, a, b, 20);
    FractionBelow(start, d, a, b, 10);
  }

  /** Equal fractions are below the same bounds. */
  lemma FractionBelow(num: int, den: nat, a: int, b: nat, m: nat)
    requires den > 0 && b > 0 && num * b == a * den
    ensures num < m * den <==> a < m * b
  {
    MulAssoc(m, den, b);
    MulAssoc(m, b, den);
    if num < m * den {
      MulStrict(num, m * den, b);
      MulCancelLt(a, m * b, den);
    }
    if a < m * b {
      MulStrict(a, m * b, den);
      MulCancelLt(num, m * den, b);
    }
  }

  /** What `FixedDigits` returned, in units of the final exponent. */
  lemma FixedMeans(buf: seq<char>, bump: bool, start: nat, d: nat, k: nat, f: nat, e: int, x: int, n: nat)
    requires n > 0 && Stands(start, d, k, f, e, x) && FixedResult(buf, bump, start, d, n)
    ensures var exp := x - (n - 1) + (if bump then 1 else 0);
            start < 10 * d ==> AllDigits(buf) && RoundsTo(Decimal(buf), k * ScaledNum(f, e, exp), ScaledDen(e, exp))
  {
    var y := x - (n - 1);
    var num := start * Pow(10, n - 1);
    StandsFiner(start, d, k, f, e, x, n - 1);
    if bump {
      StandsCoarser(num, d, k, f, e, y);
      ScaledDenPos(e, y + 1);
      RoundsToScaled(Decimal(buf), num, 10 * d, k * ScaledNum(f, e, y + 1), ScaledDen(e, y + 1));
    } else {
      ScaledDenPos(e, y);
      RoundsToScaled(Decimal(buf), num, d, k * ScaledNum(f, e, y), ScaledDen(e, y));
    }
  }

  lemma ZeroDigits(buf: seq<char>, start: nat, d: nat, k: nat, f: nat, e: int, x: int)
    requires 1 <= k <= 2 && Stands(start, d, k, f, e, x)
    requires buf == if 2 * start > d * 10 then "1" else "0"
    ensures buf == if 2 * k * ScaledNum(f, e, x + 1) > ScaledDen(e, x + 1) then "1" else "0"
    ensures start < 10 * d ==> AllDigits(buf) && RoundsTo(Decimal(buf), k * ScaledNum(f, e, x + 1), ScaledDen(e, x + 1))
  {
    StandsCoarser(start, d, k, f, e, x);
    ScaledDenPos(e, x + 1);
    var a, b := k * ScaledNum(f, e, x + 1), ScaledDen(e, x + 1);
    RoundsToScaled(Decimal(buf), start, 10 * d, a, b);
    MulAssoc(2, k, ScaledNum(f, e, x + 1));
    MulAssoc(2, start, b);
    MulAssoc(2, a, 10 * d);
    SameSide(2 * start, 10 * d, 2 * a, b);
    OneDigit(buf);
  }

  /** A value below ten is below one in the next unit. */
  lemma BelowOne(f: nat, e: int, x: int)
    requires ScaledNum(f, e, x) < 10 * ScaledDen(e, x)
    ensures 0 <= ScaledNum(f, e, x + 1) < ScaledDen(e, x + 1)
  {
    NatProduct(f, Pow(2, Max0(e)), Pow(10, Max0(-x - 1)));
    var num, den := ScaledNum(f, e, x), ScaledDen(e, x);
    ScaledDenPos(e, x);
    ScaledDenPos(e, x + 1);
    NatProduct(f, Pow(2, Max0(e)), Pow(10, Max0(-x)));
    StandsCoarser(num, den, 1, f, e, x);
    FractionBelow(num, 10 * den, ScaledNum(f, e, x + 1), ScaledDen(e, x + 1), 1);
  }

  lemma NatProduct(a: nat, b: nat, c: nat)
    ensures a * b * c >= 0
  {
    assert a * b >= 0;
  }

  lemma OneDigit(buf: seq<char>)
    requires buf == "0" || buf == "1"
    ensures AllDigits(buf) && Decimal(buf) == if buf == "1" then 1 else 0
  {
    DecimalSnoc([], buf[0]);
    assert [] + [buf[0]] == buf;
  }

  /** When a decision between zero and one is right although the value was doubled for it. */
  lemma DoubledZero(q: int, a: int, b: int)
    requires 0 <= a < b && q == if 2 * 2 * a > b then 1 else 0
    ensures RoundsTo(q, a, b) <==> 4 * a <= b || 2 * a > b
  {
    assert q * b == if q == 1 then b else 0;
  }

  lemma ZeroOutcome(buf: seq<char>, start: nat, d: nat, f: nat, e: int, closer: bool, x: int)
    requires Admissible(f, e, x) && Stands(start, d, Factor(e, closer), f, e, x)
    requires buf == if 2 * start > d * 10 then "1" else "0"
    ensures var a, b := ScaledNum(f, e, x + 1), ScaledDen(e, x + 1);
            buf == (if 2 * Factor(e, closer) * a > b then "1" else "0") && AllDigits(buf) &&
            (!Doubled(e, closer) ==> Correct(buf, x + 1, f, e)) &&
            (Doubled(e, closer) && 2 * ScaledNum(f, e, x) < 10 * ScaledDen(e, x) ==> RoundsTo(Decimal(buf), 2 * a, b)) &&
            (Doubled(e, closer) ==> (Correct(buf, x + 1, f, e) <==> 4 * a <= b || 2 * a > b))
  {
    var k := Factor(e, closer);
    ZeroDigits(buf, start, d, k, f, e, x);
    StartBounds(start, d, k, f, e, x);
    BelowOne(f, e, x);
    OneDigit(buf);
    if k == 2 {
      DoubledZero(Decimal(buf), ScaledNum(f, e, x + 1), ScaledDen(e, x + 1));
    }
  }

  /**
   2^60 is a double whose predecessor is closer. In 25 digits it is 1152921504606846976
   and six zeros; the doubled set-up yields the digits of 2^61.
   */
  lemma DoubledExample()
    ensures Admissible(0x10_0000_0000_0000, 8, 18) && Doubled(8, true)
    ensures RoundsTo(1152921504606846976_000000, ScaledNum(0x10_0000_0000_0000, 8, 18 - 24), ScaledDen(8, 18 - 24))
    ensures RoundsTo(2305843009213693952_000000, 2 * ScaledNum(0x10_0000_0000_0000, 8, 18 - 24), ScaledDen(8, 18 - 24))
    ensures !RoundsTo(2305843009213693952_000000, ScaledNum(0x10_0000_0000_0000, 8, 18 - 24), ScaledDen(8, 18 - 24))
  {
    PowTwo32();
    assert Pow(10, 6) == 1000000 && Pow(10, 9) == 1000000000;
    PowAdd(10, 9, 9);
    assert Pow(2, 8) == 256;
  }

  // ----- why doubling is never right

  lemma DoubledIsWrong(buf: seq<char>, bump: bool, start: nat, d: nat, f: nat, e: int, x: int, n: nat)
    requires n > 0 && Stands(start, d, 2, f, e, x) && FixedResult(buf, bump, start, d, n)
    requires ScaledDen(e, x) <= ScaledNum(f, e, x) < 10 * ScaledDen(e, x)
    ensures !Correct(buf, x - (n - 1) + (if bump then 1 else 0), f, e)
  {
    var a, b, t, y := ScaledNum(f, e, x), ScaledDen(e, x), Pow(10, n - 1), x - (n - 1);
    var q := Decimal(buf);
    ScaledDenPos(e, x);
    PowPos(10, n - 1);
    FractionBelow(start, d, 2 * a, b, 10);
    FractionBelow(start, d, 2 * a, b, 11);
    ValueAt(q, a, b, f, e, x, n, bump);
    if start < 10 * d {
      DoubleAt(q, start, d, a, b, t, bump);
      MulGrows(a, t);
      if bump { BumpedDouble(a, b, t); } else { PlainDouble(q, a * t, b); }
    } else if AllDigits(buf) {
      assert buf == [buf[0]] + buf[1..];
      DecimalConcat([buf[0]], buf[1..]);
      DecimalSnoc([], buf[0]);
      assert [] + [buf[0]] == [buf[0]];
      DecimalRange(buf[1..]);
      assert t == 10 * Pow(10, n - 2);
      PowPos(10, n - 2);
      OverflownDouble(q, a, b, t);
    }
  }

  /** Correctness in units of the final exponent, spelled with the fraction at exponent x. */
  lemma ValueAt(q: int, a: nat, b: nat, f: nat, e: int, x: int, n: nat, bump: bool)
    requires n > 0 && a == ScaledNum(f, e, x) && b == ScaledDen(e, x) > 0
    ensures var exp := x - (n - 1) + (if bump then 1 else 0);
            RoundsTo(q, ScaledNum(f, e, exp), ScaledDen(e, exp)) <==>
            RoundsTo(q, a * Pow(10, n - 1), if bump then 10 * b else b)
  {
    var y := x - (n - 1);
    assert Stands(a, b, 1, f, e, x);
    StandsFiner(a, b, 1, f, e, x, n - 1);
    StandsCoarser(a * Pow(10, n - 1), b, 1, f, e, y);
    ScaledDenPos(e, y);
    ScaledDenPos(e, y + 1);
    RoundsToScaled(q, a * Pow(10, n - 1), b, ScaledNum(f, e, y), ScaledDen(e, y));
    RoundsToScaled(q, a * Pow(10, n - 1), 10 * b, ScaledNum(f, e, y + 1), ScaledDen(e, y + 1));
  }

  lemma DoubleAt(q: int, start: nat, d: nat, a: nat, b: nat, t: nat, bump: bool)
    requires d > 0 && b > 0 && start * b == 2 * a * d
    requires RoundsTo(q, start * t, if bump then 10 * d else d)
    ensures RoundsTo(q, 2 * (a * t), if bump then 10 * b else b)
  {
    MulAssoc(start, t, b);
    MulAssoc(start, b, t);
    MulAssoc(2 * a, d, t);
    MulAssoc(2 * a, t, d);
    MulAssoc(2, a, t);
    RoundsToScaled(q, start * t, d, 2 * (a * t), b);
    RoundsToScaled(q, start * t, 10 * d, 2 * (a * t), 10 * b);
  }

  lemma PlainDouble(q: int, x: int, b: int)
    requires 0 < b <= x && RoundsTo(q, 2 * x, b)
    ensures !RoundsTo(q, x, b)
  {
    if RoundsTo(q, x, b) {
      assert x == b;
      Distribute(q, 2, b);
      Distribute(q, 1, b);
      if q >= 2 { MulMono(1, q - 1, b); } else { MulMono(q - 2, -1, b); }
    }
  }

  lemma BumpedDouble(a: int, b: int, t: nat)
    requires 0 < b && 2 * a < 10 * b && t >= 1
    ensures !RoundsTo(t, a * t, 10 * b)
  {
    Distribute(10 * b, a, t);
    MulUpto(1, t, 10 * b - a);
  }

  lemma OverflownDouble(q: int, a: int, b: int, t: nat)
    requires 0 < b && 2 * a < 11 * b && t >= 10 && q >= t
    ensures !RoundsTo(q, a * t, 10 * b)
  {
    Distribute(10 * b, a, t);
    MulMono(t, q, 10 * b);
    MulUpto(10, t, 10 * b - a);
  }
}
