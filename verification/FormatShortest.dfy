/** The shortest-digits loop of the exact digit generator. */
module FormatShortest {
  import opened Arith
  import Positional
  import opened BigInteger
  import opened Rounding
  import opened FallbackFormat

  /** The upper half-gap in units of the lower one. */
  function UpperUnits(closer: bool): nat { if closer then 2 else 1 }

  /**
   m, at `places` decimal places, lies between the boundaries start - low and start + up of the
   fraction start / d. For an even significand it may lie on the upper one, and if `ties`, on
   the lower one as well.
   */
  ghost predicate Accepted(m: int, places: nat, start: nat, low: nat, up: nat, d: nat, even: bool, ties: bool) {
    var p := Pow(10, places);
    ((start - low) * p < m * d || (even && ties && (start - low) * p == m * d)) &&
    (m * d < (start + up) * p || (even && m * d == (start + up) * p))
  }

  /** The numbers of the loop after n digits, with p = 10^n. */
  ghost predicate Scaled(start: nat, low: nat, up: nat, d: nat, dec: int, n: nat, num: nat, l: nat, u: nat) {
    start * Pow(10, n) == dec * (10 * d) + num && l == low * Pow(10, n) && u == up * Pow(10, n)
  }

  ghost predicate Bounded(num: nat, u: nat, d: nat, even: bool) {
    if even then num + u < 10 * d else num + u <= 10 * d
  }

  /** If neither boundary is reached, no number with this many digits is accepted. */
  lemma NoneAccepted(start: nat, low: nat, up: nat, d: nat, dec: int, n: nat, r: nat, l: nat, u: nat, even: bool,
                     ties: bool, m: int)
    requires d > 0 && start * Pow(10, n) == dec * d + r
    requires l == low * Pow(10, n) && u == up * Pow(10, n)
    requires if even && ties then r > l else r >= l
    requires if even then r + u < d else r + u <= d
    ensures !Accepted(m, n, start, low, up, d, even, ties)
  {
    Distribute(start, low, Pow(10, n));
    Distribute(start, up, Pow(10, n));
    if m <= dec { MulMono(m, dec, d); } else { MulMono(dec + 1, m, d); Distribute(dec, 1, d); }
  }

  /** The number finally printed is accepted. */
  lemma PrintedAccepted(start: nat, low: nat, up: nat, d: nat, dec: int, n: nat, r: nat, l: nat, u: nat, inc: bool,
                        even: bool, ties: bool)
    requires d > 0 && start * Pow(10, n) == dec * d + r && r < d
    requires l == low * Pow(10, n) && u == up * Pow(10, n) && l > 0 && u > 0
    requires !inc ==> r < l || (even && ties && r == l)
    requires inc ==> r + u > d || (even && r + u == d)
    ensures Accepted(if inc then dec + 1 else dec, n, start, low, up, d, even, ties)
  {
    Distribute(start, low, Pow(10, n));
    Distribute(start, up, Pow(10, n));
    Distribute(dec, 1, d);
  }

  /** A last digit 9 is never incremented: the upper boundary is below the next power of ten. */
  lemma NoNine(num: nat, digit: nat, r: nat, u: nat, d: nat, even: bool, high: bool, inc: bool)
    requires num == digit * d + r && Bounded(num, u, d, even) && u > 0
    requires high ==> r + u > d || (even && r + u == d)
    requires inc ==> high
    ensures digit <= 9 && (inc ==> digit < 9)
  {
    if digit >= 10 { MulMono(10, digit, d); }
  }

  /** The two boundary tests of the loop. Equality with the lower boundary is seen if the exponents agree. */
  method Boundaries(numerator: Bigint, denominator: Bigint, lower: Bigint, upper: Bigint, even: bool)
    returns (low: bool, high: bool)
    requires numerator.Valid() && denominator.Valid() && lower.Valid() && upper.Valid()
    requires numerator.Val() < denominator.Val() && numerator.exp <= lower.exp
    requires numerator.Val() == 0 ==> numerator.exp <= denominator.exp
    requires lower.Val() > 0 && upper.Val() > 0
    ensures low <==> numerator.Val() < lower.Val() ||
                     (even && numerator.Val() == lower.Val() && numerator.exp == lower.exp)
    ensures high <==> numerator.Val() + upper.Val() > denominator.Val() ||
                      (even && numerator.Val() + upper.Val() == denominator.Val())
  {
    SizeFits(numerator.bigits, numerator.exp, denominator.bigits, denominator.exp);
    ZeroIsShort(numerator, lower);
    var e := if even then 1 else 0;
    var c := Bigint.Compare(numerator, lower);
    low := c - e < 0;
    var sum := Bigint.AddCompare(numerator, upper, denominator);
    high := sum + e > 0;
  }

  lemma ZeroIsShort(numerator: Bigint, lower: Bigint)
    requires numerator.Valid() && lower.Valid() && numerator.exp <= lower.exp
    ensures numerator.Val() == 0 ==> numerator.NumBigits() <= lower.NumBigits()
  {
    Positional.ValueRange(numerator.bigits, numerator.exp);
  }

  method NextNumbers(numerator: Bigint, denominator: Bigint, lower: Bigint, upper: Bigint, ghost start: nat, ghost i: nat)
    requires numerator != lower && numerator != upper && denominator != lower && denominator != upper
    requires Steady(numerator, denominator, start, i) && lower.Valid() && upper.Valid()
    modifies numerator, lower, upper
    ensures Steady(numerator, denominator, start, i + 1) && lower.Valid() && upper.Valid()
    ensures numerator.Val() == 10 * old(numerator.Val()) && lower.Val() == 10 * old(lower.Val())
    ensures upper.Val() == 10 * old(upper.Val())
    ensures numerator.exp == old(numerator.exp) && lower.exp == old(lower.exp)
  {
    TimesTen(numerator, denominator, start, i);
    lower.MulAssign32(10);
    if upper != lower {
      upper.MulAssign32(10);
    }
  }

  /** What holds of the digits so far and the numbers at the head of the loop. */
  ghost predicate Progress(buf: seq<char>, start: nat, low: nat, up: nat, d: nat, even: bool, ties: bool, num: nat,
                           l: nat, u: nat) {
    && Scaled(start, low, up, d, Decimal(buf), |buf|, num, l, u)
    && Bounded(num, u, d, even) && 0 < l <= u
    && AllDigits(buf)
    && forall m, j :: 0 <= j < |buf| ==> !Accepted(m, j, start, low, up, d, even, ties)
  }

  /**
   The exponents of the numerator, the lower boundary and the denominator after some digits.
   The numerator takes that of the denominator with the first digit that is not zero, if that
   is the lower one.
   */
  ghost predicate Exponents(numExp: nat, lowExp: nat, denExp: nat, dec: int, ties: bool) {
    if ties then numExp == lowExp <= denExp
    else denExp < lowExp && numExp <= lowExp && (dec != 0 ==> numExp <= denExp)
  }

  /** Where the rest equals the lower boundary, that is seen if and only if `ties`. */
  lemma TiesSeen(start: nat, low: nat, d: nat, dec: int, n: nat, r: nat, l: nat, numExp: nat, lowExp: nat,
                 denExp: nat, ties: bool)
    requires start * Pow(10, n) == dec * d + r && l == low * Pow(10, n) && low < start
    requires Exponents(numExp, lowExp, denExp, dec, ties)
    ensures r == l ==> (numExp == lowExp <==> ties)
  {
    PowPos(10, n);
    MulStrict(low, start, Pow(10, n));
  }

  ghost function Distance(x: int, y: int): nat { if x < y then y - x else x - y }

  /**
   Of the two candidates with this many digits the nearer one is printed, unless it is not
   accepted; and no other number is nearer than both.
   */
  lemma PrintedNearest(start: nat, low: nat, up: nat, d: nat, dec: int, n: nat, r: nat, l: nat, u: nat, even: bool,
                       ties: bool,
                       isLow: bool, isHigh: bool, inc: bool, m: int)
    requires d > 0 && start * Pow(10, n) == dec * d + r && r < d
    requires l == low * Pow(10, n) && l <= u
    requires (isLow || isHigh) && (isLow <==> r < l || (even && ties && r == l)) && (!isHigh ==> r + u <= d)
    requires if isLow && isHigh then (if inc then 2 * r >= d else 2 * r <= d) else inc == isHigh
    requires Accepted(m, n, start, low, up, d, even, ties)
    ensures Distance((if inc then dec + 1 else dec) * d, start * Pow(10, n)) <= Distance(m * d, start * Pow(10, n))
  {
    Distribute(start, low, Pow(10, n));
    Distribute(dec, 1, d);
    MultiplesApart(dec, m, d);
    NearestCandidate(start * Pow(10, n), d, dec * d, m * d, r, l, u, even && ties, isLow, isHigh, inc);
  }

  lemma MultiplesApart(dec: int, m: int, d: nat)
    ensures m * d <= dec * d - d || m * d == dec * d || m * d == dec * d + d || m * d >= dec * d + 2 * d
  {
    Distribute(dec, m - dec, d);
    if m < dec { MulMono(1, dec - m, d); } else if m > dec + 1 { MulMono(2, m - dec, d); }
  }

  lemma NearestCandidate(v: int, d: nat, x: int, y: int, r: nat, l: nat, u: nat, tight: bool, isLow: bool,
                         isHigh: bool, inc: bool)
    requires v == x + r && r < d && l <= u && (v - l < y || (tight && v - l == y))
    requires y <= x - d || y == x || y == x + d || y >= x + 2 * d
    requires (isLow || isHigh) && (isLow <==> r < l || (tight && r == l)) && (!isHigh ==> r + u <= d)
    requires if isLow && isHigh then (if inc then 2 * r >= d else 2 * r <= d) else inc == isHigh
    ensures Distance(if inc then x + d else x, v) <= Distance(y, v)
  {}

  /**
   Digits that denote an accepted number, with no shorter one accepted, and no accepted one of
   the same length that is nearer.
   */
  ghost predicate Shortest(buf: seq<char>, start: nat, low: nat, up: nat, d: nat, even: bool, ties: bool) {
    && |buf| > 0 && AllDigits(buf)
    && Accepted(Decimal(buf), |buf| - 1, start, low, up, d, even, ties)
    && (forall m, j :: 0 <= j < |buf| - 1 ==> !Accepted(m, j, start, low, up, d, even, ties))
    && forall m :: Accepted(m, |buf| - 1, start, low, up, d, even, ties) ==>
         Distance(Decimal(buf) * d, start * Pow(10, |buf| - 1)) <= Distance(m * d, start * Pow(10, |buf| - 1))
  }

  lemma GoOn(buf: seq<char>, start: nat, low: nat, up: nat, d: nat, even: bool, ties: bool, num: nat, l: nat, u: nat,
             digit: nat, r: nat)
    requires Progress(buf, start, low, up, d, even, ties, num, l, u)
    requires num == digit * d + r && r < d && digit < 20
    requires (if even && ties then r > l else r >= l) && (if even then r + u < d else r + u <= d)
    ensures digit < 10 && Progress(buf + [DigitChar(digit)], start, low, up, d, even, ties, 10 * r, 10 * l, 10 * u)
  {
    var n, dec := |buf|, Decimal(buf);
    NoNine(num, digit, r, u, d, even, false, false);
    SamePlace(start * Pow(10, n), dec, num, digit, r, d);
    forall m
      ensures !Accepted(m, n, start, low, up, d, even, ties)
    {
      NoneAccepted(start, low, up, d, 10 * dec + digit, n, r, l, u, even, ties, m);
    }
    DecimalSnoc(buf, DigitChar(digit));
    NextPlace(start, Pow(10, n), dec, num, digit, r, d);
    MulAssoc(low, Pow(10, n), 10);
    MulAssoc(up, Pow(10, n), 10);
  }

  lemma Stop(buf: seq<char>, start: nat, low: nat, up: nat, d: nat, even: bool, ties: bool, num: nat, l: nat, u: nat,
             digit: nat, r: nat,
             isLow: bool, isHigh: bool, inc: bool)
    requires Progress(buf, start, low, up, d, even, ties, num, l, u)
    requires num == digit * d + r && r < d && digit < 20
    requires isLow <==> r < l || (even && ties && r == l)
    requires isHigh <==> r + u > d || (even && r + u == d)
    requires isLow || isHigh
    requires if isLow && isHigh then (if inc then 2 * r >= d else 2 * r <= d) else inc == isHigh
    ensures var last := if inc then digit + 1 else digit;
            last < 10 && Shortest(buf + [DigitChar(last)], start, low, up, d, even, ties)
  {
    NoNine(num, digit, r, u, d, even, isHigh, inc);
    SamePlace(start * Pow(10, |buf|), Decimal(buf), num, digit, r, d);
    var dec, n := 10 * Decimal(buf) + digit, |buf|;
    PrintedAccepted(start, low, up, d, dec, n, r, l, u, inc, even, ties);
    DecimalSnoc(buf, DigitChar(if inc then digit + 1 else digit));
    forall m | Accepted(m, n, start, low, up, d, even, ties)
      ensures Distance((if inc then dec + 1 else dec) * d, start * Pow(10, n)) <= Distance(m * d, start * Pow(10, n))
    {
      PrintedNearest(start, low, up, d, dec, n, r, l, u, even, ties, isLow, isHigh, inc, m);
    }
  }

  /** The place of the digit just found, and what the exponents are there. */
  lemma AtDigit(buf: seq<char>, start: nat, low: nat, up: nat, d: nat, even: bool, ties: bool, num: nat, l: nat,
                u: nat, digit: nat, r: nat,
                before: nat, numExp: nat, lowExp: nat, denExp: nat)
    requires Progress(buf, start, low, up, d, even, ties, num, l, u) && low < start
    requires num == digit * d + r && Exponents(before, lowExp, denExp, Decimal(buf), ties)
    requires numExp == if digit > 0 && before > denExp then denExp else before
    ensures Exponents(numExp, lowExp, denExp, 10 * Decimal(buf) + digit, ties)
    ensures r == l ==> (numExp == lowExp <==> ties)
  {
    SamePlace(start * Pow(10, |buf|), Decimal(buf), num, digit, r, d);
    DecimalRange(buf);
    TiesSeen(start, low, d, 10 * Decimal(buf) + digit, |buf|, r, l, numExp, lowExp, denExp, ties);
  }

  /**
   Emits digits until the rest is within a boundary. The loop ends because the lower boundary
   grows tenfold while the rest stays below the denominator. A rest that equals the lower
   boundary is missed if the numerator begins with a larger exponent than the denominator.
   */
  method ShortestDigits(numerator: Bigint, denominator: Bigint, lower: Bigint, upper: Bigint, even: bool)
    returns (buf: seq<char>)
    requires numerator != lower && numerator != upper && denominator != lower && denominator != upper
    requires Steady(numerator, denominator, numerator.Val(), 0) && lower.Valid() && upper.Valid()
    requires 0 < lower.Val() <= upper.Val() && lower.Val() < numerator.Val() && numerator.exp == lower.exp
    requires Bounded(numerator.Val(), upper.Val(), denominator.Val(), even)
    modifies numerator, lower, upper
    ensures Shortest(buf, old(numerator.Val()), old(lower.Val()), old(upper.Val()), denominator.Val(), even,
                     old(numerator.exp) <= denominator.exp)
  {
    ghost var start, l0, u0, d := numerator.Val(), lower.Val(), upper.Val(), denominator.Val();
    ghost var ties, lowExp, denExp := numerator.exp <= denominator.exp, lower.exp, denominator.exp;
    buf := [];
    while true
      invariant Steady(numerator, denominator, start, |buf|) && lower.Valid() && upper.Valid()
      invariant lower.exp == lowExp && Exponents(numerator.exp, lowExp, denExp, Decimal(buf), ties)
      invariant Progress(buf, start, l0, u0, d, even, ties, numerator.Val(), lower.Val(), upper.Val())
      decreases 10 * d - lower.Val()
    {
      ghost var num, l, u, before := numerator.Val(), lower.Val(), upper.Val(), numerator.exp;
      var digit := DivideStep(numerator, denominator, start, |buf|);
      ghost var r := numerator.Val();
      AtDigit(buf, start, l0, u0, d, even, ties, num, l, u, digit, r, before, numerator.exp, lowExp, denExp);
      var low, high := Boundaries(numerator, denominator, lower, upper, even);
      if low || high {
        var inc := !low;
        if low && high {
          inc := RoundHalfEven(numerator, denominator, digit);
        }
        Stop(buf, start, l0, u0, d, even, ties, num, l, u, digit, r, low, high, inc);
        buf := buf + [DigitChar(if inc then digit + 1 else digit)];
        return;
      }
      GoOn(buf, start, l0, u0, d, even, ties, num, l, u, digit, r);
      DecimalSnoc(buf, DigitChar(digit));
      NextNumbers(numerator, denominator, lower, upper, start, |buf|);
      buf := buf + [DigitChar(digit)];
    }
  }

  // ----- in terms of the value

  /**
   m * 10^y is between the boundaries of f * 2^e, which lie half-way to the neighbouring values,
   everything taken k times. The significands are those of the set-up, shifted by one or two
   bits. `Between` includes the boundaries, `StrictlyBetween` does not; `Admitted` includes the
   upper one for an even significand, and the lower one as well if `ties`.
   */
  ghost predicate StrictlyBetween(k: nat, m: int, y: int, f: nat, e: int, closer: bool) {
    var s := Pow(2, Shift(closer));
    k * ScaledNum(f * s - 1, e, y) < s * m * ScaledDen(e, y) < k * ScaledNum(f * s + UpperUnits(closer), e, y)
  }

  ghost predicate Admitted(k: nat, m: int, y: int, f: nat, e: int, closer: bool, ties: bool) {
    var s := Pow(2, Shift(closer));
    var at := s * m * ScaledDen(e, y);
    var low, high := k * ScaledNum(f * s - 1, e, y), k * ScaledNum(f * s + UpperUnits(closer), e, y);
    (low < at || (f % 2 == 0 && ties && low == at)) && (at < high || (f % 2 == 0 && at == high))
  }

  ghost predicate Between(k: nat, m: int, y: int, f: nat, e: int, closer: bool) {
    var s := Pow(2, Shift(closer));
    k * ScaledNum(f * s - 1, e, y) <= s * m * ScaledDen(e, y) <= k * ScaledNum(f * s + UpperUnits(closer), e, y)
  }

  /** How far m * 10^y is from k times the value, in units of 10^y over the denominator. */
  ghost function OffBy(k: nat, m: int, y: int, f: nat, e: int): nat {
    Distance(m * ScaledDen(e, y), k * ScaledNum(f, e, y))
  }

  /**
   Whether a decimal on the lower boundary is noticed: the numerator begins with no larger
   exponent than the denominator.
   */
  predicate SeesTies(e: int, closer: bool, exp10: int) { NumExp(e, exp10) <= DenExp(e, closer, exp10) }

  /** What is admitted for an odd significand, and for an even one. */
  lemma AdmittedIs(k: nat, m: int, y: int, f: nat, e: int, closer: bool, ties: bool)
    ensures f % 2 != 0 ==> (Admitted(k, m, y, f, e, closer, ties) <==> StrictlyBetween(k, m, y, f, e, closer))
    ensures f % 2 == 0 && ties ==> (Admitted(k, m, y, f, e, closer, ties) <==> Between(k, m, y, f, e, closer))
    ensures StrictlyBetween(k, m, y, f, e, closer) ==> Admitted(k, m, y, f, e, closer, ties)
    ensures Admitted(k, m, y, f, e, closer, ties) ==> Between(k, m, y, f, e, closer)
  {}

  /**
   The shortest form: it is admitted, no number with fewer digits is, and none with as many is
   nearer. Strictly between the boundaries all numbers are admitted; on them, for an even
   significand, those on the upper one always, and those on the lower one if and only if the
   set-up sees ties. If it doubled the value the boundaries are doubled, too, and the result is
   outside the true ones.
   */
  method FormatShortest(f: nat, e: int, closer: bool, exp10: int) returns (buf: seq<char>, exp: int)
    requires 0 < f < TWO64 / 4 && -0x4000_0000 < exp10 < 0x4000_0000
    requires e >= 0 ==> exp10 >= 0
    requires StrictlyBelowTen(Factor(e, closer), f, e, closer, exp10)
    ensures AllDigits(buf) && exp == exp10 - (|buf| - 1)
    ensures Admitted(Factor(e, closer), Decimal(buf), exp, f, e, closer, SeesTies(e, closer, exp10))
    ensures forall m, y :: exp < y <= exp10 ==> !Admitted(Factor(e, closer), m, y, f, e, closer, SeesTies(e, closer, exp10))
    ensures forall m :: Admitted(Factor(e, closer), m, exp, f, e, closer, SeesTies(e, closer, exp10)) ==>
              OffBy(Factor(e, closer), Decimal(buf), exp, f, e) <= OffBy(Factor(e, closer), m, exp, f, e)
    ensures f > 1 ==> (Between(1, Decimal(buf), exp, f, e, closer) <==> !Doubled(e, closer))
  {
    var numerator, denominator, lower, upperStore := SetUp(f, e, closer, exp10);
    var upper := if closer then upperStore else lower;
    var even := f % 2 == 0;
    BelowTen(f, e, closer, exp10);
    LowerIsLess(f, e, closer, exp10);
    buf := ShortestDigits(numerator, denominator, lower, upper, even);
    exp := exp10 - (|buf| - 1);
    ShortestInValue(buf, f, e, closer, exp10, SeesTies(e, closer, exp10));
    AdmittedIs(Factor(e, closer), Decimal(buf), exp, f, e, closer, SeesTies(e, closer, exp10));
    if Doubled(e, closer) && f > 1 { DoubledIsOutside(Decimal(buf), exp, f, e); }
  }

  /** What the digits mean for the fraction they mean for the value. */
  lemma ShortestInValue(buf: seq<char>, f: nat, e: int, closer: bool, x: int, ties: bool)
    requires f > 0 && (e >= 0 ==> x >= 0)
    requires var low := StartLower(e, x);
             Shortest(buf, StartNum(f, e, closer, x), low, UpperUnits(closer) * low, StartDen(e, closer, x),
                      f % 2 == 0, ties)
    ensures var k, exp := Factor(e, closer), x - (|buf| - 1);
            Admitted(k, Decimal(buf), exp, f, e, closer, ties) &&
            (forall m, y :: exp < y <= x ==> !Admitted(k, m, y, f, e, closer, ties)) &&
            forall m :: Admitted(k, m, exp, f, e, closer, ties) ==>
              OffBy(k, Decimal(buf), exp, f, e) <= OffBy(k, m, exp, f, e)
  {
    var k, exp, low, d := Factor(e, closer), x - (|buf| - 1), StartLower(e, x), StartDen(e, closer, x);
    SameNeighbourhood(Decimal(buf), |buf| - 1, f, e, closer, x, ties);
    forall m, y | exp < y <= x ensures !Admitted(k, m, y, f, e, closer, ties) {
      SameNeighbourhood(m, x - y, f, e, closer, x, ties);
      assert !Accepted(m, x - y, StartNum(f, e, closer, x), low, UpperUnits(closer) * low, d, f % 2 == 0, ties);
    }
    forall m | Admitted(k, m, exp, f, e, closer, ties) ensures OffBy(k, Decimal(buf), exp, f, e) <= OffBy(k, m, exp, f, e) {
      SameNeighbourhood(m, |buf| - 1, f, e, closer, x, ties);
      NearestInValue(Decimal(buf), m, f, e, closer, x, |buf| - 1);
    }
  }

  /** The lower half-gap is less than the value. */
  lemma LowerIsLess(f: nat, e: int, closer: bool, x: int)
    requires f > 0 && (e >= 0 ==> x >= 0)
    ensures StartLower(e, x) < StartNum(f, e, closer, x)
  {
    ShiftPower(closer);
    StartPositive(f, e, closer, x);
    MulStrict(1, f * Pow(2, Shift(closer)), StartLower(e, x));
  }

  /** A comparison of distances from the fraction is one of distances from the value. */
  lemma NearestInValue(q: int, m: int, f: nat, e: int, closer: bool, x: int, places: nat)
    requires f > 0 && (e >= 0 ==> x >= 0)
    requires var v, d := StartNum(f, e, closer, x) * Pow(10, places), StartDen(e, closer, x);
             Distance(q * d, v) <= Distance(m * d, v)
    ensures OffBy(Factor(e, closer), q, x - places, f, e) <= OffBy(Factor(e, closer), m, x - places, f, e)
  {
    var k, y := Factor(e, closer), x - places;
    StartFraction(f, e, closer, x);
    StartPositive(f, e, closer, x);
    StandsFiner(StartNum(f, e, closer, x), StartDen(e, closer, x), k, f, e, x, places);
    ScaledDenPos(e, y);
    var v, d, w, b := StartNum(f, e, closer, x) * Pow(10, places), StartDen(e, closer, x), k * ScaledNum(f, e, y), ScaledDen(e, y);
    SameDistance(q, d, v, b, w);
    SameDistance(m, d, v, b, w);
    MulMono(Distance(q * d, v), Distance(m * d, v), b);
    MulCancelLe(Distance(q * b, w), Distance(m * b, w), d);
  }

  lemma SameDistance(q: int, d: nat, v: int, b: nat, w: int)
    requires v * b == w * d && d > 0 && b > 0
    ensures Distance(q * d, v) * b == Distance(q * b, w) * d
  {
    MulShuffle(q, d, 1, b);
    Distribute(q * d, -v, b);
    Distribute(q * b, -w, d);
    MulAssoc(q, d, b);
    MulAssoc(q, b, d);
    if q * d < v { MulStrict(q * d, v, b); MulCancelLt(q * b, w, d); }
    if q * b < w { MulStrict(q * b, w, d); MulCancelLt(q * d, v, b); }
  }

  /** What is within the doubled boundaries is above the true ones. */
  lemma DoubledIsOutside(m: int, y: int, f: nat, e: int)
    requires f > 1 && Between(2, m, y, f, e, true)
    ensures !Between(1, m, y, f, e, true)
  {
    ShiftPower(true);
    var s := Pow(2, Shift(true));
    var low, high, unit := f * s - 1, f * s + 2, ScaledNum(1, e, y);
    SignificandScales(low, e, y);
    SignificandScales(high, e, y);
    UnitPositive(e, y);
    MulStrict(high, 2 * low, unit);
    MulAssoc(2, low, unit);
  }

  lemma UnitPositive(e: int, y: int)
    ensures ScaledNum(1, e, y) > 0
  {
    PowPos(2, Max0(e));
    PowPos(10, Max0(-y));
    MulPos(Pow(2, Max0(e)), Pow(10, Max0(-y)));
  }

  /** The upper boundary, taken k times, is below 10^(exp10 + 1). */
  ghost predicate StrictlyBelowTen(k: nat, f: nat, e: int, closer: bool, exp10: int) {
    var s := Pow(2, Shift(closer));
    k * ScaledNum(f * s + UpperUnits(closer), e, exp10) < s * 10 * ScaledDen(e, exp10)
  }

  /** How far m is above g lower half-gaps, and above the boundary with significand g. */
  ghost function Above(g: int, m: int, e: int, closer: bool, x: int, places: nat): int {
    m * StartDen(e, closer, x) - g * (StartLower(e, x) * Pow(10, places))
  }

  ghost function AboveAt(g: int, m: int, e: int, closer: bool, y: int): int {
    Pow(2, Shift(closer)) * m * ScaledDen(e, y) - Factor(e, closer) * ScaledNum(g, e, y)
  }

  lemma CompareAt(g: int, m: int, e: int, closer: bool, x: int, places: nat)
    requires e >= 0 ==> x >= 0
    ensures Sign(Above(g, m, e, closer, x, places)) == Sign(AboveAt(g, m, e, closer, x - places))
  {
    var y := x - places;
    GapFraction(e, closer, x, places);
    SignificandScales(g, e, y);
    var s, k, low := Pow(2, Shift(closer)), Factor(e, closer), StartLower(e, x) * Pow(10, places);
    var d, a, ag, b := StartDen(e, closer, x), ScaledNum(1, e, y), ScaledNum(g, e, y), ScaledDen(e, y);
    CompareProducts(g, m, s, k, low, d, a, ag, b);
  }

  /** The lower half-gap over the denominator is the half-gap of the value, in the final units. */
  lemma GapFraction(e: int, closer: bool, x: int, places: nat)
    requires e >= 0 ==> x >= 0
    ensures var s, k, d, y := Pow(2, Shift(closer)), Factor(e, closer), StartDen(e, closer, x), x - places;
            s > 0 && d > 0 && ScaledDen(e, y) > 0 &&
            s * (StartLower(e, x) * Pow(10, places)) * ScaledDen(e, y) == k * ScaledNum(1, e, y) * d
  {
    StartFraction(1, e, closer, x);
    StartPositive(1, e, closer, x);
    StandsFiner(StartNum(1, e, closer, x), StartDen(e, closer, x), Factor(e, closer), 1, e, x, places);
    ScaledDenPos(e, x - places);
    ShiftPower(closer);
    MulAssoc(1 * Pow(2, Shift(closer)), StartLower(e, x), Pow(10, places));
  }

  lemma SignificandScales(g: int, e: int, y: int)
    ensures ScaledNum(g, e, y) == g * ScaledNum(1, e, y)
  {
    UnitScale(g, Pow(2, Max0(e)), Pow(10, Max0(-y)));
  }

  lemma UnitScale(g: int, p: int, t: int)
    ensures g * p * t == g * (1 * p * t)
  {
    MulAssoc(g, p, t);
  }

  lemma CompareProducts(g: int, m: int, s: nat, k: nat, low: nat, d: nat, a: int, ag: int, b: nat)
    requires s > 0 && b > 0 && d > 0 && s * low * b == k * a * d && ag == g * a
    ensures g * low < m * d <==> k * ag < s * m * b
    ensures g * low == m * d <==> k * ag == s * m * b
  {
    var left, right := g * low, m * d;
    var w := s * b;
    MulPos(s, b);
    assert left * w == k * ag * d by {
      MulShuffle(g, low, s, b);
      MulAssoc(g, low, w);
      MulAssoc(s, low, b);
      MulAssoc(low, s, b);
      MulAssoc(g, k * a, d);
      MulAssoc(g, k, a);
      MulAssoc(k, g, a);
    }
    assert right * w == s * m * b * d by {
      MulAssoc(m, d, w);
      MulAssoc(s * m, b, d);
      MulShuffle(s, m, b, d);
      MulAssoc(s, b, m * d);
    }
    if left < right { MulStrict(left, right, w); MulCancelLt(k * ag, s * m * b, d); }
    if k * ag < s * m * b { MulStrict(k * ag, s * m * b, d); MulCancelLt(left, right, w); }
    if left == right { MulCancel(k * ag, s * m * b, d); }
    if k * ag == s * m * b { MulCancel(left, right, w); }
  }

  lemma SameNeighbourhood(m: int, places: nat, f: nat, e: int, closer: bool, x: int, ties: bool)
    requires f > 0 && (e >= 0 ==> x >= 0)
    ensures var low, d := StartLower(e, x), StartDen(e, closer, x);
            var start, up := StartNum(f, e, closer, x), UpperUnits(closer) * low;
            Accepted(m, places, start, low, up, d, f % 2 == 0, ties) <==>
            Admitted(Factor(e, closer), m, x - places, f, e, closer, ties)
  {
    var s, low, t := Pow(2, Shift(closer)), StartLower(e, x), Pow(10, places);
    var n, u := f * s, UpperUnits(closer);
    ShiftPower(closer);
    CompareAt(n - 1, m, e, closer, x, places);
    CompareAt(n + u, m, e, closer, x, places);
    Distribute(n, 1, low);
    Distribute(n, u, low);
    MulAssoc(n - 1, low, t);
    MulAssoc(n + u, low, t);
  }

  /**
   8344650268554688 * 2^33, a double with an even significand, has the four digits of
   7168 * 10^22 on its lower boundary. The set-up does not see that, and with four digits or
   fewer nothing else is admitted, so more are printed.
   */
  lemma TieExample()
    ensures var f, e := 8344650268554688, 33;
            !SeesTies(e, false, 25) && f % 2 == 0 && StrictlyBelowTen(1, f, e, false, 25) &&
            Between(1, 7168, 22, f, e, false) &&
            forall m, y :: 22 <= y <= 25 ==> !Admitted(1, m, y, f, e, false, false)
  {
    var f, e := 8344650268554688, 33;
    SmallPowers();
    forall m, y | 22 <= y <= 25
      ensures !Admitted(1, m, y, f, e, false, false)
    {
      PowAdd(10, y - 22, 22);
      NoMultiple(m * Pow(10, y - 22));
      MulAssoc(m, Pow(10, y - 22), Pow(10, 22));
      MulAssoc(2, m, Pow(10, y));
    }
  }

  lemma SmallPowers()
    ensures Pow(2, 33) == 0x2_0000_0000 && Pow(2, 0) == Pow(10, 0) == 1 && Pow(2, 1) == 2
    ensures Pow(10, 22) == 10_000_000_000_000_000_000_000 && Pow(10, 25) == 10_000_000_000_000_000_000_000_000
  {
    PowTwo32();
    assert Pow(2, 33) == 2 * Pow(2, 32);
    assert Pow(10, 3) == 1000 && Pow(10, 8) == 100_000_000;
    PowAdd(10, 8, 8);
    PowAdd(10, 16, 3);
    PowAdd(10, 19, 3);
    PowAdd(10, 22, 3);
  }

  lemma NoMultiple(n: int)
    ensures var unit := 10_000_000_000_000_000_000_000;
            !(14336 * unit < 2 * (n * unit) <= 14336 * unit + 2 * 0x2_0000_0000)
  {}

  lemma BelowTen(f: nat, e: int, closer: bool, x: int)
    requires f > 0 && (e >= 0 ==> x >= 0) && StrictlyBelowTen(Factor(e, closer), f, e, closer, x)
    ensures StartNum(f, e, closer, x) + UpperUnits(closer) * StartLower(e, x) < 10 * StartDen(e, closer, x)
  {
    var s, low := Pow(2, Shift(closer)), StartLower(e, x);
    CompareAt(f * s + UpperUnits(closer), 10, e, closer, x, 0);
    Distribute(f * s, UpperUnits(closer), low);
  }
}
