/**
 The exact digit generator of the floating-point formatter: Steele and White's (FPP)^2
 over big integers, for a value f * 2^e.
 */
module FallbackFormat {
  import opened Arith
  import opened Positional
  import opened BigInteger
  import opened Rounding

  /** Numerator and denominator carry one extra bit, two if the predecessor is closer. */
  function Shift(closer: bool): nat { if closer then 2 else 1 }

  lemma ShiftPower(closer: bool)
    ensures Pow(2, Shift(closer)) == if closer then 4 else 2
  {
    assert Pow(2, 1) == 2;
    assert Pow(2, 2) == 4;
  }

  /** What the numerator, denominator and lower boundary start from, by the three branches. */
  ghost function StartNum(f: nat, e: int, closer: bool, exp10: int): nat {
    f * Pow(2, Shift(closer)) * StartLower(e, exp10)
  }

  ghost function StartLower(e: int, exp10: int): nat {
    if e >= 0 then Pow(2, e) else if exp10 < 0 then Pow(10, -exp10) else 1
  }

  ghost function StartDen(e: int, closer: bool, exp10: int): nat {
    if e >= 0 then Pow(10, Max0(exp10)) * 2
    else if exp10 < 0 then Pow(2, Shift(closer) - e)
    else Pow(10, exp10) * Pow(2, Shift(closer) - e)
  }

  /**
   The first branch shifts the denominator by one bit even if the numerator was shifted by
   two, so there the fraction is twice the value.
   */
  predicate Doubled(e: int, closer: bool) { e >= 0 && closer }

  function Factor(e: int, closer: bool): nat { if Doubled(e, closer) then 2 else 1 }

  /** numerator / denominator * 10^exp10 is the value, or twice the value if `Doubled`. */
  lemma StartFraction(f: nat, e: int, closer: bool, exp10: int)
    requires e >= 0 ==> exp10 >= 0
    ensures StartNum(f, e, closer, exp10) * ScaledDen(e, exp10)
            == Factor(e, closer) * ScaledNum(f, e, exp10) * StartDen(e, closer, exp10)
  {
    var s := Pow(2, Shift(closer));
    ShiftPower(closer);
    if e >= 0 {
      PositiveExponent(f, s, Pow(2, e), Pow(10, exp10), Factor(e, closer));
    } else {
      PowAdd(2, Shift(closer), -e);
      NegativeExponent(f, s, Pow(2, -e), Pow(10, if exp10 < 0 then -exp10 else exp10));
    }
  }

  lemma PositiveExponent(f: int, s: int, p: int, t: int, k: int)
    requires s == 2 * k
    ensures f * s * p * (1 * t) == k * (f * p * 1) * (t * 2)
  {
    MulAssoc(f, s, p);
    MulAssoc(f, p, s);
    MulAssoc(f * p, 2 * k, t);
    MulAssoc(k, f * p, t * 2);
    MulAssoc(f * p, t * 2, k);
    MulAssoc(t, 2, k);
  }

  lemma NegativeExponent(f: int, s: int, p: int, t: int)
    ensures f * s * t * (p * 1) == 1 * (f * 1 * t) * (s * p)
    ensures f * s * 1 * (p * t) == 1 * (f * 1 * 1) * (t * (s * p))
  {
    MulAssoc(f * s, t, p);
    MulShuffle(f, s, t, p);
    MulAssoc(f * s, p, t);
    MulAssoc(f, s, p);
    MulAssoc(f, s * p, t);
  }

  // ----- the early comparison inside divmod_assign never meets an equal numerator

  /** Exponents, in bigits, of the numerator and the denominator after the set-up. */
  function NumExp(e: int, exp10: int): nat {
    if e >= 0 then e / 32 else if exp10 < 0 then -exp10 / 32 else 0
  }

  function DenExp(e: int, closer: bool, exp10: int): nat {
    if e >= 0 then Max0(exp10) / 32
    else if exp10 < 0 then (Shift(closer) - e) / 32
    else exp10 / 32 + (Shift(closer) - e) / 32
  }

  lemma {:induction false} PowTwoNotFive(n: nat)
    ensures Pow(2, n) % 5 != 0
  {
    if n > 0 { PowTwoNotFive(n - 1); }
  }

  /**
   While the numerator has the larger exponent it is no power-of-ten multiple away from the
   denominator: their factors of two, or of five, cannot agree.
   */
  lemma NeverEqual(f: nat, e: int, closer: bool, exp10: int, k: nat)
    requires f > 0 && (e >= 0 ==> exp10 >= 0)
    requires NumExp(e, exp10) > DenExp(e, closer, exp10)
    ensures StartNum(f, e, closer, exp10) * Pow(10, k) != StartDen(e, closer, exp10)
  {
    var s := Pow(2, Shift(closer));
    ShiftPower(closer);
    if e >= 0 {
      PowAdd(2, exp10, e - exp10);
      PowDistribute(5, 2, exp10);
      PowFiveOdd(exp10);
      PowPos(2, exp10);
      TwosDisagree(f, s / 2, Pow(2, exp10), Pow(2, e - exp10 - 1), Pow(10, k), Pow(5, exp10));
    } else {
      PowTwoNotFive(Shift(closer) - e);
      FiveDivides(f * s, Pow(10, -exp10 - 1), Pow(10, k));
    }
  }

  lemma TwosDisagree(f: nat, h: nat, p: nat, q: nat, t: nat, odd: nat)
    requires p > 0 && odd % 2 == 1
    ensures f * (2 * h) * (p * (2 * q)) * t != odd * p * 2
  {
    var m := f * h * q * t;
    assert f * (2 * h) * (p * (2 * q)) * t == 2 * m * (2 * p) by {
      MulAssoc(f, h, 2);
      MulAssoc(p, q, 2);
      MulShuffle(f * h, q, p, 1);
      MulAssoc(f * h, p * q, t);
      MulAssoc(f * h, q, t);
      MulAssoc(p, q, t);
      MulAssoc(f * h, p, q * t);
      MulAssoc(f * h, q * t, p);
    }
    MulAssoc(odd, p, 2);
    if 2 * m * (2 * p) == odd * (2 * p) { MulCancel(2 * m, odd, 2 * p); }
  }

  lemma FiveDivides(a: nat, p: nat, t: nat)
    ensures (a * (10 * p) * t) % 5 == 0
  {
    var m := a * p * t;
    assert a * (10 * p) * t == 10 * m by {
      MulAssoc(a, p, 10);
      MulAssoc(a, 10, p);
      MulAssoc(a * p, 10, t);
      MulAssoc(a * p, t, 10);
    }
  }

  // ----- the set-up

  /** Numerator and denominator can be divided and never confuse the early comparison. */
  ghost predicate Ready(numerator: Bigint, denominator: Bigint, start: nat)
    reads numerator, denominator
  {
    && numerator != denominator && numerator.Valid() && denominator.Valid() && denominator.Val() != 0
    && (numerator.exp <= denominator.exp ||
        (start > 0 && forall k: nat :: start * Pow(10, k) != denominator.Val()))
  }

  ghost predicate Started(numerator: Bigint, denominator: Bigint, lower: Bigint, upperStore: Bigint,
                          f: nat, e: int, closer: bool, exp10: int)
    requires e >= 0 ==> exp10 >= 0
    reads numerator, denominator, lower, upperStore
  {
    && numerator.Valid() && numerator.Val() == StartNum(f, e, closer, exp10) && numerator.exp == NumExp(e, exp10)
    && denominator.Valid() && denominator.Val() == StartDen(e, closer, exp10)
    && denominator.exp == DenExp(e, closer, exp10)
    && lower.Valid() && lower.Val() == StartLower(e, exp10) && lower.exp == NumExp(e, exp10)
    && (closer ==> upperStore.Valid() && upperStore.Val() == 2 * lower.Val())
  }

  ghost predicate Apart(numerator: Bigint, denominator: Bigint, lower: Bigint, upperStore: Bigint) {
    && numerator != denominator && numerator != lower && numerator != upperStore
    && denominator != lower && denominator != upperStore && lower != upperStore
  }

  /** `value.f << shift`, which fits in 64 bits. */
  function Significand(f: nat, closer: bool): (r: Word64)
    requires 0 < f < TWO64 / 4
    ensures r == f * Pow(2, Shift(closer)) > 0
  {
    ShiftPower(closer);
    if closer then f * 4 else f * 2
  }

  lemma StartNumIs(f: nat, e: int, closer: bool, exp10: int)
    requires 0 < f < TWO64 / 4
    ensures StartNum(f, e, closer, exp10) == Significand(f, closer) * StartLower(e, exp10)
    ensures StartNum(f, e, closer, exp10) == StartLower(e, exp10) * Significand(f, closer)
  {}

  /** The branch for value.e >= 0. */
  method StartInteger(numerator: Bigint, denominator: Bigint, lower: Bigint, upperStore: Bigint,
                      f: nat, e: nat, closer: bool, exp10: nat)
    requires Apart(numerator, denominator, lower, upperStore)
    requires 0 < f < TWO64 / 4 && exp10 < 0x4000_0000
    modifies numerator, denominator, lower, upperStore
    ensures Started(numerator, denominator, lower, upperStore, f, e, closer, exp10)
  {
    var significand := Significand(f, closer);
    numerator.AssignWord(significand);
    numerator.ShiftLeft(e);
    lower.AssignWord(1);
    lower.ShiftLeft(e);
    if Shift(closer) != 1 {
      upperStore.AssignWord(1);
      upperStore.ShiftLeft(e + 1);
    }
    denominator.AssignPow10(exp10);
    denominator.ShiftLeft(1);
    assert Pow(2, 1) == 2;
    StartNumIs(f, e, closer, exp10);
  }

  /** The branch for value.e < 0 and exp10 < 0. */
  method StartSmall(numerator: Bigint, denominator: Bigint, lower: Bigint, upperStore: Bigint,
                    f: nat, e: int, closer: bool, exp10: int)
    requires Apart(numerator, denominator, lower, upperStore)
    requires 0 < f < TWO64 / 4 && e < 0 && -0x4000_0000 < exp10 < 0
    modifies numerator, denominator, lower, upperStore
    ensures Started(numerator, denominator, lower, upperStore, f, e, closer, exp10)
  {
    var significand := Significand(f, closer);
    numerator.AssignPow10(-exp10);
    lower.Assign(numerator);
    if Shift(closer) != 1 {
      upperStore.Assign(numerator);
      upperStore.ShiftLeft(1);
      assert Pow(2, 1) == 2;
    }
    numerator.MulAssign64(significand);
    denominator.AssignWord(1);
    denominator.ShiftLeft(Shift(closer) - e);
    StartNumIs(f, e, closer, exp10);
  }

  /** The branch for value.e < 0 and exp10 >= 0. */
  method StartMixed(numerator: Bigint, denominator: Bigint, lower: Bigint, upperStore: Bigint,
                    f: nat, e: int, closer: bool, exp10: nat)
    requires Apart(numerator, denominator, lower, upperStore)
    requires 0 < f < TWO64 / 4 && e < 0 && exp10 < 0x4000_0000
    modifies numerator, denominator, lower, upperStore
    ensures Started(numerator, denominator, lower, upperStore, f, e, closer, exp10)
  {
    var significand := Significand(f, closer);
    numerator.AssignWord(significand);
    denominator.AssignPow10(exp10);
    denominator.ShiftLeft(Shift(closer) - e);
    lower.AssignWord(1);
    if Shift(closer) != 1 {
      upperStore.AssignWord(2);
    }
    StartNumIs(f, e, closer, exp10);
  }

  method SetUp(f: nat, e: int, closer: bool, exp10: int)
    returns (numerator: Bigint, denominator: Bigint, lower: Bigint, upperStore: Bigint)
    requires 0 < f < TWO64 / 4
    requires -0x4000_0000 < exp10 < 0x4000_0000
    requires e >= 0 ==> exp10 >= 0
    ensures fresh(numerator) && fresh(denominator) && fresh(lower) && fresh(upperStore)
    ensures Apart(numerator, denominator, lower, upperStore)
    ensures Started(numerator, denominator, lower, upperStore, f, e, closer, exp10)
    ensures numerator.Val() > 0 && lower.Val() > 0
    ensures Ready(numerator, denominator, numerator.Val())
  {
    numerator := new Bigint();
    denominator := new Bigint();
    lower := new Bigint();
    upperStore := new Bigint();
    if e >= 0 {
      StartInteger(numerator, denominator, lower, upperStore, f, e, closer, exp10);
    } else if exp10 < 0 {
      StartSmall(numerator, denominator, lower, upperStore, f, e, closer, exp10);
    } else {
      StartMixed(numerator, denominator, lower, upperStore, f, e, closer, exp10);
    }
    StartPositive(f, e, closer, exp10);
    NeverEqualAll(f, e, closer, exp10);
  }

  lemma NeverEqualAll(f: nat, e: int, closer: bool, exp10: int)
    requires f > 0 && (e >= 0 ==> exp10 >= 0)
    ensures NumExp(e, exp10) > DenExp(e, closer, exp10) ==>
              forall k: nat :: StartNum(f, e, closer, exp10) * Pow(10, k) != StartDen(e, closer, exp10)
  {
    if NumExp(e, exp10) > DenExp(e, closer, exp10) {
      forall k: nat
        ensures StartNum(f, e, closer, exp10) * Pow(10, k) != StartDen(e, closer, exp10)
      {
        NeverEqual(f, e, closer, exp10, k);
      }
    }
  }

  lemma StartPositive(f: nat, e: int, closer: bool, exp10: int)
    requires f > 0
    ensures StartLower(e, exp10) > 0 && StartNum(f, e, closer, exp10) > 0 && StartDen(e, closer, exp10) > 0
  {
    PowPos(2, Max0(e));
    PowPos(10, Max0(-exp10));
    PowPos(10, Max0(exp10));
    PowPos(2, Shift(closer));
    if e < 0 { PowPos(2, Shift(closer) - e); }
    MulPos(f, Pow(2, Shift(closer)));
    MulPos(f * Pow(2, Shift(closer)), StartLower(e, exp10));
    if e < 0 && exp10 >= 0 { MulPos(Pow(10, exp10), Pow(2, Shift(closer) - e)); }
  }

  // ----- one digit

  /** The i-th numerator can be divided; while it has the larger exponent it is start * 10^i. */
  ghost predicate Steady(numerator: Bigint, denominator: Bigint, start: nat, i: nat)
    reads numerator, denominator
  {
    && numerator != denominator && numerator.Valid() && denominator.Valid() && denominator.Val() != 0
    && (numerator.exp <= denominator.exp || (numerator.Val() == start * Pow(10, i) > 0 && Unreached(start, denominator.Val())))
  }

  ghost predicate Unreached(start: nat, target: nat) {
    forall k: nat :: start * Pow(10, k) != target
  }

  /** A numerator below 2^32 denominators is at most one bigit longer. */
  lemma SizeFits(s: seq<Bigit>, e: nat, t: seq<Bigit>, f: nat)
    requires Normal(s) && Normal(t) && Value(t, f) != 0
    requires Value(s, e) < 20 * Value(t, f)
    requires Value(s, e) == 0 ==> e <= f
    ensures |s| + e <= |t| + f + 1
    ensures Value(s, e) == 0 ==> |s| + e <= |t| + f
  {
    ValueRange(s, e);
    ValueRange(t, f);
    assert P(|t| + f + 1) == TWO32 * P(|t| + f);
    if Value(s, e) != 0 && |s| + e > |t| + f + 1 {
      PMono(|t| + f + 1, |s| + e - 1);
    }
  }

  method DivideStep(numerator: Bigint, denominator: Bigint, ghost start: nat, ghost i: nat) returns (digit: nat)
    requires Steady(numerator, denominator, start, i)
    requires numerator.Val() < 20 * denominator.Val()
    modifies numerator
    ensures Steady(numerator, denominator, start, i)
    ensures numerator.exp == if digit > 0 && old(numerator.exp) > denominator.exp then denominator.exp else old(numerator.exp)
    ensures old(numerator.Val()) == digit * denominator.Val() + numerator.Val()
    ensures numerator.Val() < denominator.Val() && digit < 20
  {
    SizeFits(numerator.bigits, numerator.exp, denominator.bigits, denominator.exp);
    ghost var was := numerator.Val();
    digit := numerator.DivmodAssign(denominator);
    if digit >= 20 { MulMono(20, digit, denominator.Val()); }
  }

  method TimesTen(numerator: Bigint, denominator: Bigint, ghost start: nat, ghost i: nat)
    requires Steady(numerator, denominator, start, i)
    modifies numerator
    ensures Steady(numerator, denominator, start, i + 1)
    ensures numerator.Val() == 10 * old(numerator.Val()) && numerator.exp == old(numerator.exp)
  {
    MulAssoc(start, Pow(10, i), 10);
    numerator.MulAssign32(10);
  }

  // ----- a given number of digits

  const OVERFLOW: char := ':'   // '0' + 10

  /** Pushes an overflowing last digit to the left, in place. */
  method PropagateCarry(digits: seq<char>) returns (buf: seq<char>, bump: bool)
    requires |digits| > 0 && digits[|digits| - 1] == OVERFLOW
    requires forall i :: 0 < i < |digits| - 1 ==> IsDigit(digits[i])
    requires |digits| > 1 ==> '0' <= digits[0] && CharValue(digits[0]) < 20
    ensures |buf| == |digits|
    ensures |digits| == 1 || IsDigit(digits[0]) ==>
              AllDigits(buf) && (if bump then Decimal(digits) == Pow(10, |digits|) && Decimal(buf) == Pow(10, |digits| - 1)
                                 else Decimal(buf) == Decimal(digits))
    ensures |digits| > 1 && !IsDigit(digits[0]) ==>
              !AllDigits(buf) || (bump && buf[0] == '1' && digits[0] == OVERFLOW)
  {
    buf := digits;
    bump := false;
    var i := |buf| - 1;
    while i > 0 && buf[i] == OVERFLOW
      invariant 0 <= i < |buf| == |digits|
      invariant forall j :: 0 <= j < i ==> buf[j] == digits[j]
      invariant forall j :: i < j < |buf| ==> buf[j] == '0'
      invariant CharValue(buf[i]) == if i == |buf| - 1 then 10 else CharValue(digits[i]) + 1
      invariant Decimal(buf) == Decimal(digits)
    {
      var next := DigitChar(CharValue(buf[i - 1]) + 1);
      CarryKeepsValue(buf, i, next);
      buf := buf[i := '0'][i - 1 := next];
      i := i - 1;
    }
    if buf[0] == OVERFLOW {
      if i == 0 { DecimalRound(buf); }
      buf := buf[0 := '1'];
      if i == 0 { DecimalRound(buf); }
      bump := true;
    }
  }

  /** One more digit of the quotient, and the remainder scaled to the next place. */
  lemma NextPlace(start: int, p: int, dec: int, n: int, digit: int, r: int, d: int)
    requires start * p == dec * (10 * d) + n && n == digit * d + r
    ensures start * (10 * p) == (10 * dec + digit) * (10 * d) + 10 * r
  {
    SamePlace(start * p, dec, n, digit, r, d);
    MulAssoc(start, p, 10);
    MulAssoc(10 * dec + digit, d, 10);
  }

  lemma SamePlace(num: int, dec: int, n: int, digit: int, r: int, d: int)
    requires num == dec * (10 * d) + n && n == digit * d + r
    ensures num == (10 * dec + digit) * d + r
  {
    MulAssoc(dec, 10, d);
    Distribute(10 * dec, digit, d);
  }

  /** The last digit rounds half to even. */
  lemma LastDigit(num: int, dec: int, r: int, d: int, up: bool)
    requires d > 0 && num == dec * d + r && 0 <= r < d
    requires up <==> 2 * r > d || (2 * r == d && dec % 2 != 0)
    ensures RoundsTo(if up then dec + 1 else dec, num, d)
  {
    Distribute(dec, 1, d);
  }

  /** A carry out of the first digit: the same number, one decimal place up. */
  lemma BumpRounds(q: int, num: int, d: int)
    requires d > 0 && RoundsTo(10 * q, num, d)
    ensures RoundsTo(q, num, 10 * d)
  {
    MulAssoc(q, 10, d);
  }

  /** All but the first character are digits, and the first one is start / d. */
  ghost predicate Leading(buf: seq<char>, start: nat, d: nat) {
    && (forall j :: 0 < j < |buf| ==> IsDigit(buf[j]))
    && (|buf| > 0 ==> 0 <= CharValue(buf[0]) < 20 && CharValue(buf[0]) * d <= start < (CharValue(buf[0]) + 1) * d)
  }

  lemma LeadingFirst(buf: seq<char>, start: nat, d: nat)
    requires d > 0 && Leading(buf, start, d) && |buf| > 0
    ensures IsDigit(buf[0]) <==> start < 10 * d
    ensures buf[0] == OVERFLOW ==> start < 11 * d
  {
    var c := CharValue(buf[0]);
    if c < 10 { MulMono(c + 1, 10, d); } else { MulMono(10, c, d); }
  }

  lemma FirstDigit(digit: nat, r: nat, start: nat, d: nat)
    requires start == digit * d + r && r < d
    ensures digit * d <= start < (digit + 1) * d
  {
    Distribute(digit, 1, d);
  }

  lemma SmallQuotient(digit: nat, r: nat, n: nat, d: nat)
    requires n == digit * d + r && n < 10 * d
    ensures digit < 10
  {
    if digit >= 10 { MulMono(10, digit, d); }
  }

  lemma LargeQuotient(digit: nat, r: nat, n: nat, d: nat)
    requires n == digit * d + r && n >= 10 * d && r < d
    ensures digit >= 10
  {
    if digit < 10 { MulMono(digit + 1, 10, d); Distribute(digit, 1, d); }
  }

  /** The loop over all digits but the last. */
  method LeadingDigits(numerator: Bigint, denominator: Bigint, n: nat) returns (buf: seq<char>)
    requires Steady(numerator, denominator, numerator.Val(), 0)
    requires numerator.Val() < 20 * denominator.Val()
    modifies numerator
    ensures |buf| == n && Leading(buf, old(numerator.Val()), denominator.Val())
    ensures Steady(numerator, denominator, old(numerator.Val()), n)
    ensures old(numerator.Val()) * Pow(10, n) == Decimal(buf) * (10 * denominator.Val()) + numerator.Val()
    ensures n == 0 ==> numerator.Val() == old(numerator.Val())
    ensures n > 0 ==> numerator.Val() < 10 * denominator.Val()
  {
    ghost var start, d := numerator.Val(), denominator.Val();
    buf := [];
    for i := 0 to n
      invariant |buf| == i && Steady(numerator, denominator, start, i)
      invariant start * Pow(10, i) == Decimal(buf) * (10 * d) + numerator.Val()
      invariant Leading(buf, start, d)
      invariant i == 0 ==> numerator.Val() == start
      invariant i > 0 ==> numerator.Val() < 10 * d
    {
      ghost var before, dec := numerator.Val(), Decimal(buf);
      var digit := DivideStep(numerator, denominator, start, i);
      NextPlace(start, Pow(10, i), dec, before, digit, numerator.Val(), d);
      if i > 0 { SmallQuotient(digit, numerator.Val(), before, d); } else { FirstDigit(digit, numerator.Val(), start, d); }
      DecimalSnoc(buf, DigitChar(digit));
      buf := buf + [DigitChar(digit)];
      TimesTen(numerator, denominator, start, i);
    }
  }

  /** Whether the remainder rounds `digit` up: more than half, or half and the digit is odd. */
  method RoundHalfEven(numerator: Bigint, denominator: Bigint, digit: nat) returns (up: bool)
    requires numerator.Valid() && denominator.Valid() && numerator.Val() < denominator.Val()
    requires numerator.Val() == 0 ==> numerator.exp <= denominator.exp
    ensures up <==> 2 * numerator.Val() > denominator.Val() ||
                    (2 * numerator.Val() == denominator.Val() && digit % 2 != 0)
  {
    SizeFits(numerator.bigits, numerator.exp, denominator.bigits, denominator.exp);
    var result := Bigint.AddCompare(numerator, numerator, denominator);
    up := result > 0 || (result == 0 && digit % 2 != 0);
  }

  /** The last digit, rounded; `carry` if a 9 was rounded up. */
  method RoundedDigit(numerator: Bigint, denominator: Bigint, ghost start: nat, ghost i: nat, ghost dec: int)
    returns (digit: nat, carry: bool)
    requires Steady(numerator, denominator, start, i)
    requires numerator.Val() < 20 * denominator.Val()
    requires start * Pow(10, i) == dec * (10 * denominator.Val()) + numerator.Val()
    modifies numerator
    ensures RoundsTo(10 * dec + digit, start * Pow(10, i), denominator.Val())
    ensures digit <= 20 && (carry ==> digit == 10)
    ensures old(numerator.Val()) < 10 * denominator.Val() ==> carry || digit < 10
    ensures old(numerator.Val()) >= 10 * denominator.Val() ==> !carry && digit >= 10
  {
    ghost var before, num := numerator.Val(), start * Pow(10, i);
    digit := DivideStep(numerator, denominator, start, i);
    var up := RoundHalfEven(numerator, denominator, digit);
    RoundedPlace(num, dec, before, digit, numerator.Val(), denominator.Val(), up);
    carry := up && digit == 9;
    if up {
      digit := digit + 1;
    }
  }

  lemma RoundedPlace(num: int, dec: int, before: nat, digit: nat, r: nat, d: nat, up: bool)
    requires num == dec * (10 * d) + before && before == digit * d + r && r < d
    requires up <==> 2 * r > d || (2 * r == d && digit % 2 != 0)
    ensures RoundsTo(10 * dec + (if up then digit + 1 else digit), num, d)
    ensures before < 10 * d <==> digit < 10
  {
    SamePlace(num, dec, before, digit, r, d);
    SameParity(dec, digit);
    LastDigit(num, 10 * dec + digit, r, d, up);
    if before < 10 * d { SmallQuotient(digit, r, before, d); } else { LargeQuotient(digit, r, before, d); }
  }

  lemma SameParity(dec: int, digit: int)
    ensures (10 * dec + digit) % 2 == digit % 2
  {}

  /** The printed characters, and where the decimal point went, for the fraction start / d. */
  ghost predicate FixedResult(buf: seq<char>, bump: bool, start: nat, d: nat, n: nat)
    requires n > 0
  {
    && |buf| == n
    && (start < 10 * d ==>
          AllDigits(buf) && RoundsTo(Decimal(buf), start * Pow(10, n - 1), if bump then 10 * d else d)
          && (bump ==> Decimal(buf) == Pow(10, n - 1)))
    && (start >= 10 * d ==> !AllDigits(buf) || (bump && n > 1 && buf[0] == '1' && start < 11 * d))
  }

  /**
   Generates n digits of start / denominator. The carry out of nines moves the result one
   place up. A fraction of ten or more does not fit: it never yields n proper digits of itself.
   */
  method FixedDigits(numerator: Bigint, denominator: Bigint, n: nat) returns (buf: seq<char>, bump: bool)
    requires n > 0 && Steady(numerator, denominator, numerator.Val(), 0)
    requires numerator.Val() < 20 * denominator.Val()
    modifies numerator
    ensures FixedResult(buf, bump, old(numerator.Val()), denominator.Val(), n)
  {
    ghost var start, d := numerator.Val(), denominator.Val();
    buf := LeadingDigits(numerator, denominator, n - 1);
    ghost var lead := buf;
    var digit, carry := RoundedDigit(numerator, denominator, start, n - 1, Decimal(buf));
    buf := buf + [DigitChar(digit)];
    bump := false;
    if carry {
      CarryApplies(lead, digit, start, d);
      buf, bump := PropagateCarry(buf);
      CarryOutcome(lead, digit, buf, bump, start, d, n);
    } else {
      PlainOutcome(lead, digit, start, d, n);
    }
  }

  lemma PlainOutcome(lead: seq<char>, digit: nat, start: nat, d: nat, n: nat)
    requires n > 0 && d > 0 && |lead| == n - 1 && Leading(lead, start, d) && digit <= 20
    requires RoundsTo(10 * Decimal(lead) + digit, start * Pow(10, n - 1), d)
    requires (n > 1 || start < 10 * d) ==> digit < 10
    requires n == 1 && start >= 10 * d ==> digit >= 10
    ensures FixedResult(lead + [DigitChar(digit)], false, start, d, n)
  {
    DecimalSnoc(lead, DigitChar(digit));
    var buf := lead + [DigitChar(digit)];
    if n > 1 {
      LeadingFirst(lead, start, d);
      assert buf[0] == lead[0];
    } else {
      assert buf[0] == DigitChar(digit);
    }
  }

  lemma CarryApplies(lead: seq<char>, digit: nat, start: nat, d: nat)
    requires d > 0 && Leading(lead, start, d) && digit == 10
    ensures var shown := lead + [DigitChar(digit)];
            shown[|shown| - 1] == OVERFLOW && (forall i :: 0 < i < |shown| - 1 ==> IsDigit(shown[i]))
            && (|shown| > 1 ==> '0' <= shown[0] && CharValue(shown[0]) < 20)
  {}

  lemma CarryOutcome(lead: seq<char>, digit: nat, buf: seq<char>, bump: bool, start: nat, d: nat, n: nat)
    requires n > 0 && d > 0 && |lead| == n - 1 && Leading(lead, start, d) && digit == 10 && |buf| == n
    requires RoundsTo(10 * Decimal(lead) + digit, start * Pow(10, n - 1), d)
    requires n == 1 ==> start < 10 * d
    requires var shown := lead + [DigitChar(digit)];
             n == 1 || IsDigit(shown[0]) ==>
               AllDigits(buf) && (if bump then Decimal(shown) == Pow(10, n) && Decimal(buf) == Pow(10, n - 1)
                                  else Decimal(buf) == Decimal(shown))
    requires n > 1 && !IsDigit((lead + [DigitChar(digit)])[0]) ==>
               !AllDigits(buf) || (bump && buf[0] == '1' && lead[0] == OVERFLOW)
    ensures FixedResult(buf, bump, start, d, n)
  {
    DecimalSnoc(lead, DigitChar(digit));
    if n > 1 { LeadingFirst(lead, start, d); }
    if start < 10 * d && bump { BumpRounds(Decimal(buf), start * Pow(10, n - 1), d); }
  }

  // ----- from fractions back to the value

  /** The fraction num / den is `k` times the value in units of 10^x. */
  ghost predicate Stands(num: int, den: nat, k: nat, f: nat, e: int, x: int) {
    den > 0 && num * ScaledDen(e, x) == k * ScaledNum(f, e, x) * den
  }

  lemma StandsFiner(num: int, den: nat, k: nat, f: nat, e: int, x: int, places: nat)
    requires Stands(num, den, k, f, e, x)
    ensures Stands(num * Pow(10, places), den, k, f, e, x - places)
  {
    FinerUnit(f, e, x, places);
    ScaledDenPos(e, x);
    CrossScale(num, den, k, ScaledNum(f, e, x), ScaledDen(e, x), ScaledNum(f, e, x - places), ScaledDen(e, x - places),
               Pow(10, places));
  }

  lemma CrossScale(num: int, den: int, k: int, a: int, b: nat, a': int, b': int, t: int)
    requires b > 0 && num * b == k * a * den && a' * b == a * t * b'
    ensures num * t * b' == k * a' * den
  {
    calc {
      num * t * b' * b;
    == { MulAssoc(num, t, b'); MulAssoc(num, t * b', b); MulAssoc(num, b, t * b'); }
      num * b * (t * b');
    == { MulAssoc(k, a, den); MulAssoc(k, a * den, t * b'); MulAssoc(a, den, t * b'); MulAssoc(a, t * b', den); }
      k * (a * (t * b') * den);
    == { MulAssoc(a, t, b'); }
      k * (a' * b * den);
    == { MulAssoc(a', b, den); MulAssoc(a', den, b); MulAssoc(k, a' * den, b); MulAssoc(k, a', den); }
      k * a' * den * b;
    }
    MulCancel(num * t * b', k * a' * den, b);
  }

  lemma StandsCoarser(num: int, den: nat, k: nat, f: nat, e: int, x: int)
    requires Stands(num, den, k, f, e, x)
    ensures Stands(num, 10 * den, k, f, e, x + 1)
  {
    FinerUnit(f, e, x + 1, 1);
    ScaledDenPos(e, x);
    assert Pow(10, 1) == 10;
    CrossCoarse(num, den, k, ScaledNum(f, e, x), ScaledDen(e, x), ScaledNum(f, e, x + 1), ScaledDen(e, x + 1));
  }

  lemma CrossCoarse(num: int, den: int, k: int, a: int, b: nat, a': int, b': int)
    requires b > 0 && num * b == k * a * den && a * b' == a' * 10 * b
    ensures num * b' == k * a' * (10 * den)
  {
    calc {
      num * b' * b;
    == { MulAssoc(num, b', b); MulAssoc(num, b, b'); }
      num * b * b';
    == { MulAssoc(k, a, den); MulAssoc(k, a * den, b'); MulAssoc(a, den, b'); MulAssoc(a, b', den); }
      k * (a * b' * den);
    == { MulAssoc(a', 10, b); MulAssoc(a', 10 * b, den); MulAssoc(10, b, den); MulAssoc(10, den, b); }
      k * (a' * (10 * den * b));
    == { MulAssoc(a', 10 * den, b); MulAssoc(k, a' * (10 * den), b); MulAssoc(k, a', 10 * den); }
      k * a' * (10 * den) * b;
    }
    MulCancel(num * b', k * a' * (10 * den), b);
  }
}
