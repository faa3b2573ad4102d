/** Printing an unsigned integer in decimal: counting its digits, and writing them in pairs. */
module FormatDecimal {
  import opened Arith
  import opened Rounding
  import opened FormatString

  /** The shortest decimal of a number. */
  function Printed(n: nat): (s: string)
    ensures s != ""
  {
    if n < 10 then [DigitChar(n)] else Printed(n / 10) + [DigitChar(n % 10)]
  }

  /** It spells the number in digits, and it does so with as few as possible. */
  lemma {:induction false} PrintedIsDecimal(n: nat)
    ensures AllDigits(Printed(n)) && Decimal(Printed(n)) == n
    ensures n > 0 ==> Pow(10, |Printed(n)| - 1) <= n
    ensures n < Pow(10, |Printed(n)|)
  {
    if n < 10 {
      assert Printed(n)[..0] == "";
      assert Pow(10, 0) == 1 && Pow(10, 1) == 10;
    } else {
      var s := Printed(n / 10);
      PrintedIsDecimal(n / 10);
      DecimalSnoc(s, DigitChar(n % 10));
      assert Pow(10, |s|) == 10 * Pow(10, |s| - 1) && Pow(10, |s| + 1) == 10 * Pow(10, |s|);
    }
  }

  /** The number of digits is determined by the powers of ten around the number. */
  lemma PrintedLength(n: nat, k: nat)
    requires k > 0 && n < Pow(10, k) && (k > 1 ==> Pow(10, k - 1) <= n)
    ensures |Printed(n)| == k
  {
    var m := |Printed(n)|;
    PrintedIsDecimal(n);
    if m > k {
      PowMono(10, k, m - 1);
    } else if m < k {
      PowMono(10, m, k - 1);
    }
  }

  lemma PrintedPair(n: nat)
    requires n >= 100
    ensures Printed(n) == Printed(n / 100) + [DigitChar(n % 100 / 10), DigitChar(n % 100 % 10)]
  {
    assert n / 10 / 10 == n / 100 && n / 10 % 10 == n % 100 / 10 && n % 10 == n % 100 % 10;
  }

  lemma PrintedFour(n: nat)
    requires n >= 10000
    ensures |Printed(n)| == |Printed(n / 10000)| + 4
  {
    PrintedPair(n);
    PrintedPair(n / 100);
    assert n / 100 / 100 == n / 10000;
  }

  /** Four digits at a time. */
  method CountDigits(n: nat) returns (count: nat)
    ensures count == |Printed(n)|
  {
    var left := n;
    count := 1;
    while left >= 10000
      invariant count + |Printed(left)| == |Printed(n)| + 1
    {
      PrintedFour(left);
      left := left / 10000;
      count := count + 4;
    }
    if left < 10 { return; }
    if left < 100 { return count + 1; }
    if left < 1000 {
      PrintedPair(left);
      return count + 2;
    }
    PrintedPair(left);
    count := count + 3;
  }

  /** What is left of a decimal when its last pair is taken off. */
  lemma LastPair(whole: string, value: nat, m: nat)
    requires m <= |whole| && whole[..m] == Printed(value) && value >= 100
    ensures m > 2 && whole[..m - 2] == Printed(value / 100)
    ensures whole[m - 2] == DigitChar(value % 100 / 10) && whole[m - 1] == DigitChar(value % 100 % 10)
  {
    PrintedPair(value);
    var front, pair := Printed(value / 100), [DigitChar(value % 100 / 10), DigitChar(value % 100 % 10)];
    assert whole[..m] == front + pair;
    assert whole[m - 2] == whole[..m][m - 2] && whole[m - 1] == whole[..m][m - 1];
    assert whole[..m - 2] == whole[..m][..m - 2] == front;
  }

  lemma FirstPair(whole: string, value: nat, m: nat)
    requires m <= |whole| && whole[..m] == Printed(value) && value < 100
    ensures if value < 10 then m == 1 && whole[0] == DigitChar(value)
            else m == 2 && whole[0] == DigitChar(value / 10) && whole[1] == DigitChar(value % 10)
  {
    assert whole[0] == whole[..m][0] && (m > 1 ==> whole[1] == whole[..m][1]);
  }

  /**
   Writes the digits into the elements below `size` from the end, two at a time; returns where
   they begin.
   */
  method WriteDecimal(out: array<char>, n: nat, size: nat) returns (begin: nat)
    requires |Printed(n)| <= size <= out.Length
    modifies out
    ensures begin == size - |Printed(n)| && out[begin..size] == Printed(n)
    ensures forall i :: 0 <= i < begin || size <= i < out.Length ==> out[i] == old(out[i])
  {
    ghost var whole, was := Printed(n), out[..];
    ghost var first := size - |whole|;
    var value := n;
    begin := size;
    assert whole[..|whole|] == whole;
    while value >= 100
      invariant Written(out[..], was, whole, begin, size) && whole[..begin - first] == Printed(value)
    {
      LastPair(whole, value, begin - first);
      var pair := value % 100;
      begin := begin - 2;
      out[begin], out[begin + 1] := DigitChar(pair / 10), DigitChar(pair % 10);
      value := value / 100;
    }
    FirstPair(whole, value, begin - first);
    if value < 10 {
      begin := begin - 1;
      out[begin] := DigitChar(value);
    } else {
      begin := begin - 2;
      out[begin], out[begin + 1] := DigitChar(value / 10), DigitChar(value % 10);
    }
    WrittenAll(out[..], was, whole, begin, size);
  }

  lemma WrittenAll(now: seq<char>, was: seq<char>, whole: string, begin: nat, size: nat)
    requires Written(now, was, whole, begin, size) && begin == size - |whole|
    ensures now[begin..size] == whole
  {}

  /** The digits from `begin` on are written, and nothing else. */
  ghost predicate Written(now: seq<char>, was: seq<char>, whole: string, begin: nat, size: nat) {
    |now| == |was| && |whole| <= size <= |now| && size - |whole| <= begin <= size &&
    (forall i :: begin <= i < size ==> now[i] == whole[i - (size - |whole|)]) &&
    forall i :: 0 <= i < begin || size <= i < |now| ==> now[i] == was[i]
  }

  lemma {:induction false} DigitsOf(s: string, rest: string)
    requires AllDigits(s) && (rest == "" || !IsDigit(rest[0]))
    ensures Digits(s + rest) == |s|
  {
    if s == "" {
      assert s + rest == rest;
    } else {
      assert (s + rest)[1..] == s[1..] + rest;
      DigitsOf(s[1..], rest);
    }
  }

  /** Reading back what was printed gives the number, or an error exactly if it exceeds int. */
  lemma ReadsBack(n: nat, rest: string)
    requires rest == "" || !IsDigit(rest[0])
    ensures ParseInt(Printed(n) + rest) == if n > INT_MAX then Bad else Ok(n, rest)
  {
    var s := Printed(n) + rest;
    PrintedIsDecimal(n);
    DigitsOf(Printed(n), rest);
    assert s[..|Printed(n)|] == Printed(n) && s[|Printed(n)|..] == rest;
  }

  // ----- counting by the highest bit

  const BITS0: seq<nat> := [1, 1, 1, 2, 2, 2, 3, 3, 3, 4, 4, 4, 4, 5, 5, 5]
  const BITS1: seq<nat> := [6, 6, 6, 7, 7, 7, 7, 8, 8, 8, 9, 9, 9, 10, 10, 10]
  const BITS2: seq<nat> := [10, 11, 11, 11, 12, 12, 12, 13, 13, 13, 13, 14, 14, 14, 15, 15]
  const BITS3: seq<nat> := [15, 16, 16, 16, 16, 17, 17, 17, 18, 18, 18, 19, 19, 19, 19, 20]

  /** For each highest bit the number of digits of the largest number that has it. */
  const BSR2LOG10: seq<nat> := BITS0 + BITS1 + BITS2 + BITS3

  const ZERO_OR_POWERS_OF_10: seq<nat> := [
    0, 0, 10, 100, 1_000, 10_000, 100_000, 1_000_000, 10_000_000,
    100_000_000, 1_000_000_000, 10_000_000_000, 100_000_000_000, 1_000_000_000_000,
    10_000_000_000_000, 100_000_000_000_000, 1_000_000_000_000_000, 10_000_000_000_000_000,
    100_000_000_000_000_000, 1_000_000_000_000_000_000, 10_000_000_000_000_000_000]

  /** The index of the highest bit. */
  function HighestBit(n: nat): nat
    requires n > 0
  {
    if n == 1 then 0 else HighestBit(n / 2) + 1
  }

  lemma {:induction false} HighestBitBounds(n: nat)
    requires n > 0
    ensures Pow(2, HighestBit(n)) <= n < Pow(2, HighestBit(n) + 1)
  {
    if n > 1 {
      HighestBitBounds(n / 2);
    }
  }

  /** The first bit at which the number of digits is t. */
  const FIRST_BIT: seq<nat> := [0, 3, 6, 9, 13, 16, 19, 23, 26, 29, 33, 36, 39, 43, 46, 49, 53, 56, 59, 63, 64]

  /** The powers of two at those bits. */
  const FIRST_POWER: seq<nat> := [
    0x1, 0x8, 0x40, 0x200, 0x2000, 0x10000,
    0x80000, 0x800000, 0x4000000, 0x20000000, 0x200000000, 0x1000000000,
    0x8000000000, 0x80000000000, 0x400000000000, 0x2000000000000, 0x20000000000000, 0x100000000000000,
    0x800000000000000, 0x8000000000000000, 0x10000000000000000]

  predicate InRun(bit: nat, t: nat) { 1 <= t <= 20 && FIRST_BIT[t - 1] <= bit < FIRST_BIT[t] }

  lemma Run0(i: nat)
    requires i < 16
    ensures InRun(i, BITS0[i])
  {}

  lemma Run1(i: nat)
    requires i < 16
    ensures InRun(16 + i, BITS1[i])
  {}

  lemma Run2(i: nat)
    requires i < 16
    ensures InRun(32 + i, BITS2[i])
  {}

  lemma Run3(i: nat)
    requires i < 16
    ensures InRun(48 + i, BITS3[i])
  {}

  lemma FirstBits(bit: nat)
    requires bit < 64
    ensures InRun(bit, BSR2LOG10[bit])
  {
    if bit < 16 {
      Run0(bit);
    } else if bit < 32 {
      Run1(bit - 16);
    } else if bit < 48 {
      Run2(bit - 32);
    } else {
      Run3(bit - 48);
    }
  }

  lemma {:induction false} TenPowers(t: nat)
    requires t < 20
    ensures ZERO_OR_POWERS_OF_10[t + 1] == if t == 0 then 0 else Pow(10, t)
  {
    if t == 1 {
      assert Pow(10, 1) == 10 * Pow(10, 0);
    } else if t > 1 {
      TenPowers(t - 1);
      assert ZERO_OR_POWERS_OF_10[t + 1] == 10 * ZERO_OR_POWERS_OF_10[t];
    }
  }

  lemma SmallPowers()
    ensures Pow(2, 0) == 1 && Pow(2, 1) == 2 && Pow(2, 3) == 8 && Pow(2, 4) == 16 && Pow(10, 0) == 1 && Pow(10, 1) == 10
  {
    assert Pow(2, 2) == 2 * Pow(2, 1) && Pow(2, 3) == 2 * Pow(2, 2) && Pow(2, 4) == 2 * Pow(2, 3);
  }

  lemma NextFirst(t: nat)
    requires 0 < t < 21
    ensures var d := FIRST_BIT[t] - FIRST_BIT[t - 1];
            (d == 3 && FIRST_POWER[t] == FIRST_POWER[t - 1] * 8) || (d == 4 && FIRST_POWER[t] == FIRST_POWER[t - 1] * 16) ||
            (d == 1 && FIRST_POWER[t] == FIRST_POWER[t - 1] * 2)
  {}

  lemma {:induction false} TwoPowers(t: nat)
    requires t < 21
    ensures FIRST_POWER[t] == Pow(2, FIRST_BIT[t])
  {
    if t > 0 {
      TwoPowers(t - 1);
      NextFirst(t);
      NextPower(FIRST_BIT[t - 1], FIRST_BIT[t] - FIRST_BIT[t - 1], FIRST_POWER[t - 1], FIRST_POWER[t]);
    } else {
      SmallPowers();
    }
  }

  lemma NextPower(bit: nat, d: nat, p: nat, q: nat)
    requires p == Pow(2, bit)
    requires (d == 3 && q == p * 8) || (d == 4 && q == p * 16) || (d == 1 && q == p * 2)
    ensures q == Pow(2, bit + d)
  {
    SmallPowers();
    PowAdd(2, bit, d);
  }

  lemma TablesFit(t: nat)
    requires 1 <= t <= 20
    ensures FIRST_POWER[t] <= if t < 20 then ZERO_OR_POWERS_OF_10[t + 1] else 10 * ZERO_OR_POWERS_OF_10[20]
    ensures FIRST_POWER[t - 1] >= if t > 2 then ZERO_OR_POWERS_OF_10[t - 1] else 1
  {}

  /** A number below the t-th of those powers of two has at most t digits, and one from the last on t - 1 at least. */
  lemma PowersFit(t: nat)
    requires 1 <= t <= 20
    ensures Pow(2, FIRST_BIT[t]) <= Pow(10, t) && (t > 1 ==> Pow(10, t - 2) <= Pow(2, FIRST_BIT[t - 1]))
  {
    TwoPowers(t);
    TwoPowers(t - 1);
    SmallPowers();
    TablesFit(t);
    if t < 20 {
      TenPowers(t);
    } else {
      TenPowers(19);
      assert Pow(10, 20) == 10 * Pow(10, 19);
    }
    if t > 2 {
      TenPowers(t - 2);
    }
  }

  function SetLowBit(n: nat): nat { if n % 2 == 0 then n + 1 else n }

  lemma BitInRange(n: nat)
    requires 0 < n < TWO64
    ensures HighestBit(n) < 64
  {
    HighestBitBounds(n);
    TwoPowers(20);
    if HighestBit(n) >= 64 {
      PowMono(2, 64, HighestBit(n));
    }
  }

  /** Counting with one comparison: the table gives the digits, or one too many. */
  function FastCount(n: nat): nat
    requires n < TWO64
  {
    BitInRange(SetLowBit(n));
    FirstBits(HighestBit(SetLowBit(n)));
    OneLess(n, BSR2LOG10[HighestBit(SetLowBit(n))])
  }

  function OneLess(n: nat, t: nat): nat
    requires 1 <= t <= 20
  {
    if n < ZERO_OR_POWERS_OF_10[t] then t - 1 else t
  }

  lemma LowBit(n: nat, half: nat)
    requires 2 * half <= SetLowBit(n)
    ensures 2 * half <= n
  {}

  /** The range of the numbers with a given highest bit. */
  lemma BitRange(n: nat, bit: nat, t: nat)
    requires bit == HighestBit(SetLowBit(n)) && InRun(bit, t)
    ensures n < Pow(10, t) && (t > 1 ==> Pow(10, t - 2) <= n)
  {
    HighestBitBounds(SetLowBit(n));
    PowersFit(t);
    PowMono(2, bit + 1, FIRST_BIT[t]);
    PowMono(2, FIRST_BIT[t - 1], bit);
    if t > 1 {
      FirstBitGrows(t);
      assert Pow(2, bit) == 2 * Pow(2, bit - 1);
      LowBit(n, Pow(2, bit - 1));
    }
  }

  lemma FirstBitGrows(t: nat)
    requires 1 < t <= 20
    ensures FIRST_BIT[t - 1] > 0
  {}

  lemma CountInRange(n: nat, t: nat)
    requires t > 0 && n < Pow(10, t) && (t > 1 ==> Pow(10, t - 2) <= n)
    ensures |Printed(n)| == if t > 1 && n < Pow(10, t - 1) then t - 1 else t
  {
    PrintedLength(n, if t > 1 && n < Pow(10, t - 1) then t - 1 else t);
  }

  /** The fast count is the number of digits, for every 64-bit number. */
  lemma FastCountCorrect(n: nat)
    requires n < TWO64
    ensures FastCount(n) == |Printed(n)|
  {
    BitInRange(SetLowBit(n));
    var bit := HighestBit(SetLowBit(n));
    FirstBits(bit);
    OneLessCorrect(n, bit, BSR2LOG10[bit]);
  }

  lemma OneLessCorrect(n: nat, bit: nat, t: nat)
    requires bit == HighestBit(SetLowBit(n)) && InRun(bit, t)
    ensures OneLess(n, t) == |Printed(n)|
  {
    BitRange(n, bit, t);
    CountInRange(n, t);
    TenPowers(t - 1);
  }
}
