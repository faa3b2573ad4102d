/**
 Divisibility by powers of five through wrap-around multiplication, and the removal of
 trailing decimal zeros that is built on it.
 */
module TrailingZeros {
  import opened Arith

  /**
   Multiplying by the inverse of m modulo w divides multiples of m exactly, and sends all
   other numbers above (w - 1) / m.
   */
  lemma InverseTest(x: nat, m: nat, inv: nat, w: nat)
    requires 0 < m < w && x < w && (m * inv) % w == 1
    ensures (x * inv) % w <= (w - 1) / m <==> Divides(m, x)
    ensures Divides(m, x) ==> (x * inv) % w == x / m
  {
    if Divides(m, x) { InverseDivides(x, m, inv, w); }
    if (x * inv) % w <= (w - 1) / m { InverseDetects(x, m, inv, w); }
  }

  lemma InverseDivides(x: nat, m: nat, inv: nat, w: nat)
    requires 0 < m < w && x < w && (m * inv) % w == 1 && Divides(m, x)
    ensures (x * inv) % w == x / m <= (w - 1) / m
  {
    var q, k := x / m, m * inv / w;
    Exact(m, x);
    assert m * inv == k * w + 1;
    MulAssoc(q, m, inv);
    Distribute(k * w, 1, q);
    MulAssoc(q, k, w);
    QuotientBound(x, m, w);
    DivModUnique(x * inv, q * k, q, w);
  }

  lemma InverseDetects(x: nat, m: nat, inv: nat, w: nat)
    requires 0 < m < w && x < w && (m * inv) % w == 1 && (x * inv) % w <= (w - 1) / m
    ensures Divides(m, x)
  {
    var k, y, c := m * inv / w, (x * inv) % w, x * inv / w;
    assert m * inv == k * w + 1 && x * inv == c * w + y;
    InverseDifference(x, m, inv, w, k, y, c);
    QuotientTimes(y, m, w);
    SmallMultiple(x - m * y, m * c - x * k, w);
    ProductMultiple(y, m);
  }

  lemma ProductMultiple(y: int, m: int)
    requires m > 0
    ensures Divides(m, m * y)
  {
    Divisible(m, y);
  }

  lemma InverseDifference(x: int, m: int, inv: int, w: int, k: int, y: int, c: int)
    requires m * inv == k * w + 1 && x * inv == c * w + y
    ensures x - m * y == (m * c - x * k) * w
  {
    MulAssoc(x, m, inv);
    MulAssoc(m, x, inv);
    Distribute(k * w, 1, x);
    MulAssoc(x, k, w);
    Distribute(c * w, y, m);
    MulAssoc(m, c, w);
    Distribute(m * c, x * k, w);
  }

  lemma QuotientTimes(y: nat, m: nat, w: nat)
    requires 0 < m < w && y <= (w - 1) / m
    ensures 0 <= m * y < w
  {
    MulUpto(y, (w - 1) / m, m);
  }

  lemma SmallMultiple(x: int, d: int, w: nat)
    requires x == d * w && x < w && -x < w
    ensures x == 0
  {
    if d < 0 { MulMono(d, -1, w); }
    if d > 0 { MulMono(1, d, w); }
  }

  lemma QuotientBound(x: nat, m: nat, w: nat)
    requires 0 < m && x < w
    ensures 0 <= x / m <= (w - 1) / m && x / m < w
  {
    var q, p := x / m, (w - 1) / m;
    assert x == q * m + x % m && w - 1 == p * m + (w - 1) % m;
    if q > p { MulMono(p + 1, q, m); Distribute(p, 1, m); }
    MulGrows(q, m);
  }

  // ----- the tables

  const TABLE32: seq<(nat, nat)> := [
    (0x00000001, 0xffffffff), (0xcccccccd, 0x33333333), (0xc28f5c29, 0x0a3d70a3), (0x26e978d5, 0x020c49ba),
    (0x3afb7e91, 0x0068db8b), (0x0bcbe61d, 0x0014f8b5), (0x68c26139, 0x000431bd), (0xae8d46a5, 0x0000d6bf),
    (0x22e90e21, 0x00002af3), (0x3a2e9c6d, 0x00000897), (0x3ed61f49, 0x000001b7)]

  const TABLE64: seq<(nat, nat)> := [
    (0x0000000000000001, 0xffffffffffffffff), (0xcccccccccccccccd, 0x3333333333333333),
    (0x8f5c28f5c28f5c29, 0x0a3d70a3d70a3d70), (0x1cac083126e978d5, 0x020c49ba5e353f7c),
    (0xd288ce703afb7e91, 0x0068db8bac710cb2), (0x5d4e8fb00bcbe61d, 0x0014f8b588e368f0),
    (0x790fb65668c26139, 0x000431bde82d7b63), (0xe5032477ae8d46a5, 0x0000d6bf94d5e57a),
    (0xc767074b22e90e21, 0x00002af31dc46118), (0x8e47ce423a2e9c6d, 0x0000089705f4136b),
    (0x4fa7f60d3ed61f49, 0x000001b7cdfd9d7b), (0x0fee64690c913975, 0x00000057f5ff85e5),
    (0x3662e0e1cf503eb1, 0x000000119799812d), (0xa47a2cf9f6433fbd, 0x0000000384b84d09),
    (0x54186f653140a659, 0x00000000b424dc35), (0x7738164770402145, 0x0000000024075f3d),
    (0xe4a4d1417cd9a041, 0x000000000734aca5), (0xc75429d9e5c5200d, 0x000000000170ef54),
    (0xc1773b91fac10669, 0x000000000049c977), (0x26b172506559ce15, 0x00000000000ec1e4),
    (0xd489e3a9addec2d1, 0x000000000002f394), (0x90e860bb892c8d5d, 0x000000000000971d),
    (0x502e79bf1b6f4f79, 0x0000000000001e39), (0xdcd618596be30fe5, 0x000000000000060b)]

  /** An entry holds the inverse of 5^e and the largest quotient by 5^e. */
  ghost predicate EntryFits(entry: (nat, nat), m: nat, w: nat) {
    0 < m < w && (m * entry.0) % w == 1 && entry.1 == (w - 1) / m
  }

  /** Each entry follows from the one before: five times its inverse is the inverse before. */
  ghost predicate Follows(entry: (nat, nat), before: (nat, nat), w: nat)
    requires w > 0
  {
    (5 * entry.0) % w == before.0 && entry.1 == before.1 / 5 > 0
  }

  lemma Chain32(e: nat)
    requires 0 < e < 11
    ensures |TABLE32| == 11 && Follows(TABLE32[e], TABLE32[e - 1], TWO32)
  {}

  lemma Chain64(e: nat)
    requires 0 < e < 24
    ensures |TABLE64| == 24 && Follows(TABLE64[e], TABLE64[e - 1], TWO64)
  {
    if e < 8 {
    } else if e < 16 {
    } else {
    }
  }

  lemma ChainProduct(m: int, inv: int, before: int, k: int, j: int, w: int)
    requires 5 * inv == k * w + before && m * before == j * w + 1
    ensures 5 * m * inv == (m * k + j) * w + 1
  {
    MulAssoc(m, 5, inv);
    Distribute(k * w, before, m);
    MulAssoc(m, k, w);
    Distribute(m * k, j, w);
  }

  lemma NextInverse(m: nat, inv: nat, before: nat, w: nat)
    requires w > 1 && (5 * inv) % w == before && (m * before) % w == 1
    ensures (5 * m * inv) % w == 1
  {
    var k, j := 5 * inv / w, m * before / w;
    assert 5 * inv == k * w + before && m * before == j * w + 1;
    ChainProduct(m, inv, before, k, j, w);
    DivModUnique(5 * m * inv, m * k + j, 1, w);
  }

  lemma NextEntry(entry: (nat, nat), before: (nat, nat), m: nat, w: nat)
    requires EntryFits(before, m, w) && Follows(entry, before, w)
    ensures EntryFits(entry, 5 * m, w)
  {
    NextInverse(m, entry.0, before.0, w);
    DivideByFive(w - 1, m);
  }

  lemma FiveFold(q: int, a: int, b: int, m: int)
    requires q == a * 5 + b
    ensures q * m == a * (5 * m) + b * m
  {
    Distribute(a * 5, b, m);
    MulAssoc(a, 5, m);
  }

  lemma DivideByFive(x: nat, m: nat)
    requires m > 0
    ensures x / (5 * m) == x / m / 5
    ensures x / (5 * m) > 0 ==> 5 * m <= x
  {
    var q, r := x / m, x % m;
    var a, b := q / 5, q % 5;
    assert x == q * m + r;
    FiveFold(q, a, b, m);
    FifthPart(x, a, b, r, m);
    if a > 0 { MulMono(1, a, 5 * m); }
  }

  lemma FifthPart(x: int, a: int, b: int, r: int, m: nat)
    requires m > 0 && 0 <= b < 5 && 0 <= r < m && x == a * (5 * m) + b * m + r
    ensures x / (5 * m) == a && x >= a * (5 * m)
  {
    MulUpto(b, 4, m);
    DivModUnique(x, a, b * m + r, 5 * m);
  }

  lemma {:induction false} Entry32(e: nat)
    requires e < 11
    ensures |TABLE32| == 11 && EntryFits(TABLE32[e], Pow(5, e), TWO32)
  {
    if e > 0 {
      Entry32(e - 1);
      Chain32(e);
      NextEntry(TABLE32[e], TABLE32[e - 1], Pow(5, e - 1), TWO32);
    }
  }

  lemma {:induction false} Entry64(e: nat)
    requires e < 24
    ensures |TABLE64| == 24 && EntryFits(TABLE64[e], Pow(5, e), TWO64)
  {
    if e > 0 {
      Entry64(e - 1);
      Chain64(e);
      NextEntry(TABLE64[e], TABLE64[e - 1], Pow(5, e - 1), TWO64);
    }
  }

  /** `divisible_by_power_of_5` for 32-bit numbers. */
  predicate DivisibleByPowerOf5Word(x: nat, e: nat)
    requires x < TWO32 && e < |TABLE32|
  {
    U32(x * TABLE32[e].0) <= TABLE32[e].1
  }

  predicate DivisibleByPowerOf5(x: nat, e: nat)
    requires x < TWO64 && e < |TABLE64|
  {
    U64(x * TABLE64[e].0) <= TABLE64[e].1
  }

  lemma DivisibleWordCorrect(x: nat, e: nat)
    requires x < TWO32 && e < |TABLE32|
    ensures Pow(5, e) > 0 && (DivisibleByPowerOf5Word(x, e) <==> Divides(Pow(5, e), x))
  {
    Entry32(e);
    InverseTest(x, Pow(5, e), TABLE32[e].0, TWO32);
  }

  lemma DivisibleCorrect(x: nat, e: nat)
    requires x < TWO64 && e < |TABLE64|
    ensures Pow(5, e) > 0 && (DivisibleByPowerOf5(x, e) <==> Divides(Pow(5, e), x))
  {
    Entry64(e);
    InverseTest(x, Pow(5, e), TABLE64[e].0, TWO64);
  }

  // ----- trailing zeros

  /** The number of trailing zero bits (`ctz`). */
  function Ctz(n: nat): nat
    requires n > 0
  {
    if n % 2 == 1 then 0 else 1 + Ctz(n / 2)
  }

  lemma {:induction false} CtzIs(n: nat)
    requires n > 0
    ensures Pow(2, Ctz(n)) > 0 && Divides(Pow(2, Ctz(n)), n) && (n / Pow(2, Ctz(n))) % 2 == 1
  {
    if n % 2 == 0 {
      CtzIs(n / 2);
      var p := Pow(2, Ctz(n / 2));
      Exact(p, n / 2);
      MulAssoc(n / 2 / p, p, 2);
      Divisible(2 * p, n / 2 / p);
    }
  }

  /** Fewer factors of two than there are divide as well. */
  lemma CtzDivides(n: nat, s: nat)
    requires n > 0 && s <= Ctz(n)
    ensures Pow(2, s) > 0 && Divides(Pow(2, s), n)
  {
    CtzIs(n);
    PowPos(2, s);
    PowAdd(2, Ctz(n) - s, s);
    var q := n / Pow(2, Ctz(n));
    Exact(Pow(2, Ctz(n)), n);
    MulAssoc(q, Pow(2, Ctz(n) - s), Pow(2, s));
    Divisible(Pow(2, s), q * Pow(2, Ctz(n) - s));
  }

  function ShiftRight(n: nat, s: nat): (r: nat) {
    PowPos(2, s);
    n / Pow(2, s)
  }

  /** s is the number of trailing decimal zeros of n and r is n without them. */
  ghost predicate Stripped(n: nat, s: nat, r: nat) {
    n == r * Pow(10, s) && r % 10 != 0
  }

  /** Dividing out 5^s and 2^s separately divides out 10^s. */
  lemma SplitTen(n: nat, five: nat, s: nat)
    requires n > 0 && n == five * Pow(5, s) && s <= Ctz(n)
    ensures Pow(2, s) > 0 && five == ShiftRight(five, s) * Pow(2, s)
    ensures n == ShiftRight(five, s) * Pow(10, s)
  {
    CtzDivides(n, s);
    PowFiveOdd(s);
    ThroughOdd(five, Pow(5, s), s);
    Exact(Pow(2, s), five);
    PowDistribute(2, 5, s);
    MulAssoc(five / Pow(2, s), Pow(2, s), Pow(5, s));
  }

  lemma {:induction false} ThroughOdd(m: nat, odd: nat, s: nat)
    requires odd % 2 == 1 && Pow(2, s) > 0 && Divides(Pow(2, s), m * odd)
    ensures Divides(Pow(2, s), m)
  {
    if s > 0 {
      var p := Pow(2, s - 1);
      PowPos(2, s - 1);
      Exact(2 * p, m * odd);
      var q := m * odd / (2 * p);
      MulAssoc(q, p, 2);
      EvenFactor(m, odd, q * p);
      MulAssoc(m / 2, odd, 2);
      Divisible(p, q);
      ThroughOdd(m / 2, odd, s - 1);
      Exact(p, m / 2);
      MulAssoc(m / 2 / p, p, 2);
      Divisible(2 * p, m / 2 / p);
    }
  }

  lemma EvenFactor(m: nat, odd: nat, half: nat)
    requires odd % 2 == 1 && m * odd == 2 * half
    ensures m == 2 * (m / 2) && m / 2 * odd == half
  {
    var k := odd / 2;
    assert odd == 2 * k + 1;
    assert m * odd == 2 * (m * k) + m by { Distribute(2 * k, 1, m); MulAssoc(2, k, m); }
    assert m % 2 == 0;
    MulAssoc(2, m / 2, odd);
  }

  /** When the quotient by 5^s is no multiple of five, or no factor of two is left, s is maximal. */
  lemma Maximal(n: nat, five: nat, s: nat)
    requires n > 0 && n == five * Pow(5, s) && s <= Ctz(n)
    requires five % 5 != 0 || s == Ctz(n)
    ensures ShiftRight(five, s) % 10 != 0
  {
    SplitTen(n, five, s);
    CtzIs(n);
    var p, r := Pow(2, s), ShiftRight(five, s);
    MulAssoc(r, p, Pow(5, s));
    MulAssoc(r, Pow(5, s), p);
    Divisible(p, r * Pow(5, s));
    if r % 10 == 0 {
      TenTimes(r, p);
      TenTimes(r, Pow(5, s));
    }
  }

  lemma TenTimes(r: nat, x: nat)
    requires r % 10 == 0
    ensures (r * x) % 5 == 0 && (r * x) % 2 == 0
  {
    MulAssoc(10, r / 10, x);
    var y := r / 10 * x;
    assert r * x == 10 * y;
  }

  // ----- the 32-bit method

  const MOD_INV1: nat := 0xcccccccd
  const MAX_QUOTIENT1: nat := 0x33333333
  const MOD_INV2: nat := 0xc28f5c29
  const MAX_QUOTIENT2: nat := 0x0a3d70a3
  const MOD_INV8: nat := 0xc767074b22e90e21
  const MAX_QUOTIENT8: nat := 0x00002af31dc46118

  lemma FiveTest(x: nat)
    requires x < TWO32
    ensures U32(x * MOD_INV1) <= MAX_QUOTIENT1 <==> x % 5 == 0
    ensures x % 5 == 0 ==> U32(x * MOD_INV1) == x / 5
  {
    InverseTest(x, 5, MOD_INV1, TWO32);
  }

  lemma TwentyFiveTest(x: nat)
    requires x < TWO32
    ensures U32(x * MOD_INV2) <= MAX_QUOTIENT2 <==> x % 25 == 0
    ensures x % 25 == 0 ==> U32(x * MOD_INV2) == x / 25
  {
    InverseTest(x, 25, MOD_INV2, TWO32);
  }

  lemma EighthTest(x: nat)
    requires x < TWO64
    ensures Pow(5, 8) == 390625
    ensures U64(x * MOD_INV8) <= MAX_QUOTIENT8 <==> x % 390625 == 0
    ensures x % 390625 == 0 ==> U64(x * MOD_INV8) == x / 390625
  {
    assert Pow(5, 4) == 625;
    PowAdd(5, 4, 4);
    InverseTest(x, 390625, MOD_INV8, TWO64);
  }

  /** One or two more factors of five. */
  lemma MoreFives(n: nat, five: nat, s: nat)
    requires n == five * Pow(5, s)
    ensures five % 5 == 0 ==> n == five / 5 * Pow(5, s + 1)
    ensures five % 25 == 0 ==> n == five / 25 * Pow(5, s + 2)
    ensures five % 25 != 0 && five % 5 == 0 ==> five / 5 % 5 != 0
  {
    if five % 5 == 0 {
      MulAssoc(five / 5, 5, Pow(5, s));
      FiveByFive(five, five / 5);
    }
    if five % 25 == 0 {
      TwoFives(n, five / 25, s);
    }
  }

  lemma FiveByFive(five: nat, part: nat)
    requires five == 5 * part
    ensures five % 25 == 0 <==> part % 5 == 0
  {}

  lemma TwoFives(n: nat, part: nat, s: nat)
    requires n == 25 * part * Pow(5, s)
    ensures n == part * Pow(5, s + 2)
  {
    assert Pow(5, s + 2) == 5 * Pow(5, s + 1) && Pow(5, s + 1) == 5 * Pow(5, s);
    MulAssoc(part, 25, Pow(5, s));
  }

  /**
   Removes up to seven trailing zeros. More are kept: the result is completely stripped
   unless seven were removed.
   */
  method RemoveTrailingZerosWord(number: nat) returns (n: nat, s: nat)
    requires 0 < number < TWO32
    ensures number == n * Pow(10, s) && s <= 7
    ensures s < 7 ==> Stripped(number, s, n)
  {
    var t := Ctz(number);
    if t > 7 { t := 7; }
    n, s := number, 0;
    while s < t - 1
      invariant number == n * Pow(5, s) && s <= t && 0 < n < TWO32
      decreases t - s
    {
      TwentyFiveTest(n);
      MoreFives(number, n, s);
      if U32(n * MOD_INV2) > MAX_QUOTIENT2 { break; }
      n := U32(n * MOD_INV2);
      s := s + 2;
    }
    FiveTest(n);
    MoreFives(number, n, s);
    if s < t && U32(n * MOD_INV1) <= MAX_QUOTIENT1 {
      n := U32(n * MOD_INV1);
      s := s + 1;
    }
    SplitTen(number, n, s);
    if s < 7 { Maximal(number, n, s); }
    n := ShiftRight(n, s);
  }

  // ----- the 64-bit method

  const MAX_SIGNIFICAND: nat := (TWO64 - 1) / 1000

  /** The number is divisible by 10^8 and the rest of the work is done on a 32-bit quotient. */
  method StripQuotient(number: nat, candidate: nat, t: nat) returns (n: nat, s: nat)
    requires 0 < number <= MAX_SIGNIFICAND && number == candidate * Pow(5, 8)
    requires 8 <= t <= Ctz(number) && t <= 16 && (t == Ctz(number) || t == 16)
    ensures Stripped(number, s, n)
  {
    EighthSplit(number, candidate);
    var quotient := U32(candidate / 256);
    s := 8;
    while s < t
      invariant 8 <= s <= t && 0 < quotient < TWO32
      invariant number == quotient * 256 * Pow(5, s)
      decreases t - s
    {
      FiveTest(quotient);
      if U32(quotient * MOD_INV1) > MAX_QUOTIENT1 { break; }
      QuotientFive(number, quotient, s);
      quotient := U32(quotient * MOD_INV1);
      s := s + 1;
    }
    QuotientDone(number, quotient, s, t);
    n := ShiftRight(quotient, s - 8);
  }

  lemma QuotientFive(number: nat, quotient: nat, s: nat)
    requires number == quotient * 256 * Pow(5, s) && quotient % 5 == 0
    ensures number == quotient / 5 * 256 * Pow(5, s + 1)
  {
    assert quotient * 256 == quotient / 5 * 256 * 5;
    MulAssoc(quotient / 5 * 256, 5, Pow(5, s));
  }

  lemma QuotientDone(number: nat, quotient: nat, s: nat, t: nat)
    requires 0 < number <= MAX_SIGNIFICAND && number == quotient * 256 * Pow(5, s)
    requires 8 <= s <= t <= Ctz(number) && t <= 16 && (t == Ctz(number) || t == 16)
    requires s == t || quotient % 5 != 0
    ensures Stripped(number, s, ShiftRight(quotient, s - 8))
  {
    var five := quotient * 256;
    ShiftRest(quotient, s);
    Times256(quotient);
    FiveDone(number, five, s, t);
  }

  lemma Times256(q: nat)
    ensures (q * 256) % 5 == q % 5
  {
    assert q * 256 == 5 * (51 * q) + q;
  }

  lemma FiveDone(number: nat, five: nat, s: nat, t: nat)
    requires number > 0 && number == five * Pow(5, s) && (s == 16 ==> number <= MAX_SIGNIFICAND)
    requires s <= t <= Ctz(number) && (t == Ctz(number) || t == 16)
    requires s == t || five % 5 != 0
    ensures Stripped(number, s, ShiftRight(five, s))
  {
    SplitTen(number, five, s);
    if s == 16 { AtMostSixteen(number, ShiftRight(five, 16)); } else { Maximal(number, five, s); }
  }

  lemma EighthSplit(number: nat, candidate: nat)
    requires 0 < number <= MAX_SIGNIFICAND && number == candidate * Pow(5, 8) && Ctz(number) >= 8
    ensures candidate == candidate / 256 * 256 && 0 < candidate / 256 < TWO32
  {
    PowTwo32();
    SplitTen(number, candidate, 8);
    assert Pow(2, 8) == 256;
    EighthTest(0);
    EighthRange(number, candidate);
  }

  lemma EighthRange(number: nat, candidate: nat)
    requires 0 < number <= MAX_SIGNIFICAND && number == candidate * 390625 && candidate % 256 == 0
    ensures 0 < candidate / 256 < TWO32
  {}

  /** Shifting out the 2^8 that came with 10^8 first makes no difference. */
  lemma ShiftRest(quotient: nat, s: nat)
    requires s >= 8
    ensures ShiftRight(quotient * 256, s) == ShiftRight(quotient, s - 8)
  {
    PowTwo32();
    PowAdd(2, s - 8, 8);
    PowPos(2, s - 8);
    var p, q, r := Pow(2, s - 8), ShiftRight(quotient, s - 8), quotient % Pow(2, s - 8);
    assert quotient == q * p + r;
    MulAssoc(q, p, 256);
    DivModUnique(quotient * 256, q, r * 256, p * 256);
  }

  lemma AtMostSixteen(number: nat, n: nat)
    requires 0 < number <= MAX_SIGNIFICAND && number == n * Pow(10, 16)
    ensures n % 10 != 0
  {
    assert Pow(10, 4) == 10000;
    PowAdd(10, 4, 4);
    PowAdd(10, 8, 8);
  }

  /** 10^8 without s factors of five. */
  ghost function Weight(s: nat): nat
    requires s <= 8
  {
    Pow(10, 8 - s) * Pow(2, s)
  }

  lemma WeightStep(s: nat)
    requires s < 8
    ensures Weight(s) == 5 * Weight(s + 1)
    ensures Weight(0) == 100000000
  {
    assert Pow(10, 8 - s) == 10 * Pow(10, 7 - s);
    MulAssoc(10, Pow(10, 7 - s), Pow(2, s));
    MulAssoc(Pow(10, 7 - s), 2, Pow(2, s));
    MulAssoc(Pow(10, 7 - s), Pow(2, s), 2);
    assert Pow(10, 4) == 10000;
    PowAdd(10, 4, 4);
  }

  /** One more factor of five taken out of the number, seen on its last eight digits. */
  lemma LowFives(number: nat, high: nat, low: nat, s: nat)
    requires s < 8 && Parts(number, high, low, s)
    ensures (low + high * Weight(s)) % 5 == low % 5
    ensures low % 5 == 0 ==> Parts(number, high, low / 5, s + 1)
  {
    WeightStep(s);
    MulAssoc(high, Weight(s + 1), 5);
    NatProduct(high, Weight(s + 1));
    var w: nat := high * Weight(s + 1);
    FiveApart(low, w);
    if low % 5 == 0 {
      FifthMore(number, low / 5 + w, s);
    }
  }

  lemma FiveApart(low: nat, w: nat)
    ensures (low + 5 * w) % 5 == low % 5
    ensures low % 5 == 0 ==> low + 5 * w == 5 * (low / 5 + w)
  {}

  lemma FifthMore(number: nat, x: int, s: nat)
    requires number == (5 * x) * Pow(5, s)
    ensures number == x * Pow(5, s + 1)
  {
    MulAssoc(x, 5, Pow(5, s));
  }

  /** Shifting the last eight digits and adding the others at their place. */
  lemma ShiftLow(high: nat, low: nat, s: nat)
    requires s <= 8
    ensures ShiftRight(low + high * Weight(s), s) == ShiftRight(low, s) + high * Pow(10, 8 - s)
  {
    var p, q := Pow(2, s), ShiftRight(low, s);
    PowPos(2, s);
    var r := low % p;
    assert low == q * p + r;
    MulAssoc(high, Pow(10, 8 - s), p);
    Distribute(q, high * Pow(10, 8 - s), p);
    DivModUnique(low + high * Weight(s), q + high * Pow(10, 8 - s), r, p);
  }

  /** No 10^8 in the number: the zeros are found in the last eight digits. */
  method StripRemainder(number: nat, t: nat) returns (n: nat, s: nat)
    requires 0 < number <= MAX_SIGNIFICAND
    requires t <= Ctz(number) && t <= 16 && (t == Ctz(number) || t == 16)
    requires t >= 8 ==> number % 390625 != 0
    ensures Stripped(number, s, n)
  {
    var quotient := U32(number / 100000000);
    var remainder := U32(number - U32(100000000 * quotient));
    RemainderFits(number);
    WeightStep(0);
    remainder, s := LowZeros(number, quotient, remainder, t);
    RemainderDone(number, quotient, remainder, s, t);
    n := ShiftRight(remainder, s) + quotient * Pow(10, 8 - s);
  }

  ghost predicate Parts(number: nat, high: nat, low: nat, s: nat)
    requires s <= 8
  {
    number == (low + high * Weight(s)) * Pow(5, s)
  }

  /** The chain of tests on the remainder, which the program writes out seven times. */
  method LowZeros(number: nat, ghost high: nat, start: nat, t: nat) returns (low: nat, s: nat)
    requires start < TWO32 && Parts(number, high, start, 0)
    ensures s <= 7 && s <= t && Parts(number, high, low, s)
    ensures s == t || low % 5 != 0 || s == 7
  {
    low, s := start, 0;
    while s < 7
      invariant s <= 7 && s <= t && low < TWO32 && Parts(number, high, low, s)
    {
      FiveTest(low);
      LowFives(number, high, low, s);
      if t == s || U32(low * MOD_INV1) > MAX_QUOTIENT1 { break; }
      low := U32(low * MOD_INV1);
      s := s + 1;
    }
  }

  lemma RemainderDone(number: nat, high: nat, low: nat, s: nat, t: nat)
    requires number > 0 && s <= 7 && s <= t <= Ctz(number) && (t == Ctz(number) || t == 16)
    requires Parts(number, high, low, s)
    requires s == t || low % 5 != 0 || s == 7
    requires t >= 8 ==> number % 390625 != 0
    ensures high * Pow(10, 8 - s) >= 0 && Stripped(number, s, ShiftRight(low, s) + high * Pow(10, 8 - s))
  {
    NatProduct(high, Pow(10, 8 - s));
    NatProduct(high, Weight(s));
    var five: nat := low + high * Weight(s);
    ShiftLow(high, low, s);
    assert ShiftRight(five, s) == ShiftRight(low, s) + high * Pow(10, 8 - s);
    NoEighth(number, five, s);
    LowFives(number, high, low, s);
    FiveDone(number, five, s, t);
  }

  lemma NatProduct(a: nat, b: nat)
    ensures a * b >= 0
  {}

  lemma RemainderFits(number: nat)
    requires number <= MAX_SIGNIFICAND
    ensures var q := U32(number / 100000000);
            q == number / 100000000 && U32(number - U32(100000000 * q)) == number % 100000000
  {
    var q := number / 100000000;
    var p := 100000000 * q;
    var k := p / TWO32;
    assert number - U32(p) == k * TWO32 + number % 100000000;
    DivModUnique(number - U32(p), k, number % 100000000, TWO32);
  }

  /** After seven fives an eighth would make the number divisible by 5^8. */
  lemma NoEighth(number: nat, five: nat, s: nat)
    requires number == five * Pow(5, s)
    ensures s == 7 && number % 390625 != 0 ==> five % 5 != 0
  {
    if s == 7 && five % 5 == 0 {
      MoreFives(number, five, 7);
      EighthTest(0);
      Divisible(390625, five / 5);
    }
  }

  /** The numbers this is called with have at most sixteen trailing zeros; all are removed. */
  method RemoveTrailingZeros(number: nat) returns (n: nat, s: nat)
    requires 0 < number <= MAX_SIGNIFICAND
    ensures Stripped(number, s, n)
  {
    var t := Ctz(number);
    if t > 16 { t := 16; }
    EighthTest(number);
    if t >= 8 {
      var candidate := U64(number * MOD_INV8);
      if candidate <= MAX_QUOTIENT8 {
        n, s := StripQuotient(number, candidate, t);
        return;
      }
    }
    n, s := StripRemainder(number, t);
  }

  /** The number of zeros removed is the largest possible one. */
  lemma StrippedIsMaximal(number: nat, s: nat, n: nat, k: nat, q: nat)
    requires Stripped(number, s, n) && number == q * Pow(10, k)
    ensures k <= s
  {
    if k > s {
      PowAdd(10, k - s - 1, s + 1);
      var m := q * Pow(10, k - s - 1);
      MulAssoc(q, Pow(10, k - s - 1), 10 * Pow(10, s));
      MulAssoc(m, 10, Pow(10, s));
      PowPos(10, s);
      MulCancel(n, m * 10, Pow(10, s));
    }
  }
}
