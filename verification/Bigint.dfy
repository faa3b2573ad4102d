/** The big integer class of the floating-point formatter and its 128-bit accumulator. */
module BigInteger {
  import opened Arith
  import opened Positional
  import opened Convolution

  const TWO128: int := TWO64 * TWO64

  /** Cutting the low word off `rest` and placing it at weight `p` loses nothing. */
  lemma CarryOut(rest: nat, p: nat)
    ensures rest * p == U32(rest) * p + rest / TWO32 * (TWO32 * p)
  {
    var q := rest / TWO32;
    assert rest == U32(rest) + q * TWO32;
    Distribute(U32(rest), q * TWO32, p);
    MulAssoc(q, TWO32, p);
  }

  /** One digit of a multiplication by `v`: `d` is written, `c'` is carried. */
  lemma MultiplyStep(e: int, c: int, w: int, v: int, b: int, d: int, c': int, p: int)
    requires e + c * p == w * v
    requires d + c' * TWO32 == b * v + c
    ensures e + d * p + c' * (TWO32 * p) == (w + b * p) * v
  {
    Distribute(d, c' * TWO32, p);
    MulAssoc(c', TWO32, p);
    Distribute(b * v, c, p);
    Distribute(w, b * p, v);
    MulAssoc(b, v, p);
    MulAssoc(b, p, v);
  }

  /** The first i digits are multiplied by v, with a carry; the others are as they were. */
  ghost predicate Multiplied(now: seq<Bigit>, was: seq<Bigit>, v: nat, carry: nat, i: nat) {
    i <= |now| == |was| && now[i..] == was[i..] && Eval(now[..i]) + carry * P(i) == Eval(was[..i]) * v
  }

  lemma MultipliedStep(now: seq<Bigit>, was: seq<Bigit>, v: nat, carry: nat, i: nat, digit: Bigit, next: nat)
    requires Multiplied(now, was, v, carry, i) && i < |now|
    requires digit + next * TWO32 == now[i] * v + carry
    ensures Multiplied(now[i := digit], was, v, next, i + 1)
  {
    var later := now[i := digit];
    assert later[..i] == now[..i] && now[i] == now[i..][0] == was[i];
    assert later[i + 1..] == now[i..][1..] && was[i + 1..] == was[i..][1..];
    EvalSnoc(later, i);
    EvalSnoc(was, i);
    MultiplyStep(Eval(now[..i]), carry, Eval(was[..i]), v, was[i], digit, next, P(i));
  }

  /** A bigit times a 32-bit factor plus a carry fits in 64 bits and carries less than the factor. */
  lemma NarrowProduct(b: Bigit, v: Bigit, c: Bigit)
    requires c < v
    ensures var result := U64(b * v + c);
            result / TWO32 < v && U32(result) + result / TWO32 * TWO32 == b * v + c
  {
    MulUpto(b, TWO32 - 1, v);
    NarrowSum(b * v, v, c);
  }

  lemma NarrowSum(bv: nat, v: Bigit, c: Bigit)
    requires bv <= (TWO32 - 1) * v && c < v
    ensures var result := U64(bv + c);
            result / TWO32 < v && U32(result) + result / TWO32 * TWO32 == bv + c
  {}

  /**
   A bigit times a 64-bit factor plus a carry, on the parts: bl and bh are the partial
   products, the carry is cut into chi and clo, the low sum into rh and rl.
   */
  lemma WideSum(bl: nat, bh: nat, bv: nat, low: Bigit, high: Bigit, v: Word64, clo: Bigit, chi: Bigit, rl: Bigit, rh: nat)
    requires bv == bh * TWO32 + bl && v == high * TWO32 + low
    requires chi * TWO32 + clo < v && rh * TWO32 + rl == bl + clo
    requires bl <= (TWO32 - 1) * low && bh <= (TWO32 - 1) * high
    ensures bl + clo < TWO64
    ensures rl + (bh + rh + chi) * TWO32 == bv + (chi * TWO32 + clo)
    ensures bh + rh + chi < v
  {}

  /** The sums of the 64-bit multiplication, given the two partial products. */
  lemma WideRest(lower: nat, upper: nat, bv: nat, low: Bigit, high: Bigit, v: Word64, carry: Word64)
    requires bv == upper * TWO32 + lower && v == high * TWO32 + low && carry < v
    requires lower <= (TWO32 - 1) * low && upper <= (TWO32 - 1) * high
    ensures var result := U64(lower + U32(carry));
            var next := U64(U64(upper + result / TWO32) + carry / TWO32);
            U32(result) + next * TWO32 == bv + carry && next < v
  {
    var clo, chi, result := U32(carry), carry / TWO32, lower + U32(carry);
    SplitWord(carry);
    SplitWord(result);
    WideSum(lower, upper, bv, low, high, v, clo, chi, U32(result), result / TWO32);
    WordIs(result);
    NoWrap(upper, result / TWO32, chi, v);
    assert U64(U64(upper + result / TWO32) + chi) == upper + result / TWO32 + chi;
  }

  lemma SplitWord(x: nat)
    ensures x == x / TWO32 * TWO32 + U32(x) && U32(x) < TWO32
  {}

  lemma WordIs(x: nat)
    requires x < TWO64
    ensures U64(x) == x
  {}

  lemma WideFactor(b: int, low: int, high: int, v: int)
    requires v == high * TWO32 + low
    ensures b * v == b * high * TWO32 + b * low
  {
    Distribute(high * TWO32, low, b);
    MulAssoc(b, high, TWO32);
  }

  lemma NoWrap(x: nat, y: nat, z: nat, bound: Word64)
    requires x + y + z < bound
    ensures U64(U64(x + y) + z) == x + y + z
  {}

  lemma ShiftValue(e: nat, exp: nat, shift: nat)
    ensures e * Pow(2, shift % 32) * P(exp + shift / 32) == e * P(exp) * Pow(2, shift)
  {
    PowTwoWords(shift / 32);
    PowAdd(2, 32 * (shift / 32), shift % 32);
    PAdd(exp, shift / 32);
    MulShuffle(e, Pow(2, shift % 32), P(exp), P(shift / 32));
    MulAssoc(e * P(exp), P(shift / 32), Pow(2, shift % 32));
    MulAssoc(e * P(exp), Pow(2, shift % 32), P(shift / 32));
  }

  lemma ScaleProduct(e: int, v: int, p: int)
    ensures e * v * p == e * p * v
  {
    MulAssoc(e, v, p);
    MulAssoc(e, p, v);
  }

  /** A product by a positive factor keeps a nonzero top bigit, unless a carry was pushed. */
  lemma ProductNormal(was: seq<Bigit>, v: nat, s: seq<Bigit>)
    requires Normal(was) && v > 0 && |s| == |was|
    requires Eval(s) == Eval(was) * v
    ensures Normal(s)
  {
    NormalRange(was);
    EvalTop(s);
    MulGrows(Eval(was), v);
  }

  /** Shifting a bigit up by s bits, with up = 2^s and down = 2^(32-s). */
  lemma ShiftDigit(b: Bigit, up: nat, down: nat, c: nat)
    requires up > 0 && down > 0 && up * down == TWO32 && c < up
    ensures b / down < up && 0 <= b / down < TWO32
    ensures U32(b * up) + c < TWO32
    ensures U32(b * up) + c + b / down * TWO32 == b * up + c
  {
    var q, r := b / down, b % down;
    Distribute(q * down, r, up);
    MulAssoc(q, down, up);
    MulUpto(r, down - 1, up);
    Distribute(down, 1, up);
    DivModUnique(b * up, q, r * up, TWO32);
    MulUpto(1, down, q);
    if up <= q { MulMono(up, q, down); }
  }

  const MAX_PRODUCT: int := (TWO32 - 1) * (TWO32 - 1)

  /** The last carry of a squaring is zero, and the digits are those of the square. */
  lemma SquareValue(n: seq<Bigit>, s: seq<Bigit>, carry: nat, exp: nat)
    requires |n| > 0 && |s| == 2 * |n|
    requires Eval(s[..|s|]) + carry * P(|s|) == Columns(n, n, |s|)
    ensures Value(s, 2 * exp) == Value(n, exp) * Value(n, exp)
  {
    assert s[..|s|] == s;
    ColumnsAreProduct(n, n, |s|);
    EvalBound(n);
    PAdd(|n|, |n|);
    SquareBound(Eval(n), P(|n|));
    if carry > 0 { MulMono(1, carry, P(|s|)); }
    PAdd(exp, exp);
    MulShuffle(Eval(n), Eval(n), P(exp), P(exp));
  }

  /** The most that `c` products can add to a running sum. */
  ghost function Room(c: nat): nat {
    if c == 0 then 0 else Room(c - 1) + MAX_PRODUCT
  }

  lemma {:induction false} RoomBound(c: nat)
    ensures Room(c) == c * MAX_PRODUCT
  {
    if c > 0 { RoomBound(c - 1); }
  }

  lemma RoomForColumn(carry: nat, n: nat, c: nat)
    requires carry <= n * TWO32 && c <= n < TWO32 / 2
    ensures carry + Room(c) < TWO128
  {
    RoomBound(c);
  }

  lemma CarryShrinks(total: nat, carry: nat, n: nat, c: nat)
    requires carry <= n * TWO32 && c <= n && total <= carry + Room(c)
    ensures total / TWO32 <= n * TWO32
  {
    RoomBound(c);
  }

  lemma LargestProduct(a: Bigit, b: Bigit)
    ensures 0 <= a * b <= MAX_PRODUCT && U64(a * b) == a * b <= (TWO32 - 1) * b
  {
    MulUpto(a, TWO32 - 1, b);
    WordFits(a * b, b);
  }

  lemma WordFits(x: nat, b: Bigit)
    requires x <= (TWO32 - 1) * b
    ensures x <= MAX_PRODUCT && U64(x) == x
  {}

  lemma SquareBound(e: nat, p: nat)
    requires e < p
    ensures e * e < p * p
  {
    MulMono(e, p, e);
    MulStrict(e, p, p);
  }

  /** Two-word addition: the low word wraps exactly when it ends up below the addend. */
  lemma AddWords(lower: Word64, upper: Word64, n: Word64)
    ensures var sum := upper * TWO64 + lower + n;
            var low := U64(lower + n);
            sum % TWO128 == (if low < n then U64(upper + 1) else upper) * TWO64 + low &&
            (sum < TWO128 ==> sum % TWO128 == sum)
  {
    var sum := upper * TWO64 + lower + n;
    var low := U64(lower + n);
    if low < n && upper == TWO64 - 1 {
      DivModUnique(sum, 1, low, TWO128);
    } else {
      DivModUnique(sum, 0, sum, TWO128);
    }
  }

  /** A 128-bit natural kept in two 64-bit words. */
  class Accumulator {
    var lower: Word64
    var upper: Word64

    ghost function Total(): nat
      reads this
    {
      upper * TWO64 + lower
    }

    constructor ()
      ensures Total() == 0
    {
      lower, upper := 0, 0;
    }

    method Add(n: Word64)
      modifies this
      ensures Total() == (old(Total()) + n) % TWO128
      ensures old(Total()) + n < TWO128 ==> Total() == old(Total()) + n
    {
      AddWords(lower, upper, n);
      lower := U64(lower + n);
      if lower < n { upper := U64(upper + 1); }
    }

    method Low32() returns (r: Bigit)
      ensures r == Total() % TWO32
    {
      r := U32(lower);
      DivModUnique(Total(), upper * TWO32 + lower / TWO32, r, TWO32);
    }

    method ShiftRight32()
      modifies this
      ensures Total() == old(Total()) / TWO32
    {
      lower := U64(upper * TWO32) + lower / TWO32;
      upper := upper / TWO32;
    }
  }

  /** One digit of a subtraction: `d` is written, `k'` is the borrow passed on. */
  lemma SubtractStep(e: int, k: int, w: int, o: int, a: int, b: int, d: int, k': int, p: int, q: int, pd: int)
    requires e - k * p == w - o * pd
    requires d - k' * TWO32 == a - b - k
    requires p == q * pd
    ensures e + d * p - k' * (TWO32 * p) == w + a * p - (o + b * q) * pd
  {
    Distribute(d, k' * TWO32, p);
    MulAssoc(k', TWO32, p);
    Distribute(a - b, k, p);
    Distribute(a, b, p);
    Distribute(o, b * q, pd);
    MulAssoc(b, q, pd);
  }

  /** The low word of a wrapped difference, and its sign in the top bit. */
  lemma BorrowedDigit(x: Bigit, other: Bigit, borrow: Bigit)
    requires borrow <= 1
    ensures var result := U64(x - other - borrow);
            var next := result / (TWO64 / 2);
            U32(result) - next * TWO32 == x - other - borrow && 0 <= next <= 1
  {
    var d: int := x - other - borrow;
    if d >= 0 { SmallWord(d); } else { NegativeWord(d); }
  }

  lemma SmallWord(d: int)
    requires 0 <= d < TWO32
    ensures U64(d) == d && U32(d) == d && d / (TWO64 / 2) == 0
  {
    DivModUnique(d, 0, d, TWO64 / 2);
  }

  lemma NegativeWord(d: int)
    requires -TWO32 <= d < 0
    ensures U64(d) == d + TWO64 && U32(d + TWO64) == d + TWO32 && (d + TWO64) / (TWO64 / 2) == 1
  {
    DivModUnique(d, -1, d + TWO64, TWO64);
    DivModUnique(d + TWO64, TWO32 - 1, d + TWO32, TWO32);
    DivModUnique(d + TWO64, 1, d + TWO64 / 2, TWO64 / 2);
  }

  function Sign(x: int): int { if x > 0 then 1 else if x < 0 then -1 else 0 }

  /** At equal heights, the topmost differing column decides. */
  lemma FirstDifference(s: seq<Bigit>, e: nat, t: seq<Bigit>, f: nat, c: nat)
    requires Column(s, e, c) != Column(t, f, c)
    ensures Sign(Below(s, e, c + 1) - Below(t, f, c + 1)) == Sign(Column(s, e, c) - Column(t, f, c))
    ensures Below(s, e, c + 1) != Below(t, f, c + 1)
  {
    BelowBound(s, e, c);
    BelowBound(t, f, c);
    var a, b := Column(s, e, c), Column(t, f, c);
    if a < b {
      DigitDecides(a, b, P(c), Below(s, e, c), Below(t, f, c));
    } else {
      DigitDecides(b, a, P(c), Below(t, f, c), Below(s, e, c));
    }
  }

  /** Down to column c the two numbers are the same. */
  ghost predicate Tied(s: seq<Bigit>, e: nat, t: seq<Bigit>, f: nat, c: nat) {
    Value(s, e) - Value(t, f) == Below(s, e, c) - Below(t, f, c)
  }

  lemma LongerIsGreater(s: seq<Bigit>, e: nat, t: seq<Bigit>, f: nat)
    requires Normal(s) && Normal(t) && |s| + e > |t| + f && Value(s, e) != 0
    ensures Value(s, e) > Value(t, f)
  {
    ValueRange(s, e);
    ValueRange(t, f);
    PMono(|t| + f, |s| + e - 1);
  }

  /** Two digits shorter is less than half. */
  lemma MuchShorter(s: seq<Bigit>, e: nat, t: seq<Bigit>, f: nat)
    requires Normal(s) && Normal(t) && |s| + e + 1 < |t| + f && Value(t, f) != 0
    ensures 2 * Value(s, e) < Value(t, f)
  {
    ValueRange(s, e);
    ValueRange(t, f);
    var n := |t| + f - 1;
    PMono(|s| + e, n - 1);
    Halves(P(n - 1), Value(s, e));
  }

  lemma Halves(p: nat, v: nat)
    requires v < p
    ensures 2 * v < TWO32 * p
  {}


  lemma TiedAtTop(s: seq<Bigit>, e: nat, t: seq<Bigit>, f: nat)
    requires |s| + e == |t| + f
    ensures Tied(s, e, t, f, |s| + e)
  {
    BelowAll(s, e, |s| + e);
    BelowAll(t, f, |t| + f);
  }

  lemma TiedStep(s: seq<Bigit>, e: nat, t: seq<Bigit>, f: nat, i: nat, j: nat)
    requires i < |s| && j < |t| && i + e == j + f && Tied(s, e, t, f, i + e + 1)
    ensures s[i] == t[j] ==> Tied(s, e, t, f, i + e)
    ensures s[i] != t[j] ==> Value(s, e) != Value(t, f) && Sign(Value(s, e) - Value(t, f)) == if s[i] > t[j] then 1 else -1
  {
    if s[i] != t[j] { FirstDifference(s, e, t, f, i + e); }
  }

  /** All digits of one number are the leading ones of the other; what is left of the other decides. */
  lemma TiedAtEnd(s: seq<Bigit>, e: nat, t: seq<Bigit>, f: nat, i: int, j: int)
    requires -1 <= i < |s| && -1 <= j < |t| && (i == -1 || j == -1) && i + e == j + f
    requires Tied(s, e, t, f, i + e + 1)
    ensures Sign(i - j) == if Value(s, e) != Value(t, f) then Sign(Value(s, e) - Value(t, f)) else Sign(f - e)
  {
    var c := i + e + 1;
    if i == -1 { BelowIsPrefix(s, e, c); }
    if j == -1 { BelowIsPrefix(t, f, c); }
  }

  /** v - v1 - v2: in column c and above it comes to d, in units of that column. */
  ghost predicate Leads(s1: seq<Bigit>, e1: nat, s2: seq<Bigit>, e2: nat, t: seq<Bigit>, f: nat, c: nat, d: int) {
    Value(t, f) - Value(s1, e1) - Value(s2, e2) == d * P(c) + (Below(t, f, c) - Below(s1, e1, c) - Below(s2, e2, c))
  }

  lemma LeadAtTop(s1: seq<Bigit>, e1: nat, s2: seq<Bigit>, e2: nat, t: seq<Bigit>, f: nat)
    requires |s1| + e1 <= |t| + f && |s2| + e2 <= |t| + f
    ensures Leads(s1, e1, s2, e2, t, f, |t| + f, 0)
  {
    BelowAll(s1, e1, |t| + f);
    BelowAll(s2, e2, |t| + f);
    BelowAll(t, f, |t| + f);
  }

  /** One column further down; outside {0, 1} the difference has the sign of the total. */
  lemma LeadStep(s1: seq<Bigit>, e1: nat, s2: seq<Bigit>, e2: nat, t: seq<Bigit>, f: nat, i: nat, d: int, next: int)
    requires Leads(s1, e1, s2, e2, t, f, i + 1, d)
    requires next == d * TWO32 + Column(t, f, i) - (Column(s1, e1, i) + Column(s2, e2, i))
    ensures Leads(s1, e1, s2, e2, t, f, i, next)
    ensures next < 0 ==> Value(s1, e1) + Value(s2, e2) > Value(t, f)
    ensures next > 1 ==> Value(s1, e1) + Value(s2, e2) < Value(t, f)
  {
    var p: int, x: int, y: int, z: int := P(i), Column(t, f, i), Column(s1, e1, i), Column(s2, e2, i);
    ColumnStep(d, x, y, z, p);
    BelowBound(s1, e1, i);
    BelowBound(s2, e2, i);
    BelowBound(t, f, i);
    if next < 0 { MulMono(next, -1, P(i)); }
    if next > 1 { MulMono(2, next, P(i)); }
  }

  lemma ColumnStep(d: int, x: int, y: int, z: int, p: int)
    ensures d * (TWO32 * p) + x * p - y * p - z * p == (d * TWO32 + x - (y + z)) * p
  {
    MulAssoc(d, TWO32, p);
    Distribute(d * TWO32 + x, y + z, p);
    Distribute(d * TWO32, x, p);
    Distribute(y, z, p);
  }

  lemma LeadAtBottom(s1: seq<Bigit>, e1: nat, s2: seq<Bigit>, e2: nat, t: seq<Bigit>, f: nat, c: nat, d: int)
    requires c <= e1 && c <= e2 && c <= f && Leads(s1, e1, s2, e2, t, f, c, d)
    ensures Sign(Value(s1, e1) + Value(s2, e2) - Value(t, f)) == -Sign(d)
  {
    BelowIsPrefix(s1, e1, c);
    BelowIsPrefix(s2, e2, c);
    BelowIsPrefix(t, f, c);
    PPos(c);
    if d > 0 { MulPos(d, P(c)); }
    if d < 0 { MulPos(-d, P(c)); }
  }

  lemma DigitDecides(a: int, b: int, p: nat, x: nat, y: nat)
    requires a < b && x < p
    ensures x + a * p < y + b * p
  {
    MulMono(a + 1, b, p);
  }

  class Bigint {
    var bigits: seq<Bigit>
    var exp: nat

    /** Every number the operations meet has no leading zero bigits. */
    ghost predicate Valid()
      reads this
    {
      Normal(bigits)
    }

    ghost function Val(): nat
      reads this
    {
      Value(bigits, exp)
    }

    function NumBigits(): nat
      reads this
    {
      |bigits| + exp
    }

    constructor ()
      ensures bigits == [] && exp == 0
    {
      bigits, exp := [], 0;
    }

    /** Grows or shrinks the buffer; new cells hold arbitrary values. */
    method Resize(n: nat)
      modifies `bigits
      ensures |bigits| == n
      ensures forall i :: 0 <= i < n && i < |old(bigits)| ==> bigits[i] == old(bigits[i])
    {
      if n <= |bigits| {
        bigits := bigits[..n];
      }
      while |bigits| < n
        invariant |bigits| <= n
        invariant forall i :: 0 <= i < |bigits| && i < |old(bigits)| ==> bigits[i] == old(bigits[i])
        invariant n <= |old(bigits)| || |old(bigits)| <= |bigits|
      {
        var garbage: Bigit := *;
        bigits := bigits + [garbage];
      }
    }

    method Assign(other: Bigint)
      modifies this
      ensures bigits == old(other.bigits) && exp == old(other.exp)
    {
      bigits := other.bigits;
      exp := other.exp;
    }

    method AssignWord(n: Word64)
      modifies this
      ensures Valid() && exp == 0 && Val() == n
    {
      var rest: nat := n;
      bigits := [];
      while |bigits| == 0 || rest != 0
        invariant Eval(bigits) + rest * P(|bigits|) == n
        invariant |bigits| > 0 && rest == 0 ==> Valid()
        decreases rest, |bigits| == 0
      {
        EvalPush(bigits, U32(rest));
        CarryOut(rest, P(|bigits|));
        bigits := bigits + [U32(rest)];
        rest := rest / TWO32;
      }
      exp := 0;
    }

    // ----- multiplication and shifting

    method Multiply32(value: Bigit)
      requires Valid() && value > 0
      modifies `bigits
      ensures Valid() && Eval(bigits) == old(Eval(bigits)) * value
    {
      ghost var was := bigits;
      var n := |bigits|;
      var carry: Bigit := 0;
      for i := 0 to n
        invariant Multiplied(bigits, was, value, carry, i) && carry < value
      {
        var digit, next := NarrowStep(bigits[i], value, carry);
        MultipliedStep(bigits, was, value, carry, i, digit, next);
        bigits := bigits[i := digit];
        carry := next;
      }
      assert bigits[..n] == bigits && was[..n] == was;
      if carry != 0 {
        EvalPush(bigits, carry);
        bigits := bigits + [carry];
      } else {
        ProductNormal(was, value, bigits);
      }
    }

    /** The body of the 32-bit multiplication. */
    static method NarrowStep(b: Bigit, value: Bigit, carry: Bigit) returns (digit: Bigit, next: Bigit)
      requires carry < value
      ensures digit + next * TWO32 == b * value + carry
      ensures next < value
    {
      NarrowProduct(b, value, carry);
      var result := U64(b * value + carry);
      digit := U32(result);
      next := result / TWO32;
    }

    method Multiply64(value: Word64)
      requires Valid() && value > 0
      modifies `bigits
      ensures Valid() && Eval(bigits) == old(Eval(bigits)) * value
    {
      ghost var was := bigits;
      var n := |bigits|;
      var low, high := U32(value), value / TWO32;
      var carry: Word64 := 0;
      for i := 0 to n
        invariant Multiplied(bigits, was, value, carry, i) && carry < value
      {
        var result, next := WideStep(value, bigits[i], low, high, carry);
        MultipliedStep(bigits, was, value, carry, i, U32(result), next);
        carry := next;
        bigits := bigits[i := U32(result)];
      }
      assert bigits[..n] == bigits && was[..n] == was;
      if carry == 0 {
        ProductNormal(was, value, bigits);
      }
      while carry != 0
        invariant Eval(bigits) + carry * P(|bigits|) == Eval(was) * value
        invariant carry == 0 ==> Valid()
      {
        EvalPush(bigits, U32(carry));
        CarryOut(carry, P(|bigits|));
        bigits := bigits + [U32(carry)];
        carry := carry / TWO32;
      }
    }

    /**
     The body of the 64-bit multiplication: none of its sums wraps around, and the carry
     stays below the factor.
     */
    static method WideStep(ghost value: Word64, b: Bigit, low: Bigit, high: Bigit, carry: Word64)
      returns (result: Word64, next: Word64)
      requires value == high * TWO32 + low && carry < value
      ensures U32(result) + next * TWO32 == b * value + carry
      ensures next < value
    {
      LargestProduct(b, low);
      LargestProduct(b, high);
      WideFactor(b, low, high, value);
      var lower, upper: Word64 := U64(b * low), U64(b * high);
      WideRest(lower, upper, b * value, low, high, value, carry);
      result := U64(lower + U32(carry));
      next := U64(U64(upper + result / TWO32) + carry / TWO32);
    }

    /** `*this *= value` for a 32-bit factor. */
    method MulAssign32(value: Bigit)
      requires Valid() && value > 0
      modifies `bigits
      ensures Valid() && Val() == old(Val()) * value
    {
      ScaleProduct(Eval(bigits), value, P(exp));
      Multiply32(value);
    }

    /** `*this *= value` for a 64-bit factor. */
    method MulAssign64(value: Word64)
      requires Valid() && value > 0
      modifies `bigits
      ensures Valid() && Val() == old(Val()) * value
    {
      ScaleProduct(Eval(bigits), value, P(exp));
      Multiply64(value);
    }

    /** `*this <<= shift`: whole words go to the exponent, the rest through the bigits. */
    method ShiftLeft(shift: nat)
      requires Valid()
      modifies this
      ensures Valid()
      ensures exp == old(exp) + shift / 32
      ensures Val() == old(Val()) * Pow(2, shift)
    {
      ShiftValue(Eval(bigits), exp, shift);
      exp := exp + shift / 32;
      if shift % 32 != 0 {
        ShiftBigits(shift % 32);
      }
    }

    static method ShiftStep(b: Bigit, up: nat, down: nat, carry: Bigit) returns (digit: Bigit, next: Bigit)
      requires up > 0 && down > 0 && up * down == TWO32 && carry < up
      ensures digit + next * TWO32 == b * up + carry && next < up
    {
      ShiftDigit(b, up, down, carry);
      next := b / down;
      digit := U32(b * up) + carry;
    }

    method ShiftBigits(s: nat)
      requires Valid() && 0 < s < 32
      modifies `bigits
      ensures Valid() && Eval(bigits) == old(Eval(bigits)) * Pow(2, s)
    {
      PowPos(2, s);
      PowPos(2, 32 - s);
      PowAdd(2, s, 32 - s);
      PowTwo32();
      ShiftBy(Pow(2, s), Pow(2, 32 - s));
    }

    /** The loop of the shift, for up = 2^s and down = 2^(32-s). */
    method ShiftBy(up: nat, down: nat)
      requires Valid() && up > 0 && down > 0 && up * down == TWO32
      modifies `bigits
      ensures Valid() && Eval(bigits) == old(Eval(bigits)) * up
    {
      ghost var was := bigits;
      var n := |bigits|;
      var carry: Bigit := 0;
      for i := 0 to n
        invariant Multiplied(bigits, was, up, carry, i) && carry < up
      {
        var digit, next := ShiftStep(bigits[i], up, down, carry);
        MultipliedStep(bigits, was, up, carry, i, digit, next);
        bigits := bigits[i := digit];
        carry := next;
      }
      assert bigits[..n] == bigits && was[..n] == was;
      if carry != 0 {
        EvalPush(bigits, carry);
        bigits := bigits + [carry];
      } else {
        ProductNormal(was, up, bigits);
      }
    }

    // ----- comparison

    /**
     Compares two numbers. When the values are equal but the exponents differ, the number
     that spells out more bigits is reported as the greater one.
     */
    static method Compare(lhs: Bigint, rhs: Bigint) returns (r: int)
      requires lhs.Valid() && rhs.Valid()
      requires lhs.Val() != 0 || lhs.NumBigits() <= rhs.NumBigits()
      requires rhs.Val() != 0 || rhs.NumBigits() <= lhs.NumBigits()
      ensures r == if lhs.Val() != rhs.Val() then Sign(lhs.Val() - rhs.Val()) else Sign(rhs.exp - lhs.exp)
    {
      var nl, nr := lhs.NumBigits(), rhs.NumBigits();
      ghost var s, e, t, f := lhs.bigits, lhs.exp, rhs.bigits, rhs.exp;
      if nl != nr {
        if nl > nr { LongerIsGreater(s, e, t, f); } else { LongerIsGreater(t, f, s, e); }
        return if nl > nr then 1 else -1;
      }
      var i, j := |lhs.bigits| - 1, |rhs.bigits| - 1;
      var end := if i - j < 0 then 0 else i - j;
      TiedAtTop(s, e, t, f);
      while i >= end
        invariant end - 1 <= i < |s| && -1 <= j < |t| && i + e == j + f
        invariant Tied(s, e, t, f, i + e + 1)
      {
        TiedStep(s, e, t, f, i, j);
        var lhsBigit, rhsBigit := lhs.bigits[i], rhs.bigits[j];
        if lhsBigit != rhsBigit { return if lhsBigit > rhsBigit then 1 else -1; }
        i, j := i - 1, j - 1;
      }
      TiedAtEnd(s, e, t, f, i, j);
      if i != j { return if i > j then 1 else -1; }
      return 0;
    }

    function GetBigit(i: int): (b: Bigit)
      reads this
      ensures b == Column(bigits, exp, i)
    {
      if exp <= i < NumBigits() then bigits[i - exp] else 0
    }

    /**
     The sign of lhs1 + lhs2 - rhs. The scan stops as soon as the running difference
     leaves {0, 1}; what is below can then no longer change the sign.
     */
    static method AddCompare(lhs1: Bigint, lhs2: Bigint, rhs: Bigint) returns (r: int)
      requires lhs1.Valid() && lhs2.Valid() && rhs.Valid() && rhs.Val() != 0
      requires lhs1.Val() != 0 || lhs1.NumBigits() <= rhs.NumBigits()
      requires lhs2.Val() != 0 || lhs2.NumBigits() <= rhs.NumBigits()
      ensures r == Sign(lhs1.Val() + lhs2.Val() - rhs.Val())
    {
      SizeDecides(lhs1, lhs2, rhs);
      var n1, n2, nr := lhs1.NumBigits(), lhs2.NumBigits(), rhs.NumBigits();
      var maxLhs := if n1 < n2 then n2 else n1;
      if maxLhs + 1 < nr { return -1; }
      if maxLhs > nr { return 1; }
      var minExp := if lhs1.exp < lhs2.exp then lhs1.exp else lhs2.exp;
      minExp := if minExp < rhs.exp then minExp else rhs.exp;
      r := CompareColumns(lhs1, lhs2, rhs, minExp);
    }

    /** The columns from the top of rhs down, while the running difference is 0 or 1. */
    static method CompareColumns(lhs1: Bigint, lhs2: Bigint, rhs: Bigint, minExp: nat) returns (r: int)
      requires lhs1.NumBigits() <= rhs.NumBigits() && lhs2.NumBigits() <= rhs.NumBigits()
      requires minExp <= lhs1.exp && minExp <= lhs2.exp && minExp <= rhs.exp
      ensures r == Sign(lhs1.Val() + lhs2.Val() - rhs.Val())
    {
      var borrow: nat := 0;
      ghost var d: int := 0;
      var i := rhs.NumBigits() - 1;
      ghost var s1, e1, s2, e2, t, f := lhs1.bigits, lhs1.exp, lhs2.bigits, lhs2.exp, rhs.bigits, rhs.exp;
      LeadAtTop(s1, e1, s2, e2, t, f);
      while i >= minExp
        invariant minExp - 1 <= i && borrow == d * TWO32 && 0 <= d <= 1
        invariant Leads(s1, e1, s2, e2, t, f, i + 1, d)
      {
        var sum := lhs1.GetBigit(i) + lhs2.GetBigit(i);
        var rhsBigit := rhs.GetBigit(i);
        LeadStep(s1, e1, s2, e2, t, f, i, d, borrow + rhsBigit - sum);
        if sum > rhsBigit + borrow { return 1; }
        borrow := rhsBigit + borrow - sum;
        if borrow > 1 { return -1; }
        d := borrow;
        borrow := borrow * TWO32;
        i := i - 1;
      }
      LeadAtBottom(s1, e1, s2, e2, t, f, minExp, d);
      return if borrow != 0 then -1 else 0;
    }

    static lemma SizeDecides(lhs1: Bigint, lhs2: Bigint, rhs: Bigint)
      requires lhs1.Valid() && lhs2.Valid() && rhs.Valid() && rhs.Val() != 0
      requires lhs1.Val() != 0 || lhs1.NumBigits() <= rhs.NumBigits()
      requires lhs2.Val() != 0 || lhs2.NumBigits() <= rhs.NumBigits()
      ensures lhs1.NumBigits() > rhs.NumBigits() ==> lhs1.Val() > rhs.Val()
      ensures lhs2.NumBigits() > rhs.NumBigits() ==> lhs2.Val() > rhs.Val()
      ensures lhs1.NumBigits() + 1 < rhs.NumBigits() && lhs2.NumBigits() + 1 < rhs.NumBigits() ==>
              lhs1.Val() + lhs2.Val() < rhs.Val()
    {
      if lhs1.NumBigits() > rhs.NumBigits() { LongerIsGreater(lhs1.bigits, lhs1.exp, rhs.bigits, rhs.exp); }
      if lhs2.NumBigits() > rhs.NumBigits() { LongerIsGreater(lhs2.bigits, lhs2.exp, rhs.bigits, rhs.exp); }
      if lhs1.NumBigits() + 1 < rhs.NumBigits() && lhs2.NumBigits() + 1 < rhs.NumBigits() {
        MuchShorter(lhs1.bigits, lhs1.exp, rhs.bigits, rhs.exp);
        MuchShorter(lhs2.bigits, lhs2.exp, rhs.bigits, rhs.exp);
      }
    }

    // ----- subtraction

    /** One bigit of the subtraction; the borrow is the top bit of the wrapped difference. */
    method SubtractBigits(index: nat, other: Bigit, borrow: Bigit) returns (next: Bigit)
      requires index < |bigits| && borrow <= 1
      modifies `bigits
      ensures |bigits| == |old(bigits)|
      ensures bigits == old(bigits)[index := bigits[index]]
      ensures bigits[index] - next * TWO32 == old(bigits[index]) - other - borrow
      ensures next <= 1
    {
      BorrowedDigit(bigits[index], other, borrow);
      var result := U64(bigits[index] - other - borrow);
      bigits := bigits[index := U32(result)];
      next := result / (TWO64 / 2);
    }

    method RemoveLeadingZeros()
      requires |bigits| > 0
      modifies `bigits
      ensures Valid() && Eval(bigits) == old(Eval(bigits))
      ensures bigits <= old(bigits)
      ensures old(bigits[|bigits| - 1]) != 0 ==> bigits == old(bigits)
    {
      ghost var was := bigits;
      var n := |bigits| - 1;
      assert bigits[..n + 1] == bigits;
      while n > 0 && bigits[n] == 0
        invariant 0 <= n < |bigits| && bigits == was
        invariant Eval(bigits[..n + 1]) == Eval(bigits)
        invariant bigits[|bigits| - 1] != 0 ==> n == |bigits| - 1
      {
        EvalSnoc(bigits, n);
        n := n - 1;
      }
      Resize(n + 1);
      assert bigits == was[..n + 1];
    }

    /** The number of bigits of this number that lie below the top of an aligned `other`. */
    function Overlap(other: Bigint): nat
      requires exp <= other.exp
      reads this, other
    {
      other.exp - exp + |other.bigits|
    }

    /**
     The borrow of the subtraction stops at the first bigit above `other`: there is none,
     or it is not zero, or nothing is borrowed from it.
     */
    ghost predicate BorrowStops(other: Bigint)
      requires exp <= other.exp
      reads this, other
    {
      Stops(bigits, Overlap(other), other.bigits, other.exp - exp)
    }

    /** The digits of `other` are subtracted at their columns; the last borrow is returned. */
    method SubtractOverlap(other: Bigint) returns (borrow: Bigit)
      requires this != other && exp <= other.exp && Overlap(other) <= |bigits|
      modifies `bigits
      ensures |bigits| == |old(bigits)| && borrow <= 1
      ensures bigits[Overlap(other)..] == old(bigits)[Overlap(other)..]
      ensures Eval(bigits[..Overlap(other)]) - borrow * P(Overlap(other)) ==
              Eval(old(bigits)[..Overlap(other)]) - Eval(other.bigits) * P(other.exp - exp)
    {
      ghost var was := bigits;
      borrow := 0;
      var i := other.exp - exp;
      ghost var d := i;
      assert other.bigits[..0] == [];
      for j := 0 to |other.bigits|
        invariant i == d + j && borrow <= 1 && Subtracted(bigits, was, other.bigits, d, j, borrow)
      {
        ghost var before, b := bigits, borrow;
        borrow := SubtractBigits(i, other.bigits[j], borrow);
        SubtractedStep(before, was, other.bigits, d, j, b, bigits[i], borrow);
        i := i + 1;
      }
      assert other.bigits[..|other.bigits|] == other.bigits;
    }

    /** The final borrow loop: every round works on the same bigit. */
    method PassBorrow(i: nat, b: Bigit)
      requires b <= 1 && (b == 1 ==> i < |bigits|)
      modifies `bigits
      ensures |bigits| == |old(bigits)|
      ensures forall x :: 0 <= x < |bigits| && (x != i || b == 0) ==> bigits[x] == old(bigits[x])
      ensures b == 1 ==> bigits[i] == if old(bigits[i]) == 0 then TWO32 - 2 else old(bigits[i]) - 1
    {
      ghost var was := bigits;
      var borrow: Bigit := b;
      while borrow > 0
        invariant |bigits| == |was| && borrow <= b
        invariant forall x :: 0 <= x < |bigits| && (x != i || b == 0) ==> bigits[x] == was[x]
        invariant borrow == 1 ==> bigits[i] == was[i] || (was[i] == 0 && bigits[i] == TWO32 - 1)
        invariant b == 1 && borrow == 0 ==> bigits[i] == if was[i] == 0 then TWO32 - 2 else was[i] - 1
        decreases if borrow == 0 then 0 else if bigits[i] == 0 then 2 else 1
      {
        borrow := SubtractBigits(i, 0, borrow);
      }
    }

    /** The subtraction before leading zeros are removed; `excess` is what it leaves too much. */
    method SubtractColumns(other: Bigint) returns (ghost excess: nat)
      requires Valid() && other.Valid() && this != other
      requires exp <= other.exp && other.Val() != 0 && Val() >= other.Val()
      modifies `bigits
      ensures excess == if old(BorrowStops(other)) then 0 else TWO32 - 1
      ensures Val() == old(Val()) - other.Val() + excess * P(other.NumBigits())
      ensures Val() == old(Val()) - other.Val() <==> excess == 0
      ensures |bigits| == |old(bigits)|
      ensures forall x :: Overlap(other) < x < |bigits| ==> bigits[x] == old(bigits[x])
    {
      ghost var was := bigits;
      var k := Overlap(other);
      OverlapFits(was, exp, other.bigits, other.exp);
      var borrow := SubtractOverlap(other);
      ghost var mid := bigits;
      BorrowMeaning(was, mid[..k], other.bigits, other.exp - exp, k, borrow);
      TailUnchanged(mid, was, k);
      PassBorrow(k, borrow);
      excess := if borrow == 0 || was[k] != 0 then 0 else TWO32 - 1;
      BorrowPassed(was, mid, bigits, k, borrow, excess);
      DifferenceValue(was, bigits, other.bigits, other.exp - exp, exp, k, borrow, excess);
    }

    /**
     `*this -= other` for aligned numbers with *this >= other. The loop that is meant to
     pass the borrow on stays at one index, so the difference is exact only if the borrow
     stops there; otherwise the result is too large by a fixed amount. Bigits further up
     are never touched.
     */
    method SubtractAligned(other: Bigint)
      requires Valid() && other.Valid() && this != other
      requires exp <= other.exp && other.Val() != 0 && Val() >= other.Val()
      modifies `bigits
      ensures Valid()
      ensures old(BorrowStops(other)) <==> Val() == old(Val()) - other.Val()
      ensures !old(BorrowStops(other)) ==>
                Val() == old(Val()) - other.Val() + (TWO32 - 1) * P(other.NumBigits())
      ensures NumBigits() <= old(NumBigits())
      ensures old(NumBigits()) > other.NumBigits() + 1 ==> NumBigits() == old(NumBigits())
    {
      ghost var excess := SubtractColumns(other);
      RemoveLeadingZeros();
    }

    // ----- alignment and division

    /**
     Spells out low zero bigits until the exponent is at most that of `other`. Zero, with a
     larger exponent, becomes several zero bigits.
     */
    method Align(other: Bigint)
      requires Valid() && this != other
      modifies this
      ensures |bigits| > 0 && Val() == old(Val()) && NumBigits() == old(NumBigits())
      ensures Valid() <==> old(Val()) != 0 || old(exp) <= other.exp
      ensures exp == if old(exp) <= other.exp then old(exp) else other.exp
    {
      var expDifference := exp - other.exp;
      if expDifference <= 0 { return; }
      ghost var was := bigits;
      var n := |bigits|;
      Resize(n + expDifference);
      MoveUp(n, expDifference);
      ClearLow(expDifference);
      assert bigits[expDifference..] == was;
      exp := exp - expDifference;
      AlignValue(was, bigits, expDifference, exp);
    }

    /** Moves n digits up by k places, from the top. */
    method MoveUp(n: nat, k: nat)
      requires n + k == |bigits|
      modifies `bigits
      ensures |bigits| == |old(bigits)|
      ensures forall x :: k <= x < |bigits| ==> bigits[x] == old(bigits)[x - k]
    {
      ghost var was := bigits;
      var i, j := n - 1, n - 1 + k;
      while i >= 0
        invariant -1 <= i < n && j == i + k && |bigits| == |was|
        invariant forall x :: 0 <= x <= i ==> bigits[x] == was[x]
        invariant forall x :: j < x < |bigits| ==> bigits[x] == was[x - k]
      {
        bigits := bigits[j := bigits[i]];
        i, j := i - 1, j - 1;
      }
    }

    /** Clears the lowest k digits. */
    method ClearLow(k: nat)
      requires k <= |bigits|
      modifies `bigits
      ensures |bigits| == |old(bigits)|
      ensures forall x :: k <= x < |bigits| ==> bigits[x] == old(bigits)[x]
      ensures forall x :: 0 <= x < k ==> bigits[x] == 0
    {
      ghost var was := bigits;
      for i := 0 to k
        invariant |bigits| == |was| && forall x :: k <= x < |bigits| ==> bigits[x] == was[x]
        invariant forall x :: 0 <= x < i ==> bigits[x] == 0
      {
        bigits := bigits[i := 0];
      }
    }

    /** A number at most one bigit longer than `other` has no zero bigit to borrow from. */
    lemma BorrowHasEnd(other: Bigint)
      requires Valid() && other.Valid() && exp <= other.exp
      requires NumBigits() <= other.NumBigits() + 1
      ensures BorrowStops(other)
    {}

    /**
     Divides by `divisor`, leaves the remainder here and returns the quotient. The first
     comparison is made before the exponents are aligned; it goes wrong only for a number
     equal to the divisor that has the larger exponent.
     */
    method DivmodAssign(divisor: Bigint) returns (quotient: nat)
      requires Valid() && divisor.Valid() && this != divisor && divisor.Val() != 0
      requires Val() != 0 || NumBigits() <= divisor.NumBigits()
      requires NumBigits() <= divisor.NumBigits() + 1
      modifies this
      ensures Valid() && exp <= old(exp)
      ensures old(Val()) == quotient * divisor.Val() + Val()
      ensures Val() < divisor.Val() <==> !(old(exp) > divisor.exp && old(Val()) == divisor.Val())
      ensures exp == if quotient > 0 && old(exp) > divisor.exp then divisor.exp else old(exp)
      ensures quotient == 0 ==> bigits == old(bigits)
    {
      quotient := 0;
      var c := Compare(this, divisor);
      if c < 0 { return; }
      Align(divisor);
      while c >= 0
        invariant Valid() && exp == if old(exp) > divisor.exp then divisor.exp else old(exp)
        invariant old(Val()) == quotient * divisor.Val() + Val()
        invariant c >= 0 <==> Val() >= divisor.Val()
        invariant NumBigits() <= divisor.NumBigits() + 1
        invariant c >= 0 || quotient > 0
        decreases Val(), c
      {
        ghost var before := Val();
        BorrowHasEnd(divisor);
        SubtractAligned(divisor);
        CountSubtraction(quotient, divisor.Val(), before, Val());
        quotient := quotient + 1;
        ValueRange(bigits, exp);
        c := Compare(this, divisor);
      }
    }

    // ----- squaring and powers of ten

    /** Adds the products n[i] * n[k - i] for lo <= i < hi to the running sum. */
    static method AddProducts(n: seq<Bigit>, k: nat, lo: nat, hi: nat, sum: Accumulator)
      requires lo <= hi <= |n| && hi <= k + 1 && k - lo < |n|
      requires sum.Total() + Room(hi - lo) < TWO128
      modifies sum
      ensures sum.Total() == old(sum.Total()) + Partial(n, n, k, hi) - Partial(n, n, k, lo)
      ensures sum.Total() <= old(sum.Total()) + Room(hi - lo)
    {
      var i, j := lo, k - lo;
      while i < hi
        invariant lo <= i <= hi && j == k - i
        invariant sum.Total() == old(sum.Total()) + Partial(n, n, k, i) - Partial(n, n, k, lo)
        invariant sum.Total() + Room(hi - i) <= old(sum.Total()) + Room(hi - lo)
      {
        AddProduct(n, k, i, sum);
        i, j := i + 1, j - 1;
      }
    }

    static method AddProduct(n: seq<Bigit>, k: nat, i: nat, sum: Accumulator)
      requires i < |n| && 0 <= k - i < |n|
      requires sum.Total() + MAX_PRODUCT < TWO128
      modifies sum
      ensures sum.Total() == old(sum.Total()) + Partial(n, n, k, i + 1) - Partial(n, n, k, i)
      ensures sum.Total() <= old(sum.Total()) + MAX_PRODUCT
    {
      var a: int, b: int := n[i], n[k - i];
      LargestProduct(a, b);
      var product := U64(a * b);
      sum.Add(product);
    }

    /** Computes the bigit at index k of the square, and the carry into the next column. */
    method SquareColumn(n: seq<Bigit>, k: nat, lo: nat, hi: nat, sum: Accumulator)
      requires k < |bigits| && |n| < TWO32 / 2
      requires lo <= hi <= |n| && hi <= k + 1 && k - lo < |n|
      requires Partial(n, n, k, lo) == 0 && Partial(n, n, k, hi) == Partial(n, n, k, |n|)
      requires Eval(bigits[..k]) + sum.Total() * P(k) == Columns(n, n, k)
      requires sum.Total() <= |n| * TWO32
      modifies `bigits, sum
      ensures |bigits| == |old(bigits)|
      ensures Eval(bigits[..k + 1]) + sum.Total() * P(k + 1) == Columns(n, n, k + 1)
      ensures sum.Total() <= |n| * TWO32
    {
      ghost var was, carry := bigits, sum.Total();
      RoomForColumn(carry, |n|, hi - lo);
      AddProducts(n, k, lo, hi, sum);
      ghost var total := sum.Total();
      Distribute(carry, Partial(n, n, k, |n|), P(k));
      CarryOut(total, P(k));
      var low := sum.Low32();
      bigits := bigits[k := low];
      sum.ShiftRight32();
      CarryShrinks(total, carry, |n|, hi - lo);
      assert bigits[..k] == was[..k];
      EvalSnoc(bigits, k);
    }

    /** Squares by column sums; the buffer's length is an `int` in the program. */
    method Square()
      requires Valid() && |bigits| < TWO32 / 2
      modifies this
      ensures Valid() && exp == 2 * old(exp)
      ensures Val() == old(Val()) * old(Val())
    {
      var n := bigits;
      var numBigits := |n|;
      var numResult := 2 * numBigits;
      Resize(numResult);
      var sum := new Accumulator();
      for k := 0 to numBigits
        invariant |bigits| == numResult && exp == old(exp) && fresh(sum)
        invariant Eval(bigits[..k]) + sum.Total() * P(k) == Columns(n, n, k)
        invariant sum.Total() <= numBigits * TWO32
      {
        PartialSkip(n, n, k, k + 1, numBigits);
        SquareColumn(n, k, 0, k + 1, sum);
      }
      for k := numBigits to numResult
        invariant |bigits| == numResult && exp == old(exp) && fresh(sum)
        invariant Eval(bigits[..k]) + sum.Total() * P(k) == Columns(n, n, k)
        invariant sum.Total() <= numBigits * TWO32
      {
        PartialSkip(n, n, k, 0, k - (numBigits - 1));
        SquareColumn(n, k, k - (numBigits - 1), numBigits, sum);
      }
      SquareValue(n, bigits, sum.Total(), exp);
      RemoveLeadingZeros();
      exp := exp * 2;
    }

    /** The highest bit of a number. */
    static method TopBit(e: nat) returns (bitmask: nat, ghost t: nat)
      requires e > 0
      ensures bitmask == Pow(2, t) > 0 && HighBits(e, t) == 1
    {
      bitmask, t := 1, 0;
      while e >= bitmask
        invariant bitmask == Pow(2, t) && t <= e && bitmask <= 2 * e
        invariant t == 0 || Pow(2, t - 1) <= e
        decreases 2 * e - bitmask
      {
        PowStrict(2, t);
        bitmask := bitmask * 2;
        t := t + 1;
      }
      t := t - 1;
      bitmask := bitmask / 2;
      DivModUnique(e, 1, e - Pow(2, t), Pow(2, t));
    }

    /** One bit of the exponent: squares the power of five, and multiplies it by five for a set bit. */
    method PowerStep(bit: bool, ghost prefix: nat)
      requires Valid() && exp == 0 && Val() == Pow(5, prefix) && prefix < 0x4000_0000
      modifies this
      ensures Valid() && exp == 0 && Val() == Pow(5, 2 * prefix + if bit then 1 else 0)
    {
      PowerIsShort(bigits, prefix);
      Square();
      PowAdd(5, prefix, prefix);
      if bit {
        MulAssign32(5);
      }
    }

    /**
     Assigns 10^e: 5^e by repeated squaring over the bits of e, then 2^e by a shift. The
     bit mask is an `int`, so e has to stay below 2^30.
     */
    method AssignPow10(e: nat)
      requires e < 0x4000_0000
      modifies this
      ensures Valid() && Val() == Pow(10, e) && exp == e / 32
    {
      if e == 0 {
        AssignWord(1);
        return;
      }
      var bitmask, t := TopBit(e);
      AssignWord(5);
      bitmask := bitmask / 2;
      assert Pow(5, 1) == 5;
      while bitmask != 0
        invariant bitmask == Pow(2, t) / 2 && Pow(2, t) > 0
        invariant Valid() && exp == 0 && Val() == Pow(5, HighBits(e, t))
        decreases t
      {
        HalfStep(e, t);
        PowerStep((e / bitmask) % 2 != 0, HighBits(e, t));
        bitmask := bitmask / 2;
        t := t - 1;
      }
      assert HighBits(e, 0) == e;
      PowDistribute(5, 2, e);
      ShiftLeft(e);
    }
  }

  /** A number that is at least `t` has all the columns of `t`. */
  lemma OverlapFits(s: seq<Bigit>, e: nat, t: seq<Bigit>, f: nat)
    requires Normal(s) && Normal(t) && e <= f && Value(s, e) >= Value(t, f) != 0
    ensures f - e + |t| <= |s|
    ensures Eval(s) >= Eval(t) * P(f - e)
  {
    ValueRange(s, e);
    ValueRange(t, f);
    if e + |s| < f + |t| { PMono(e + |s|, f + |t| - 1); }
    PAdd(f - e, e);
    PPos(e);
    MulAssoc(Eval(t), P(f - e), P(e));
    MulCancelLe(Eval(t) * P(f - e), Eval(s), P(e));
  }

  /** Low zeros move weight from the exponent into the bigits. */
  lemma AlignValue(was: seq<Bigit>, now: seq<Bigit>, k: nat, exp: nat)
    requires Normal(was) && k > 0
    requires |now| == |was| + k && now[k..] == was
    requires forall x :: 0 <= x < k ==> now[x] == 0
    ensures Value(now, exp) == Value(was, exp + k) && (Normal(now) <==> Value(was, exp + k) != 0)
  {
    ValueRange(was, exp + k);
    EvalSplit(now, k);
    EvalZeros(now[..k]);
    PAdd(k, exp);
    MulAssoc(Eval(was), P(k), P(exp));
    assert now[|now| - 1] == was[|was| - 1];
    EvalOne(0);
  }

  /** The exponent without its lowest t bits. */
  ghost function HighBits(e: nat, t: nat): nat {
    PowPos(2, t);
    e / Pow(2, t)
  }

  /** Taking one more bit of e into the exponent of a repeated squaring. */
  lemma HalfStep(e: nat, t: nat)
    requires Pow(2, t) / 2 != 0
    ensures t > 0 && Pow(2, t - 1) == Pow(2, t) / 2 > 0
    ensures HighBits(e, t - 1) == 2 * HighBits(e, t) + (e / Pow(2, t - 1)) % 2
  {
    var h := Pow(2, t - 1);
    var x, r := e / h, e % h;
    assert e == x / 2 * (2 * h) + (x % 2 * h + r);
    DivModUnique(e, x / 2, x % 2 * h + r, 2 * h);
  }

  /** A power of five needs no more bigits than its exponent counts, and one. */
  lemma PowerIsShort(s: seq<Bigit>, e: nat)
    requires Normal(s) && Eval(s) == Pow(5, e)
    ensures |s| <= e + 1
  {
    NormalRange(s);
    PowPos(5, e);
    FiveBelowWord(e);
    if |s| - 1 > e {
      PMono(e + 1, |s| - 1);
      PPos(e);
    }
  }

  lemma {:induction false} FiveBelowWord(e: nat)
    ensures Pow(5, e) <= P(e)
  {
    if e > 0 { FiveBelowWord(e - 1); }
  }

  /** The bigits of `s` from index k on, from which t at offset d may have to borrow, start well. */
  ghost predicate Stops(s: seq<Bigit>, k: nat, t: seq<Bigit>, d: nat) {
    k >= |s| || s[k] != 0 || Eval(s[..k]) >= Eval(t) * P(d)
  }

  /** The borrow left after the overlap is 1 exactly if the overlapping part is too small. */
  lemma BorrowMeaning(was: seq<Bigit>, low: seq<Bigit>, t: seq<Bigit>, d: nat, k: nat, b: nat)
    requires k <= |was| && |low| == k && b <= 1
    requires Eval(low) - b * P(k) == Eval(was[..k]) - Eval(t) * P(d)
    requires Eval(was) >= Eval(t) * P(d)
    ensures b == 0 <==> Eval(was[..k]) >= Eval(t) * P(d)
    ensures b == 1 ==> k < |was|
    ensures Stops(was, k, t, d) <==> b == 0 || was[k] != 0
  {
    EvalBound(low);
    BorrowSign(Eval(low), b, P(k), Eval(was[..k]), Eval(t) * P(d));
    if k == |was| { assert was[..k] == was; }
  }

  lemma BorrowSign(low: nat, b: nat, p: nat, x: int, y: int)
    requires low - b * p == x - y
    requires low < p && b <= 1
    ensures b == 0 <==> x >= y
  {
    assert b == 0 || b == 1;
  }

  /** What the subtraction leaves when the borrow `b` has been dealt with at index `k`. */
  lemma DifferenceValue(was: seq<Bigit>, now: seq<Bigit>, t: seq<Bigit>, d: nat, exp: nat, k: nat, b: nat, excess: nat)
    requires k <= |was| == |now| && b <= 1
    requires Eval(now[..k]) - b * P(k) == Eval(was[..k]) - Eval(t) * P(d)
    requires b == 0 ==> now[k..] == was[k..] && excess == 0
    requires b == 1 ==> k < |was| && now[k + 1..] == was[k + 1..] && now[k] == was[k] - 1 + excess
    ensures Value(now, exp) == Value(was, exp) - Value(t, d + exp) + excess * P(k + exp)
    ensures Value(now, exp) == Value(was, exp) - Value(t, d + exp) <==> excess == 0
  {
    EvalSplit(was, k);
    EvalSplit(now, k);
    if b == 1 {
      TailDifference(was, now, k, excess);
      Distribute(Eval(was[k..]) - 1, excess, P(k));
      Distribute(Eval(was[k..]), 1, P(k));
    }
    ScaleDifference(Eval(now), Eval(was), Eval(t), excess, d, k, exp);
    PPos(k + exp);
    if excess > 0 { MulPos(excess, P(k + exp)); }
  }

  /** j digits of t are subtracted at column d, with a borrow; the digits above are as they were. */
  ghost predicate Subtracted(now: seq<Bigit>, was: seq<Bigit>, t: seq<Bigit>, d: nat, j: nat, borrow: nat) {
    && j <= |t| && d + j <= |now| == |was| && now[d + j..] == was[d + j..]
    && Eval(now[..d + j]) - borrow * P(d + j) == Eval(was[..d + j]) - Eval(t[..j]) * P(d)
  }

  lemma SubtractedStep(now: seq<Bigit>, was: seq<Bigit>, t: seq<Bigit>, d: nat, j: nat, borrow: nat, digit: Bigit, next: nat)
    requires Subtracted(now, was, t, d, j, borrow) && j < |t| && d + j < |now|
    requires digit - next * TWO32 == now[d + j] - t[j] - borrow
    ensures Subtracted(now[d + j := digit], was, t, d, j + 1, next)
  {
    var i, later := d + j, now[d + j := digit];
    assert later[..i] == now[..i] && now[i] == now[i..][0] == was[i];
    assert later[i + 1..] == now[i..][1..] && was[i + 1..] == was[i..][1..];
    EvalSnoc(later, i);
    EvalSnoc(was, i);
    EvalSnoc(t, j);
    PAdd(j, d);
    SubtractStep(Eval(now[..i]), borrow, Eval(was[..i]), Eval(t[..j]), was[i], t[j], digit, next, P(i), P(j), P(d));
  }

  lemma TailUnchanged(now: seq<Bigit>, was: seq<Bigit>, k: nat)
    requires k <= |now| == |was| && now[k..] == was[k..]
    ensures forall x :: k <= x < |was| ==> now[x] == was[x]
  {
    forall x | k <= x < |was| ensures now[x] == was[x] {
      assert now[k..][x - k] == was[k..][x - k];
    }
  }

  /** What the borrow loop leaves of the digits. */
  lemma BorrowPassed(was: seq<Bigit>, mid: seq<Bigit>, now: seq<Bigit>, k: nat, b: nat, excess: nat)
    requires k <= |was| == |mid| == |now| && b <= 1 && (b == 1 ==> k < |was|)
    requires forall x :: k <= x < |was| ==> mid[x] == was[x]
    requires forall x :: 0 <= x < |now| && (x != k || b == 0) ==> now[x] == mid[x]
    requires b == 1 ==> now[k] == if mid[k] == 0 then TWO32 - 2 else mid[k] - 1
    requires excess == if b == 0 || was[k] != 0 then 0 else TWO32 - 1
    ensures now[..k] == mid[..k]
    ensures b == 0 ==> now[k..] == was[k..] && excess == 0
    ensures b == 1 ==> now[k + 1..] == was[k + 1..] && now[k] == was[k] - 1 + excess
  {}

  lemma TailDifference(was: seq<Bigit>, now: seq<Bigit>, k: nat, excess: nat)
    requires k < |was| == |now| && now[k + 1..] == was[k + 1..] && now[k] == was[k] - 1 + excess
    ensures Eval(now[k..]) == Eval(was[k..]) - 1 + excess
  {
    var tail := was[k + 1..];
    assert was[k..] == [was[k]] + tail && now[k..] == [now[k]] + tail;
    EvalConcat([was[k]], tail);
    EvalConcat([now[k]], tail);
    EvalOne(was[k]);
    EvalOne(now[k]);
  }

  lemma CountSubtraction(q: nat, d: nat, before: int, after: int)
    requires after == before - d
    ensures (q + 1) * d + after == q * d + before
  {
    Distribute(q, 1, d);
  }

  lemma ScaleDifference(e': int, e: int, o: int, x: int, d: nat, k: nat, exp: nat)
    requires e' == e - o * P(d) + x * P(k)
    ensures e' * P(exp) == e * P(exp) - o * P(d + exp) + x * P(k + exp)
  {
    PAdd(d, exp);
    PAdd(k, exp);
    MulAssoc(o, P(d), P(exp));
    MulAssoc(x, P(k), P(exp));
    Distribute(e, o * P(d), P(exp));
    Distribute(e - o * P(d), x * P(k), P(exp));
  }
}
