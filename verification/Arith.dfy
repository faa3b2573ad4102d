/** Powers, and the unsigned wrap-around of the machine words the library computes with. */
module Arith {

  const TWO32: int := 0x1_0000_0000
  const TWO64: int := 0x1_0000_0000_0000_0000

  type Word64 = x: nat | x < TWO64

  /** Conversion to `uint32_t`: the residue modulo 2^32. */
  function U32(x: int): (r: nat) { x % TWO32 }

  /** Conversion to `uint64_t`: the residue modulo 2^64. */
  function U64(x: int): (r: nat) { x % TWO64 }

  function Pow(b: nat, e: nat): nat {
    if e == 0 then 1 else b * Pow(b, e - 1)
  }

  lemma MulPos(a: nat, b: nat)
    requires a > 0 && b > 0
    ensures a * b > 0
  {}

  lemma MulMono(a: int, b: int, c: nat)
    requires a <= b
    ensures a * c <= b * c
  {}

  lemma MulUpto(a: nat, b: int, c: nat)
    requires a <= b
    ensures 0 <= a * c <= b * c
  {}

  lemma MulStrict(a: int, b: int, c: nat)
    requires a < b && c > 0
    ensures a * c < b * c
  {}

  lemma MulGrows(a: nat, v: nat)
    requires v > 0
    ensures a <= a * v
  {
    MulMono(1, v, a);
  }

  lemma MulCancel(a: int, b: int, c: nat)
    requires c > 0 && a * c == b * c
    ensures a == b
  {
    if a < b { MulStrict(a, b, c); }
    if b < a { MulStrict(b, a, c); }
  }

  lemma MulCancelLt(a: int, b: int, c: nat)
    requires a * c < b * c
    ensures a < b
  {
    if b <= a { MulMono(b, a, c); }
  }

  lemma MulCancelLe(a: int, b: int, c: nat)
    requires c > 0 && a * c <= b * c
    ensures a <= b
  {
    if b < a { MulStrict(b, a, c); }
  }

  lemma MulAssoc(a: int, b: int, c: int)
    ensures a * b * c == a * (b * c)
  {}

  lemma MulShuffle(a: int, b: int, c: int, d: int)
    ensures a * b * (c * d) == (a * c) * (b * d)
  {
    MulAssoc(a, b, c * d);
    MulAssoc(b, c, d);
    MulAssoc(c, b, d);
    MulAssoc(a, c, b * d);
  }

  lemma Distribute(a: int, b: int, c: int)
    ensures (a + b) * c == a * c + b * c
    ensures (a - b) * c == a * c - b * c
  {}

  lemma {:induction false} PowPos(b: nat, e: nat)
    requires b > 0
    ensures Pow(b, e) > 0
  {
    if e > 0 {
      PowPos(b, e - 1);
      MulPos(b, Pow(b, e - 1));
    }
  }

  lemma {:induction false} PowAdd(b: nat, e: nat, f: nat)
    ensures Pow(b, e + f) == Pow(b, e) * Pow(b, f)
  {
    if e > 0 {
      PowAdd(b, e - 1, f);
      MulAssoc(b, Pow(b, e - 1), Pow(b, f));
    }
  }

  lemma {:induction false} PowMono(b: nat, e: nat, f: nat)
    requires b > 0 && e <= f
    ensures 0 < Pow(b, e) <= Pow(b, f)
    decreases f
  {
    PowPos(b, e);
    if e < f {
      PowMono(b, e, f - 1);
      MulUpto(1, b, Pow(b, f - 1));
    }
  }

  lemma {:induction false} PowStrict(b: nat, e: nat)
    requires b > 1
    ensures Pow(b, e) > e
  {
    if e > 0 {
      PowStrict(b, e - 1);
      MulMono(2, b, Pow(b, e - 1));
    }
  }

  lemma {:induction false} PowDistribute(a: nat, b: nat, e: nat)
    ensures Pow(a * b, e) == Pow(a, e) * Pow(b, e)
  {
    if e > 0 {
      PowDistribute(a, b, e - 1);
      MulShuffle(a, b, Pow(a, e - 1), Pow(b, e - 1));
    }
  }

  lemma {:induction false} PowFiveOdd(n: nat)
    ensures Pow(5, n) % 2 == 1
  {
    if n > 0 { PowFiveOdd(n - 1); }
  }

  /** 32 doublings make one word. */
  lemma {:induction false} PowTwoWords(n: nat)
    ensures Pow(2, 32 * n) == Pow(TWO32, n)
  {
    if n > 0 {
      PowTwoWords(n - 1);
      PowAdd(2, 32, 32 * (n - 1));
      PowTwo32();
    }
  }

  lemma PowTwo32()
    ensures Pow(2, 32) == TWO32
    ensures Pow(2, 8) == 256 && Pow(2, 16) == 65536
  {
    assert Pow(2, 8) == 256;
    PowAdd(2, 8, 8);
    PowAdd(2, 16, 16);
  }

  /** Quotient and remainder are determined by a decomposition. */
  lemma DivModUnique(x: int, q: int, r: int, d: nat)
    requires d > 0 && x == q * d + r && 0 <= r < d
    ensures x / d == q && x % d == r
  {
    var q', r' := x / d, x % d;
    assert x == d * q' + r';
    assert (q - q') * d == r' - r;
    if q < q' { MulMono(q - q', -1, d); }
    if q > q' { MulMono(1, q - q', d); }
  }

  predicate Divides(d: int, x: int)
    requires d > 0
  {
    x % d == 0
  }

  lemma Exact(d: int, x: int)
    requires d > 0 && Divides(d, x)
    ensures x == x / d * d
  {}

  lemma Divisible(d: int, q: int)
    requires d > 0
    ensures Divides(d, q * d) && q * d / d == q
  {
    DivModUnique(q * d, q, 0, d);
  }
}
