/**
 What a printed decimal stands for, and what it means that it is the correctly rounded
 image of a binary floating-point value. Fractions are kept as numerator and denominator.
 */
module Rounding {
  import opened Arith

  /** The number spelled by decimal characters; a character above '9' counts its distance from '0'. */
  function Decimal(s: seq<char>): int {
    if |s| == 0 then 0 else 10 * Decimal(s[..|s| - 1]) + CharValue(s[|s| - 1])
  }

  function CharValue(c: char): int { c as int - '0' as int }

  function DigitChar(d: nat): (c: char)
    requires d < 100
    ensures CharValue(c) == d
  {
    ('0' as int + d) as char
  }

  predicate IsDigit(c: char) { '0' <= c <= '9' }

  predicate AllDigits(s: seq<char>) {
    forall i :: 0 <= i < |s| ==> IsDigit(s[i])
  }

  lemma DecimalSnoc(s: seq<char>, c: char)
    ensures Decimal(s + [c]) == 10 * Decimal(s) + CharValue(c)
  {
    assert (s + [c])[..|s|] == s;
  }

  lemma {:induction false} DecimalConcat(s: seq<char>, t: seq<char>)
    ensures Decimal(s + t) == Decimal(s) * Pow(10, |t|) + Decimal(t)
  {
    if |t| == 0 {
      assert s + t == s;
    } else {
      var n := |t| - 1;
      assert s + t == (s + t[..n]) + [t[n]];
      DecimalSnoc(s + t[..n], t[n]);
      DecimalConcat(s, t[..n]);
      var p := Pow(10, n);
      assert 10 * (Decimal(s) * p) == Decimal(s) * (10 * p) by { MulAssoc(Decimal(s), p, 10); MulAssoc(Decimal(s), 10, p); }
    }
  }

  lemma {:induction false} DecimalRange(s: seq<char>)
    requires AllDigits(s)
    ensures 0 <= Decimal(s) < Pow(10, |s|)
  {
    if |s| > 0 { DecimalRange(s[..|s| - 1]); }
  }

  lemma {:induction false} DecimalUpdate(s: seq<char>, i: nat, c: char)
    requires i < |s|
    ensures Decimal(s[i := c]) == Decimal(s) + (CharValue(c) - CharValue(s[i])) * Pow(10, |s| - 1 - i)
  {
    var n := |s| - 1;
    if i < n {
      DecimalUpdate(s[..n], i, c);
      assert s[i := c][..n] == s[..n][i := c];
      MulAssoc(CharValue(c) - CharValue(s[i]), Pow(10, n - 1 - i), 10);
    } else {
      assert s[i := c][..n] == s[..n];
    }
  }

  /** Ten in one place is one in the place before. */
  lemma CarryKeepsValue(buf: seq<char>, i: nat, next: char)
    requires 0 < i < |buf| && CharValue(buf[i]) == 10 && CharValue(next) == CharValue(buf[i - 1]) + 1
    ensures Decimal(buf[i := '0'][i - 1 := next]) == Decimal(buf)
  {
    DecimalUpdate(buf, i, '0');
    DecimalUpdate(buf[i := '0'], i - 1, next);
    assert Pow(10, |buf| - i) == 10 * Pow(10, |buf| - 1 - i);
  }

  /** A leading character followed by zeros only. */
  lemma {:induction false} DecimalRound(s: seq<char>)
    requires |s| > 0 && forall i :: 0 < i < |s| ==> s[i] == '0'
    ensures Decimal(s) == CharValue(s[0]) * Pow(10, |s| - 1)
  {
    var n := |s| - 1;
    if n > 0 {
      DecimalRound(s[..n]);
      MulAssoc(CharValue(s[0]), Pow(10, n - 1), 10);
    } else {
      assert s[..0] == [];
    }
  }

  // ----- rounding

  /** q is an integer nearest to num / den, the even one if two are equally near. */
  ghost predicate RoundsTo(q: int, num: int, den: int) {
    var twice := 2 * (q * den - num);
    -den <= twice <= den && (twice == den || twice == -den ==> q % 2 == 0)
  }

  /** Rounding depends on the fraction only, not on how it is written. */
  lemma RoundsToScaled(q: int, num: int, den: int, num': int, den': int)
    requires den > 0 && den' > 0
    requires num * den' == num' * den
    ensures RoundsTo(q, num, den) <==> RoundsTo(q, num', den')
  {
    var t, t' := 2 * (q * den - num), 2 * (q * den' - num');
    assert t * den' == t' * den by {
      MulAssoc(q, den, den');
      MulAssoc(q, den', den);
      Distribute(q * den, num, den');
      Distribute(q * den', num', den);
      MulAssoc(2, q * den - num, den');
      MulAssoc(2, q * den' - num', den);
    }
    SameSide(t, den, t', den');
    SameSide(-t, den, -t', den');
  }

  lemma SameSide(t: int, d: int, t': int, d': int)
    requires d > 0 && d' > 0 && t * d' == t' * d
    ensures t <= d <==> t' <= d'
    ensures t == d <==> t' == d'
  {
    if t <= d { MulMono(t, d, d'); MulCancelLe(t', d', d); }
    if t' <= d' { MulMono(t', d', d); MulCancelLe(t, d, d'); }
    if t == d { MulCancel(t', d', d); }
    if t' == d' { MulCancel(t, d, d'); }
  }

  // ----- the binary value f * 2^e, in units of 10^x

  function Max0(x: int): nat { if x > 0 then x else 0 }

  /** Numerator and denominator of f * 2^e * 10^-x. */
  ghost function ScaledNum(f: int, e: int, x: int): int {
    f * Pow(2, Max0(e)) * Pow(10, Max0(-x))
  }

  ghost function ScaledDen(e: int, x: int): nat {
    Pow(2, Max0(-e)) * Pow(10, Max0(x))
  }

  lemma ScaledDenPos(e: int, x: int)
    ensures ScaledDen(e, x) > 0
  {
    PowPos(2, Max0(-e));
    PowPos(10, Max0(x));
    MulPos(Pow(2, Max0(-e)), Pow(10, Max0(x)));
  }

  /** Lowering the unit by ten decimal places multiplies the fraction by ten, k times. */
  lemma FinerUnit(f: int, e: int, x: int, k: nat)
    ensures ScaledNum(f, e, x - k) * ScaledDen(e, x) == ScaledNum(f, e, x) * Pow(10, k) * ScaledDen(e, x - k)
  {
    FinerUnitPowers(x, k);
    FinerUnitProducts(f * Pow(2, Max0(e)), Pow(2, Max0(-e)), Pow(10, Max0(k - x)), Pow(10, Max0(x)),
                      Pow(10, Max0(-x)), Pow(10, Max0(x - k)), Pow(10, k));
  }

  lemma FinerUnitPowers(x: int, k: nat)
    ensures Pow(10, Max0(k - x)) * Pow(10, Max0(x)) == Pow(10, Max0(-x)) * Pow(10, k) * Pow(10, Max0(x - k))
  {
    PowAdd(10, Max0(k - x), Max0(x));
    PowAdd(10, Max0(-x), k);
    PowAdd(10, Max0(-x) + k, Max0(x - k));
  }

  lemma FinerUnitProducts(a: int, b: int, p: int, q: int, p': int, q': int, t: int)
    requires p * q == p' * t * q'
    ensures a * p * (b * q) == a * p' * t * (b * q')
  {
    MulShuffle(a, p, b, q);
    MulAssoc(a, p', t);
    MulShuffle(a, p' * t, b, q');
  }
}
