/**
 The number a little-endian sequence of 32-bit digits ("bigits") stands for, and the
 facts about it that the loops of the big integer class need.
 */
module Positional {
  import opened Arith

  type Bigit = x: nat | x < TWO32

  ghost function P(n: nat): nat { Pow(TWO32, n) }

  ghost function Eval(s: seq<Bigit>): nat {
    if |s| == 0 then 0 else Eval(s[..|s| - 1]) + s[|s| - 1] * P(|s| - 1)
  }

  /** The value of bigits `s` scaled by an exponent that counts bigits. */
  ghost function Value(s: seq<Bigit>, exp: nat): nat { Eval(s) * P(exp) }

  /** No leading zeros: a nonzero top bigit, or just one bigit. */
  ghost predicate Normal(s: seq<Bigit>) {
    |s| > 0 && (|s| > 1 ==> s[|s| - 1] != 0)
  }

  lemma PPos(n: nat)
    ensures P(n) > 0
  {
    PowPos(TWO32, n);
  }

  lemma PAdd(m: nat, n: nat)
    ensures P(m + n) == P(m) * P(n)
  {
    PowAdd(TWO32, m, n);
  }

  lemma PMono(m: nat, n: nat)
    requires m <= n
    ensures P(m) <= P(n)
  {
    PowMono(TWO32, m, n);
  }

  lemma EvalSnoc(s: seq<Bigit>, i: nat)
    requires i < |s|
    ensures Eval(s[..i + 1]) == Eval(s[..i]) + s[i] * P(i)
  {
    assert s[..i + 1][..i] == s[..i];
  }

  lemma EvalPush(s: seq<Bigit>, x: Bigit)
    ensures Eval(s + [x]) == Eval(s) + x * P(|s|)
  {
    assert (s + [x])[..|s|] == s;
  }

  lemma EvalOne(x: Bigit)
    ensures Eval([x]) == x
  {
    EvalPush([], x);
  }

  lemma {:induction false} EvalBound(s: seq<Bigit>)
    ensures Eval(s) < P(|s|)
  {
    if |s| > 0 {
      var n := |s| - 1;
      EvalBound(s[..n]);
      MulMono(s[n], TWO32 - 1, P(n));
      Distribute(TWO32, 1, P(n));
    }
  }

  lemma EvalTop(s: seq<Bigit>)
    requires |s| > 0
    ensures s[|s| - 1] * P(|s| - 1) <= Eval(s) < (s[|s| - 1] + 1) * P(|s| - 1)
  {
    EvalBound(s[..|s| - 1]);
    Distribute(s[|s| - 1], 1, P(|s| - 1));
  }

  lemma {:induction false} EvalConcat(s: seq<Bigit>, t: seq<Bigit>)
    ensures Eval(s + t) == Eval(s) + Eval(t) * P(|s|)
  {
    var n := |t| - 1;
    if |t| == 0 {
      assert s + t == s;
    } else {
      EvalConcat(s, t[..n]);
      assert s + t == (s + t[..n]) + [t[n]];
      EvalPush(s + t[..n], t[n]);
      PAdd(n, |s|);
      MulAssoc(t[n], P(n), P(|s|));
      Distribute(Eval(t[..n]), t[n] * P(n), P(|s|));
    }
  }

  lemma EvalSplit(s: seq<Bigit>, i: nat)
    requires i <= |s|
    ensures Eval(s) == Eval(s[..i]) + Eval(s[i..]) * P(i)
  {
    assert s == s[..i] + s[i..];
    EvalConcat(s[..i], s[i..]);
  }

  lemma {:induction false} EvalZeros(s: seq<Bigit>)
    requires forall i :: 0 <= i < |s| ==> s[i] == 0
    ensures Eval(s) == 0
  {
    if |s| > 0 { EvalZeros(s[..|s| - 1]); }
  }

  /** A normal number is zero only when it is written with the single bigit 0. */
  lemma NormalRange(s: seq<Bigit>)
    requires Normal(s)
    ensures Eval(s) == 0 <==> s == [0]
    ensures Eval(s) != 0 ==> P(|s| - 1) <= Eval(s)
    ensures Eval(s) < P(|s|)
  {
    EvalBound(s);
    PPos(|s| - 1);
    if s[|s| - 1] != 0 {
      EvalTop(s);
      MulMono(1, s[|s| - 1], P(|s| - 1));
    } else {
      EvalOne(0);
    }
  }

  lemma ValueRange(s: seq<Bigit>, exp: nat)
    requires Normal(s)
    ensures Value(s, exp) < P(|s| + exp)
    ensures s != [0] ==> P(|s| + exp - 1) <= Value(s, exp)
    ensures Value(s, exp) == 0 <==> s == [0]
  {
    NormalRange(s);
    PPos(exp);
    PAdd(|s|, exp);
    PAdd(|s| - 1, exp);
    MulStrict(Eval(s), P(|s|), P(exp));
    if s != [0] {
      MulMono(P(|s| - 1), Eval(s), P(exp));
      MulPos(Eval(s), P(exp));
    }
  }

  // ----- the same number seen column by column

  /** The bigit in column `c` of the number with bigits `s` and exponent `exp`. */
  ghost function Column(s: seq<Bigit>, exp: nat, c: int): Bigit {
    if exp <= c < exp + |s| then s[c - exp] else 0
  }

  /** The part of the number that lies below column `c`. */
  ghost function Below(s: seq<Bigit>, exp: nat, c: nat): nat {
    if c == 0 then 0 else Below(s, exp, c - 1) + Column(s, exp, c - 1) * P(c - 1)
  }

  lemma {:induction false} BelowBound(s: seq<Bigit>, exp: nat, c: nat)
    ensures Below(s, exp, c) < P(c)
  {
    if c > 0 {
      BelowBound(s, exp, c - 1);
      MulMono(Column(s, exp, c - 1), TWO32 - 1, P(c - 1));
      Distribute(TWO32, 1, P(c - 1));
    }
  }

  lemma {:induction false} BelowIsPrefix(s: seq<Bigit>, exp: nat, c: nat)
    ensures Below(s, exp, c) ==
            if c <= exp then 0
            else if c <= exp + |s| then Value(s[..c - exp], exp)
            else Value(s, exp)
  {
    if c > 0 {
      BelowIsPrefix(s, exp, c - 1);
      if exp < c <= exp + |s| {
        var i := c - 1 - exp;
        EvalSnoc(s, i);
        Distribute(Eval(s[..i]), s[i] * P(i), P(exp));
        MulAssoc(s[i], P(i), P(exp));
        PAdd(i, exp);
        if i == 0 { assert s[..0] == []; }
      } else if c > exp + |s| {
        assert s[..|s|] == s;
        if |s| == 0 { assert s == []; }
      }
    }
  }

  lemma BelowAll(s: seq<Bigit>, exp: nat, c: nat)
    requires c >= exp + |s|
    ensures Below(s, exp, c) == Value(s, exp)
  {
    BelowIsPrefix(s, exp, c);
    if c == exp + |s| {
      assert s[..|s|] == s;
      if |s| == 0 { assert s == []; }
    }
  }
}
