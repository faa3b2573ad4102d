/** Long multiplication: the column sums of two numbers add up to their product. */
module Convolution {
  import opened Arith
  import opened Positional

  /** The terms s[x] * t[k - x] with x < i. */
  ghost function Partial(s: seq<Bigit>, t: seq<Bigit>, k: nat, i: nat): nat {
    if i == 0 then 0 else Partial(s, t, k, i - 1) + Column(s, 0, i - 1) * Column(t, 0, k - (i - 1))
  }

  /** The column sums 0 .. m - 1, each at its place. */
  ghost function Columns(s: seq<Bigit>, t: seq<Bigit>, m: nat): nat {
    if m == 0 then 0 else Columns(s, t, m - 1) + Partial(s, t, m - 1, |s|) * P(m - 1)
  }

  lemma {:induction false} PartialSkip(s: seq<Bigit>, t: seq<Bigit>, k: nat, i: nat, j: nat)
    requires i <= j
    requires i > k || k - j >= |t| - 1
    ensures Partial(s, t, k, j) == Partial(s, t, k, i)
  {
    if i < j { PartialSkip(s, t, k, i, j - 1); }
  }

  lemma {:induction false} PartialPrefix(s: seq<Bigit>, x: Bigit, t: seq<Bigit>, k: nat, i: nat)
    requires i <= |s|
    ensures Partial(s + [x], t, k, i) == Partial(s, t, k, i)
  {
    if i > 0 { PartialPrefix(s, x, t, k, i - 1); }
  }

  lemma AddColumn(p: int, x: int, b: int, c: int, q: int)
    ensures x * b + (p + x * c) * q == p * q + x * (b + c * q)
  {
    Distribute(p, x * c, q);
    MulAssoc(x, c, q);
    Distribute(b, c * q, x);
  }

  lemma {:induction false} ColumnsSnoc(s: seq<Bigit>, x: Bigit, t: seq<Bigit>, m: nat)
    ensures Columns(s + [x], t, m) == Columns(s, t, m) + x * Below(t, |s|, m)
  {
    if m > 0 {
      var c := Column(t, |s|, m - 1);
      ColumnsSnoc(s, x, t, m - 1);
      PartialPrefix(s, x, t, m - 1, |s|);
      AddColumn(Partial(s, t, m - 1, |s|), x, Below(t, |s|, m - 1), c, P(m - 1));
    }
  }

  lemma {:induction false} ColumnsEmpty(t: seq<Bigit>, m: nat)
    ensures Columns([], t, m) == 0
  {
    if m > 0 { ColumnsEmpty(t, m - 1); }
  }

  lemma {:induction false} ColumnsAreProduct(s: seq<Bigit>, t: seq<Bigit>, m: nat)
    requires m >= |s| + |t|
    ensures Columns(s, t, m) == Eval(s) * Eval(t)
  {
    var n := |s| - 1;
    if |s| == 0 {
      assert s == [];
      ColumnsEmpty(t, m);
    } else {
      assert s == s[..n] + [s[n]];
      ColumnsAreProduct(s[..n], t, m);
      ColumnsSnoc(s[..n], s[n], t, m);
      BelowAll(t, n, m);
      MulAssoc(s[n], P(n), Eval(t));
      Distribute(Eval(s[..n]), s[n] * P(n), Eval(t));
    }
  }
}
