/** Exchanging two adjacent blocks of the argument vector in place, by gcd-many cycles. */
module Permute {
  import opened Arith

  lemma DividesSum(d: int, x: int, y: int, k: int)
    requires d > 0 && Divides(d, x) && Divides(d, y)
    ensures Divides(d, x + k * y)
  {
    var p, q := x / d, y / d;
    Exact(d, x);
    Exact(d, y);
    MulAssoc(k, q, d);
    Distribute(p, k * q, d);
    Divisible(d, p + k * q);
  }

  /** Every common divisor of a and b is one of A and B. */
  ghost predicate Passes(a: int, b: int, A: int, B: int) {
    forall d :: d > 0 && Divides(d, a) && Divides(d, b) ==> Divides(d, A) && Divides(d, B)
  }

  /**
   The greatest common divisor: it divides both numbers and is a combination of them, so
   every common divisor divides it.
   */
  method Gcd(A: nat, B: nat) returns (g: nat, ghost x: int, ghost y: int)
    requires B > 0
    ensures g > 0 && Divides(g, A) && Divides(g, B)
    ensures g == x * A + y * B
  {
    var a, b := A, B;
    var c := a % b;
    ghost var xa, ya, xb, yb := 1, 0, 0, 1;
    while c != 0
      invariant b > 0 && c == a % b && a >= 0
      invariant a == xa * A + ya * B && b == xb * A + yb * B
      invariant Passes(a, b, A, B)
      decreases b
    {
      ghost var q := a / b;
      Combine(a, b, q, xa, ya, xb, yb, A, B);
      PassOn(a, b, q, A, B);
      xa, ya, xb, yb := xb, yb, xa - q * xb, ya - q * yb;
      a := b;
      b := c;
      c := a % b;
    }
    assert Divides(b, b) by { Divisible(b, 1); }
    g, x, y := b, xb, yb;
  }

  lemma Combine(a: int, b: int, q: int, xa: int, ya: int, xb: int, yb: int, A: int, B: int)
    requires a == xa * A + ya * B && b == xb * A + yb * B
    ensures a - q * b == (xa - q * xb) * A + (ya - q * yb) * B
  {
    MulAssoc(q, xb, A);
    MulAssoc(q, yb, B);
    Distribute(xb * A, yb * B, q);
    Distribute(xa, q * xb, A);
    Distribute(ya, q * yb, B);
  }

  lemma PassOn(a: int, b: int, q: int, A: int, B: int)
    requires b > 0 && q == a / b && Passes(a, b, A, B)
    ensures Passes(b, a % b, A, B) && a % b == a - q * b
  {
    forall d | d > 0 && Divides(d, b) && Divides(d, a % b)
      ensures Divides(d, A) && Divides(d, B)
    {
      DividesSum(d, a % b, b, q);
      assert a % b + q * b == a;
      assert Divides(d, a);
    }
  }

  // ----- walking around a cycle

  /** The position reached from p after t steps of length `step`, modulo n. */
  ghost function Walk(p: int, t: int, step: int, n: nat): (w: nat)
    requires n > 0
    ensures w < n
  {
    (p + t * step) % n
  }

  lemma ModShift(a: int, k: int, w: nat, n: nat)
    requires w < n && a == k * n + w
    ensures a % n == w
  {
    DivModUnique(a, k, w, n);
  }

  /** Where the element at relative position w belongs: the second block starts at n1. */
  function Next(w: nat, n1: nat, n2: nat): nat {
    if w >= n1 then w - n1 else w + n2
  }

  /** A step goes forward by `step`, or back by n - step when that would leave the range. */
  lemma WalkStep(p: int, t: int, step: nat, n: nat)
    requires step <= n && n > 0
    ensures Walk(p, t + 1, step, n) == Next(Walk(p, t, step, n), n - step, step)
  {
    var w, a := Walk(p, t, step, n), p + t * step;
    var k := a / n;
    assert a == k * n + w;
    Distribute(t, 1, step);
    Distribute(k, 1, n);
    if w + step < n { ModShift(a + step, k, w + step, n); } else { ModShift(a + step, k + 1, w + step - n, n); }
  }

  lemma WalkStart(p: nat, step: nat, n: nat)
    requires p < n
    ensures Walk(p, 0, step, n) == p
  {
    ModShift(p, 0, p, n);
  }

  /** g divides the length and the step, and is a combination of them. */
  ghost predicate Steps(step: int, n: nat, g: nat, x: int, z: int) {
    n > 0 && g > 0 && Divides(g, n) && Divides(g, step) && g == x * n + z * step
  }

  /** A cycle stays in its residue class. */
  lemma WalkClass(p: int, t: int, step: int, n: nat, g: nat, x: int, z: int)
    requires Steps(step, n, g, x, z)
    ensures Walk(p, t, step, n) % g == p % g
  {
    var a := p + t * step;
    var k, i, j := a / n, n / g, step / g;
    Exact(g, n);
    Exact(g, step);
    var m := t * j - k * i;
    assert a - k * n == p + m * g by {
      MulAssoc(t, j, g);
      MulAssoc(k, i, g);
      Distribute(t * j, k * i, g);
    }
    ModIs(a, n);
    SameClass(a % n, p, m, g);
  }

  lemma ModIs(a: int, n: nat)
    requires n > 0
    ensures a % n == a - a / n * n
  {}

  lemma SameClass(w: int, p: int, m: int, g: nat)
    requires g > 0 && w == p + m * g
    ensures w % g == p % g
  {
    Distribute(p / g, m, g);
    DivModUnique(w, p / g + m, p % g, g);
  }

  /** Positions repeat only after n / g steps. */
  lemma WalkApart(p: int, s: int, t: int, step: int, n: nat, g: nat, x: int, z: int)
    requires Steps(step, n, g, x, z) && s < t
    requires Walk(p, s, step, n) == Walk(p, t, step, n)
    ensures t - s >= n / g
  {
    var w := Walk(p, s, step, n);
    var a, b := (p + s * step) / n, (p + t * step) / n;
    var len := n / g;
    assert n == len * g;
    assert (t - s) * step == (b - a) * n by {
      assert p + s * step == a * n + w;
      assert p + t * step == b * n + w;
      Distribute(t, s, step);
      Distribute(b, a, n);
    }
    var m := x * (t - s) + z * (b - a);
    assert (t - s) * g == m * n by {
      MulAssoc(z, t - s, step);
      MulAssoc(z, b - a, n);
      MulAssoc(x, t - s, n);
      Distribute(x * (t - s), z * (b - a), n);
      Distribute(x * n, z * step, t - s);
      MulAssoc(x, n, t - s);
      MulAssoc(z, step, t - s);
    }
    MulAssoc(m, len, g);
    MulCancel(t - s, m * len, g);
    if m <= 0 { MulMono(m, 0, len); } else { MulMono(1, m, len); }
  }

  /** Every position of the residue class is met within n / g steps. */
  lemma WalkCovers(p: int, q: nat, step: int, n: nat, g: nat, x: int, z: int) returns (t: nat)
    requires Steps(step, n, g, x, z) && q < n && p % g == q % g
    ensures t < n / g && Walk(p, t, step, n) == q
  {
    var len, j := n / g, step / g;
    Exact(g, step);
    assert n == len * g && len > 0;
    var m := q / g - p / g;
    ClassDifference(p, q, g, m);
    t := (z * m) % len;
    var k := (z * m) / len;
    var u := x * m + k * j;
    CoverSum(p, q, step, n, g, x, z, t, m, k, len, j);
    ModShift(p + t * step, -u, q, n);
  }

  lemma ClassDifference(p: int, q: int, g: nat, m: int)
    requires g > 0 && p % g == q % g && m == q / g - p / g
    ensures q - p == m * g
  {
    var a, b := p / g, q / g;
    assert p == a * g + p % g && q == b * g + q % g;
    Distribute(b, a, g);
  }

  lemma WalkReturns(p: nat, step: int, n: nat, g: nat, x: int, z: int)
    requires Steps(step, n, g, x, z) && p < n
    ensures Walk(p, n / g, step, n) == p
  {
    var len, j := n / g, step / g;
    Exact(g, n);
    Exact(g, step);
    MulAssoc(len, j, g);
    MulAssoc(j, len, g);
    ModShift(p + len * step, j, p, n);
  }

  lemma CoverSum(p: int, q: int, step: int, n: int, g: int, x: int, z: int, t: int, m: int, k: int, len: int, j: int)
    requires n == len * g && step == j * g && g == x * n + z * step
    requires t == z * m - k * len && q - p == m * g
    ensures p + t * step == -(x * m + k * j) * n + q
  {
    assert k * len * step == k * j * n by {
      MulAssoc(k, len, step);
      MulAssoc(len, j, g);
      MulAssoc(j, len, g);
      MulAssoc(k, j, n);
    }
    assert m * g == x * m * n + z * m * step by {
      Distribute(x * n, z * step, m);
      MulAssoc(z, m, step);
      MulAssoc(z, step, m);
      MulAssoc(x, m, n);
      MulAssoc(x, n, m);
    }
    Distribute(z * m, k * len, step);
    Distribute(x * m, k * j, n);
    NegProduct(x * m + k * j, n);
  }

  lemma NegProduct(a: int, b: int)
    ensures -a * b == -(a * b)
  {}

  // ----- the rotation in place

  /** Elements of the residue classes below i have moved to their places, the others not yet. */
  ghost predicate Turned<T>(cur: seq<T>, was: seq<T>, n1: nat, n2: nat, g: nat, i: nat)
    requires g > 0
  {
    && |cur| == |was| == n1 + n2
    && (forall p :: 0 <= p < n1 + n2 && p % g < i ==> cur[Next(p, n1, n2)] == was[p])
    && (forall p :: 0 <= p < n1 + n2 && p % g >= i ==> cur[p] == was[p])
  }

  /** After j swaps of the cycle through p0, which had `was` in its class before. */
  ghost predicate Cycled<T>(cur: seq<T>, before: seq<T>, was: seq<T>, p0: nat, j: nat, step: nat, n: nat, g: nat)
    requires n > 0 && g > 0 && |cur| == |before| == |was| == n && p0 < n
  {
    && (forall p :: 0 <= p < n && p % g != p0 % g ==> cur[p] == before[p])
    && (forall t :: 0 <= t < j ==> cur[Walk(p0, t + 1, step, n)] == was[Walk(p0, t, step, n)])
    && (forall t :: j < t < n / g ==> cur[Walk(p0, t, step, n)] == was[Walk(p0, t, step, n)])
    && (j < n / g ==> cur[p0] == was[Walk(p0, j, step, n)])
  }

  lemma SwapStep<T>(cur: seq<T>, before: seq<T>, was: seq<T>, p0: nat, j: nat, step: nat, n: nat, g: nat, x: int, z: int)
    requires Steps(step, n, g, x, z) && |cur| == |before| == |was| == n && p0 < n
    requires Cycled(cur, before, was, p0, j, step, n, g) && j < n / g
    ensures var pos := Walk(p0, j + 1, step, n);
            Cycled(cur[pos := cur[p0]][p0 := cur[pos]], before, was, p0, j + 1, step, n, g)
  {
    var pos := Walk(p0, j + 1, step, n);
    var now := cur[pos := cur[p0]][p0 := cur[pos]];
    WalkStart(p0, step, n);
    WalkClass(p0, j + 1, step, n, g, x, z);
    if j + 1 == n / g {
      WalkReturns(p0, step, n, g, x, z);
      assert now == cur;
    } else {
      if pos == p0 { WalkApart(p0, 0, j + 1, step, n, g, x, z); }
      forall t | 0 <= t < j
        ensures now[Walk(p0, t + 1, step, n)] == was[Walk(p0, t, step, n)]
      {
        if Walk(p0, t + 1, step, n) == pos { WalkApart(p0, t + 1, j + 1, step, n, g, x, z); }
        if Walk(p0, t + 1, step, n) == p0 { WalkApart(p0, 0, t + 1, step, n, g, x, z); }
      }
      forall t | j + 1 < t < n / g
        ensures now[Walk(p0, t, step, n)] == was[Walk(p0, t, step, n)]
      {
        if Walk(p0, t, step, n) == pos { WalkApart(p0, j + 1, t, step, n, g, x, z); }
        if Walk(p0, t, step, n) == p0 { WalkApart(p0, 0, t, step, n, g, x, z); }
      }
    }
  }

  /** A finished cycle adds its residue class. */
  lemma CycleDone<T>(cur: seq<T>, before: seq<T>, was: seq<T>, n1: nat, n2: nat, g: nat, x: int, z: int, c: nat)
    requires Steps(n2, n1 + n2, g, x, z) && Divides(g, n1) && c < g && c < n2
    requires |cur| == |before| == |was| == n1 + n2
    requires Turned(before, was, n1, n2, g, c)
    requires Cycled(cur, before, was, n1 + c, (n1 + n2) / g, n2, n1 + n2, g)
    ensures Turned(cur, was, n1, n2, g, c + 1)
  {
    var n, p0 := n1 + n2, n1 + c;
    Exact(g, n1);
    ClassOf(n1 / g, c, g);
    forall p | 0 <= p < n && p % g < c + 1
      ensures cur[Next(p, n1, n2)] == was[p]
    {
      NextClass(p, n1, n2, g);
      if p % g == c {
        var t := WalkCovers(p0, p, n2, n, g, x, z);
        WalkStep(p0, t, n2, n);
      }
    }
  }

  lemma ClassOf(k: int, c: nat, g: nat)
    requires c < g
    ensures (k * g + c) % g == c
  {
    DivModUnique(k * g + c, k, c, g);
  }

  lemma NextClass(p: nat, n1: nat, n2: nat, g: nat)
    requires g > 0 && Divides(g, n1) && Divides(g, n2)
    ensures Next(p, n1, n2) % g == p % g
  {
    Exact(g, n1);
    Exact(g, n2);
    NegProduct(n1 / g, g);
    SameClass(p - n1, p, -(n1 / g), g);
    SameClass(p + n2, p, n2 / g, g);
  }

  method Swap<T>(a: array<T>, i: nat, j: nat, ghost lo: nat, ghost hi: nat)
    requires lo <= i < hi <= a.Length && lo <= j < hi
    modifies a
    ensures a[..lo] == old(a[..lo]) && a[hi..] == old(a[hi..])
    ensures a[lo..hi] == old(a[lo..hi])[i - lo := old(a[lo..hi])[j - lo]][j - lo := old(a[lo..hi])[i - lo]]
  {
    var swap := a[i];
    a[i] := a[j];
    a[j] := swap;
  }

  /** One swap of a cycle, in a block of n elements of which the last n2 are the second part. */
  method CycleStep<T>(nargv: array<T>, start: nat, end: nat, optEnd: nat, pos: nat, cstart: nat, ghost p0: nat, ghost n2: nat,
                      ghost n: nat, ghost j: nat, ghost g: nat, ghost x: int, ghost z: int, ghost before: seq<T>, ghost was: seq<T>)
    returns (next: nat)
    requires start <= end <= cstart < optEnd <= nargv.Length
    requires p0 == cstart - start && n2 == optEnd - end && n == optEnd - start
    requires Steps(n2, n, g, x, z) && j < n / g && pos == start + Walk(p0, j, n2, n)
    requires |before| == |was| == n && Cycled(nargv[start..optEnd], before, was, p0, j, n2, n, g)
    modifies nargv
    ensures next == start + Walk(p0, j + 1, n2, n)
    ensures Cycled(nargv[start..optEnd], before, was, p0, j + 1, n2, n, g)
    ensures nargv[..start] == old(nargv[..start]) && nargv[optEnd..] == old(nargv[optEnd..])
  {
    WalkStep(p0, j, n2, n);
    SwapStep(nargv[start..optEnd], before, was, p0, j, n2, n, g, x, z);
    if pos >= end {
      next := pos - (end - start);
    } else {
      next := pos + (optEnd - end);
    }
    Swap(nargv, next, cstart, start, optEnd);
  }

  /** One cycle: `nargv[cstart]` carries the element on its way to its place. */
  method RotateCycle<T>(nargv: array<T>, start: nat, end: nat, optEnd: nat, c: nat, cyclelen: nat,
                        ghost g: nat, ghost x: int, ghost z: int, ghost was: seq<T>)
    requires start <= end < optEnd <= nargv.Length
    requires Steps(optEnd - end, optEnd - start, g, x, z) && Divides(g, end - start)
    requires c < g && c < optEnd - end && cyclelen == (optEnd - start) / g
    requires Turned(nargv[start..optEnd], was, end - start, optEnd - end, g, c)
    modifies nargv
    ensures Turned(nargv[start..optEnd], was, end - start, optEnd - end, g, c + 1)
    ensures nargv[..start] == old(nargv[..start]) && nargv[optEnd..] == old(nargv[optEnd..])
  {
    ghost var before := nargv[start..optEnd];
    ghost var n1, n2, n := end - start, optEnd - end, optEnd - start;
    var cstart := end + c;
    ghost var p0 := n1 + c;
    var pos := cstart;
    WalkStart(p0, n2, n);
    CycleStart(before, was, n1, n2, g, x, z, c);
    for j := 0 to cyclelen
      invariant pos == start + Walk(p0, j, n2, n)
      invariant nargv[..start] == old(nargv[..start]) && nargv[optEnd..] == old(nargv[optEnd..])
      invariant Cycled(nargv[start..optEnd], before, was, p0, j, n2, n, g)
    {
      pos := CycleStep(nargv, start, end, optEnd, pos, cstart, p0, n2, n, j, g, x, z, before, was);
    }
    CycleDone(nargv[start..optEnd], before, was, n1, n2, g, x, z, c);
  }

  lemma CycleStart<T>(before: seq<T>, was: seq<T>, n1: nat, n2: nat, g: nat, x: int, z: int, c: nat)
    requires Steps(n2, n1 + n2, g, x, z) && Divides(g, n1) && c < g && c < n2
    requires Turned(before, was, n1, n2, g, c)
    ensures Cycled(before, before, was, n1 + c, 0, n2, n1 + n2, g)
  {
    var p0, n := n1 + c, n1 + n2;
    Exact(g, n1);
    ClassOf(n1 / g, c, g);
    WalkStart(p0, n2, n);
    forall t | 0 <= t < n / g
      ensures before[Walk(p0, t, n2, n)] == was[Walk(p0, t, n2, n)]
    {
      WalkClass(p0, t, n2, n, g, x, z);
    }
  }

  ghost function Exchanged<T>(s: seq<T>, start: nat, end: nat, optEnd: nat): seq<T>
    requires start <= end <= optEnd <= |s|
  {
    s[..start] + s[end..optEnd] + s[start..end] + s[optEnd..]
  }

  /**
   Exchanges the block [start, end) with the block [end, optEnd), each keeping its order.
   The second block must not be empty: its length is the divisor in the first step of gcd.
   */
  method PermuteArgs<T>(start: nat, end: nat, optEnd: nat, nargv: array<T>)
    requires start <= end < optEnd <= nargv.Length
    modifies nargv
    ensures nargv[..] == Exchanged(old(nargv[..]), start, end, optEnd)
  {
    var nnonopts, nopts := end - start, optEnd - end;
    ghost var was := nargv[start..optEnd];
    ghost var x, y;
    var ncycle: nat;
    ncycle, x, y := Gcd(nnonopts, nopts);
    var cyclelen := (optEnd - start) / ncycle;
    CycleSetup(nnonopts, nopts, ncycle, x, y);
    for i := 0 to ncycle
      invariant Turned(nargv[start..optEnd], was, nnonopts, nopts, ncycle, i)
      invariant nargv[..start] == old(nargv[..start]) && nargv[optEnd..] == old(nargv[optEnd..])
    {
      RotateCycle(nargv, start, end, optEnd, i, cyclelen, ncycle, x, y - x, was);
    }
    TurnedIsRotated(nargv[start..optEnd], was, nnonopts, nopts, ncycle);
    ThreeParts(nargv[..], old(nargv[..]), start, end, optEnd);
  }

  lemma ThreeParts<T>(now: seq<T>, was: seq<T>, start: nat, end: nat, optEnd: nat)
    requires start <= end <= optEnd <= |was| == |now|
    requires now[..start] == was[..start] && now[optEnd..] == was[optEnd..]
    requires now[start..optEnd] == was[start..optEnd][end - start..] + was[start..optEnd][..end - start]
    ensures now == Exchanged(was, start, end, optEnd)
  {
    assert now == now[..start] + now[start..optEnd] + now[optEnd..];
    assert was[start..optEnd][end - start..] == was[end..optEnd];
    assert was[start..optEnd][..end - start] == was[start..end];
  }

  lemma CycleSetup(n1: nat, n2: nat, g: nat, x: int, y: int)
    requires n2 > 0 && g > 0 && Divides(g, n1) && Divides(g, n2) && g == x * n1 + y * n2
    ensures Steps(n2, n1 + n2, g, x, y - x) && g <= n2
  {
    DividesSum(g, n1, n2, 1);
    Distribute(n1, n2, x);
    Distribute(y, x, n2);
    Exact(g, n2);
    if n2 / g <= 0 { MulMono(n2 / g, 0, g); } else { MulMono(1, n2 / g, g); }
  }

  lemma TurnedIsRotated<T>(cur: seq<T>, was: seq<T>, n1: nat, n2: nat, g: nat)
    requires g > 0 && Turned(cur, was, n1, n2, g, g)
    ensures cur == was[n1..] + was[..n1]
  {
    forall q | 0 <= q < n1 + n2
      ensures cur[q] == (was[n1..] + was[..n1])[q]
    {
      var p := if q < n2 then q + n1 else q - n2;
      assert Next(p, n1, n2) == q && p % g < g;
    }
  }
}
