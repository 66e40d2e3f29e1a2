/**
 Polynomials as coefficient sequences, lowest degree first, and interpolation
 through points whose x-coordinates differ by units modulo p. Evaluation is over
 the integers; reduction modulo p happens only where congruence is claimed.
 */
module Polynomial {
  import opened Modular

  // c[0] + c[1] x + c[2] x^2 + ...
  function Eval(c: seq<int>, x: int): int {
    if c == [] then 0 else c[0] + x * Eval(c[1..], x)
  }

  // The quotient of c by (x - r).
  function Quotient(c: seq<int>, r: int): (q: seq<int>)
    ensures |q| == if c == [] then 0 else |c| - 1
  {
    if |c| <= 1 then [] else [Eval(c[1..], r)] + Quotient(c[1..], r)
  }

  lemma {:induction false} QuotientDivides(c: seq<int>, r: int, x: int)
    ensures Eval(c, x) == Eval(c, r) + (x - r) * Eval(Quotient(c, r), x)
  {
    if |c| <= 1 {
      assert c != [] ==> c[1..] == [];
    } else {
      var d := c[1..];
      QuotientDivides(d, r, x);
      assert Quotient(c, r)[1..] == Quotient(d, r);
      Remainder(c[0], Eval(d, x), Eval(d, r), Eval(Quotient(d, r), x), r, x);
    }
  }

  lemma Remainder(c: int, ex: int, er: int, eq: int, r: int, x: int)
    requires ex == er + (x - r) * eq
    ensures c + x * ex == (c + r * er) + (x - r) * (er + x * eq)
  {
    var d := x - r;
    assert x * (d * eq) == d * (x * eq);
    assert x * (er + d * eq) == x * er + x * (d * eq);
    assert d * (er + x * eq) == d * er + d * (x * eq);
    assert x * er == r * er + d * er;
  }

  // The polynomial y + (x - r) * q, the inverse of division by (x - r).
  function Compose(q: seq<int>, r: int, y: int): (c: seq<int>)
    ensures |c| == |q| + 1
  {
    if q == [] then [y] else [y - r * q[0]] + Compose(q[1..], r, q[0])
  }

  lemma {:induction false} ComposeEval(q: seq<int>, r: int, y: int, x: int)
    ensures Eval(Compose(q, r, y), x) == y + (x - r) * Eval(q, x)
  {
    if q == [] {
      assert Compose(q, r, y)[1..] == [];
    } else {
      var c := Compose(q, r, y);
      assert c[1..] == Compose(q[1..], r, q[0]);
      ComposeEval(q[1..], r, q[0], x);
      Remainder(y - r * q[0], Eval(c[1..], x), q[0], Eval(q[1..], x), r, x);
    }
  }

  // Coefficientwise congruence to zero.
  ghost predicate AllZero(c: seq<int>, p: int)
    requires p > 0
  {
    forall i :: 0 <= i < |c| ==> Cong(c[i], 0, p)
  }

  lemma {:induction false} ZeroQuotient(c: seq<int>, r: int, p: int)
    requires p > 0
    requires Cong(Eval(c, r), 0, p)
    requires AllZero(Quotient(c, r), p)
    ensures AllZero(c, p)
  {
    if |c| > 0 {
      var d := c[1..];
      if d == [] {
        assert Eval(c, r) == c[0];
      } else {
        var q := Quotient(c, r);
        assert q[0] == Eval(d, r);
        assert q[1..] == Quotient(d, r);
        ZeroQuotient(d, r, p);
        CongMul(r, r, Eval(d, r), 0, p);
        CongSub(Eval(c, r), 0, r * Eval(d, r), 0, p);
        assert c[0] == Eval(c, r) - r * Eval(d, r);
      }
      assert Cong(c[0], 0, p);
      forall i | 0 <= i < |c|
        ensures Cong(c[i], 0, p)
      {
        if i > 0 {
          assert c[i] == d[i - 1];
        }
      }
    }
  }

  // Every two x-coordinates differ by a unit modulo p.
  ghost predicate UnitDifferences(xs: seq<int>, p: int)
    requires p > 0
  {
    forall i, j :: 0 <= i < |xs| && 0 <= j < |xs| && i != j ==> Unit(xs[i] - xs[j], p)
  }

  lemma TailDifferences(xs: seq<int>, p: int)
    requires p > 0
    requires |xs| > 0 && UnitDifferences(xs, p)
    ensures UnitDifferences(xs[1..], p)
    ensures forall i :: 0 <= i < |xs| - 1 ==> Unit(xs[1..][i] - xs[0], p)
  {
    forall i, j | 0 <= i < |xs| - 1 && 0 <= j < |xs| - 1 && i != j
      ensures Unit(xs[1..][i] - xs[1..][j], p)
    {
      assert Unit(xs[i + 1] - xs[j + 1], p);
    }
  }

  // The polynomial c passes through every point modulo p.
  ghost predicate Through(c: seq<int>, xs: seq<int>, ys: seq<int>, p: int)
    requires p > 0
    requires |xs| == |ys|
  {
    forall i :: 0 <= i < |xs| ==> Cong(Eval(c, xs[i]), ys[i], p)
  }

  ghost predicate Reduced(c: seq<int>, p: int) {
    forall i :: 0 <= i < |c| ==> 0 <= c[i] < p
  }

  function Zeros(n: nat): (z: seq<int>)
    ensures |z| == n
  {
    seq(n, _ => 0)
  }

  lemma RootOfQuotient(c: seq<int>, r: int, x: int, p: int)
    requires p > 0 && Unit(x - r, p)
    requires Cong(Eval(c, x), 0, p) && Cong(Eval(c, r), 0, p)
    ensures Cong(Eval(Quotient(c, r), x), 0, p)
  {
    var e := Eval(Quotient(c, r), x);
    QuotientDivides(c, r, x);
    CongSub(Eval(c, x), 0, Eval(c, r), 0, p);
    assert e * (x - r) == (x - r) * e && 0 * (x - r) == 0;
    Cancel(e, 0, x - r, p);
  }

  // A polynomial with at most n coefficients and n roots is zero.
  lemma {:induction false} TooManyRoots(c: seq<int>, xs: seq<int>, p: int)
    requires p > 0
    requires |c| <= |xs| && UnitDifferences(xs, p)
    requires Through(c, xs, Zeros(|xs|), p)
    ensures AllZero(c, p)
    decreases |c|
  {
    if c != [] {
      var r, rest := xs[0], xs[1..];
      var q := Quotient(c, r);
      TailDifferences(xs, p);
      forall i | 0 <= i < |rest|
        ensures Cong(Eval(q, rest[i]), 0, p)
      {
        assert rest[i] == xs[i + 1];
        RootOfQuotient(c, r, rest[i], p);
      }
      TooManyRoots(q, rest, p);
      ZeroQuotient(c, r, p);
    }
  }

  function Minus(c: seq<int>, d: seq<int>): (e: seq<int>)
    requires |c| == |d|
    ensures |e| == |c| && forall i :: 0 <= i < |e| ==> e[i] == c[i] - d[i]
  {
    seq(|c|, i requires 0 <= i < |c| => c[i] - d[i])
  }

  lemma {:induction false} MinusEval(c: seq<int>, d: seq<int>, x: int)
    requires |c| == |d|
    ensures Eval(Minus(c, d), x) == Eval(c, x) - Eval(d, x)
  {
    if c != [] {
      assert Minus(c, d)[1..] == Minus(c[1..], d[1..]);
      MinusEval(c[1..], d[1..], x);
      var a, b := Eval(c[1..], x), Eval(d[1..], x);
      assert x * (a - b) == x * a - x * b;
    }
  }

  /** Uniqueness of interpolation: two reduced coefficient vectors of length at
      most the number of points that agree at all of them are equal. */
  lemma InterpolantUnique(c: seq<int>, d: seq<int>, xs: seq<int>, ys: seq<int>, p: int)
    requires p > 0
    requires |c| == |d| <= |xs| == |ys| && UnitDifferences(xs, p)
    requires Reduced(c, p) && Reduced(d, p)
    requires Through(c, xs, ys, p) && Through(d, xs, ys, p)
    ensures c == d
  {
    var e := Minus(c, d);
    forall i | 0 <= i < |xs|
      ensures Cong(Eval(e, xs[i]), 0, p)
    {
      MinusEval(c, d, xs[i]);
      CongSub(Eval(c, xs[i]), ys[i], Eval(d, xs[i]), ys[i], p);
    }
    TooManyRoots(e, xs, p);
    forall i | 0 <= i < |c|
      ensures c[i] == d[i]
    {
      assert Cong(e[i], 0, p);
      CongAdd(e[i], 0, d[i], d[i], p);
      CongSmall(c[i], d[i], p);
    }
  }

  function Residues(c: seq<int>, p: int): (d: seq<int>)
    requires p > 0
    ensures |d| == |c| && Reduced(d, p)
  {
    seq(|c|, i requires 0 <= i < |c| => c[i] % p)
  }

  lemma {:induction false} ResiduesEval(c: seq<int>, x: int, p: int)
    requires p > 0
    ensures Cong(Eval(Residues(c, p), x), Eval(c, x), p)
  {
    if c != [] {
      var d := Residues(c, p);
      assert d[1..] == Residues(c[1..], p);
      ResiduesEval(c[1..], x, p);
      CongMul(x, x, Eval(d[1..], x), Eval(c[1..], x), p);
      CongRem(c[0], p);
      CongAdd(c[0] % p, c[0], x * Eval(d[1..], x), x * Eval(c[1..], x), p);
    }
  }

  // Existence of interpolation, by Newton's scheme.
  lemma {:induction false} Interpolate(xs: seq<int>, ys: seq<int>, p: int) returns (c: seq<int>)
    requires p > 0
    requires |xs| == |ys| && UnitDifferences(xs, p)
    ensures |c| == |xs| && Reduced(c, p) && Through(c, xs, ys, p)
  {
    if xs == [] {
      c := [];
    } else {
      var r, rest := xs[0], xs[1..];
      TailDifferences(xs, p);
      var slopes := Slopes(xs, ys, p);
      var q := Interpolate(rest, slopes, p);
      var d := Compose(q, r, ys[0]);
      c := Residues(d, p);
      forall i | 0 <= i < |xs|
        ensures Cong(Eval(c, xs[i]), ys[i], p)
      {
        if i == 0 {
          NewtonStep(q, r, ys[0], xs[i], 0, p);
        } else {
          assert xs[i] == rest[i - 1];
          var slope := slopes[i - 1];
          CongMul(xs[i] - r, xs[i] - r, Eval(q, xs[i]), slope, p);
          assert (xs[i] - r) * slope == slope * (xs[i] - r);
          NewtonStep(q, r, ys[0], xs[i], ys[i] - ys[0], p);
        }
      }
    }
  }

  // Extending q to y + (x - r) * q reaches y + rise wherever (x - r) * q(x) is the rise.
  lemma NewtonStep(q: seq<int>, r: int, y: int, x: int, rise: int, p: int)
    requires p > 0
    requires (x == r && rise == 0) || Cong((x - r) * Eval(q, x), rise, p)
    ensures Cong(Eval(Residues(Compose(q, r, y), p), x), y + rise, p)
  {
    var d := Compose(q, r, y);
    ResiduesEval(d, x, p);
    ComposeEval(q, r, y, x);
    var t := (x - r) * Eval(q, x);
    assert x == r ==> t == 0;
    CongAdd(y, y, t, rise, p);
  }

  // The divided differences of the later points against the first one.
  lemma {:induction false} Slopes(xs: seq<int>, ys: seq<int>, p: int) returns (zs: seq<int>)
    requires p > 0
    requires 0 < |xs| == |ys| && UnitDifferences(xs, p)
    ensures |zs| == |xs| - 1
    ensures forall i :: 0 <= i < |zs| ==> Cong(zs[i] * (xs[i + 1] - xs[0]), ys[i + 1] - ys[0], p)
  {
    zs := [];
    while |zs| < |xs| - 1
      invariant |zs| <= |xs| - 1
      invariant forall i :: 0 <= i < |zs| ==> Cong(zs[i] * (xs[i + 1] - xs[0]), ys[i + 1] - ys[0], p)
    {
      var k := |zs| + 1;
      var d, t := xs[k] - xs[0], ys[k] - ys[0];
      assert Unit(d, p);
      var u :| IsInverse(d, u, p);
      CongMul(t, t, d * u, 1, p);
      assert (t * u) * d == t * (d * u);
      zs := zs + [t * u];
    }
  }
}
