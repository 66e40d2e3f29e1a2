/**
 Lagrange interpolation at 0. The weight of a point is characterised, rather than
 computed, by weight * denominator == numerator modulo p.
 */
module Lagrange {
  import opened Modular
  import opened Polynomial

  function Others(xs: seq<int>, i: nat): (os: seq<int>)
    requires i < |xs|
    ensures |os| == |xs| - 1
  {
    xs[..i] + xs[i + 1..]
  }

  // The product of (x - o) over all o in os.
  function Differences(x: int, os: seq<int>): int {
    if os == [] then 1 else (x - os[0]) * Differences(x, os[1..])
  }

  function Numerator(xs: seq<int>, i: nat): int
    requires i < |xs|
  {
    Differences(0, Others(xs, i))
  }

  function Denominator(xs: seq<int>, i: nat): int
    requires i < |xs|
  {
    Differences(xs[i], Others(xs, i))
  }

  ghost predicate IsWeight(w: int, xs: seq<int>, i: nat, p: int)
    requires p > 0 && i < |xs|
  {
    Cong(w * Denominator(xs, i), Numerator(xs, i), p)
  }

  ghost predicate AreWeights(ws: seq<int>, xs: seq<int>, p: int)
    requires p > 0
  {
    |ws| == |xs| && forall i :: 0 <= i < |xs| ==> IsWeight(ws[i], xs, i, p)
  }

  function Dot(ys: seq<int>, ws: seq<int>): int
    requires |ys| == |ws|
  {
    if ys == [] then 0 else ys[0] * ws[0] + Dot(ys[1..], ws[1..])
  }

  lemma {:induction false} DifferencesAppend(x: int, os: seq<int>, o: int)
    ensures Differences(x, os + [o]) == Differences(x, os) * (x - o)
  {
    if os == [] {
      assert (os + [o])[1..] == [];
    } else {
      assert (os + [o])[1..] == os[1..] + [o];
      DifferencesAppend(x, os[1..], o);
      var d := Differences(x, os[1..]);
      assert (x - os[0]) * (d * (x - o)) == ((x - os[0]) * d) * (x - o);
    }
  }

  lemma {:induction false} DifferencesUnit(x: int, os: seq<int>, p: int)
    requires p > 0
    requires forall j :: 0 <= j < |os| ==> Unit(x - os[j], p)
    ensures Unit(Differences(x, os), p)
  {
    if os == [] {
      UnitOne(p);
    } else {
      assert Unit(x - os[0], p);
      forall j | 0 <= j < |os| - 1
        ensures Unit(x - os[1..][j], p)
      {
        assert os[1..][j] == os[j + 1];
      }
      DifferencesUnit(x, os[1..], p);
      UnitMul(x - os[0], Differences(x, os[1..]), p);
    }
  }

  lemma DenominatorUnit(xs: seq<int>, i: nat, p: int)
    requires p > 0 && i < |xs|
    requires UnitDifferences(xs, p)
    ensures Unit(Denominator(xs, i), p)
  {
    var os := Others(xs, i);
    forall j | 0 <= j < |os|
      ensures Unit(xs[i] - os[j], p)
    {
      assert os[j] == if j < i then xs[j] else xs[j + 1];
    }
    DifferencesUnit(xs[i], os, p);
  }

  lemma WeightsExist(xs: seq<int>, p: int) returns (ws: seq<int>)
    requires p > 0
    requires UnitDifferences(xs, p)
    ensures AreWeights(ws, xs, p)
  {
    ws := [];
    while |ws| < |xs|
      invariant |ws| <= |xs|
      invariant forall i :: 0 <= i < |ws| ==> IsWeight(ws[i], xs, i, p)
    {
      var w := WeightExists(xs, |ws|, p);
      ws := ws + [w];
    }
  }

  lemma WeightExists(xs: seq<int>, i: nat, p: int) returns (w: int)
    requires p > 0
    requires i < |xs| && UnitDifferences(xs, p)
    ensures IsWeight(w, xs, i, p)
  {
    DenominatorUnit(xs, i, p);
    var d, n := Denominator(xs, i), Numerator(xs, i);
    var u :| IsInverse(d, u, p);
    CongMul(n, n, d * u, 1, p);
    assert n * (d * u) == (n * u) * d;
    w := n * u;
  }

  // The weights of xs without its first point, in terms of those of xs.
  lemma DropFirstWeight(w: int, v: int, xs: seq<int>, i: nat, p: int)
    requires p > 0
    requires 0 < i < |xs| && UnitDifferences(xs, p)
    requires IsWeight(w, xs, i, p) && IsWeight(v, xs[1..], i - 1, p)
    ensures Cong(w * (xs[i] - xs[0]), -xs[0] * v, p)
  {
    var tail := xs[1..];
    TailDifferences(xs, p);
    DenominatorUnit(tail, i - 1, p);
    var os := Others(xs, i);
    assert os[0] == xs[0] && os[1..] == Others(tail, i - 1);
    assert tail[i - 1] == xs[i];
    ShiftWeight(w, v, xs[i] - xs[0], -xs[0], Denominator(tail, i - 1), Numerator(tail, i - 1), p);
  }

  // The weights of xs without its last point, in terms of those of xs.
  lemma DropLastWeight(w: int, v: int, xs: seq<int>, i: nat, p: int)
    requires p > 0
    requires i < |xs| - 1 && UnitDifferences(xs, p)
    requires IsWeight(w, xs, i, p) && IsWeight(v, xs[..|xs| - 1], i, p)
    ensures Cong(w * (xs[i] - xs[|xs| - 1]), -xs[|xs| - 1] * v, p)
  {
    var last, front := xs[|xs| - 1], xs[..|xs| - 1];
    FrontDifferences(xs, p);
    DenominatorUnit(front, i, p);
    var os := Others(front, i);
    assert Others(xs, i) == os + [last];
    assert front[i] == xs[i];
    DifferencesAppend(0, os, last);
    DifferencesAppend(xs[i], os, last);
    assert 0 - last == -last;
    FlipWeight(w, v, xs[i] - last, -last, Denominator(front, i), Numerator(front, i), p);
  }

  lemma FlipWeight(w: int, v: int, a: int, b: int, d: int, n: int, p: int)
    requires p > 0
    requires Unit(d, p)
    requires Cong(w * (d * a), n * b, p) && Cong(v * d, n, p)
    ensures Cong(w * a, b * v, p)
  {
    assert d * a == a * d && n * b == b * n;
    ShiftWeight(w, v, a, b, d, n, p);
  }

  lemma FrontDifferences(xs: seq<int>, p: int)
    requires p > 0
    requires |xs| > 0 && UnitDifferences(xs, p)
    ensures UnitDifferences(xs[..|xs| - 1], p)
  {
  }

  lemma ShiftWeight(w: int, v: int, a: int, b: int, d: int, n: int, p: int)
    requires p > 0
    requires Unit(d, p)
    requires Cong(w * (a * d), b * n, p) && Cong(v * d, n, p)
    ensures Cong(w * a, b * v, p)
  {
    CongMul(b, b, v * d, n, p);
    assert w * (a * d) == (w * a) * d;
    assert b * (v * d) == (b * v) * d;
    Cancel(w * a, b * v, d, p);
  }

  // One product is congruent to k times another.
  ghost predicate ScaledTerm(y: int, w: int, z: int, v: int, k: int, p: int)
    requires p > 0
  {
    Cong(y * w, k * (z * v), p)
  }

  ghost predicate ScaledTerms(ys: seq<int>, ws: seq<int>, zs: seq<int>, vs: seq<int>, k: int, p: int)
    requires p > 0
    requires |ys| == |ws| == |zs| == |vs|
  {
    forall i :: 0 <= i < |ys| ==> ScaledTerm(ys[i], ws[i], zs[i], vs[i], k, p)
  }

  lemma ScaledAdd(t: int, u: int, rest: int, rest': int, k: int, p: int)
    requires p > 0
    requires Cong(t, k * u, p) && Cong(rest, k * rest', p)
    ensures Cong(t + rest, k * (u + rest'), p)
  {
    CongAdd(t, k * u, rest, k * rest', p);
    assert k * u + k * rest' == k * (u + rest');
  }

  // Termwise congruences carry over to sums of products.
  lemma {:induction false} DotScale(ys: seq<int>, ws: seq<int>, zs: seq<int>, vs: seq<int>, k: int, p: int)
    requires p > 0
    requires |ys| == |ws| == |zs| == |vs|
    requires ScaledTerms(ys, ws, zs, vs, k, p)
    ensures Cong(Dot(ys, ws), k * Dot(zs, vs), p)
  {
    if ys == [] {
      assert k * 0 == 0;
    } else {
      assert ScaledTerm(ys[0], ws[0], zs[0], vs[0], k, p);
      DotScale(ys[1..], ws[1..], zs[1..], vs[1..], k, p);
      ScaledAdd(ys[0] * ws[0], zs[0] * vs[0], Dot(ys[1..], ws[1..]), Dot(zs[1..], vs[1..]), k, p);
    }
  }

  lemma {:induction false} DotSplit(ys: seq<int>, as_: seq<int>, bs: seq<int>, ws: seq<int>)
    requires |ys| == |as_| == |bs| == |ws|
    requires forall i :: 0 <= i < |ys| ==> ys[i] == as_[i] + bs[i]
    ensures Dot(ys, ws) == Dot(as_, ws) + Dot(bs, ws)
  {
    if ys != [] {
      DotSplit(ys[1..], as_[1..], bs[1..], ws[1..]);
      assert ys[0] * ws[0] == as_[0] * ws[0] + bs[0] * ws[0];
    }
  }

  lemma DotSkipZero(ys: seq<int>, ws: seq<int>)
    requires |ys| == |ws| > 0
    requires ys[0] == 0
    ensures Dot(ys, ws) == Dot(ys[1..], ws[1..])
  {
    assert ys[0] * ws[0] == 0;
  }

  lemma {:induction false} DotDropZero(ys: seq<int>, ws: seq<int>)
    requires |ys| == |ws| > 0
    requires ys[|ys| - 1] == 0
    ensures Dot(ys, ws) == Dot(ys[..|ys| - 1], ws[..|ys| - 1])
  {
    var n := |ys| - 1;
    if n == 0 {
      assert ys[0] * ws[0] == 0;
      assert ys[1..] == [] && ys[..0] == [];
    } else {
      DotDropZero(ys[1..], ws[1..]);
      assert ys[1..][..n - 1] == ys[..n][1..] && ws[1..][..n - 1] == ws[..n][1..];
    }
  }

  lemma ScaleAfterZero(ys: seq<int>, ws: seq<int>, zs: seq<int>, vs: seq<int>, k: int, p: int)
    requires p > 0
    requires |ys| == |ws| == |zs| + 1 && |zs| == |vs|
    requires ys[0] == 0 && ScaledTerms(ys[1..], ws[1..], zs, vs, k, p)
    ensures Cong(Dot(ys, ws), k * Dot(zs, vs), p)
  {
    DotSkipZero(ys, ws);
    DotScale(ys[1..], ws[1..], zs, vs, k, p);
  }

  lemma ScaleBeforeZero(ys: seq<int>, ws: seq<int>, zs: seq<int>, vs: seq<int>, k: int, p: int)
    requires p > 0
    requires |ys| == |ws| == |zs| + 1 && |zs| == |vs|
    requires ys[|zs|] == 0 && ScaledTerms(ys[..|zs|], ws[..|zs|], zs, vs, k, p)
    ensures Cong(Dot(ys, ws), k * Dot(zs, vs), p)
  {
    DotDropZero(ys, ws);
    DotScale(ys[..|zs|], ws[..|zs|], zs, vs, k, p);
  }

  function Constant(n: nat, k: int): (s: seq<int>)
    ensures |s| == n && forall i :: 0 <= i < n ==> s[i] == k
  {
    seq(n, _ => k)
  }

  function Shifted(xs: seq<int>, r: int): (s: seq<int>)
    ensures |s| == |xs| && forall i :: 0 <= i < |xs| ==> s[i] == xs[i] - r
  {
    seq(|xs|, i requires 0 <= i < |xs| => xs[i] - r)
  }

  lemma RiseTerm(d: int, w: int, k: int, z: int, v: int, p: int)
    requires p > 0
    requires Cong(w * d, k * v, p)
    ensures ScaledTerm(d * z, w, z, v, k, p)
  {
    CongMul(z, z, w * d, k * v, p);
    assert z * (w * d) == (d * z) * w && z * (k * v) == k * (z * v);
  }

  lemma UnitTerm(d: int, w: int, v: int, k: int, p: int)
    requires p > 0
    requires Cong(w * d, k * v, p)
    ensures ScaledTerm(d, w, 1, v, k, p)
  {
    assert d * w == w * d && 1 * v == v;
  }

  lemma FirstTerms(ws: seq<int>, vs: seq<int>, xs: seq<int>, p: int)
    requires p > 0
    requires |xs| > 0 && UnitDifferences(xs, p)
    requires AreWeights(ws, xs, p) && AreWeights(vs, xs[1..], p)
    ensures ScaledTerms(Shifted(xs, xs[0])[1..], ws[1..], Constant(|vs|, 1), vs, -xs[0], p)
  {
    forall i | 0 <= i < |vs|
      ensures ScaledTerm(Shifted(xs, xs[0])[1..][i], ws[1..][i], Constant(|vs|, 1)[i], vs[i], -xs[0], p)
    {
      DropFirstWeight(ws[i + 1], vs[i], xs, i + 1, p);
      UnitTerm(xs[i + 1] - xs[0], ws[i + 1], vs[i], -xs[0], p);
    }
  }

  // The weighted distances to the first point, summed.
  lemma SumFromFirst(ws: seq<int>, vs: seq<int>, xs: seq<int>, p: int)
    requires p > 0
    requires |xs| > 0 && UnitDifferences(xs, p)
    requires AreWeights(ws, xs, p) && AreWeights(vs, xs[1..], p)
    ensures Cong(Dot(Shifted(xs, xs[0]), ws), -xs[0] * Dot(Constant(|vs|, 1), vs), p)
  {
    FirstTerms(ws, vs, xs, p);
    ScaleAfterZero(Shifted(xs, xs[0]), ws, Constant(|vs|, 1), vs, -xs[0], p);
  }

  lemma LastTerms(ws: seq<int>, vs: seq<int>, xs: seq<int>, last: int, p: int)
    requires p > 0
    requires |xs| > 0 && UnitDifferences(xs, p) && last == xs[|xs| - 1]
    requires AreWeights(ws, xs, p) && AreWeights(vs, xs[..|xs| - 1], p)
    ensures ScaledTerms(Shifted(xs, last)[..|vs|], ws[..|vs|], Constant(|vs|, 1), vs, -last, p)
  {
    forall i | 0 <= i < |vs|
      ensures ScaledTerm(Shifted(xs, last)[..|vs|][i], ws[..|vs|][i], Constant(|vs|, 1)[i], vs[i], -last, p)
    {
      DropLastWeight(ws[i], vs[i], xs, i, p);
      UnitTerm(xs[i] - last, ws[i], vs[i], -last, p);
    }
  }

  // The weighted distances to the last point, summed.
  lemma SumFromLast(ws: seq<int>, vs: seq<int>, xs: seq<int>, last: int, p: int)
    requires p > 0
    requires |xs| > 0 && UnitDifferences(xs, p) && last == xs[|xs| - 1]
    requires AreWeights(ws, xs, p) && AreWeights(vs, xs[..|xs| - 1], p)
    ensures Cong(Dot(Shifted(xs, last), ws), -last * Dot(Constant(|vs|, 1), vs), p)
  {
    LastTerms(ws, vs, xs, last, p);
    ScaleBeforeZero(Shifted(xs, last), ws, Constant(|vs|, 1), vs, -last, p);
  }

  // The weights of a nonempty set of points sum to 1.
  lemma {:induction false} WeightsSumToOne(ws: seq<int>, xs: seq<int>, p: int)
    requires p > 0
    requires |xs| > 0 && UnitDifferences(xs, p)
    requires AreWeights(ws, xs, p)
    ensures Cong(Dot(Constant(|ws|, 1), ws), 1, p)
    decreases |xs|
  {
    var n, first, last := |xs| - 1, xs[0], xs[|xs| - 1];
    var total := Dot(Constant(|ws|, 1), ws);
    if n == 0 {
      assert IsWeight(ws[0], xs, 0, p);
      assert Others(xs, 0) == [];
      assert Constant(|ws|, 1)[1..] == [] && ws[1..] == [];
      assert total == 1 * ws[0] + Dot([], []);
      assert Differences(xs[0], []) == 1 && Differences(0, []) == 1;
      assert ws[0] * 1 == ws[0];
    } else {
      TailDifferences(xs, p);
      FrontDifferences(xs, p);
      var us := WeightsExist(xs[1..], p);
      var vs := WeightsExist(xs[..n], p);
      WeightsSumToOne(us, xs[1..], p);
      WeightsSumToOne(vs, xs[..n], p);
      SumFromFirst(ws, us, xs, p);
      SumFromLast(ws, vs, xs, last, p);
      var fromFirst, fromLast := Dot(Shifted(xs, first), ws), Dot(Shifted(xs, last), ws);
      assert fromFirst == fromLast + (last - first) * total by {
        DotSplit(Shifted(xs, first), Shifted(xs, last), Constant(|xs|, last - first), ws);
        DotConstant(ws, last - first);
      }
      assert Unit(xs[n] - xs[0], p);
      Balance(first, last, total, fromFirst, fromLast, Dot(Constant(n, 1), us), Dot(Constant(n, 1), vs), p);
    }
  }

  lemma Balance(first: int, last: int, total: int, fromFirst: int, fromLast: int, a: int, b: int, p: int)
    requires p > 0
    requires Unit(last - first, p)
    requires fromFirst == fromLast + (last - first) * total
    requires Cong(fromFirst, -first * a, p) && Cong(a, 1, p)
    requires Cong(fromLast, -last * b, p) && Cong(b, 1, p)
    ensures Cong(total, 1, p)
  {
    var d := last - first;
    CongMul(-first, -first, a, 1, p);
    CongMul(-last, -last, b, 1, p);
    CongSub(fromFirst, -first, fromLast, -last, p);
    assert total * d == d * total && 1 * d == d;
    Cancel(total, 1, d, p);
  }

  lemma {:induction false} DotConstant(ws: seq<int>, k: int)
    ensures Dot(Constant(|ws|, k), ws) == k * Dot(Constant(|ws|, 1), ws)
  {
    if ws == [] {
      assert k * 0 == 0;
    } else {
      DotConstant(ws[1..], k);
      assert Constant(|ws|, k)[1..] == Constant(|ws| - 1, k);
      assert Constant(|ws|, 1)[1..] == Constant(|ws| - 1, 1);
      var r := Dot(Constant(|ws| - 1, 1), ws[1..]);
      assert k * ws[0] + k * r == k * (1 * ws[0] + r);
    }
  }

  function Values(c: seq<int>, xs: seq<int>): (ys: seq<int>)
    ensures |ys| == |xs| && forall i :: 0 <= i < |xs| ==> ys[i] == Eval(c, xs[i])
  {
    seq(|xs|, i requires 0 <= i < |xs| => Eval(c, xs[i]))
  }

  /** Lagrange's theorem at 0: weighting the values of a polynomial that has no
      more coefficients than there are points recovers its value at 0. */
  lemma {:induction false} WeightedSum(c: seq<int>, xs: seq<int>, ws: seq<int>, p: int)
    requires p > 0
    requires |c| <= |xs| && UnitDifferences(xs, p)
    requires AreWeights(ws, xs, p)
    ensures Cong(Dot(Values(c, xs), ws), Eval(c, 0), p)
    decreases |xs|
  {
    if xs == [] {
    } else {
      var r, rest, q := xs[0], xs[1..], Quotient(c, xs[0]);
      TailDifferences(xs, p);
      var vs := WeightsExist(rest, p);
      assert |q| <= |rest|;
      WeightedSum(q, rest, vs, p);
      WeightsSumToOne(ws, xs, p);
      var base := Eval(c, r);
      var rises := Rises(c, xs);
      BaseApart(c, xs, ws);
      RiseSum(c, xs, ws, vs, p);
      BaseAndRise(base, Dot(Constant(|ws|, 1), ws), Dot(rises, ws), r, Dot(Values(q, rest), vs), Eval(q, 0), p);
      QuotientDivides(c, r, 0);
    }
  }

  lemma BaseAndRise(base: int, ones: int, rise: int, r: int, dot: int, e: int, p: int)
    requires p > 0
    requires Cong(ones, 1, p) && Cong(dot, e, p) && Cong(rise, -r * dot, p)
    ensures Cong(base * ones + rise, base + (0 - r) * e, p)
  {
    CongMul(base, base, ones, 1, p);
    CongMul(-r, -r, dot, e, p);
    CongAdd(base * ones, base, rise, -r * e, p);
  }

  // The value at the first point apart from the rises over it.
  lemma BaseApart(c: seq<int>, xs: seq<int>, ws: seq<int>)
    requires |xs| == |ws| > 0
    ensures Dot(Values(c, xs), ws) == Eval(c, xs[0]) * Dot(Constant(|ws|, 1), ws) + Dot(Rises(c, xs), ws)
  {
    DotSplit(Values(c, xs), Constant(|xs|, Eval(c, xs[0])), Rises(c, xs), ws);
    DotConstant(ws, Eval(c, xs[0]));
  }

  // How far c rises from its value at the first point.
  function Rises(c: seq<int>, xs: seq<int>): (s: seq<int>)
    requires |xs| > 0
    ensures |s| == |xs| && forall i :: 0 <= i < |xs| ==> s[i] == Eval(c, xs[i]) - Eval(c, xs[0])
  {
    seq(|xs|, i requires 0 <= i < |xs| => Eval(c, xs[i]) - Eval(c, xs[0]))
  }

  lemma RiseTerms(c: seq<int>, xs: seq<int>, ws: seq<int>, vs: seq<int>, p: int)
    requires p > 0
    requires |xs| > 0 && UnitDifferences(xs, p)
    requires AreWeights(ws, xs, p) && AreWeights(vs, xs[1..], p)
    ensures ScaledTerms(Rises(c, xs)[1..], ws[1..], Values(Quotient(c, xs[0]), xs[1..]), vs, -xs[0], p)
  {
    var zs := Values(Quotient(c, xs[0]), xs[1..]);
    forall i | 0 <= i < |vs|
      ensures ScaledTerm(Rises(c, xs)[1..][i], ws[1..][i], zs[i], vs[i], -xs[0], p)
    {
      DropFirstWeight(ws[i + 1], vs[i], xs, i + 1, p);
      QuotientDivides(c, xs[0], xs[i + 1]);
      RiseTerm(xs[i + 1] - xs[0], ws[i + 1], -xs[0], zs[i], vs[i], p);
    }
  }

  lemma RiseSum(c: seq<int>, xs: seq<int>, ws: seq<int>, vs: seq<int>, p: int)
    requires p > 0
    requires |xs| > 0 && UnitDifferences(xs, p)
    requires AreWeights(ws, xs, p) && AreWeights(vs, xs[1..], p)
    ensures Cong(Dot(Rises(c, xs), ws), -xs[0] * Dot(Values(Quotient(c, xs[0]), xs[1..]), vs), p)
  {
    RiseTerms(c, xs, ws, vs, p);
    ScaleAfterZero(Rises(c, xs), ws, Values(Quotient(c, xs[0]), xs[1..]), vs, -xs[0], p);
  }

  lemma {:induction false} DotCong(ys: seq<int>, zs: seq<int>, ws: seq<int>, p: int)
    requires p > 0
    requires |ys| == |zs| == |ws|
    requires forall i :: 0 <= i < |ys| ==> Cong(ys[i], zs[i], p)
    ensures Cong(Dot(ys, ws), Dot(zs, ws), p)
  {
    forall i | 0 <= i < |ys|
      ensures ScaledTerm(ys[i], ws[i], zs[i], ws[i], 1, p)
    {
      CongMul(ys[i], zs[i], ws[i], ws[i], p);
    }
    DotScale(ys, ws, zs, ws, 1, p);
  }
}
