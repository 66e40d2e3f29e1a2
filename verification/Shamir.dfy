/**
 Shamir's secret sharing over Z / PRIME: the field loops, the 34-byte share
 format, splitting and reconstruction.
 */
module Shamir {
  import opened Bytes
  import opened Modular
  import opened Polynomial
  import opened Lagrange
  import opened Sequences
  import ModInverse

  // 2^256 - 189
  const PRIME: int := 0xFFFF_FFFF_FFFF_FFFF_FFFF_FFFF_FFFF_FFFF_FFFF_FFFF_FFFF_FFFF_FFFF_FFFF_FFFF_FF43

  const SHARE_LENGTH: nat := 34

  lemma PrimeFitsShare()
    ensures 1 < PRIME && Pow256(32) == PRIME + 189
  {
    assert Pow256(8) == 0x1_0000_0000_0000_0000;
    assert Pow256(16) == 0x1_0000_0000_0000_0000_0000_0000_0000_0000;
    assert Pow256(24) == 0x1_0000_0000_0000_0000_0000_0000_0000_0000_0000_0000_0000_0000;
  }

  // Nothing in 2..255 divides PRIME, so differences of one-byte numbers are units.
  lemma SmallFactorFree()
    ensures NoDivisorUpTo(PRIME, 255)
  {
    FactorFreeTo192();
    assert NoDivisorUpTo(PRIME, 199); assert NoDivisorUpTo(PRIME, 206); assert NoDivisorUpTo(PRIME, 213);
    assert NoDivisorUpTo(PRIME, 220); assert NoDivisorUpTo(PRIME, 227); assert NoDivisorUpTo(PRIME, 234);
    assert NoDivisorUpTo(PRIME, 241); assert NoDivisorUpTo(PRIME, 248); assert NoDivisorUpTo(PRIME, 255);
  }

  lemma FactorFreeTo192()
    ensures NoDivisorUpTo(PRIME, 192)
  {
    FactorFreeTo128();
    assert NoDivisorUpTo(PRIME, 135); assert NoDivisorUpTo(PRIME, 142); assert NoDivisorUpTo(PRIME, 149);
    assert NoDivisorUpTo(PRIME, 156); assert NoDivisorUpTo(PRIME, 163); assert NoDivisorUpTo(PRIME, 170);
    assert NoDivisorUpTo(PRIME, 177); assert NoDivisorUpTo(PRIME, 184); assert NoDivisorUpTo(PRIME, 191);
    assert NoDivisorUpTo(PRIME, 192);
  }

  lemma FactorFreeTo128()
    ensures NoDivisorUpTo(PRIME, 128)
  {
    FactorFreeTo64();
    assert NoDivisorUpTo(PRIME, 71); assert NoDivisorUpTo(PRIME, 78); assert NoDivisorUpTo(PRIME, 85);
    assert NoDivisorUpTo(PRIME, 92); assert NoDivisorUpTo(PRIME, 99); assert NoDivisorUpTo(PRIME, 106);
    assert NoDivisorUpTo(PRIME, 113); assert NoDivisorUpTo(PRIME, 120); assert NoDivisorUpTo(PRIME, 127);
    assert NoDivisorUpTo(PRIME, 128);
  }

  lemma FactorFreeTo64()
    ensures NoDivisorUpTo(PRIME, 64)
  {
    assert NoDivisorUpTo(PRIME, 7); assert NoDivisorUpTo(PRIME, 14); assert NoDivisorUpTo(PRIME, 21);
    assert NoDivisorUpTo(PRIME, 28); assert NoDivisorUpTo(PRIME, 35); assert NoDivisorUpTo(PRIME, 42);
    assert NoDivisorUpTo(PRIME, 49); assert NoDivisorUpTo(PRIME, 56); assert NoDivisorUpTo(PRIME, 63);
    assert NoDivisorUpTo(PRIME, 64);
  }

  lemma ByteDifference(x: int, y: int)
    requires 0 <= x < 256 && 0 <= y < 256 && x != y
    ensures Unit(x - y, PRIME)
  {
    SmallFactorFree();
    if x > y {
      SmallUnits(PRIME, 255, x - y);
    } else {
      SmallUnits(PRIME, 255, y - x);
      UnitNegate(y - x, PRIME);
    }
  }

  ghost predicate OneByte(xs: seq<int>) {
    forall i :: 0 <= i < |xs| ==> 0 <= xs[i] < 256
  }

  lemma DistinctBytesDiffer(xs: seq<int>)
    requires OneByte(xs) && Distinct(xs)
    ensures UnitDifferences(xs, PRIME)
  {
    forall i, j | 0 <= i < |xs| && 0 <= j < |xs| && i != j
      ensures Unit(xs[i] - xs[j], PRIME)
    {
      assert xs[i] != xs[j] by { assert i < j || j < i; }
      ByteDifference(xs[i], xs[j]);
    }
  }

  // The remainder of JavaScript's BigInt: its sign follows the dividend.
  function Rem(a: int, b: int): (r: int)
    requires b > 0
    ensures -b < r < b
    ensures a >= 0 ==> r >= 0
    ensures a <= 0 ==> r <= 0
  {
    if a >= 0 then a % b else -((-a) % b)
  }

  lemma RemCong(a: int, b: int)
    requires b > 0
    ensures Cong(Rem(a, b), a, b)
  {
    if a >= 0 {
      CongRem(a, b);
    } else {
      CongRem(-a, b);
      CongSub(0, 0, (-a) % b, -a, b);
    }
  }

  // Adding b once to a negative remainder gives the residue in [0, b).
  function Repair(r: int, b: int): int {
    if r < 0 then r + b else r
  }

  lemma RepairSound(a: int, b: int)
    requires b > 0
    ensures Repair(Rem(a, b), b) == a % b
  {
    var r := Rem(a, b);
    RemCong(a, b);
    CongRem(a, b);
    CongIntro(r + b, r, 1, b);
    CongSmall(Repair(r, b), a % b, b);
  }

  method EvaluatePolynomial(coefficients: seq<int>, x: int) returns (result: int)
    ensures Cong(result, Eval(coefficients, x), PRIME)
    ensures x >= 0 && Reduced(coefficients, PRIME) ==> result == Eval(coefficients, x) % PRIME
  {
    result := 0;
    var i := |coefficients| - 1;
    assert coefficients[i + 1..] == [];
    while i >= 0
      invariant -1 <= i < |coefficients|
      invariant Cong(result, Eval(coefficients[i + 1..], x), PRIME)
      invariant x >= 0 && Reduced(coefficients, PRIME) ==> 0 <= result < PRIME
      decreases i
    {
      HornerStep(result, Eval(coefficients[i + 1..], x), x, coefficients[i]);
      assert coefficients[i..][1..] == coefficients[i + 1..];
      result := Rem(result * x + coefficients[i], PRIME);
      i := i - 1;
    }
    assert coefficients[0..] == coefficients;
    if x >= 0 && Reduced(coefficients, PRIME) {
      CongRem(Eval(coefficients, x), PRIME);
      CongSmall(result, Eval(coefficients, x) % PRIME, PRIME);
    }
  }

  lemma HornerStep(result: int, e: int, x: int, c: int)
    requires Cong(result, e, PRIME)
    ensures Cong(Rem(result * x + c, PRIME), c + x * e, PRIME)
    ensures x >= 0 && result >= 0 && c >= 0 ==> Rem(result * x + c, PRIME) >= 0
  {
    assert x >= 0 && result >= 0 ==> result * x >= 0;
    CongMul(result, e, x, x, PRIME);
    CongAdd(c, c, result * x, e * x, PRIME);
    RemCong(result * x + c, PRIME);
    assert e * x == x * e;
  }

  type Point = (int, int)

  function Xs(points: seq<Point>): (xs: seq<int>)
    ensures |xs| == |points| && forall i :: 0 <= i < |points| ==> xs[i] == points[i].0
  {
    seq(|points|, i requires 0 <= i < |points| => points[i].0)
  }

  function Ys(points: seq<Point>): (ys: seq<int>)
    ensures |ys| == |points| && forall i :: 0 <= i < |points| ==> ys[i] == points[i].1
  {
    seq(|points|, i requires 0 <= i < |points| => points[i].1)
  }

  ghost predicate Interpolable(points: seq<Point>) {
    OneByte(Xs(points)) && Distinct(Xs(points))
  }

  // c is the reduced polynomial of least length through the points.
  ghost predicate IsInterpolant(c: seq<int>, points: seq<Point>) {
    |c| == |points| && Reduced(c, PRIME) && Through(c, Xs(points), Ys(points), PRIME)
  }

  lemma InterpolantExists(points: seq<Point>)
    requires Interpolable(points)
    ensures exists c :: IsInterpolant(c, points)
  {
    DistinctBytesDiffer(Xs(points));
    var c := Interpolate(Xs(points), Ys(points), PRIME);
    assert IsInterpolant(c, points);
  }

  /** The value at 0 of the one polynomial through the points. */
  ghost function SecretAt(points: seq<Point>): (v: int)
    requires Interpolable(points)
    ensures 0 <= v < PRIME
  {
    InterpolantExists(points);
    var c :| IsInterpolant(c, points);
    Eval(c, 0) % PRIME
  }

  // r is the Lagrange sum of the points at 0, modulo PRIME.
  ghost predicate IsLagrangeSum(r: int, points: seq<Point>) {
    exists ws :: AreWeights(ws, Xs(points), PRIME) && Cong(r, Dot(Ys(points), ws), PRIME)
  }

  /** The Lagrange sum is the constant term of every polynomial that is short
      enough and passes through the points. */
  lemma LagrangeSumIsValue(r: int, points: seq<Point>, c: seq<int>)
    requires Interpolable(points)
    requires |c| <= |points| && Through(c, Xs(points), Ys(points), PRIME)
    requires IsLagrangeSum(r, points)
    ensures Cong(r, Eval(c, 0), PRIME)
  {
    var xs, ys := Xs(points), Ys(points);
    var ws :| AreWeights(ws, xs, PRIME) && Cong(r, Dot(ys, ws), PRIME);
    DistinctBytesDiffer(xs);
    WeightedSum(c, xs, ws, PRIME);
    DotCong(Values(c, xs), ys, ws, PRIME);
  }

  lemma LagrangeSumIsSecret(r: int, points: seq<Point>)
    requires Interpolable(points)
    requires IsLagrangeSum(r, points) && 0 <= r < PRIME
    ensures r == SecretAt(points)
  {
    InterpolantExists(points);
    var c :| IsInterpolant(c, points) && SecretAt(points) == Eval(c, 0) % PRIME;
    LagrangeSumIsValue(r, points, c);
    CongRem(Eval(c, 0), PRIME);
    CongSmall(r, SecretAt(points), PRIME);
  }

  lemma SecretIsLagrangeSum(points: seq<Point>)
    requires Interpolable(points)
    ensures IsLagrangeSum(SecretAt(points), points)
  {
    DistinctBytesDiffer(Xs(points));
    var ws := WeightsExist(Xs(points), PRIME);
    var r := Dot(Ys(points), ws) % PRIME;
    CongRem(Dot(Ys(points), ws), PRIME);
    LagrangeSumIsSecret(r, points);
  }

  /** Any polynomial with at most as many coefficients as points that passes
      through them has the secret as its constant term. */
  lemma SecretOfPolynomial(points: seq<Point>, c: seq<int>)
    requires Interpolable(points)
    requires |c| <= |points| && Through(c, Xs(points), Ys(points), PRIME)
    ensures SecretAt(points) == Eval(c, 0) % PRIME
  {
    SecretIsLagrangeSum(points);
    LagrangeSumIsValue(SecretAt(points), points, c);
    CongRem(Eval(c, 0), PRIME);
    CongSmall(SecretAt(points), Eval(c, 0) % PRIME, PRIME);
  }

  // The order of the points does not matter.
  lemma SecretPermutes(points: seq<Point>, shuffled: seq<Point>)
    requires Interpolable(points) && Interpolable(shuffled)
    requires multiset(points) == multiset(shuffled)
    ensures SecretAt(points) == SecretAt(shuffled)
  {
    InterpolantExists(points);
    var c :| IsInterpolant(c, points);
    SecretOfPolynomial(points, c);
    assert |shuffled| == |points| by {
      assert |multiset(points)| == |points| && |multiset(shuffled)| == |shuffled|;
    }
    forall i | 0 <= i < |shuffled|
      ensures Cong(Eval(c, Xs(shuffled)[i]), Ys(shuffled)[i], PRIME)
    {
      assert shuffled[i] in multiset(shuffled);
      assert shuffled[i] in points;
      var j :| 0 <= j < |points| && points[j] == shuffled[i];
      assert Cong(Eval(c, Xs(points)[j]), Ys(points)[j], PRIME);
    }
    SecretOfPolynomial(shuffled, c);
  }

  // The points before position j, leaving out position i.
  function Passed(xs: seq<int>, i: nat, j: nat): (os: seq<int>)
    requires i < |xs| && j <= |xs|
  {
    if j <= i then xs[..j] else xs[..i] + xs[i + 1..j]
  }

  lemma PassedStep(xs: seq<int>, i: nat, j: nat)
    requires i < |xs| && j < |xs|
    ensures Passed(xs, i, j + 1) == if i == j then Passed(xs, i, j) else Passed(xs, i, j) + [xs[j]]
  {
  }

  lemma ProductStep(product: int, x: int, os: seq<int>, o: int)
    requires Cong(product, Differences(x, os), PRIME)
    ensures Cong(Rem(product * (x - o), PRIME), Differences(x, os + [o]), PRIME)
  {
    DifferencesAppend(x, os, o);
    CongMul(product, Differences(x, os), x - o, x - o, PRIME);
    RemCong(product * (x - o), PRIME);
  }

  /** Interpolation at 0 for any points with distinct one-byte x-coordinates, not
      only the output of a split. */
  method LagrangeInterpolation(shares: seq<Point>) returns (secret: int)
    requires Interpolable(shares)
    ensures secret == SecretAt(shares)
    ensures IsLagrangeSum(secret, shares)
  {
    secret := 0;
    ghost var xs, ys := Xs(shares), Ys(shares);
    ghost var ws: seq<int> := [];
    for i := 0 to |shares|
      invariant |ws| == i && -PRIME < secret < PRIME
      invariant forall k :: 0 <= k < i ==> IsWeight(ws[k], xs, k, PRIME)
      invariant Cong(secret, Dot(ys[..i], ws), PRIME)
    {
      var (xi, yi) := shares[i];
      var numerator, denominator := Products(shares, i);
      var inverse := ModInverse.Invert(denominator, PRIME);
      var lagrangeCoeff := Rem(numerator * inverse, PRIME);
      CoefficientIsWeight(shares, i, numerator, denominator, inverse);
      AccumulateTerm(secret, ys[..i], ws, yi, lagrangeCoeff);
      assert ys[..i + 1] == ys[..i] + [yi];
      secret := Rem(secret + yi * lagrangeCoeff, PRIME);
      ws := ws + [lagrangeCoeff];
    }
    assert ys[..|shares|] == ys;
    CongIntro(secret + PRIME, secret, 1, PRIME);
    secret := if secret < 0 then secret + PRIME else secret;
    assert AreWeights(ws, xs, PRIME);
    LagrangeSumIsSecret(secret, shares);
  }

  // The inner loop with its sign repair: numerator and denominator as residues.
  method Products(shares: seq<Point>, i: nat) returns (numerator: int, denominator: int)
    requires i < |shares|
    ensures numerator == Numerator(Xs(shares), i) % PRIME
    ensures denominator == Denominator(Xs(shares), i) % PRIME
  {
    ghost var xs := Xs(shares);
    var xi := shares[i].0;
    numerator, denominator := 1, 1;
    for j := 0 to |shares|
      invariant -PRIME < numerator < PRIME && -PRIME < denominator < PRIME
      invariant Cong(numerator, Differences(0, Passed(xs, i, j)), PRIME)
      invariant Cong(denominator, Differences(xi, Passed(xs, i, j)), PRIME)
    {
      if i != j {
        var xj := shares[j].0;
        PassedStep(xs, i, j);
        ProductStep(numerator, 0, Passed(xs, i, j), xj);
        ProductStep(denominator, xi, Passed(xs, i, j), xj);
        numerator := Rem(numerator * (0 - xj), PRIME);
        denominator := Rem(denominator * (xi - xj), PRIME);
      } else {
        PassedStep(xs, i, j);
      }
    }
    assert Passed(xs, i, |shares|) == Others(xs, i);
    Positive(numerator, Numerator(xs, i));
    Positive(denominator, Denominator(xs, i));
    numerator := Repair(numerator, PRIME);
    denominator := Repair(denominator, PRIME);
  }

  lemma Positive(r: int, a: int)
    requires -PRIME < r < PRIME && Cong(r, a, PRIME)
    ensures Repair(r, PRIME) == a % PRIME
  {
    CongIntro(r + PRIME, r, 1, PRIME);
    CongRem(a, PRIME);
    CongSmall(Repair(r, PRIME), a % PRIME, PRIME);
  }

  lemma CoefficientIsWeight(points: seq<Point>, i: nat, n: int, d: int, inverse: int)
    requires i < |points| && Interpolable(points)
    requires n == Numerator(Xs(points), i) % PRIME && d == Denominator(Xs(points), i) % PRIME
    requires Coprime(d, PRIME) ==> (d * inverse) % PRIME == 1
    ensures IsWeight(Rem(n * inverse, PRIME), Xs(points), i, PRIME)
  {
    var xs := Xs(points);
    DistinctBytesDiffer(xs);
    DenominatorUnit(xs, i, PRIME);
    CongRem(Denominator(xs, i), PRIME);
    CongRem(Numerator(xs, i), PRIME);
    UnitCong(Denominator(xs, i), d, PRIME);
    UnitImpliesCoprime(d, PRIME);
    QuotientCong(n, d, inverse, Numerator(xs, i), Denominator(xs, i));
  }

  lemma QuotientCong(n: int, d: int, inverse: int, num: int, den: int)
    requires Cong(n, num, PRIME) && Cong(d, den, PRIME)
    requires (d * inverse) % PRIME == 1
    ensures Cong(Rem(n * inverse, PRIME) * den, num, PRIME)
  {
    var w := Rem(n * inverse, PRIME);
    RemCong(n * inverse, PRIME);
    CongMul(w, n * inverse, den, d, PRIME);
    assert n * inverse * d == n * (d * inverse);
    assert Cong(d * inverse, 1, PRIME) by { assert 1 % PRIME == 1; }
    CongMul(n, n, d * inverse, 1, PRIME);
  }

  lemma AccumulateTerm(secret: int, ys: seq<int>, ws: seq<int>, y: int, w: int)
    requires |ys| == |ws|
    requires Cong(secret, Dot(ys, ws), PRIME)
    ensures Cong(Rem(secret + y * w, PRIME), Dot(ys + [y], ws + [w]), PRIME)
  {
    DotAppend(ys, ws, y, w);
    CongAdd(secret, Dot(ys, ws), y * w, y * w, PRIME);
    RemCong(secret + y * w, PRIME);
  }

  lemma {:induction false} DotAppend(ys: seq<int>, ws: seq<int>, y: int, w: int)
    requires |ys| == |ws|
    ensures Dot(ys + [y], ws + [w]) == Dot(ys, ws) + y * w
  {
    if ys == [] {
      assert (ys + [y])[1..] == [] && (ws + [w])[1..] == [];
    } else {
      assert (ys + [y])[1..] == ys[1..] + [y] && (ws + [w])[1..] == ws[1..] + [w];
      DotAppend(ys[1..], ws[1..], y, w);
    }
  }
}
