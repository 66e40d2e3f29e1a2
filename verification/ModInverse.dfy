/** The modular inverse of the share arithmetic: the extended Euclidean loop. */
module ModInverse {
  import opened Modular

  function Abs(x: int): nat {
    if x < 0 then -x else x
  }

  // A row of the loop: r is the combination a * s + m * t.
  ghost predicate Bezout(a: int, m: int, r: int, s: int, t: int) {
    r == a * s + m * t
  }

  lemma BezoutStep(a: int, m: int, r0: int, s0: int, t0: int, r1: int, s1: int, t1: int, q: int)
    requires Bezout(a, m, r0, s0, t0) && Bezout(a, m, r1, s1, t1)
    ensures Bezout(a, m, r0 - q * r1, s0 - q * s1, t0 - q * t1)
  {
    calc {
      r0 - q * r1;
      a * s0 + m * t0 - q * (a * s1 + m * t1);
      { assert q * (a * s1 + m * t1) == a * (q * s1) + m * (q * t1); }
      a * s0 - a * (q * s1) + m * t0 - m * (q * t1);
      { assert a * s0 - a * (q * s1) == a * (s0 - q * s1); assert m * t0 - m * (q * t1) == m * (t0 - q * t1); }
      a * (s0 - q * s1) + m * (t0 - q * t1);
    }
  }

  // n is a combination of the two current remainders.
  ghost predicate Combination(n: int, u: int, r0: int, v: int, r1: int) {
    n == u * r0 + v * r1
  }

  lemma CombinationStep(n: int, u: int, r0: int, v: int, r1: int, q: int)
    requires Combination(n, u, r0, v, r1)
    ensures Combination(n, u * q + v, r1, u, r0 - q * r1)
  {
    calc {
      (u * q + v) * r1 + u * (r0 - q * r1);
      (u * q) * r1 + v * r1 + u * r0 - u * (q * r1);
      { assert (u * q) * r1 == u * (q * r1); }
      u * r0 + v * r1;
    }
  }

  // The coefficients alternate in sign and grow in step with the remainders.
  ghost predicate Balanced(m: int, r0: int, s0: int, r1: int, s1: int) {
    && Abs(s0) * r1 + Abs(s1) * r0 == m
    && ((s0 >= 0 && s1 <= 0) || (s0 <= 0 && s1 >= 0))
  }

  lemma BalancedStep(m: int, r0: int, s0: int, r1: int, s1: int, q: nat)
    requires Balanced(m, r0, s0, r1, s1)
    ensures Balanced(m, r1, s1, r0 - q * r1, s0 - q * s1)
  {
    var x, y := Abs(s0), Abs(s1);
    assert y == s1 || y == -s1;
    assert q * y == q * s1 || q * y == -(q * s1);
    assert q * y >= 0;
    CrossSum(x, y, r0, r1, q);
  }

  lemma CrossSum(x: int, y: int, r0: int, r1: int, q: int)
    ensures y * (r0 - q * r1) + (x + q * y) * r1 == x * r1 + y * r0
  {
    assert y * (r0 - q * r1) == y * r0 - y * (q * r1);
    assert (x + q * y) * r1 == x * r1 + (q * y) * r1;
    assert y * (q * r1) == (q * y) * r1;
  }

  // While a remainder is left, the next coefficient is still below m.
  lemma CoefficientBound(m: int, r0: int, s0: int, r1: int, s1: int)
    requires m > 1 && r1 > 0
    requires Balanced(m, r0, s0, r1, s1)
    requires r0 > r1 || s1 == 0
    ensures Abs(s1) < m
  {
    if s1 != 0 {
      var x, y := Abs(s0), Abs(s1);
      assert x * r1 >= 0;
      assert y * r0 >= y * 2 by { assert y * (r0 - 2) >= 0; }
    }
  }

  // The two rows of the loop, with the witnesses that only the proof needs.
  datatype Rows = Rows(r0: int, s0: int, t0: int, r1: int, s1: int, t1: int, u: int, v: int, w: int, z: int) {
    ghost predicate Invariant(a: int, m: int) {
      && 0 <= r1 && 0 <= r0 && (r1 == 0 ==> r0 > 0)
      && (r1 > 0 ==> r0 > r1 || s1 == 0)
      && Bezout(a, m, r0, s0, t0) && Bezout(a, m, r1, s1, t1)
      && Combination(a, u, r0, v, r1) && Combination(m, w, r0, z, r1)
      && Balanced(m, r0, s0, r1, s1)
      && Abs(s0) < m
    }

    function Next(q: int): Rows {
      Rows(r1, s1, t1, r0 - q * r1, s0 - q * s1, t0 - q * t1, u * q + v, u, w * q + z, w)
    }

    lemma Step(a: int, m: int)
      requires m > 1 && r1 > 0 && Invariant(a, m)
      ensures Next(r0 / r1).Invariant(a, m)
      ensures 0 <= Next(r0 / r1).r1 < r1
    {
      var q := r0 / r1;
      CoefficientBound(m, r0, s0, r1, s1);
      BezoutStep(a, m, r0, s0, t0, r1, s1, t1, q);
      CombinationStep(a, u, r0, v, r1, q);
      CombinationStep(m, w, r0, z, r1, q);
      BalancedStep(m, r0, s0, r1, s1, q);
      RemainderRange(r0, r1);
    }

    // When no remainder is left, the other row holds the greatest common divisor.
    lemma Exit(a: int, m: int, inverse: int)
      requires m > 1 && r1 == 0 && Invariant(a, m)
      requires inverse == if s0 < 0 then s0 + m else s0
      ensures 0 <= inverse < m
      ensures Coprime(a, m) <==> (a * inverse) % m == 1
      ensures Coprime(a, m) ==> inverse >= 1
    {
      CombinationExit(a, u, r0, v);
      CombinationExit(m, w, r0, z);
      ProductIsGcd(a, m, r0, s0, t0, inverse);
      if Coprime(a, m) {
        CoprimeMeansInverse(a, m, r0, u, w, inverse);
      } else if (a * inverse) % m == 1 {
        InverseMeansCoprime(a, m, inverse);
      }
    }
  }

  /** Extended Euclid. The result is the inverse of a exactly when a and m are
      coprime, and one addition of m always brings it into range. */
  method Invert(a: int, m: int) returns (inverse: int)
    requires 0 <= a < m && m > 1
    ensures 0 <= inverse < m
    ensures Coprime(a, m) <==> (a * inverse) % m == 1
    ensures Coprime(a, m) ==> inverse >= 1
  {
    var old_r, r := a, m;
    var old_s, s := 1, 0;
    ghost var rows := Rows(a, 1, 0, m, 0, 1, 1, 0, 0, 1);
    while r != 0
      invariant rows.Invariant(a, m)
      invariant rows.r0 == old_r && rows.r1 == r && rows.s0 == old_s && rows.s1 == s
      decreases r
    {
      var quotient := old_r / r;
      rows.Step(a, m);
      rows := rows.Next(quotient);
      old_r, r := r, old_r - quotient * r;
      old_s, s := s, old_s - quotient * s;
    }
    inverse := if old_s < 0 then old_s + m else old_s;
    rows.Exit(a, m, inverse);
  }

  lemma RemainderRange(r0: int, r1: int)
    requires 0 <= r0 && 0 < r1
    ensures 0 <= r0 - r0 / r1 * r1 < r1
  {
    assert r0 == r0 / r1 * r1 + r0 % r1;
  }

  lemma CombinationExit(n: int, u: int, r: int, v: int)
    requires Combination(n, u, r, v, 0)
    ensures n == u * r
  {
    assert v * 0 == 0;
  }

  lemma ProductIsGcd(a: int, m: int, g: int, s: int, t: int, inverse: int)
    requires m > 0
    requires Bezout(a, m, g, s, t)
    requires inverse == s || inverse == s + m
    ensures Cong(a * inverse, g, m)
  {
    assert m * t == t * m;
    if inverse == s {
      assert (-t) * m == -(t * m);
      CongIntro(a * inverse, g, -t, m);
    } else {
      assert a * (s + m) == a * s + a * m;
      assert (a - t) * m == a * m - t * m;
      CongIntro(a * inverse, g, a - t, m);
    }
  }

  lemma InverseMeansCoprime(a: int, m: int, inverse: int)
    requires m > 1
    requires (a * inverse) % m == 1
    ensures Coprime(a, m)
  {
    assert 1 % m == 1;
    assert IsInverse(a, inverse, m);
    UnitImpliesCoprime(a, m);
  }

  lemma CoprimeMeansInverse(a: int, m: int, g: int, u: int, w: int, inverse: int)
    requires m > 1 && g > 0
    requires a == u * g && m == w * g
    requires Cong(a * inverse, g, m)
    requires Coprime(a, m)
    ensures (a * inverse) % m == 1 && inverse != 0
  {
    CoprimeDivisor(a, m, g, u, w);
    assert 1 % m == 1;
    assert inverse == 0 ==> a * inverse == 0;
  }

  lemma CoprimeDivisor(a: int, m: int, g: int, u: int, w: int)
    requires g > 0 && a == u * g && m == w * g
    requires Coprime(a, m)
    ensures g == 1
  {
    MultiplesDivide(u, g);
    MultiplesDivide(w, g);
  }

  lemma MultiplesDivide(u: int, g: int)
    requires g > 0
    ensures (u * g) % g == 0
  {
    CongIntro(u * g, 0, u, g);
  }
}
