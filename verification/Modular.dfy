/**
 Congruences and units modulo an arbitrary modulus p. Everything the share
 arithmetic needs about "% PRIME" is proved here once, with p left symbolic.
 */
module Modular {

  ghost predicate Cong(a: int, b: int, p: int)
    requires p > 0
  {
    a % p == b % p
  }

  // A nonzero multiple of p is at least p away from 0.
  lemma MultipleIsLarge(d: int, p: int)
    requires p > 0
    ensures d == 0 || d * p >= p || d * p <= -p
  {
    if d >= 1 {
      assert (d - 1) * p >= 0;
    } else if d <= -1 {
      assert (-d - 1) * p >= 0;
    }
  }

  lemma CongIntro(a: int, b: int, k: int, p: int)
    requires p > 0
    requires a == b + k * p
    ensures Cong(a, b, p)
  {
    var d := b / p + k - a / p;
    assert d * p == a % p - b % p by {
      assert a == a / p * p + a % p;
      assert b == b / p * p + b % p;
      assert d * p == b / p * p + k * p - a / p * p;
    }
    MultipleIsLarge(d, p);
    assert d == 0;
  }

  lemma CongElim(a: int, b: int, p: int) returns (k: int)
    requires p > 0
    requires Cong(a, b, p)
    ensures a == b + k * p
  {
    k := a / p - b / p;
    assert a == a / p * p + a % p;
    assert b == b / p * p + b % p;
    assert k * p == a / p * p - b / p * p;
  }

  lemma CongAdd(a: int, b: int, c: int, d: int, p: int)
    requires p > 0
    requires Cong(a, b, p) && Cong(c, d, p)
    ensures Cong(a + c, b + d, p)
  {
    var k := CongElim(a, b, p);
    var l := CongElim(c, d, p);
    assert (k + l) * p == k * p + l * p;
    CongIntro(a + c, b + d, k + l, p);
  }

  lemma CongSub(a: int, b: int, c: int, d: int, p: int)
    requires p > 0
    requires Cong(a, b, p) && Cong(c, d, p)
    ensures Cong(a - c, b - d, p)
  {
    var k := CongElim(a, b, p);
    var l := CongElim(c, d, p);
    assert (k - l) * p == k * p - l * p;
    CongIntro(a - c, b - d, k - l, p);
  }

  lemma CongMul(a: int, b: int, c: int, d: int, p: int)
    requires p > 0
    requires Cong(a, b, p) && Cong(c, d, p)
    ensures Cong(a * c, b * d, p)
  {
    var k := CongElim(a, b, p);
    var l := CongElim(c, d, p);
    assert a * c == a * d + a * (l * p);
    assert a * d == b * d + (k * p) * d;
    assert (a * l + k * d) * p == a * (l * p) + (k * p) * d;
    CongIntro(a * c, b * d, a * l + k * d, p);
  }

  lemma CongRem(a: int, p: int)
    requires p > 0
    ensures Cong(a % p, a, p)
  {
    assert a == a / p * p + a % p;
    CongIntro(a, a % p, a / p, p);
  }

  // A residue in [0, p) is determined by its congruence class.
  lemma CongSmall(a: int, b: int, p: int)
    requires 0 <= a < p && 0 <= b < p
    requires Cong(a, b, p)
    ensures a == b
  {
    var k := CongElim(a, b, p);
    MultipleIsLarge(k, p);
  }

  ghost predicate IsInverse(a: int, u: int, p: int)
    requires p > 0
  {
    Cong(a * u, 1, p)
  }

  ghost predicate Unit(a: int, p: int)
    requires p > 0
  {
    exists u :: IsInverse(a, u, p)
  }

  lemma Cancel(a: int, b: int, c: int, p: int)
    requires p > 0
    requires Unit(c, p)
    requires Cong(a * c, b * c, p)
    ensures Cong(a, b, p)
  {
    var u :| IsInverse(c, u, p);
    CongMul(a * c, b * c, u, u, p);
    assert (a * c) * u == a * (c * u) && (b * c) * u == b * (c * u);
    CongMul(a, a, c * u, 1, p);
    CongMul(b, b, c * u, 1, p);
  }

  lemma UnitMul(a: int, b: int, p: int)
    requires p > 0
    requires Unit(a, p) && Unit(b, p)
    ensures Unit(a * b, p)
  {
    var u :| IsInverse(a, u, p);
    var v :| IsInverse(b, v, p);
    CongMul(a * u, 1, b * v, 1, p);
    assert (a * u) * (b * v) == (a * b) * (u * v);
    assert IsInverse(a * b, u * v, p);
  }

  lemma UnitNegate(a: int, p: int)
    requires p > 0
    requires Unit(a, p)
    ensures Unit(-a, p)
  {
    var u :| IsInverse(a, u, p);
    assert (-a) * (-u) == a * u;
    assert IsInverse(-a, -u, p);
  }

  lemma UnitCong(a: int, b: int, p: int)
    requires p > 0
    requires Unit(a, p) && Cong(a, b, p)
    ensures Unit(b, p)
  {
    var u :| IsInverse(a, u, p);
    CongMul(a, b, u, u, p);
    assert IsInverse(b, u, p);
  }

  lemma UnitOne(p: int)
    requires p > 0
    ensures Unit(1, p)
  {
    assert IsInverse(1, 1, p);
  }

  // No number in 2..n divides p.
  predicate NoDivisorUpTo(p: int, n: nat) {
    n < 2 || (p % n != 0 && NoDivisorUpTo(p, n - 1))
  }

  lemma {:induction false} NoDivisorAt(p: int, n: nat, d: nat)
    requires NoDivisorUpTo(p, n)
    requires 2 <= d <= n
    ensures p % d != 0
    decreases n
  {
    if d < n {
      NoDivisorAt(p, n - 1, d);
    }
  }

  /** Primality of p is not needed to invert small numbers: if nothing in 2..n
      divides p then each d in 1..n is a unit, because p == q * d + r makes
      d * (-q) congruent to the smaller unit r. */
  lemma {:induction false} SmallUnits(p: int, n: nat, d: nat)
    requires p > 0
    requires NoDivisorUpTo(p, n)
    requires 1 <= d <= n
    ensures Unit(d, p)
    decreases d
  {
    if d == 1 {
      UnitOne(p);
    } else {
      var q, r := p / d, p % d;
      NoDivisorAt(p, n, d);
      SmallUnits(p, n, r);
      var v :| IsInverse(r, v, p);
      assert p == q * d + r;
      InverseFromRemainder(p, d, q, r, v);
    }
  }

  lemma InverseFromRemainder(p: int, d: int, q: int, r: int, v: int)
    requires p > 0
    requires p == q * d + r
    requires IsInverse(r, v, p)
    ensures Unit(d, p)
  {
    var u := -(q * v);
    calc {
      d * u;
      -((q * d) * v);
      -((p - r) * v);
      r * v + (-v) * p;
    }
    CongIntro(d * u, r * v, -v, p);
    assert IsInverse(d, u, p);
  }

  // x and y have no common divisor above 1.
  ghost predicate Coprime(x: int, y: int) {
    forall e :: e >= 2 && x % e == 0 ==> y % e != 0
  }

  lemma UnitImpliesCoprime(a: int, p: int)
    requires p > 0
    requires Unit(a, p)
    ensures Coprime(a, p)
  {
    var u :| IsInverse(a, u, p);
    var k := CongElim(a * u, 1, p);
    forall e | e >= 2 && a % e == 0
      ensures p % e != 0
    {
      if p % e == 0 {
        CommonDivisorOfOne(a, p, u, k, a / e, p / e, e);
      }
    }
  }

  lemma CommonDivisorOfOne(a: int, p: int, u: int, k: int, s: int, t: int, e: int)
    requires e >= 2
    requires a * u == 1 + k * p
    ensures a != s * e || p != t * e
  {
    if a == s * e && p == t * e {
      assert a * u == (s * u) * e;
      assert k * p == (k * t) * e;
      assert (s * u - k * t) * e == (s * u) * e - (k * t) * e;
      NoUnitMultiple(s * u - k * t, e);
    }
  }

  lemma NoUnitMultiple(m: int, e: int)
    requires e >= 2
    ensures m * e != 1
  {
    if m >= 1 {
      assert (m - 1) * e >= 0;
    } else {
      assert m * e <= 0;
    }
  }
}
