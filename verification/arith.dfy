/** Small arithmetic vocabulary shared by the buffer and the soft-update
    models: minimum, absolute value, powers, and the facts about `%` that
    the circular cursor needs. */
module Arith {

  function Min(x: int, y: int): (m: int)
    ensures m <= x && m <= y
    ensures m == x || m == y
  {
    if x <= y then x else y
  }

  function Abs(x: real): (y: real)
    ensures y >= 0.0
    ensures y == x || y == -x
  {
    if x < 0.0 then -x else x
  }

  /** `x` raised to the natural power `n`. */
  function Pow(x: real, n: nat): real
  {
    if n == 0 then 1.0 else x * Pow(x, n - 1)
  }

  /** Multiplying a product `p * d` by `c` is multiplying `d` by `c * p`. */
  lemma MulRegroup(c: real, b: real, p: real, d: real, q: real)
    requires b == p * d && q == c * p
    ensures c * b == q * d
  {
    calc {
      c * b;
      c * (p * d);
      (c * p) * d;
      q * d;
    }
  }

  /** Powers of a number in [0, 1] stay in [0, 1]. */
  lemma {:induction false} PowUnitInterval(x: real, n: nat)
    requires 0.0 <= x <= 1.0
    ensures 0.0 <= Pow(x, n) <= 1.0
  {
    if n > 0 {
      var p := Pow(x, n - 1);
      PowUnitInterval(x, n - 1);
      assert Pow(x, n) == x * p;
      MulAtMostOne(x, p);
      assert 0.0 <= x * p;
    }
  }

  /** `1 + n * tau`, built up one `tau` at a time: the lower bound
      Bernoulli's inequality gives for `(1 + tau)^n` and, inverted, the upper
      bound for `(1 - tau)^n`. */
  function BernoulliBound(tau: real, n: nat): (b: real)
    ensures tau >= 0.0 ==> b >= 1.0
  {
    if n == 0 then 1.0 else BernoulliBound(tau, n - 1) + tau
  }

  /** `BernoulliBound` is the closed form `1 + n * tau`. */
  lemma {:induction false} BernoulliBoundClosedForm(tau: real, n: nat)
    ensures BernoulliBound(tau, n) == 1.0 + (n as real) * tau
  {
    if n > 0 {
      var k := (n - 1) as real;
      BernoulliBoundClosedForm(tau, n - 1);
      assert (n as real) == k + 1.0;
      assert (k + 1.0) * tau == k * tau + tau;
    }
  }

  /** Bernoulli's inequality in the form the soft update needs:
      `(1 - tau)^n <= 1 / (1 + n * tau)`, so for `tau > 0` the power tends
      to zero. */
  lemma {:induction false} PowBernoulli(tau: real, n: nat)
    requires 0.0 <= tau <= 1.0
    ensures Pow(1.0 - tau, n) * BernoulliBound(tau, n) <= 1.0
  {
    if n > 0 {
      var p := Pow(1.0 - tau, n - 1);
      var bb := BernoulliBound(tau, n - 1);
      PowBernoulli(tau, n - 1);
      PowUnitInterval(1.0 - tau, n - 1);
      BernoulliStep(tau, p, bb, Pow(1.0 - tau, n), BernoulliBound(tau, n));
    }
  }

  /** The inductive step of `PowBernoulli` over plain reals: multiplying
      the power by `1 - tau` and adding `tau` to the bound keeps their
      product at most one. */
  lemma BernoulliStep(tau: real, p: real, bb: real, q: real, b: real)
    requires 0.0 <= tau <= 1.0 && 0.0 <= p <= 1.0 && p * bb <= 1.0
    requires q == (1.0 - tau) * p && b == bb + tau
    ensures q * b <= 1.0
  {
    var a := p * bb;
    assert q * b == (1.0 - tau) * a + tau * q by {
      assert q * b == q * bb + q * tau;
      assert q * bb == (1.0 - tau) * a;
    }
    assert q <= 1.0 by {
      MulAtMostOne(1.0 - tau, p);
    }
    assert (1.0 - tau) * a <= 1.0 - tau by {
      MulMonotone(1.0 - tau, a, 1.0);
    }
    assert tau * q <= tau by {
      MulMonotone(tau, q, 1.0);
    }
  }

  /** A bound on a scaled quantity is a bound on the quantity divided by the
      scale. */
  lemma DivideBound(g: real, b: real, d: real)
    requires b > 0.0 && g * b <= d
    ensures g <= d / b
  {
    assert (g * b) / b == g;
    assert (g * b) / b <= d / b;
  }

  /** Multiplying by a non-negative factor preserves `<=`. */
  lemma MulMonotone(c: real, x: real, y: real)
    requires c >= 0.0 && x <= y
    ensures c * x <= c * y
  {
    assert c * y - c * x == c * (y - x);
  }

  /** Scaling a non-negative number by a factor in [0, 1] does not grow it. */
  lemma MulAtMostOne(c: real, y: real)
    requires 0.0 <= c <= 1.0 && y >= 0.0
    ensures c * y <= y
  {
    assert y - c * y == (1.0 - c) * y;
  }

  /** A gap scaled by a factor in [0, 1] is that factor times as far from
      zero, and no farther than the original. */
  lemma ScaledDistance(g: real, c: real, e: real)
    requires 0.0 <= c <= 1.0 && g == c * e
    ensures Abs(g) == c * Abs(e)
    ensures Abs(g) <= Abs(e)
  {
    var ae := Abs(e);
    AbsScale(c, e);
    assert Abs(g) == c * ae;
    MulAtMostOne(c, ae);
    assert c * ae <= ae;
  }

  /** A non-negative quantity `d` scaled by `p` and then by `b`, where
      `p * b <= 1`, does not exceed the original. */
  lemma ScaledBound(g: real, p: real, d: real, b: real)
    requires d >= 0.0 && p * b <= 1.0 && g == p * d
    ensures g * b <= d
  {
    assert g * b == (p * b) * d;
    assert d - (p * b) * d == (1.0 - p * b) * d;
  }

  /** A gap scaled by a non-negative `p`, where `p * b <= 1` for a positive
      `b`, is at most `1 / b` times as far from zero as the original gap. */
  lemma ShrunkGap(g: real, p: real, e: real, b: real)
    requires 0.0 <= p && b > 0.0 && p * b <= 1.0 && g == p * e
    ensures Abs(g) <= Abs(e) / b
  {
    var ae := Abs(e);
    var ag := Abs(g);
    AbsScale(p, e);
    ScaledBound(ag, p, ae, b);
    DivideBound(ag, b, ae);
  }

  /** Equal values are equally far from any reference point. */
  lemma AbsOfGapCongruent(x: real, y: real, o: real)
    requires x == y
    ensures Abs(x - o) == Abs(y - o)
  {
  }

  /** Scaling by a non-negative factor scales the absolute value. */
  lemma AbsScale(c: real, x: real)
    requires c >= 0.0
    ensures Abs(c * x) == c * Abs(x)
  {
    if x < 0.0 {
      assert c * x <= 0.0;
    } else {
      assert c * x >= 0.0;
    }
  }

  /** Advancing a reduced cursor by one and reducing again is the same as
      reducing the advanced position. */
  lemma ModSucc(x: nat, m: nat)
    requires m > 0
    ensures (x % m + 1) % m == (x + 1) % m
  {
    var q, r := x / m, x % m;
    assert x == m * q + r;
    if r + 1 < m {
      ModAt(x + 1, m, q, r + 1);
      ModAt(r + 1, m, 0, r + 1);
    } else {
      assert x + 1 == m * (q + 1) by {
        assert m * (q + 1) == m * q + m;
      }
      ModAt(x + 1, m, q + 1, 0);
      ModAt(r + 1, m, 1, 0);
    }
  }

  /** A number written as `m * q + i` with `0 <= i < m` reduces to `i`. */
  lemma ModAt(x: int, m: int, q: int, i: int)
    requires m > 0 && 0 <= i < m && x == m * q + i
    ensures x % m == i
  {
    ModOfMultiplePlus(q, i, m);
  }

  /** A multiple of `m` plus a remainder below `m` reduces to that remainder. */
  lemma ModOfMultiplePlus(q: int, i: int, m: int)
    requires m > 0 && 0 <= i < m
    ensures (m * q + i) % m == i
    ensures (m * q + i) / m == q
  {
    var x := m * q + i;
    var d := x / m;
    assert x == m * d + x % m;
    assert m * (q - d) == x % m - i;
    MulSign(m, q - d);
  }

  /** A non-zero multiple of a positive `m` is at least `m` away from zero. */
  lemma MulSign(m: int, d: int)
    requires m > 0
    ensures d >= 1 ==> m * d >= m
    ensures d <= -1 ==> m * d <= -m
  {
    if d >= 1 {
      assert m * d == m + m * (d - 1);
    } else if d <= -1 {
      assert m * d == -m + m * (d + 1);
    }
  }

  /** Two positions fewer than `m` apart land in different residues. */
  lemma DistinctResidues(x: int, y: int, m: int)
    requires m > 0 && x < y < x + m
    ensures x % m != y % m
  {
    var qx, qy := x / m, y / m;
    assert x == m * qx + x % m;
    assert y == m * qy + y % m;
    assert y - x - (y % m - x % m) == m * (qy - qx);
    MulSign(m, qy - qx);
  }
}
