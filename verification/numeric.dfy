/**
 Numeric conventions of the animation code, stated over exact reals.
 Floats are modelled as `real`; what remains to spell out is how C converts
 them to integers and the clamp the blending code applies everywhere.
 */
module Numeric {

  /** C's `(int)` conversion of a float: truncation toward zero. */
  function Trunc(x: real): (n: int)
    ensures 0.0 <= x ==> n as real <= x < n as real + 1.0
    ensures x < 0.0 ==> n as real - 1.0 < x <= n as real
  {
    if x >= 0.0 then x.Floor else -((-x).Floor)
  }

  /** True when `x` has no fractional part. */
  predicate IsIntegral(x: real) {
    x.Floor as real == x
  }

  /** The clamp to [0,1] the source writes as two successive `if`s. */
  function Clamp01(x: real): (r: real)
    ensures 0.0 <= r <= 1.0
    ensures 0.0 <= x <= 1.0 ==> r == x
    ensures x < 0.0 ==> r == 0.0
    ensures x > 1.0 ==> r == 1.0
  {
    if x < 0.0 then 0.0 else if x > 1.0 then 1.0 else x
  }

  function Max(a: int, b: int): int {
    if a < b then b else a
  }

  // Nonlinear facts about real multiplication and division that the solver
  // does not find on its own.

  lemma MulDivCancel(l: real, x: real, m: real)
    requires l != 0.0 && m == l * x
    ensures m / l == x
  {
    var y := m / l;
    assert y * l == m;
    assert l * (y - x) == 0.0;
  }

  lemma MulBounds(l: real, t: real)
    requires l > 0.0 && 0.0 <= t < 1.0
    ensures 0.0 <= l * t < l
  {
    assert l * (1.0 - t) == l - l * t;
    assert l * (1.0 - t) > 0.0;
  }

  /** Removing `floor(a/L)` periods of length L > 0 from `a` leaves a remainder in [0,L). */
  lemma FloorRemainder(loop: real, a: real, n: int)
    requires loop > 0.0 && n == (a / loop).Floor
    ensures 0.0 <= a - loop * (n as real) < loop
  {
    var q := a / loop;
    var t := q - (n as real);
    assert 0.0 <= t < 1.0;
    assert a == loop * q;
    assert a - loop * (n as real) == loop * t;
    MulBounds(loop, t);
  }

  /** The mirror image of `FloorRemainder` for a negative period: the remainder lies in (L,0]. */
  lemma FloorRemainderNeg(loop: real, a: real, n: int)
    requires loop < 0.0 && n == (a / loop).Floor
    ensures loop < a - loop * (n as real) <= 0.0
  {
    var q := a / loop;
    var t := q - (n as real);
    assert 0.0 <= t < 1.0;
    assert a == loop * q;
    assert a - loop * (n as real) == loop * t;
    assert loop * (1.0 - t) == loop - loop * t;
    assert loop * (1.0 - t) < 0.0;
  }

  lemma MulPos(x: real, y: real)
    requires x > 0.0 && y > 0.0
    ensures x * y > 0.0
  {
  }

  lemma MulNonNeg(x: real, y: real)
    requires x >= 0.0 && y >= 0.0
    ensures x * y >= 0.0
  {
  }

  /** With a positive factor `d`, `u = q*d` has the sign of `q`. */
  lemma SignOfQuotient(q: real, d: real, u: real)
    requires d > 0.0 && u == q * d
    ensures q > 0.0 <==> u > 0.0
    ensures q >= 0.0 <==> u >= 0.0
  {
    if q > 0.0 {
      MulPos(q, d);
    } else {
      MulNonNeg(-q, d);
      assert (-q) * d == -u;
    }
    if q >= 0.0 {
      MulNonNeg(q, d);
    } else {
      MulPos(-q, d);
      assert (-q) * d == -u;
    }
  }

  lemma PosFactor(x: real, y: real)
    requires y > 0.0 && x * y > 0.0
    ensures x > 0.0
  {
  }

  lemma QuotientBelowOne(u: real, d: real)
    requires d > 0.0 && u < d
    ensures u / d < 1.0
  {
    var q := u / d;
    assert q * d == u;
    assert (1.0 - q) * d == d - u;
    PosFactor(1.0 - q, d);
  }

  /** A value that is a fraction in [0,1) of a period has no whole periods to remove. */
  lemma FloorOfFraction(loop: real, a: real)
    requires (loop > 0.0 && 0.0 <= a < loop) || (loop < 0.0 && loop < a <= 0.0)
    ensures (a / loop).Floor == 0
  {
    var q := a / loop;
    assert q * loop == a;
    var m := -loop;
    var b := -a;
    assert q * m == b;
    if loop > 0.0 {
      assert (1.0 - q) * loop == loop - a;
      PosFactor(1.0 - q, loop);
    } else {
      assert m > 0.0 && 0.0 <= b < m;
      assert (1.0 - q) * m == m - b;
      PosFactor(1.0 - q, m);
    }
    assert 0.0 <= q;
  }

  /** Adding whole periods to the dividend adds as many to the floored quotient. */
  lemma FloorShift(loop: real, a: real, k: int, b: real)
    requires loop != 0.0 && b == a + (k as real) * loop
    ensures (b / loop).Floor == (a / loop).Floor + k
  {
    var q := a / loop;
    assert a == loop * q;
    MulDivCancel(loop, q + k as real, b);
  }

  lemma ScaleBetween(t: real, d: real)
    ensures 0.0 <= t <= 1.0 && d >= 0.0 ==> 0.0 <= t * d <= d
    ensures 0.0 <= t <= 1.0 && d <= 0.0 ==> d <= t * d <= 0.0
  {
    assert d - t * d == (1.0 - t) * d;
  }

  lemma IntIsIntegral(n: int)
    ensures IsIntegral(n as real)
  {
  }

  lemma DivUnit(u: real, d: real)
    requires d != 0.0 && ((0.0 <= u <= d) || (d <= u <= 0.0))
    ensures 0.0 <= u / d <= 1.0
  {
    var q := u / d;
    assert q * d == u;
    assert (q - 1.0) * d == u - d;
  }

  /** `d` is the reciprocal of `c`, or 0 when `c` is 0. */
  predicate InverseOf(d: real, c: real) {
    (c == 0.0 ==> d == 0.0) && (c != 0.0 ==> d * c == 1.0)
  }

  /** The reciprocal of `c`, or 0 when `c` is 0. */
  function InverseOrZero(c: real): (d: real)
    ensures InverseOf(d, c)
  {
    if c == 0.0 then 0.0 else 1.0 / c
  }

  /** The reciprocal of a nonzero quotient `f / n` is `n / f`. */
  lemma InverseOfQuotient(f: real, n: real)
    requires f != 0.0 && n != 0.0
    ensures InverseOrZero(f / n) == n / f
  {
    var q := f / n;
    assert q * n == f;
    assert q != 0.0;
    var d := InverseOrZero(q);
    assert d * q == 1.0;
    assert d * f == n by {
      assert d * (q * n) == (d * q) * n;
    }
    MulDivCancel(f, d, n);
  }
}
