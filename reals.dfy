/**
 * Real-number helpers shared by both solvers (floats are modelled as exact
 * reals), with the small facts of nonlinear arithmetic the proofs need.
 */
module Reals {
  /** Python's abs() on a float. */
  function Abs(x: real): (r: real)
    ensures r >= 0.0 && (r == x || r == -x)
  {
    if x < 0.0 then -x else x
  }

  lemma MulCongruence(a: real, b: real, a': real, b': real)
    requires a == a' && b == b'
    ensures a * b == a' * b'
  {
  }

  lemma CancelRight(a: real, b: real, f: real)
    requires f != 0.0 && a * f == b * f
    ensures a == b
  {
    assert (a - b) * f == 0.0;
    QuotientOf(0.0, f, a - b);
  }

  /** Scaling two numbers by e scales their product by e * e. */
  lemma ScaledProduct(u: real, v: real, e: real, x: real, y: real)
    requires u * e == x && v * e == y
    ensures (u * v) * (e * e) == x * y
  {
    MulCongruence(u * e, v * e, x, y);
  }

  lemma QuotientOf(x: real, e: real, w: real)
    requires e != 0.0 && w * e == x
    ensures w == x / e
  {
  }

  /** Dividing u - v * w by e is dividing u by e and then stepping by -(v / e) * w. */
  lemma QuotientStep(u: real, v: real, w: real, e: real)
    requires e != 0.0
    ensures (u - v * w) / e == u / e + (-(v / e)) * w
  {
    var q, p := u / e, v / e;
    assert q * e == u && p * e == v;
    assert (q - p * w) * e == q * e - (p * e) * w;
    QuotientOf(u - v * w, e, q - p * w);
  }

  /** -(a / e) is a multiplied by -(1 / e). */
  lemma NegatedQuotient(a: real, e: real)
    requires e != 0.0
    ensures -(a / e) == (-(1.0 / e)) * a
  {
    var r := 1.0 / e;
    assert r * e == 1.0;
    assert (-r * a) * e == -a * (r * e);
    QuotientOf(-a, e, -r * a);
    assert -a / e == -(a / e);
  }
}
