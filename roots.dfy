/**
 * The values the polynomial solvers of lab1/main.py pass around: quartic and
 * cubic coefficients, the roots they return, and the elementary functions of
 * the closed-form solvers, which the model keeps abstract.
 */
module Roots {
  import opened Reals

  /** A root as the solvers return it: a Python float or a Python complex. */
  datatype Root = Re(r: real) | Cx(re: real, im: real)

  function RealPart(z: Root): real
  {
    match z
    case Re(r) => r
    case Cx(re, _) => re
  }

  function ImagPart(z: Root): real
  {
    match z
    case Re(_) => 0.0
    case Cx(_, im) => im
  }

  /** The coefficients of a x^4 + b x^3 + c x^2 + d x + k. */
  datatype Quartic = Quartic(a: real, b: real, c: real, d: real, k: real)

  /** The coefficients of b3 x^3 + c3 x^2 + d3 x + k3. */
  datatype Cubic = Cubic(b3: real, c3: real, d3: real, k3: real)

  function Eval(p: Quartic, x: real): real
  {
    p.a * x * x * x * x + p.b * x * x * x + p.c * x * x + p.d * x + p.k
  }

  /** The derivative 4a x^3 + 3b x^2 + 2c x + d. */
  function Slope(p: Quartic, x: real): real
  {
    4.0 * p.a * x * x * x + 3.0 * p.b * x * x + 2.0 * p.c * x + p.d
  }

  function EvalCubic(q: Cubic, x: real): real
  {
    q.b3 * x * x * x + q.c3 * x * x + q.d3 * x + q.k3
  }

  /**
   * The elementary functions the closed-form solvers call: math.sqrt and
   * cmath.sqrt (as the square root of a nonnegative real), v ** (1/3) on a
   * nonnegative v, math.acos, math.cos and math.pi. The model assumes of them
   * only that a square root of a positive number is positive, which is what
   * makes the division by sqrt(-Q^3) in the trigonometric branch defined.
   */
  datatype ElementaryFunctions = ElementaryFunctions(
    sqrt: real -> real, cubeRoot: real -> real, acos: real -> real, cos: real -> real, pi: real)

  ghost predicate PositiveSqrt(m: ElementaryFunctions)
  {
    forall v :: v > 0.0 ==> m.sqrt(v) > 0.0
  }

  type Elementary = m: ElementaryFunctions | PositiveSqrt(m)
    witness ElementaryFunctions(v => Abs(v), v => v, v => v, v => v, 3.0)

  /** m.sqrt behaves as a square root at v. */
  predicate SqrtAt(m: Elementary, v: real)
  {
    m.sqrt(v) >= 0.0 && m.sqrt(v) * m.sqrt(v) == v
  }
}
