/**
 * cardano_method in lab1/main.py: the reduction of b x^3 + c x^2 + d x + k
 * to a depressed cubic, the choice of branch, and the shape of the three
 * roots each branch returns. Cube roots, acos and cos are kept abstract.
 */
module Cardano {
  import opened Reals
  import opened Roots

  /** The tolerance below which D and R count as zero. */
  const Eps: real := 1.0e-10

  /** The monic coefficients, the depressed cubic t^3 + p t + q and its discriminant. */
  datatype Reduction = Reduction(a2: real, a1: real, a0: real, p: real, q: real, Q: real, R: real, D: real)

  function Reduce(b: real, c: real, d: real, k: real): Reduction
    requires b != 0.0
  {
    var a2 := c / b;
    var a1 := d / b;
    var a0 := k / b;
    var p := a1 - a2 * a2 / 3.0;
    var q := 2.0 * a2 * a2 * a2 / 27.0 - a1 * a2 / 3.0 + a0;
    var Q := p / 3.0;
    var R := q / 2.0;
    Reduction(a2, a1, a0, p, q, Q, R, Q * Q * Q + R * R)
  }

  /**
   * The substitution x = t - a2/3 turns the cubic into b (t^3 + p t + q):
   * the reduction loses nothing.
   */
  lemma DepressedForm(b: real, c: real, d: real, k: real, x: real)
    requires b != 0.0
    ensures var r := Reduce(b, c, d, k);
      var t := x + r.a2 / 3.0;
      b * x * x * x + c * x * x + d * x + k == b * (t * t * t + r.p * t + r.q)
  {
    var r := Reduce(b, c, d, k);
    var s := r.a2 / 3.0;
    var t := x + s;
    assert c == b * r.a2 && d == b * r.a1 && k == b * r.a0;
    assert t * t * t == x * x * x + 3.0 * s * x * x + 3.0 * s * s * x + s * s * s;
    assert r.p * t == r.a1 * x - 3.0 * s * s * x + r.a1 * s - 3.0 * s * s * s;
    assert r.q == 2.0 * s * s * s - r.a1 * s + r.a0;
    assert t * t * t + r.p * t + r.q == x * x * x + r.a2 * x * x + r.a1 * x + r.a0;
  }

  /** Which formula cardano_method uses. */
  datatype Branch = TripleRoot | DoubleRoot | OneRealPair | ThreeReal

  function Classify(r: Reduction): Branch
  {
    if Abs(r.D) < Eps then
      if Abs(r.R) < Eps then TripleRoot else DoubleRoot
    else if r.D > 0.0 then OneRealPair
    else ThreeReal
  }

  /** The sign-preserving real cube root: v ** (1/3) for v >= 0, else -(|v| ** (1/3)). */
  function CubeRoot(m: Elementary, v: real): real
  {
    if v >= 0.0 then m.cubeRoot(v) else -m.cubeRoot(Abs(v))
  }

  function SumRe(roots: seq<Root>): real
    requires |roots| == 3
  {
    RealPart(roots[0]) + RealPart(roots[1]) + RealPart(roots[2])
  }

  function SumIm(roots: seq<Root>): real
    requires |roots| == 3
  {
    ImagPart(roots[0]) + ImagPart(roots[1]) + ImagPart(roots[2])
  }

  /** cardano_method: b is the leading coefficient, and the source divides by it. */
  function CardanoMethod(b: real, c: real, d: real, k: real, m: Elementary): (roots: seq<Root>)
    requires b != 0.0
    ensures |roots| == 3
    ensures Classify(Reduce(b, c, d, k)) != OneRealPair ==> roots[0].Re? && roots[1].Re? && roots[2].Re?
    ensures Classify(Reduce(b, c, d, k)) == OneRealPair ==>
      roots[0].Re? && roots[1].Cx? && roots[2].Cx? &&
      roots[1].re == roots[2].re && roots[1].im == -roots[2].im
    ensures Classify(Reduce(b, c, d, k)) == TripleRoot ==>
      roots[0] == Re(-(c / b) / 3.0) && roots[1] == roots[0] && roots[2] == roots[0]
    ensures Classify(Reduce(b, c, d, k)) == DoubleRoot ==> roots[1] == roots[2]
    ensures Classify(Reduce(b, c, d, k)) != ThreeReal ==> SumRe(roots) == -(c / b) && SumIm(roots) == 0.0
  {
    var r := Reduce(b, c, d, k);
    var shift := r.a2 / 3.0;
    match Classify(r)
    case TripleRoot =>
      [Re(0.0 - shift), Re(0.0 - shift), Re(0.0 - shift)]
    case DoubleRoot =>
      var u := CubeRoot(m, -r.R);
      [Re(2.0 * u - shift), Re(-u - shift), Re(-u - shift)]
    case OneRealPair =>
      var sqrtD := m.sqrt(r.D);
      var s := CubeRoot(m, -r.R + sqrtD);
      var t := CubeRoot(m, -r.R - sqrtD);
      var h := m.sqrt(3.0) * (s - t) / 2.0;
      [Re(s + t - shift), Cx(-(s + t) / 2.0 - shift, h), Cx(-(s + t) / 2.0 - shift, -h)]
    case ThreeReal =>
      assert r.Q * r.Q * r.Q < 0.0 by {
        assert r.D < 0.0;
        assert r.R * r.R >= 0.0;
      }
      var theta := m.acos(-r.R / m.sqrt(-(r.Q * r.Q * r.Q)));
      var amplitude := 2.0 * m.sqrt(-r.Q);
      [Re(amplitude * m.cos(theta / 3.0) - shift),
       Re(amplitude * m.cos((theta + 2.0 * m.pi) / 3.0) - shift),
       Re(amplitude * m.cos((theta + 4.0 * m.pi) / 3.0) - shift)]
  }
}
