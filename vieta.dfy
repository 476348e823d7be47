/** vieta_quadratic in lab1/main.py: the two roots of c x^2 + d x + k. */
module Vieta {
  import opened Reals
  import opened Roots

  function Discriminant(c: real, d: real, k: real): real
  {
    d * d - 4.0 * c * k
  }

  /** Both pairs of candidate roots add up to -d / c. */
  lemma HalfSums(c: real, d: real, s: real)
    requires c != 0.0
    ensures (-d + s) / (2.0 * c) + (-d - s) / (2.0 * c) == -d / c
    ensures -d / (2.0 * c) + -d / (2.0 * c) == -d / c
  {
    var e := 2.0 * c;
    var u, v, w := (-d + s) / e, (-d - s) / e, -d / e;
    assert u * e == -d + s && v * e == -d - s && w * e == -d;
    assert (u + v) * c == -d;
    assert (w + w) * c == -d;
    QuotientOf(-d, c, u + v);
    QuotientOf(-d, c, w + w);
  }

  /**
   * A negative discriminant takes cmath.sqrt, whose value at a negative real
   * v is the imaginary number i sqrt(-v); otherwise math.sqrt.
   */
  function VietaQuadratic(c: real, d: real, k: real, m: Elementary): (roots: seq<Root>)
    requires c != 0.0
    ensures |roots| == 2
    ensures RealPart(roots[0]) + RealPart(roots[1]) == -d / c
    ensures ImagPart(roots[0]) + ImagPart(roots[1]) == 0.0
    ensures Discriminant(c, d, k) < 0.0 ==>
      roots[0].Cx? && roots[1].Cx? &&
      roots[0].re == -d / (2.0 * c) && roots[1].re == -d / (2.0 * c) && roots[1].im == -roots[0].im
    ensures Discriminant(c, d, k) >= 0.0 ==> roots[0].Re? && roots[1].Re?
  {
    var disc := Discriminant(c, d, k);
    if disc < 0.0 then
      var s := m.sqrt(-disc);
      HalfSums(c, d, s);
      [Cx(-d / (2.0 * c), s / (2.0 * c)), Cx(-d / (2.0 * c), -s / (2.0 * c))]
    else
      var s := m.sqrt(disc);
      HalfSums(c, d, s);
      [Re((-d + s) / (2.0 * c)), Re((-d - s) / (2.0 * c))]
  }

  /** Real and imaginary parts of the complex product z w. */
  function ProductRe(z: Root, w: Root): real
  {
    RealPart(z) * RealPart(w) - ImagPart(z) * ImagPart(w)
  }

  function ProductIm(z: Root, w: Root): real
  {
    RealPart(z) * ImagPart(w) + ImagPart(z) * RealPart(w)
  }

  /** From (x1 x2) (2c)^2 = 4 c k to x1 x2 = k / c. */
  lemma ProductFromScaled(product: real, c: real, k: real)
    requires c != 0.0 && product * ((2.0 * c) * (2.0 * c)) == 4.0 * c * k
    ensures product == k / c
  {
    assert (product * c) * (4.0 * c) == k * (4.0 * c);
    CancelRight(product * c, k, 4.0 * c);
    QuotientOf(k, c, product);
  }

  lemma ComplexProduct(c: real, d: real, s: real, u: real, w: real)
    requires c != 0.0 && u == -d / (2.0 * c) && w == s / (2.0 * c)
    ensures (u * u + w * w) * ((2.0 * c) * (2.0 * c)) == d * d + s * s
  {
    var e := 2.0 * c;
    assert u * e == -d && w * e == s;
    ScaledProduct(u, u, e, -d, -d);
    ScaledProduct(w, w, e, s, s);
  }

  lemma RealProduct(c: real, d: real, s: real, u: real, v: real)
    requires c != 0.0 && u == (-d + s) / (2.0 * c) && v == (-d - s) / (2.0 * c)
    ensures (u * v) * ((2.0 * c) * (2.0 * c)) == d * d - s * s
  {
    var e := 2.0 * c;
    assert u * e == -d + s && v * e == -d - s;
    ScaledProduct(u, v, e, -d + s, -d - s);
  }

  lemma ComplexRootsProduct(c: real, d: real, k: real, m: Elementary)
    requires c != 0.0 && Discriminant(c, d, k) < 0.0 && SqrtAt(m, -Discriminant(c, d, k))
    ensures var roots := VietaQuadratic(c, d, k, m);
      ProductRe(roots[0], roots[1]) == k / c && ProductIm(roots[0], roots[1]) == 0.0
  {
    var s := m.sqrt(-Discriminant(c, d, k));
    var u, w := -d / (2.0 * c), s / (2.0 * c);
    var roots := VietaQuadratic(c, d, k, m);
    assert roots == [Cx(u, w), Cx(u, -w)];
    ComplexProduct(c, d, s, u, w);
    ProductFromScaled(u * u + w * w, c, k);
  }

  lemma RealRootsProduct(c: real, d: real, k: real, m: Elementary)
    requires c != 0.0 && Discriminant(c, d, k) >= 0.0 && SqrtAt(m, Discriminant(c, d, k))
    ensures var roots := VietaQuadratic(c, d, k, m);
      ProductRe(roots[0], roots[1]) == k / c && ProductIm(roots[0], roots[1]) == 0.0
  {
    var s := m.sqrt(Discriminant(c, d, k));
    var u, v := (-d + s) / (2.0 * c), (-d - s) / (2.0 * c);
    var roots := VietaQuadratic(c, d, k, m);
    assert roots == [Re(u), Re(v)];
    RealProduct(c, d, s, u, v);
    ProductFromScaled(u * v, c, k);
  }

  /** Vieta's product relation x1 x2 = k / c, given a true square root of |discriminant|. */
  lemma VietaProduct(c: real, d: real, k: real, m: Elementary)
    requires c != 0.0 && SqrtAt(m, Abs(Discriminant(c, d, k)))
    ensures var roots := VietaQuadratic(c, d, k, m);
      ProductRe(roots[0], roots[1]) == k / c && ProductIm(roots[0], roots[1]) == 0.0
  {
    if Discriminant(c, d, k) < 0.0 {
      ComplexRootsProduct(c, d, k, m);
    } else {
      RealRootsProduct(c, d, k, m);
    }
  }

  /** A zero discriminant gives the double root x1 = x2 = -d / (2c). */
  lemma ZeroDiscriminantDoubleRoot(c: real, d: real, k: real, m: Elementary)
    requires c != 0.0 && Discriminant(c, d, k) == 0.0 && m.sqrt(0.0) == 0.0
    ensures var roots := VietaQuadratic(c, d, k, m);
      roots[0] == roots[1] == Re(-d / (2.0 * c))
  {
  }
}
