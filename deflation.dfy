/** Horner deflation of a quartic by (x - root): divide_polynomial in lab1/main.py. */
module Deflation {
  import opened Roots

  /**
   * horner_step: consumes coeffs front to back, appending to acc. Position i
   * of the result (past the seed acc) is the first coefficient when nothing has
   * been accumulated yet, and otherwise the coefficient consumed there plus the
   * previously accumulated value times root.
   */
  function HornerStep(coeffs: seq<real>, root: real, acc: seq<real>): (r: seq<real>)
    ensures |r| == |acc| + |coeffs| && r[..|acc|] == acc
    ensures forall i | |acc| <= i < |r| ::
      r[i] == if i == 0 then coeffs[0] else coeffs[i - |acc|] + r[i - 1] * root
    decreases |coeffs|
  {
    if coeffs == [] then acc
    else
      var next := if acc == [] then coeffs[0] else coeffs[0] + acc[|acc| - 1] * root;
      var r := HornerStep(coeffs[1..], root, acc + [next]);
      assert r[..|acc| + 1][..|acc|] == acc && r[|acc|] == next;
      assert acc != [] ==> r[|acc| - 1] == acc[|acc| - 1];
      r
  }

  /** divide_polynomial: the cubic quotient of p by (x - root); k is not used. */
  function DividePolynomial(p: Quartic, root: real): (q: Cubic)
    ensures q.b3 == p.a
    ensures q.c3 == p.b + q.b3 * root
    ensures q.d3 == p.c + q.c3 * root
    ensures q.k3 == p.d + q.d3 * root
  {
    var r := HornerStep([p.a, p.b, p.c, p.d], root, []);
    Cubic(r[0], r[1], r[2], r[3])
  }

  /** The remainder the deflation discards. */
  function Remainder(p: Quartic, root: real): real
  {
    p.k + root * DividePolynomial(p, root).k3
  }

  /** (x - r) * (b3 x^3 + c3 x^2 + d3 x + k3) for Horner-related coefficients. */
  lemma LinearTimesCubic(r: real, x: real, b3: real, c3: real, d3: real, k3: real, a: real, b: real, c: real, d: real)
    requires b3 == a && c3 == b + b3 * r && d3 == c + c3 * r && k3 == d + d3 * r
    ensures (x - r) * (b3 * x * x * x + c3 * x * x + d3 * x + k3) == a * x * x * x * x + b * x * x * x + c * x * x + d * x - r * k3
  {
  }

  /** Division with remainder: p(x) = (x - root) q(x) + remainder, for every x. */
  lemma DeflationIdentity(p: Quartic, root: real, x: real)
    ensures Eval(p, x) == (x - root) * EvalCubic(DividePolynomial(p, root), x) + Remainder(p, root)
  {
    var q := DividePolynomial(p, root);
    LinearTimesCubic(root, x, q.b3, q.c3, q.d3, q.k3, p.a, p.b, p.c, p.d);
  }

  /** The remainder theorem: what deflation discards is p(root). */
  lemma RemainderIsValue(p: Quartic, root: real)
    ensures Remainder(p, root) == Eval(p, root)
  {
    DeflationIdentity(p, root, root);
  }

  /** root is an exact root of p iff the discarded remainder is zero. */
  lemma ExactRootIff(p: Quartic, root: real)
    ensures Eval(p, root) == 0.0 <==> Remainder(p, root) == 0.0
  {
    RemainderIsValue(p, root);
  }

  /** Every root of p other than root is a root of the deflated cubic, when root is exact. */
  lemma DeflatedKeepsOtherRoots(p: Quartic, root: real, x: real)
    requires Eval(p, root) == 0.0 && x != root
    ensures Eval(p, x) == 0.0 <==> EvalCubic(DividePolynomial(p, root), x) == 0.0
  {
    DeflationIdentity(p, root, x);
    RemainderIsValue(p, root);
    var v := EvalCubic(DividePolynomial(p, root), x);
    assert Eval(p, x) == (x - root) * v;
    if v != 0.0 {
      assert (x - root) * v != 0.0;
    }
  }
}
