/**
 * newton_method and solve_quartic in lab1/main.py: deflation by the Newton
 * root, and the dispatch on the first nonzero coefficient.
 */
module Solver {
  import opened Reals
  import opened Roots
  import opened Deflation
  import opened Newton
  import opened Cardano
  import opened Vieta
  import opened Dedup

  /** The default arguments newton_method is called with. */
  const DefaultStart: real := 1.0
  const DefaultTolerance: real := 1.0e-10
  const DefaultIterations: nat := 1000

  /** The cubic left after dividing p by (x - root). */
  function Deflated(p: Quartic, root: real): (q: Cubic)
    ensures q.b3 == p.a
  {
    DividePolynomial(p, root)
  }

  /** The three roots cardano_method returns for the deflated cubic. */
  function CubicRoots(p: Quartic, root: real, m: Elementary): (roots: seq<Root>)
    requires p.a != 0.0
    ensures |roots| == 3
  {
    var q := Deflated(p, root);
    CardanoMethod(q.b3, q.c3, q.d3, q.k3, m)
  }

  /**
   * newton_method: one real root by Newton's method, then the cubic quotient
   * solved by cardano_method. cardano_method divides by the quotient's leading
   * coefficient, which is a, so a must be nonzero.
   */
  method NewtonMethod(p: Quartic, x0: real, tolerance: real, maxIterations: nat, m: Elementary)
    returns (roots: seq<Root>)
    requires p.a != 0.0
    ensures |roots| == 4 && roots[0].Re?
    ensures NewtonResult(p, x0, tolerance, maxIterations, roots[0].r)
    ensures roots[1..] == CubicRoots(p, roots[0].r, m)
    ensures DeflatesTo(p, roots[0].r)
  {
    var root1 := NewtonSingle(p, x0, tolerance, maxIterations);
    var cubicRoots := CubicRoots(p, root1, m);
    roots := [Re(root1)] + cubicRoots;
    assert roots[0].r == root1 && roots[1..] == cubicRoots;
    DeflationResidual(p, root1);
  }

  /** p is (x - root) times the deflated cubic, plus p's value at root. */
  ghost predicate DeflatesTo(p: Quartic, root: real)
  {
    forall x :: Eval(p, x) == (x - root) * EvalCubic(Deflated(p, root), x) + Eval(p, root)
  }

  lemma DeflationResidual(p: Quartic, root: real)
    ensures DeflatesTo(p, root)
  {
    forall x
      ensures Eval(p, x) == (x - root) * EvalCubic(Deflated(p, root), x) + Eval(p, root)
    {
      assert Deflated(p, root) == DividePolynomial(p, root);
      DeflationIdentity(p, root, x);
      RemainderIsValue(p, root);
    }
  }

  /**
   * Vieta's formula for the sum of the roots holds for newton_method's result
   * whenever cardano_method takes a closed-form branch other than the
   * trigonometric one: the four real parts add up to -b/a.
   */
  lemma NewtonRootSum(p: Quartic, root: real, m: Elementary)
    requires p.a != 0.0
    requires var q := Deflated(p, root); Classify(Reduce(q.b3, q.c3, q.d3, q.k3)) != ThreeReal
    ensures root + SumRe(CubicRoots(p, root, m)) == -(p.b / p.a)
    ensures SumIm(CubicRoots(p, root, m)) == 0.0
  {
    var q := Deflated(p, root);
    assert q.c3 == p.b + p.a * root;
    QuotientOf(q.c3, p.a, p.b / p.a + root);
  }

  /** What solve_quartic returns: a list of roots, or the string "any number". */
  datatype Solutions = Finite(roots: seq<Root>) | AnyNumber

  /** The degree of the equation: the position of the first nonzero coefficient. */
  function Degree(p: Quartic): nat
  {
    if p.a != 0.0 then 4
    else if p.b != 0.0 then 3
    else if p.c != 0.0 then 2
    else if p.d != 0.0 then 1
    else 0
  }

  /**
   * What solve_quartic promises of its result s: "any number" exactly when every
   * coefficient is zero; as many roots as the degree; for a quartic, the Newton
   * root (with all NewtonResult says of it under the default arguments), the
   * deflation identity for it and the roots of its cubic quotient; the cubic
   * and quadratic solvers' results for lower degrees; an exact root of a linear
   * equation; and no real root when the list is empty.
   */
  ghost predicate QuarticSolved(p: Quartic, m: Elementary, s: Solutions)
  {
    (s.AnyNumber? <==> p.a == 0.0 && p.b == 0.0 && p.c == 0.0 && p.d == 0.0 && p.k == 0.0) &&
    (s.Finite? ==> |s.roots| == Degree(p)) &&
    (p.a != 0.0 ==>
       s.Finite? && |s.roots| == 4 && s.roots[0].Re? &&
       NewtonResult(p, DefaultStart, DefaultTolerance, DefaultIterations, s.roots[0].r) &&
       DeflatesTo(p, s.roots[0].r) &&
       s.roots[1..] == CubicRoots(p, s.roots[0].r, m)) &&
    (p.a == 0.0 && p.b != 0.0 ==> s == Finite(CardanoMethod(p.b, p.c, p.d, p.k, m))) &&
    (p.a == 0.0 && p.b == 0.0 && p.c != 0.0 ==> s == Finite(VietaQuadratic(p.c, p.d, p.k, m))) &&
    (Degree(p) == 1 ==> s.Finite? && |s.roots| == 1 && s.roots[0].Re? && Eval(p, s.roots[0].r) == 0.0) &&
    (s == Finite([]) ==> forall x :: Eval(p, x) != 0.0) &&
    (s == AnyNumber ==> forall x :: Eval(p, x) == 0.0)
  }

  /** solve_quartic: the solver chosen by the first nonzero coefficient. */
  method SolveQuartic(p: Quartic, m: Elementary) returns (s: Solutions)
    ensures QuarticSolved(p, m, s)
  {
    if p.a != 0.0 {
      var roots := NewtonMethod(p, DefaultStart, DefaultTolerance, DefaultIterations, m);
      return Finite(roots);
    } else if p.b != 0.0 {
      return Finite(CardanoMethod(p.b, p.c, p.d, p.k, m));
    } else if p.c != 0.0 {
      return Finite(VietaQuadratic(p.c, p.d, p.k, m));
    } else if p.d != 0.0 {
      var x := -p.k / p.d;
      assert p.d * x + p.k == 0.0;
      return Finite([Re(x)]);
    } else if p.k == 0.0 {
      return AnyNumber;
    } else {
      return Finite([]);
    }
  }

  /**
   * main's handling of solve_quartic's result: "any number" and the empty list
   * are reported as they are; any other list loses its duplicates first.
   */
  method SolveDistinct(p: Quartic, m: Elementary, round4: real -> real) returns (raw: Solutions, s: Solutions)
    ensures QuarticSolved(p, m, raw)
    ensures raw.Finite? && raw.roots != [] ==> s == Finite(Unique(raw.roots, RoundedKey(round4)))
    ensures !(raw.Finite? && raw.roots != []) ==> s == raw
    ensures s.AnyNumber? <==> p.a == 0.0 && p.b == 0.0 && p.c == 0.0 && p.d == 0.0 && p.k == 0.0
    ensures s.Finite? ==> 1 <= |s.roots| <= Degree(p) || (s.roots == [] && Degree(p) == 0)
    ensures s.Finite? ==>
      forall i, j | 0 <= i < j < |s.roots| :: RoundedKey(round4)(s.roots[i]) != RoundedKey(round4)(s.roots[j])
  {
    raw := SolveQuartic(p, m);
    s := raw;
    if raw.Finite? && |raw.roots| != 0 {
      var unique := RemoveDuplicateRoots(raw.roots, RoundedKey(round4));
      UniqueKeysDistinct(raw.roots, RoundedKey(round4));
      UniqueLength(raw.roots, RoundedKey(round4));
      s := Finite(unique);
    }
  }
}
