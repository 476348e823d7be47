/**
 * sor_method, vector_norm_diff and the checks of main in lab2/old.py:
 * successive over-relaxation with an in-place x, a snapshot x_old taken
 * before every sweep, and a stop on a small max-norm change.
 */
module Sor {
  import opened Reals
  import opened Linear

  /**
   * max(|u[0] - v[0]|, ..., |u[k - 1] - v[k - 1]|), starting from 0.0 and
   * replacing the maximum only on a strict >, as vector_norm_diff does.
   */
  function MaxAbsDiff(u: seq<real>, v: seq<real>, k: nat): (r: real)
    requires k <= |u| && k <= |v|
    ensures r >= 0.0
    ensures forall i | 0 <= i < k :: Abs(u[i] - v[i]) <= r
    ensures r == 0.0 || exists i | 0 <= i < k :: r == Abs(u[i] - v[i])
    decreases k
  {
    if k == 0 then 0.0
    else
      var m := MaxAbsDiff(u, v, k - 1);
      var d := Abs(u[k - 1] - v[k - 1]);
      if d > m then d else m
  }

  /** The norm of the difference of equal vectors is zero. */
  lemma {:induction false} MaxAbsDiffSame(u: seq<real>, k: nat)
    requires k <= |u|
    ensures MaxAbsDiff(u, u, k) == 0.0
    decreases k
  {
    if k > 0 {
      MaxAbsDiffSame(u, k - 1);
    }
  }

  /** The norm is below tol exactly when tol is positive and every difference is below it. */
  lemma MaxAbsDiffBelow(u: seq<real>, v: seq<real>, k: nat, tol: real)
    requires k <= |u| && k <= |v|
    ensures MaxAbsDiff(u, v, k) < tol <==> tol > 0.0 && forall i | 0 <= i < k :: Abs(u[i] - v[i]) < tol
  {
    var r := MaxAbsDiff(u, v, k);
    if tol > 0.0 && forall i | 0 <= i < k :: Abs(u[i] - v[i]) < tol {
      if r != 0.0 {
        var i :| 0 <= i < k && r == Abs(u[i] - v[i]);
      }
    }
  }

  /** vector_norm_diff(x_new, x_old): it reads x_old[i] for every index of x_new. */
  method VectorNormDiff(xNew: seq<real>, xOld: seq<real>) returns (maxDiff: real)
    requires |xNew| <= |xOld|
    ensures maxDiff == MaxAbsDiff(xNew, xOld, |xNew|)
  {
    maxDiff := 0.0;
    for i := 0 to |xNew|
      invariant maxDiff == MaxAbsDiff(xNew, xOld, i)
    {
      var diff := Abs(xNew[i] - xOld[i]);
      if diff > maxDiff {
        maxDiff := diff;
      }
    }
  }

  /**
   * What sor_method indexes for n = len(b): rows 0 .. n - 1 of A, each with
   * at least n entries, and a nonzero diagonal it divides by.
   */
  predicate SorPosed(A: seq<seq<real>>, b: seq<real>)
  {
    |b| <= |A| && forall i | 0 <= i < |b| :: |A[i]| >= |b| && A[i][i] != 0.0
  }

  /** What the sweep needs of row i alone. */
  predicate RowPosed(A: seq<seq<real>>, b: seq<real>, i: nat)
  {
    i < |b| <= |A| && |A[i]| >= |b| && A[i][i] != 0.0
  }

  /**
   * bi - sum_{j < i} row[j] * y[j] - sum_{i < j < n} row[j] * xOld[j]: what
   * the equation row . x == bi leaves for the term of x[i].
   */
  function Numerator(row: seq<real>, bi: real, xOld: seq<real>, y: seq<real>, i: nat, n: nat): real
    requires i < n <= |row| && |xOld| == n && |y| == n
  {
    bi - Sum(row, y, 0, i) - Sum(row, xOld, i + 1, n)
  }

  /**
   * x_gs of the sweep, the numerator over A[i][i]. y is x as the sweep has
   * left it: new below i and old from i on.
   */
  function GaussSeidel(A: seq<seq<real>>, b: seq<real>, xOld: seq<real>, y: seq<real>, i: nat): real
    requires RowPosed(A, b, i) && |xOld| == |b| && |y| == |b|
  {
    Numerator(A[i], b[i], xOld, y, i, |b|) / A[i][i]
  }

  /** The new x[i] of a sweep: (1 - omega) * xOld[i] + omega * x_gs. */
  function SorEntry(A: seq<seq<real>>, b: seq<real>, omega: real, xOld: seq<real>, y: seq<real>, i: nat): real
    requires RowPosed(A, b, i) && |xOld| == |b| && |y| == |b|
  {
    (1.0 - omega) * xOld[i] + omega * GaussSeidel(A, b, xOld, y, i)
  }

  /** x after the first k steps of the sweep that started from xOld. */
  function SweepPrefix(A: seq<seq<real>>, b: seq<real>, omega: real, xOld: seq<real>, k: nat): (y: seq<real>)
    requires SorPosed(A, b) && |xOld| == |b| && k <= |b|
    ensures |y| == |b|
    ensures forall j | k <= j < |b| :: y[j] == xOld[j]
    decreases k
  {
    if k == 0 then xOld
    else
      var y := SweepPrefix(A, b, omega, xOld, k - 1);
      y[k - 1 := SorEntry(A, b, omega, xOld, y, k - 1)]
  }

  /** One sweep of `for i in range(n)`. */
  function Sweep(A: seq<seq<real>>, b: seq<real>, omega: real, x: seq<real>): (x': seq<real>)
    requires SorPosed(A, b) && |x| == |b|
    ensures |x'| == |b|
  {
    SweepPrefix(A, b, omega, x, |b|)
  }

  /** x after k sweeps. */
  function SweepN(A: seq<seq<real>>, b: seq<real>, omega: real, x: seq<real>, k: nat): (x': seq<real>)
    requires SorPosed(A, b) && |x| == |b|
    ensures |x'| == |b|
    decreases k
  {
    if k == 0 then x else Sweep(A, b, omega, SweepN(A, b, omega, x, k - 1))
  }

  /** Sweep k (k >= 1) moved no entry by tol or more: the test that makes sor_method return. */
  predicate Settled(A: seq<seq<real>>, b: seq<real>, omega: real, tol: real, x: seq<real>, k: nat)
    requires SorPosed(A, b) && |x| == |b|
  {
    k >= 1 && MaxAbsDiff(SweepN(A, b, omega, x, k), SweepN(A, b, omega, x, k - 1), |b|) < tol
  }

  /** An entry the sweep has written is not written again. */
  lemma {:induction false} SweepPrefixFinal(A: seq<seq<real>>, b: seq<real>, omega: real, xOld: seq<real>, k: nat, k': nat, j: nat)
    requires SorPosed(A, b) && |xOld| == |b| && j < k <= k' <= |b|
    ensures SweepPrefix(A, b, omega, xOld, k')[j] == SweepPrefix(A, b, omega, xOld, k)[j]
    decreases k' - k
  {
    if k < k' {
      SweepPrefixFinal(A, b, omega, xOld, k, k' - 1, j);
    }
  }

  /** (1 - omega) * v + omega * g == v when g == v, and for omega != 0 only then. */
  lemma RelaxedFixed(omega: real, v: real, g: real)
    ensures g == v ==> (1.0 - omega) * v + omega * g == v
    ensures omega != 0.0 && (1.0 - omega) * v + omega * g == v ==> g == v
  {
    if omega != 0.0 && (1.0 - omega) * v + omega * g == v {
      assert omega * (g - v) == 0.0;
    }
  }

  /** g = u / e equals q exactly when u == e * q, for e != 0. */
  lemma QuotientFixed(u: real, e: real, q: real, g: real)
    requires e != 0.0 && g == u / e
    ensures g == q <==> u == e * q
  {
    if u == e * q {
      QuotientOf(u, e, q);
    }
  }

  /** Row i's sum over all columns is its sum below i, its diagonal term and its sum above i. */
  lemma RowAround(row: seq<real>, x: seq<real>, i: nat, n: nat)
    requires i < n <= |row| && n <= |x|
    ensures Sum(row, x, 0, n) == Sum(row, x, 0, i) + row[i] * x[i] + Sum(row, x, i + 1, n)
  {
    SumSplit(row, x, 0, i, n);
    SumSplit(row, x, i, i + 1, n);
  }

  /** row[i] * x[i], the term of x[i] in the equation row . x == bi. */
  function DiagonalTerm(row: seq<real>, x: seq<real>, i: nat): real
    requires i < |row| && i < |x|
  {
    row[i] * x[i]
  }

  /** The equation row . x == bi holds exactly when its numerator for column i at x is row[i] * x[i]. */
  lemma NumeratorExact(row: seq<real>, bi: real, x: seq<real>, i: nat, n: nat)
    requires i < n <= |row| && |x| == n
    ensures Sum(row, x, 0, n) == bi <==> Numerator(row, bi, x, x, i, n) == DiagonalTerm(row, x, i)
  {
    RowAround(row, x, i, n);
  }

  /** The Gauss-Seidel value of x[i] at x is x[i] itself exactly when the numerator is A[i][i] * x[i]. */
  lemma GaussSeidelFixed(A: seq<seq<real>>, b: seq<real>, x: seq<real>, i: nat)
    requires RowPosed(A, b, i) && |x| == |b|
    ensures GaussSeidel(A, b, x, x, i) == x[i] <==> Numerator(A[i], b[i], x, x, i, |b|) == DiagonalTerm(A[i], x, i)
  {
    QuotientFixed(Numerator(A[i], b[i], x, x, i, |b|), A[i][i], x[i], GaussSeidel(A, b, x, x, i));
  }

  /** The relaxed value keeps x[i] when the Gauss-Seidel value does, and for omega != 0 only then. */
  lemma SorEntryFixed(A: seq<seq<real>>, b: seq<real>, omega: real, x: seq<real>, i: nat)
    requires RowPosed(A, b, i) && |x| == |b|
    ensures GaussSeidel(A, b, x, x, i) == x[i] ==> SorEntry(A, b, omega, x, x, i) == x[i]
    ensures omega != 0.0 && SorEntry(A, b, omega, x, x, i) == x[i] ==> GaussSeidel(A, b, x, x, i) == x[i]
  {
    RelaxedFixed(omega, x[i], GaussSeidel(A, b, x, x, i));
  }

  lemma {:induction false} ExactPrefix(A: seq<seq<real>>, b: seq<real>, omega: real, x: seq<real>, k: nat)
    requires SorPosed(A, b) && |x| == |b| && k <= |b|
    requires forall i | 0 <= i < |b| :: Sum(A[i], x, 0, |b|) == b[i]
    ensures SweepPrefix(A, b, omega, x, k) == x
    decreases k
  {
    if k > 0 {
      ExactPrefix(A, b, omega, x, k - 1);
      NumeratorExact(A[k - 1], b[k - 1], x, k - 1, |b|);
      GaussSeidelFixed(A, b, x, k - 1);
      SorEntryFixed(A, b, omega, x, k - 1);
    }
  }

  /** Fixed point: a sweep from an exact solution of A x = b leaves x unchanged. */
  lemma SweepFixedPoint(A: seq<seq<real>>, b: seq<real>, omega: real, x: seq<real>)
    requires SorPosed(A, b) && |x| == |b|
    requires forall i | 0 <= i < |b| :: Sum(A[i], x, 0, |b|) == b[i]
    ensures Sweep(A, b, omega, x) == x
  {
    ExactPrefix(A, b, omega, x, |b|);
  }

  /** A sweep that leaves x unchanged leaves x unchanged at every step. */
  lemma UnchangedPrefix(A: seq<seq<real>>, b: seq<real>, omega: real, x: seq<real>, k: nat)
    requires SorPosed(A, b) && |x| == |b| && k <= |b|
    requires Sweep(A, b, omega, x) == x
    ensures SweepPrefix(A, b, omega, x, k) == x
  {
    var y := SweepPrefix(A, b, omega, x, k);
    forall j | 0 <= j < k
      ensures y[j] == x[j]
    {
      SweepPrefixFinal(A, b, omega, x, j + 1, k, j);
      SweepPrefixFinal(A, b, omega, x, j + 1, |b|, j);
    }
  }

  /** And for omega != 0 only an exact solution is left unchanged by a sweep. */
  lemma FixedPointSolves(A: seq<seq<real>>, b: seq<real>, omega: real, x: seq<real>)
    requires SorPosed(A, b) && |x| == |b| && omega != 0.0
    requires Sweep(A, b, omega, x) == x
    ensures forall i | 0 <= i < |b| :: Sum(A[i], x, 0, |b|) == b[i]
  {
    forall i | 0 <= i < |b|
      ensures Sum(A[i], x, 0, |b|) == b[i]
    {
      UnchangedPrefix(A, b, omega, x, i);
      SweepPrefixFinal(A, b, omega, x, i + 1, |b|, i);
      SorEntryFixed(A, b, omega, x, i);
      GaussSeidelFixed(A, b, x, i);
      NumeratorExact(A[i], b[i], x, i, |b|);
    }
  }

  /** Started from an exact solution, the first sweep is settled for any positive tol. */
  lemma ExactStartSettles(A: seq<seq<real>>, b: seq<real>, omega: real, tol: real, x: seq<real>)
    requires SorPosed(A, b) && |x| == |b| && tol > 0.0
    requires forall i | 0 <= i < |b| :: Sum(A[i], x, 0, |b|) == b[i]
    ensures Settled(A, b, omega, tol, x, 1)
  {
    SweepFixedPoint(A, b, omega, x);
    MaxAbsDiffSame(x, |b|);
  }

  /** One sweep in place: x[i] = (1 - omega) * x_old[i] + omega * x_gs for i = 0 .. n - 1. */
  method SweepInPlace(A: seq<seq<real>>, b: seq<real>, omega: real, x: array<real>, xOld: seq<real>)
    requires SorPosed(A, b) && x.Length == |b| && x[..] == xOld
    modifies x
    ensures x[..] == Sweep(A, b, omega, xOld)
  {
    var n := |b|;
    for i := 0 to n
      invariant x[..] == SweepPrefix(A, b, omega, xOld, i)
    {
      ghost var y := x[..];
      var sumNew := RowSum(A[i], x[..], 0, i);
      var sumOld := RowSum(A[i], xOld, i + 1, n);
      var xgs := (b[i] - sumNew - sumOld) / A[i][i];
      assert xgs == GaussSeidel(A, b, xOld, y, i);
      var xi := (1.0 - omega) * xOld[i] + omega * xgs;
      assert xi == SorEntry(A, b, omega, xOld, y, i);
      x[i] := xi;
      assert x[..] == y[i := xi];
    }
  }

  /** None of sweeps 1 .. k from x was settled. */
  predicate NoneSettled(A: seq<seq<real>>, b: seq<real>, omega: real, tol: real, x: seq<real>, k: nat)
    requires SorPosed(A, b) && |x| == |b|
  {
    forall j | 1 <= j <= k :: !Settled(A, b, omega, tol, x, j)
  }

  /** No sweep of 1 .. k was settled and sweep k + 1 is not either. */
  lemma NoneSettledExtend(A: seq<seq<real>>, b: seq<real>, omega: real, tol: real, x: seq<real>, k: nat)
    requires SorPosed(A, b) && |x| == |b|
    requires NoneSettled(A, b, omega, tol, x, k) && !Settled(A, b, omega, tol, x, k + 1)
    ensures NoneSettled(A, b, omega, tol, x, k + 1)
  {
  }

  /**
   * Iteration k + 1 of sor_method: snapshot x, sweep, and measure how far x
   * moved; the sweep is settled exactly when that distance is below tol.
   */
  method SweepAndMeasure(A: seq<seq<real>>, b: seq<real>, omega: real, tol: real, x: array<real>, ghost k: nat)
    returns (diff: real)
    requires SorPosed(A, b) && x.Length == |b| && x[..] == SweepN(A, b, omega, Zeros(|b|), k)
    modifies x
    ensures x[..] == SweepN(A, b, omega, Zeros(|b|), k + 1)
    ensures diff == MaxAbsDiff(x[..], old(x[..]), |b|)
    ensures Settled(A, b, omega, tol, Zeros(|b|), k + 1) <==> diff < tol
  {
    var xOld := x[..];
    SweepInPlace(A, b, omega, x, xOld);
    diff := VectorNormDiff(x[..], xOld);
  }

  /**
   * sor_method(A, b, omega, tol, max_iter): x starts at zero; each of at most
   * max_iter iterations snapshots x, sweeps, and returns as soon as the sweep
   * moved x by less than tol in the max norm. sweeps is the iteration count
   * the converged message reports; converged tells the two messages apart.
   */
  method SorMethod(A: seq<seq<real>>, b: seq<real>, omega: real, tol: real, maxIter: nat)
    returns (x: seq<real>, sweeps: nat, converged: bool)
    requires SorPosed(A, b)
    ensures sweeps <= maxIter && x == SweepN(A, b, omega, Zeros(|b|), sweeps)
    ensures converged == Settled(A, b, omega, tol, Zeros(|b|), sweeps)
    ensures !converged ==> sweeps == maxIter
    ensures forall k | 1 <= k < sweeps :: !Settled(A, b, omega, tol, Zeros(|b|), k)
  {
    var n := |b|;
    var xs := new real[n](_ => 0.0);
    assert xs[..] == Zeros(n);
    for iteration := 0 to maxIter
      invariant xs[..] == SweepN(A, b, omega, Zeros(n), iteration)
      invariant NoneSettled(A, b, omega, tol, Zeros(n), iteration)
    {
      var diff := SweepAndMeasure(A, b, omega, tol, xs, iteration);
      if diff < tol {
        return xs[..], iteration + 1, true;
      }
      NoneSettledExtend(A, b, omega, tol, Zeros(n), iteration);
    }
    return xs[..], maxIter, false;
  }

  /** How main in lab2/old.py ends once A and b are read. */
  datatype Outcome =
    | DimensionMismatch                  // the row count of A differs from len(b)
    | BadRowLength(row: nat)             // row `row` of A does not have len(b) entries
    | ZeroDiagonal(row: nat)             // A[row][row] == 0
    | Solved(x: seq<real>, sweeps: nat, converged: bool)

  /** The parameters main passes to sor_method. */
  const Omega: real := 1.2
  const Tolerance: real := 1.0e-6
  const MaxIterations: nat := 1000

  /**
   * main: the row count first, then for each row in turn its length and its
   * diagonal entry, then sor_method with omega = 1.2, tol = 1e-6 and
   * max_iter = 1000.
   */
  method ScreenAndSolve(A: seq<seq<real>>, b: seq<real>) returns (v: Outcome)
    ensures v == DimensionMismatch <==> |A| != |b|
    ensures v.BadRowLength? ==>
      |A| == |b| && v.row < |A| && |A[v.row]| != |b| &&
      forall j | 0 <= j < v.row :: |A[j]| == |b| && A[j][j] != 0.0
    ensures v.ZeroDiagonal? ==>
      |A| == |b| && v.row < |A| && |A[v.row]| == |b| && A[v.row][v.row] == 0.0 &&
      forall j | 0 <= j < v.row :: |A[j]| == |b| && A[j][j] != 0.0
    ensures v.Solved? <==> |A| == |b| && forall i | 0 <= i < |A| :: |A[i]| == |b| && A[i][i] != 0.0
    ensures v.Solved? ==>
      SorPosed(A, b) && v.sweeps <= MaxIterations &&
      v.x == SweepN(A, b, Omega, Zeros(|b|), v.sweeps) &&
      v.converged == Settled(A, b, Omega, Tolerance, Zeros(|b|), v.sweeps) &&
      (!v.converged ==> v.sweeps == MaxIterations) &&
      forall k | 1 <= k < v.sweeps :: !Settled(A, b, Omega, Tolerance, Zeros(|b|), k)
  {
    if |A| != |b| {
      return DimensionMismatch;
    }
    for i := 0 to |A|
      invariant forall j | 0 <= j < i :: |A[j]| == |b| && A[j][j] != 0.0
    {
      if |A[i]| != |b| {
        return BadRowLength(i);
      }
      if A[i][i] == 0.0 {
        return ZeroDiagonal(i);
      }
    }
    var x, sweeps, converged := SorMethod(A, b, Omega, Tolerance, MaxIterations);
    return Solved(x, sweeps, converged);
  }
}
