/**
 * relaxation_method and the checks of the main block in lab2/main.py: the
 * Gauss-Southwell relaxation, which repeatedly zeroes the largest scaled
 * residual, and the order in which the script rejects its input.
 */
module Relaxation {
  import opened Reals
  import opened Linear
  import opened Determinant

  /**
   * What relaxation_method indexes: n = len(b) >= 1 (it reads R[0]), at least
   * n rows of at least n entries, and a nonzero diagonal (it divides by it).
   */
  predicate WellPosed(A: seq<seq<real>>, b: seq<real>)
  {
    0 < |b| <= |A| && forall i | 0 <= i < |b| :: |A[i]| >= |b| && A[i][i] != 0.0
  }

  /** P[i][j] of the source: -1 on the diagonal and -A[i][j] / A[i][i] off it. */
  function IterationEntry(A: seq<seq<real>>, i: nat, j: nat): real
    requires i < |A| && i < |A[i]| && j < |A[i]| && A[i][i] != 0.0
  {
    if i == j then -1.0 else -A[i][j] / A[i][i]
  }

  /** The diagonal entry -1 is the off-diagonal formula too, so P[i] is -A[i] / A[i][i]. */
  lemma IterationEntryUniform(A: seq<seq<real>>, i: nat, j: nat)
    requires i < |A| && i < |A[i]| && j < |A[i]| && A[i][i] != 0.0
    ensures IterationEntry(A, i, j) == -(A[i][j] / A[i][i])
  {
    if i == j {
      var e := A[i][i];
      assert e / e == 1.0;
    }
  }

  /** b[i] - sum_j A[i][j] * x[j]: the residual of row i. */
  function Residual(A: seq<seq<real>>, b: seq<real>, x: seq<real>, i: nat): real
    requires WellPosed(A, b) && |x| == |b| && i < |b|
  {
    b[i] - Sum(A[i], x, 0, |b|)
  }

  /** The residual of row i scaled by its diagonal entry: what R[i] holds. */
  function ScaledResidual(A: seq<seq<real>>, b: seq<real>, x: seq<real>, i: nat): real
    requires WellPosed(A, b) && |x| == |b| && i < |b|
  {
    Residual(A, b, x, i) / A[i][i]
  }

  /** Row i of P, as the setup loop fills it. */
  function IterationRow(A: seq<seq<real>>, i: nat, n: nat): (row: seq<real>)
    requires i < |A| && i < n <= |A[i]| && A[i][i] != 0.0
    ensures |row| == n && forall j | 0 <= j < n :: row[j] == IterationEntry(A, i, j)
  {
    seq(n, j requires 0 <= j < n => IterationEntry(A, i, j))
  }

  /**
   * The source keeps R[i] as c[i] + sum_j P[i][j] * x[j], with c[i] = b[i] / A[i][i];
   * that is the scaled residual of row i.
   */
  lemma {:induction false} IterationFormIsResidual(A: seq<seq<real>>, b: seq<real>, x: seq<real>, i: nat)
    requires WellPosed(A, b) && |x| == |b| && i < |b|
    ensures b[i] / A[i][i] + Sum(IterationRow(A, i, |b|), x, 0, |b|) == ScaledResidual(A, b, x, i)
  {
    var n := |b|;
    IterationRowScaled(A, i, n);
    SumScale(A[i], IterationRow(A, i, n), -(1.0 / A[i][i]), x, 0, n);
    ResidualForm(b[i], A[i][i], Sum(IterationRow(A, i, n), x, 0, n), Sum(A[i], x, 0, n));
  }

  lemma ResidualForm(bi: real, e: real, scaled: real, total: real)
    requires e != 0.0 && scaled == (-(1.0 / e)) * total
    ensures bi / e + scaled == (bi - total) / e
  {
    QuotientStep(bi, 1.0, total, e);
    assert bi - 1.0 * total == bi - total;
  }

  lemma IterationRowScaled(A: seq<seq<real>>, i: nat, n: nat)
    requires i < |A| && i < n <= |A[i]| && A[i][i] != 0.0
    ensures forall j | 0 <= j < n :: IterationRow(A, i, n)[j] == (-(1.0 / A[i][i])) * A[i][j]
  {
    forall j | 0 <= j < n
      ensures IterationRow(A, i, n)[j] == (-(1.0 / A[i][i])) * A[i][j]
    {
      IterationEntryUniform(A, i, j);
      NegatedQuotient(A[i][j], A[i][i]);
    }
  }

  /** At the start x is zero, so every residual R[i] is c[i] = b[i] / A[i][i]. */
  lemma InitialResidual(A: seq<seq<real>>, b: seq<real>, i: nat)
    requires WellPosed(A, b) && i < |b|
    ensures ScaledResidual(A, b, Zeros(|b|), i) == b[i] / A[i][i]
  {
    SumZero(A[i], Zeros(|b|), 0, |b|);
  }

  /**
   * One relaxation step at s with delta = R[s]: the residual of row s
   * becomes 0 and every other residual moves by P[i][s] * delta.
   */
  lemma {:induction false} StepResidual(A: seq<seq<real>>, b: seq<real>, x: seq<real>, s: nat, i: nat)
    requires WellPosed(A, b) && |x| == |b| && s < |b| && i < |b|
    ensures var delta := ScaledResidual(A, b, x, s);
      ScaledResidual(A, b, x[s := x[s] + delta], i) ==
        if i == s then 0.0 else ScaledResidual(A, b, x, i) + IterationEntry(A, i, s) * delta
  {
    var delta := ScaledResidual(A, b, x, s);
    var e, v := A[i][i], A[i][s];
    var u := Residual(A, b, x, i);
    MovedResidual(A, b, x, s, i, delta);
    assert ScaledResidual(A, b, x[s := x[s] + delta], i) == (u - v * delta) / e;
    if i == s {
      PivotRowZeroed(u, e);
    } else {
      QuotientStep(u, v, delta, e);
      IterationEntryUniform(A, i, s);
    }
  }

  /** Moving x[s] by delta moves row i's residual by -A[i][s] * delta. */
  lemma MovedResidual(A: seq<seq<real>>, b: seq<real>, x: seq<real>, s: nat, i: nat, delta: real)
    requires WellPosed(A, b) && |x| == |b| && s < |b| && i < |b|
    ensures Residual(A, b, x[s := x[s] + delta], i) == Residual(A, b, x, i) - A[i][s] * delta
  {
    SumUpdate(A[i], x, s, delta, 0, |b|);
  }

  /** The pivot row after its step: (u - e * (u / e)) / e == 0. */
  lemma PivotRowZeroed(u: real, e: real)
    requires e != 0.0
    ensures (u - e * (u / e)) / e == 0.0
  {
    assert e * (u / e) == u;
  }

  /**
   * The first row i < k with a largest |scaled residual|: the choice of the
   * pivot loop after it has looked at rows 0 .. k - 1. Its > is strict, so
   * ties go to the earlier row.
   */
  function PivotAmong(A: seq<seq<real>>, b: seq<real>, x: seq<real>, k: nat): (s: nat)
    requires WellPosed(A, b) && |x| == |b| && 1 <= k <= |b|
    ensures s < k
    ensures forall j | 0 <= j < k :: Abs(ScaledResidual(A, b, x, j)) <= Abs(ScaledResidual(A, b, x, s))
    ensures forall j | 0 <= j < s :: Abs(ScaledResidual(A, b, x, j)) < Abs(ScaledResidual(A, b, x, s))
    decreases k
  {
    if k == 1 then 0
    else
      var t := PivotAmong(A, b, x, k - 1);
      if Abs(ScaledResidual(A, b, x, k - 1)) > Abs(ScaledResidual(A, b, x, t)) then k - 1 else t
  }

  /** The final approximation and the number of relaxation steps taken. */
  datatype Run = Run(x: seq<real>, iterations: nat)

  /** The same approximation, reached after k more steps. */
  function Shift(r: Run, k: nat): (r': Run)
    ensures r'.x == r.x && r'.iterations == r.iterations + k
  {
    Run(r.x, r.iterations + k)
  }

  /** The row the pivot loop picks for x: the first with a largest |scaled residual|. */
  function PivotOf(A: seq<seq<real>>, b: seq<real>, x: seq<real>): (s: nat)
    requires WellPosed(A, b) && |x| == |b|
    ensures s < |b|
  {
    PivotAmong(A, b, x, |b|)
  }

  /** One relaxation step: x[s] += R[s] at the pivot s. */
  function Relax(A: seq<seq<real>>, b: seq<real>, x: seq<real>): (x': seq<real>)
    requires WellPosed(A, b) && |x| == |b|
    ensures |x'| == |b|
  {
    var s := PivotOf(A, b, x);
    x[s := x[s] + ScaledResidual(A, b, x, s)]
  }

  /**
   * The while loop of relaxation_method from x with fuel iterations left:
   * stop when the largest residual is below eps, otherwise relax at the pivot.
   */
  function Relaxed(A: seq<seq<real>>, b: seq<real>, eps: real, x: seq<real>, fuel: nat): (r: Run)
    requires WellPosed(A, b) && |x| == |b|
    ensures |r.x| == |b| && r.iterations <= fuel
    decreases fuel
  {
    if fuel == 0 then Run(x, 0)
    else if Abs(ScaledResidual(A, b, x, PivotOf(A, b, x))) < eps then Run(x, 0)
    else Shift(Relaxed(A, b, eps, Relax(A, b, x), fuel - 1), 1)
  }

  /** Stopping before the fuel runs out means every |scaled residual| is below eps. */
  lemma {:induction false} RelaxedSettled(A: seq<seq<real>>, b: seq<real>, eps: real, x: seq<real>, fuel: nat)
    requires WellPosed(A, b) && |x| == |b|
    ensures var r := Relaxed(A, b, eps, x, fuel);
      r.iterations < fuel ==> forall i | 0 <= i < |b| :: Abs(ScaledResidual(A, b, r.x, i)) < eps
    decreases fuel
  {
    if fuel > 0 {
      var s := PivotOf(A, b, x);
      if Abs(ScaledResidual(A, b, x, s)) >= eps {
        RelaxedSettled(A, b, eps, Relax(A, b, x), fuel - 1);
      }
    }
  }

  /** An exact solution is left alone: the loop stops before its first step. */
  lemma ExactSolutionStops(A: seq<seq<real>>, b: seq<real>, eps: real, x: seq<real>, fuel: nat)
    requires WellPosed(A, b) && |x| == |b| && eps > 0.0
    requires forall i | 0 <= i < |b| :: Sum(A[i], x, 0, |b|) == b[i]
    ensures Relaxed(A, b, eps, x, fuel) == Run(x, 0)
  {
    if fuel > 0 {
      var s := PivotOf(A, b, x);
      assert ScaledResidual(A, b, x, s) == (b[s] - Sum(A[s], x, 0, |b|)) / A[s][s] == 0.0;
    }
  }

  /**
   * The pivot search over R, which holds the scaled residuals of x:
   * max_r = abs(R[0]), then a strict > over i = 1 .. n - 1.
   */
  method Pivot(ghost A: seq<seq<real>>, ghost b: seq<real>, ghost x: seq<real>, R: array<real>) returns (s: nat, maxR: real)
    requires WellPosed(A, b) && |x| == |b| == R.Length
    requires forall i | 0 <= i < |b| :: R[i] == ScaledResidual(A, b, x, i)
    ensures s == PivotOf(A, b, x) && maxR == Abs(R[s])
  {
    maxR := Abs(R[0]);
    s := 0;
    for i := 1 to R.Length
      invariant s == PivotAmong(A, b, x, i) && maxR == Abs(R[s])
    {
      if Abs(R[i]) > maxR {
        maxR := Abs(R[i]);
        s := i;
      }
    }
  }

  /**
   * delta = R[s]; x[s] += delta; R[i] += P[i][s] * delta for i != s; R[s] = 0,
   * where P is the iteration matrix of A.
   */
  method RelaxAt(ghost A: seq<seq<real>>, P: array2<real>, x: array<real>, R: array<real>, s: nat)
    requires x.Length == R.Length == P.Length0 == P.Length1 && s < x.Length && x != R
    requires x.Length <= |A| && forall i | 0 <= i < x.Length :: |A[i]| >= x.Length && A[i][i] != 0.0
    requires forall i | 0 <= i < x.Length :: P[i, s] == IterationEntry(A, i, s)
    modifies x, R
    ensures x[..] == old(x[..])[s := old(x[s]) + old(R[s])]
    ensures forall i | 0 <= i < R.Length :: R[i] == if i == s then 0.0 else old(R[i]) + IterationEntry(A, i, s) * old(R[s])
  {
    var delta := R[s];
    x[s] := x[s] + delta;
    for i := 0 to R.Length
      invariant x[..] == old(x[..])[s := old(x[s]) + delta]
      invariant forall j | 0 <= j < i :: R[j] == if j == s then old(R[j]) else old(R[j]) + IterationEntry(A, j, s) * delta
      invariant forall j | i <= j < R.Length :: R[j] == old(R[j])
    {
      if i != s {
        R[i] := R[i] + P[i, s] * delta;
      }
    }
    R[s] := 0.0;
  }

  /** RelaxAt keeps R equal to the scaled residuals of x. */
  method RelaxKeepingResiduals(ghost A: seq<seq<real>>, ghost b: seq<real>, P: array2<real>, x: array<real>, R: array<real>, s: nat)
    requires WellPosed(A, b) && x.Length == R.Length == P.Length0 == P.Length1 == |b| && s < |b| && x != R
    requires forall i, j | 0 <= i < |b| && 0 <= j < |b| :: P[i, j] == IterationEntry(A, i, j)
    requires forall i | 0 <= i < |b| :: R[i] == ScaledResidual(A, b, x[..], i)
    modifies x, R
    ensures x[..] == old(x[..])[s := old(x[s]) + old(R[s])]
    ensures forall i | 0 <= i < |b| :: R[i] == ScaledResidual(A, b, x[..], i)
  {
    ghost var before, residuals := x[..], R[..];
    ghost var delta := ScaledResidual(A, b, before, s);
    assert residuals[s] == delta;
    RelaxAt(A, P, x, R, s);
    ghost var after := x[..];
    assert after == before[s := before[s] + delta];
    forall i | 0 <= i < |b|
      ensures R[i] == ScaledResidual(A, b, after, i)
    {
      assert R[i] == if i == s then 0.0 else residuals[i] + IterationEntry(A, i, s) * delta;
      StepResidual(A, b, before, s, i);
    }
  }

  /** The setup loops of relaxation_method: P[i][j] and c[i] = b[i] / A[i][i]. */
  method BuildIteration(A: seq<seq<real>>, b: seq<real>) returns (P: array2<real>, c: array<real>)
    requires WellPosed(A, b)
    ensures fresh(P) && fresh(c) && P.Length0 == |b| && P.Length1 == |b| && c.Length == |b|
    ensures forall i, j | 0 <= i < |b| && 0 <= j < |b| :: P[i, j] == IterationEntry(A, i, j)
    ensures forall i | 0 <= i < |b| :: c[i] == b[i] / A[i][i]
  {
    var n := |b|;
    P := new real[n, n];
    c := new real[n];
    for i := 0 to n
      invariant forall i', j | 0 <= i' < i && 0 <= j < n :: P[i', j] == IterationEntry(A, i', j)
      invariant forall i' | 0 <= i' < i :: c[i'] == b[i'] / A[i'][i']
    {
      c[i] := b[i] / A[i][i];
      for j := 0 to n
        invariant forall i', j' | 0 <= i' < i && 0 <= j' < n :: P[i', j'] == IterationEntry(A, i', j')
        invariant forall j' | 0 <= j' < j :: P[i, j'] == IterationEntry(A, i, j')
        invariant forall i' | 0 <= i' <= i :: c[i'] == b[i'] / A[i'][i']
      {
        P[i, j] := if i == j then -1.0 else -A[i][j] / A[i][i];
      }
    }
  }

  /** Below eps at the pivot, the loop stops where it is. */
  lemma RelaxedStops(A: seq<seq<real>>, b: seq<real>, eps: real, x: seq<real>, fuel: nat)
    requires WellPosed(A, b) && |x| == |b|
    requires Abs(ScaledResidual(A, b, x, PivotOf(A, b, x))) < eps
    ensures Relaxed(A, b, eps, x, fuel) == Run(x, 0)
  {
  }

  /** Otherwise it goes on from the relaxed x with one iteration less. */
  lemma RelaxedSteps(A: seq<seq<real>>, b: seq<real>, eps: real, x: seq<real>, fuel: nat, x': seq<real>)
    requires WellPosed(A, b) && |x| == |b| && fuel > 0
    requires Abs(ScaledResidual(A, b, x, PivotOf(A, b, x))) >= eps
    requires x' == x[PivotOf(A, b, x) := x[PivotOf(A, b, x)] + ScaledResidual(A, b, x, PivotOf(A, b, x))]
    ensures Relaxed(A, b, eps, x, fuel) == Shift(Relaxed(A, b, eps, x', fuel - 1), 1)
  {
  }

  /** The set-up of relaxation_method: P and c, then x = [0] * n and R = c[:]. */
  method Start(A: seq<seq<real>>, b: seq<real>) returns (P: array2<real>, x: array<real>, R: array<real>)
    requires WellPosed(A, b)
    ensures fresh(P) && fresh(x) && fresh(R) && x != R
    ensures P.Length0 == P.Length1 == x.Length == R.Length == |b|
    ensures forall i, j | 0 <= i < |b| && 0 <= j < |b| :: P[i, j] == IterationEntry(A, i, j)
    ensures x[..] == Zeros(|b|)
    ensures forall i | 0 <= i < |b| :: R[i] == ScaledResidual(A, b, x[..], i)
  {
    var n := |b|;
    var c;
    P, c := BuildIteration(A, b);
    x := new real[n](_ => 0.0);
    R := new real[n];
    forall i | 0 <= i < n {
      R[i] := c[i];
    }
    assert x[..] == Zeros(n);
    forall i | 0 <= i < n
      ensures R[i] == ScaledResidual(A, b, x[..], i)
    {
      InitialResidual(A, b, i);
    }
  }

  /**
   * One pass of the while loop with fuel iterations left: find the pivot,
   * stop if its residual is below eps, otherwise relax at it.
   */
  method Iteration(ghost A: seq<seq<real>>, ghost b: seq<real>, eps: real, P: array2<real>, x: array<real>, R: array<real>, ghost fuel: nat)
    returns (stop: bool)
    requires WellPosed(A, b) && x.Length == R.Length == P.Length0 == P.Length1 == |b| && x != R && fuel > 0
    requires forall i, j | 0 <= i < |b| && 0 <= j < |b| :: P[i, j] == IterationEntry(A, i, j)
    requires forall i | 0 <= i < |b| :: R[i] == ScaledResidual(A, b, x[..], i)
    modifies x, R
    ensures forall i | 0 <= i < |b| :: R[i] == ScaledResidual(A, b, x[..], i)
    ensures stop ==> x[..] == old(x[..]) && Relaxed(A, b, eps, x[..], fuel) == Run(x[..], 0)
    ensures !stop ==> Relaxed(A, b, eps, old(x[..]), fuel) == Shift(Relaxed(A, b, eps, x[..], fuel - 1), 1)
  {
    var s, maxR := Pivot(A, b, x[..], R);
    if maxR < eps {
      RelaxedStops(A, b, eps, x[..], fuel);
      return true;
    }
    ghost var before := x[..];
    RelaxKeepingResiduals(A, b, P, x, R, s);
    RelaxedSteps(A, b, eps, before, fuel, x[..]);
    return false;
  }

  /** After iter steps at x, the loop from zero is those steps followed by the loop from x. */
  ghost predicate Progress(A: seq<seq<real>>, b: seq<real>, eps: real, maxIter: nat, x: seq<real>, iter: nat)
    requires WellPosed(A, b)
  {
    |x| == |b| && iter <= maxIter &&
    Relaxed(A, b, eps, Zeros(|b|), maxIter) == Shift(Relaxed(A, b, eps, x, maxIter - iter), iter)
  }

  /**
   * relaxation_method(A, b, eps, max_iter): builds P and c, starts from
   * x = 0 and R = c, and relaxes until the largest residual is below eps or
   * max_iter steps are done. It returns x and the step count.
   */
  method RelaxationMethod(A: seq<seq<real>>, b: seq<real>, eps: real, maxIter: nat)
    returns (x: seq<real>, iterations: nat)
    requires WellPosed(A, b)
    ensures Run(x, iterations) == Relaxed(A, b, eps, Zeros(|b|), maxIter)
    ensures |x| == |b| && iterations <= maxIter
    ensures iterations < maxIter ==> forall i | 0 <= i < |b| :: Abs(ScaledResidual(A, b, x, i)) < eps
  {
    var n := |b|;
    var P, xs, R := Start(A, b);
    var iter := 0;
    while iter < maxIter
      modifies xs, R
      invariant forall i | 0 <= i < n :: R[i] == ScaledResidual(A, b, xs[..], i)
      invariant Progress(A, b, eps, maxIter, xs[..], iter)
      decreases maxIter - iter
    {
      var stop := Iteration(A, b, eps, P, xs, R, maxIter - iter);
      if stop {
        break;
      }
      iter := iter + 1;
    }
    x, iterations := xs[..], iter;
    RelaxedSettled(A, b, eps, Zeros(n), maxIter);
  }

  /** How the main block of lab2/main.py ends. */
  datatype Verdict =
    | NotSquare                          // "matrix A is not square", exit(1)
    | Singular                           // "matrix A is singular", exit(1)
    | ZeroDiagonal(row: nat)             // ValueError for A[row][row] == 0
    | MissingRow(row: nat)               // IndexError: len(b) > len(A) and A[row] does not exist
    | EmptyRightSide                     // IndexError: relaxation_method reads R[0] of an empty R
    | Solved(x: seq<real>, iterations: nat)

  const MainEps: real := 1.0e-9
  const DefaultMaxIter: nat := 10000

  /**
   * The main block after reading A and b: non-square first, then det == 0,
   * then the diagonal of rows 0 .. len(b) - 1, then relaxation_method with
   * eps = 1e-9 and the default max_iter.
   */
  method SolveSystem(A: seq<seq<real>>, b: seq<real>) returns (v: Verdict)
    ensures v == NotSquare <==> !IsSquareMatrix(A)
    ensures v == Singular <==> IsSquareMatrix(A) && Det(A) == 0.0
    ensures v.ZeroDiagonal? ==>
      IsSquareMatrix(A) && Det(A) != 0.0 && v.row < |b| && v.row < |A| && A[v.row][v.row] == 0.0 &&
      forall j | 0 <= j < v.row :: A[j][j] != 0.0
    ensures v.MissingRow? ==>
      IsSquareMatrix(A) && Det(A) != 0.0 && v.row == |A| < |b| && forall j | 0 <= j < |A| :: A[j][j] != 0.0
    ensures v == EmptyRightSide <==> IsSquareMatrix(A) && Det(A) != 0.0 && |b| == 0
    ensures v.Solved? <==> IsSquareMatrix(A) && Det(A) != 0.0 && WellPosed(A, b)
    ensures v.Solved? ==> WellPosed(A, b) && Run(v.x, v.iterations) == Relaxed(A, b, MainEps, Zeros(|b|), DefaultMaxIter)
  {
    if !IsSquareMatrix(A) {
      return NotSquare;
    }
    if Det(A) == 0.0 {
      return Singular;
    }
    for i := 0 to |b|
      invariant i <= |A| && forall j | 0 <= j < i :: A[j][j] != 0.0
    {
      if i >= |A| {
        return MissingRow(i);
      }
      if A[i][i] == 0.0 {
        return ZeroDiagonal(i);
      }
    }
    if |b| == 0 {
      return EmptyRightSide;
    }
    var x, iterations := RelaxationMethod(A, b, MainEps, DefaultMaxIter);
    return Solved(x, iterations);
  }
}
