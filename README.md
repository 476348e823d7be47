# Numerical-methods labs in Dafny

This project models the two numerical-methods labs of the repository.

- **lab1/main.py** solves a x⁴ + b x³ + c x² + d x + k = 0:
  - `newton_method_single` finds one real root by Newton's method over a fixed grid of start points;
  - `divide_polynomial`/`horner_step` deflate the quartic by that root using Horner's rule;
  - `cardano_method` solves the remaining cubic;
  - `vieta_quadratic` covers the quadratic case;
  - `solve_quartic` dispatches on the first nonzero coefficient;
  - `remove_duplicate_roots` removes roots that are equal after rounding.
- **lab2/main.py** solves A x = b by Gauss–Southwell relaxation (`relaxation_method`):
  - each step zeroes the largest scaled residual;
  - the script first rejects non-square matrices (`is_square_matrix`), then singular ones (`determinant`, cofactor expansion along row 0), then zero diagonals.
- **lab2/old.py** solves A x = b by successive over-relaxation (`sor_method`):
  - x is updated in place, and a snapshot of x is taken before each sweep;
  - the loop stops when the sweep's change is small in the max norm (`vector_norm_diff`);
  - before solving, `main` checks the row count, each row's length and each diagonal entry.

Floats are modelled as `real`.

- **Imperative code stays imperative.** The following are Dafny methods with loops over arrays or sequences:
  - the Newton search;
  - de-duplication;
  - the relaxation setup, pivot search and update;
  - the SOR sweep and its inner sums;
  - the norm.

  Each is proved against a specification function: `Descend`, `Unique`, `Relaxed`, `SweepN`, `MaxAbsDiff`. The properties the code promises are proved as lemmas about those functions.
- **Pure code is modelled as functions.** Horner deflation, Cardano's reduction and branching, the Vieta formulas, the determinant and the squareness test are functions.
- **Elementary functions are parameters.** `math.sqrt`, `cmath.sqrt`, `** (1/3)`, `math.acos`, `math.cos` and `math.pi` are fields of an `Elementary` value that the solvers receive. The model assumes of them only that a square root of a positive number is positive. A few lemmas additionally assume that `sqrt` is a true square root at the one point they use.
- **Rounding is a parameter too.** `round(·, 4)` is the parameter `round4` of the de-duplication key.

`determinant` of an empty matrix returns 0: its `for` loop runs over `range(0)` (lab2/main.py:81-84).

Module layout (one file each):

| module | contents |
|---|---|
| `Reals` | `Abs` and real-arithmetic helpers |
| `Roots` | `Root`, `Quartic`, `Cubic`, `Elementary` |
| `Newton` | the Newton search |
| `Deflation` | Horner deflation |
| `Cardano` | the cubic solver |
| `Vieta` | the quadratic solver |
| `Dedup` | de-duplication |
| `Solver` | `newton_method`, `solve_quartic` and main's result handling |
| `Linear` | row sums and the zero vector |
| `Determinant` | `is_square_matrix` and `determinant` |
| `Relaxation` | `relaxation_method` and lab2/main.py's script checks |
| `Sor` | lab2/old.py |

## Model

| member | source | states |
|---|---|---|
| Roots.Eval | lab1/main.py:19 | definition: a x⁴ + b x³ + c x² + d x + k, the `fx` of the inner loop; `Deflation.DeflationIdentity` and `Solver.DeflationResidual` are about it |
| Roots.Slope | lab1/main.py:20 | definition: 4a x³ + 3b x² + 2c x + d, the `fpx` of the inner loop; `Newton.Descend`'s flat and settled cases are stated with it |
| Newton.StartPoints | lab1/main.py:10 | exactly 403 start points: 0.0, then x0, then x/2 for x = -200 .. 200 |
| Newton.Descend | lab1/main.py:18-43 | how one start point's inner loop ends: a hit has \|f\| < tolerance; a flat slope has \|f'\| < 1e-15; a settled step moves less than tolerance to a point with \|f\| >= tolerance; no iterations means the start point itself |
| Newton.Descent | lab1/main.py:15-43 | the inner loop from one start point ends exactly as `Descend` says |
| Newton.NewtonSingle | lab1/main.py:7-51 | `NewtonResult`: the result has \|f\| < tolerance or \|f\| <= \|f(x0)\|; if some start point hits, the result is the first hit's point; if none hits, the result is at least as good as every point the search compared, and it is the first point with the least \|f\| in comparison order (x0, then per start point the settled step's target before the point where the loop stopped), so a tie keeps the earlier point as the strict `<` does; and the result is x0 or a point the search compared |
| Newton.CompareAfter | lab1/main.py:36-49 | a point compared after the first n start points, or one compared after start point n, is compared after the first n + 1 |
| Newton.HitResult | lab1/main.py:15-40 | the landing of the first start point that hits satisfies `NewtonResult` |
| Newton.NoHitResult | lab1/main.py:47-51 | when no start point hits, a best point that beats every landing, was compared and is the first least point of what was compared satisfies `NewtonResult` |
| Newton.FirstHitUnique | lab1/main.py:15-24 | a start point that hits, with no hit before it, is the only first hit |
| Newton.SearchStep | lab1/main.py:15-49 | one pass of the outer loop over a start point that does not hit keeps the loop invariant, with the best point moved as the two strict comparisons move it |
| Newton.MinStep | lab1/main.py:36-49 | after the pass, the best point is still the first point with the least \|f\| among everything compared so far |
| Newton.KeepMin | lab1/main.py:36-38 | comparing a point no better than the best keeps the best as the first least point of what was compared |
| Newton.NewMin | lab1/main.py:36-38 | comparing a strictly better point makes it the first least point of what was compared |
| Newton.FirstHitExists | lab1/main.py:15-24 | if some start point hits, one of them is the first to hit |
| Newton.NewtonResultUnique | lab1/main.py:7-51 | `NewtonResult` holds of one value only, so it fixes newton_method_single's result, tie-break included |
| Newton.Improve | lab1/main.py:36-38 | a point with smaller \|f\| still beats every landing the previous best beat |
| Deflation.HornerStep | lab1/main.py:60-72 | the result extends acc by one entry per coefficient; the first entry is coeffs[0] when nothing has been accumulated, otherwise each entry is its coefficient plus the previous entry times root |
| Deflation.DividePolynomial | lab1/main.py:59-75 | b3 = a, c3 = b + b3·r, d3 = c + c3·r, k3 = d + d3·r |
| Deflation.DeflationIdentity | lab1/main.py:53-75 | for every x, p(x) = (x − r)·q(x) + (k + r·k3) |
| Deflation.RemainderIsValue | lab1/main.py:53-75 | the discarded remainder k + r·k3 equals p(r) |
| Deflation.ExactRootIff | lab1/main.py:53-75 | r is an exact root of p iff the remainder is zero |
| Deflation.DeflatedKeepsOtherRoots | lab1/main.py:84-89 | when r is exact, every other root of p is a root of the cubic and vice versa |
| Solver.NewtonMethod | lab1/main.py:78-94 | four roots: the real root from newton_method_single, with everything `NewtonResult` says about it for the given x0, tolerance and max_iterations; then cardano_method's three roots of the deflated cubic; the cubic times (x − root1), plus p(root1), is p |
| Solver.DeflationResidual | lab1/main.py:84 | p(x) = (x − root)·deflated(x) + p(root) for every x |
| Solver.NewtonRootSum | lab1/main.py:84-94 | in the non-trigonometric branches, the four real parts sum to −b/a and the imaginary parts to 0 |
| Cardano.Reduce | lab1/main.py:100-111 | definition: a2 = c/b, a1 = d/b, a0 = k/b, p = a1 − a2²/3, q = 2a2³/27 − a1·a2/3 + a0, Q = p/3, R = q/2, D = Q³ + R²; `Cardano.DepressedForm` proves the substitution |
| Cardano.Classify | lab1/main.py:115-143 | definition: triple root when \|D\| and \|R\| are below 1e-10, double root when only \|D\| is, one real root and a pair when D > 0, three real roots otherwise; `Cardano.CardanoMethod`'s contract is stated per branch |
| Cardano.CubeRoot | lab1/main.py:132-133 | definition: v^(1/3) for v ≥ 0 and −\|v\|^(1/3) otherwise, the real cube root the source builds by hand |
| Cardano.DepressedForm | lab1/main.py:98-106 | substituting x = t − a2/3 turns b x³ + c x² + d x + k into b (t³ + p t + q) |
| Cardano.CardanoMethod | lab1/main.py:97-151 | always three roots: three reals except when D > 0, where there is one real root and a conjugate pair; the triple-root branch gives −(c/b)/3 three times; the double-root branch repeats its second root; outside the trigonometric branch the roots sum to −c/b |
| Vieta.VietaQuadratic | lab1/main.py:154-168 | two roots summing to −d/c; a negative discriminant gives conjugates with real part −d/(2c); otherwise two reals |
| Vieta.VietaProduct | lab1/main.py:154-168 | with a true square root of \|discriminant\|, x1·x2 = k/c and its imaginary part is 0 |
| Vieta.ZeroDiscriminantDoubleRoot | lab1/main.py:165-166 | a zero discriminant gives x1 = x2 = −d/(2c) |
| Dedup.Unique | lab1/main.py:173-181 | definition: the input with every root dropped whose key an earlier root already has; the `Dedup` lemmas below are about it |
| Dedup.RoundedKey | lab1/main.py:174-177 | definition: a real root's key is round(r, 4), a complex root's the pair (round(re, 4), round(im, 4)) |
| Dedup.RemoveDuplicateRoots | lab1/main.py:170-182 | the loop's output is exactly `Unique(roots, key)` |
| Dedup.UniqueKeysDistinct | lab1/main.py:179-181 | the output keys are pairwise distinct |
| Dedup.UniqueKeySet | lab1/main.py:179-181 | the output has exactly the input's set of keys |
| Dedup.UniqueFirstSeen | lab1/main.py:173-181 | each kept root is the first input root with its key |
| Dedup.UniqueInInputOrder | lab1/main.py:173-181 | kept roots appear in the order their keys first occur in the input |
| Dedup.UniqueOfDistinct | lab1/main.py:170-182 | an input with distinct keys is returned unchanged |
| Dedup.UniqueIdempotent | lab1/main.py:170-182 | de-duplicating twice is de-duplicating once |
| Dedup.UniqueLength | lab1/main.py:170-182 | the output has no more roots than the input, and a nonempty input keeps its first root |
| Dedup.FirstIndex | lab1/main.py:179 | the first input position with a given key |
| Solver.SolveQuartic | lab1/main.py:185-217 | `QuarticSolved`: the sentinel iff all coefficients are zero; otherwise as many roots as the degree, taken from the first nonzero coefficient; a ≠ 0 gives newton_method's roots, with `NewtonResult` for the first root under x0 = 1.0, tolerance 1e-10 and 1000 iterations, and the deflation identity for it; b gives cardano_method's roots, c gives vieta_quadratic's; d gives an exact root; `[]` means no x is a root; the sentinel means every x is |
| Solver.SolveDistinct | lab1/main.py:231-238 | main's handling of solve_quartic's result `raw`, which satisfies `QuarticSolved`: the sentinel and `[]` are passed on as they are; any other list becomes `Unique(raw, round-4 key)`, keeping between 1 and degree roots with distinct rounded keys |
| Linear.RowSum | lab2/old.py:40-47 | the accumulation loop computes Σ row[j]·v[j] over the range |
| Linear.SumSplit | lab2/old.py:40-49 | a row sum over [lo, hi) splits at any mid point |
| Linear.SumUpdate | lab2/main.py:49-56 | adding delta to v[s] adds row[s]·delta to the sum |
| Determinant.AllRowsOfLength | lab2/main.py:69-71 | true iff every row has length n |
| Determinant.IsSquareMatrix | lab2/main.py:65-72 | false for no rows; otherwise true iff every row is as long as there are rows |
| Determinant.Minor | lab2/main.py:83 | the minor without row 0 and column k is (n−1)×(n−1), with the entries of the columns left and right of k |
| Determinant.Det | lab2/main.py:74-84 | definition: m[0][0] for 1×1, ad − bc for 2×2, otherwise `CofactorSum` over every column; the `Determinant` lemmas below are about it |
| Determinant.CofactorSum | lab2/main.py:81-83 | definition: Σ_{k' < k} (−1)^k'·m[0][k']·det(minor k'), the partial sum of the source's loop |
| Determinant.DetExpansion | lab2/main.py:74-84 | for n ≥ 2 the determinant is the cofactor expansion along row 0; for 2×2 that is ad − bc |
| Determinant.DetEmpty | lab2/main.py:75-84 | an empty matrix has determinant 0 |
| Determinant.DetLowerTriangular | lab2/main.py:74-84 | a lower-triangular matrix has the product of its diagonal as determinant |
| Determinant.DetIdentity | lab2/main.py:74-84 | a nonempty identity matrix has determinant 1, so it passes the singularity check |
| Determinant.DetZeroFirstRow | lab2/main.py:74-84 | a zero first row gives determinant 0 |
| Relaxation.BuildIteration | lab2/main.py:25-30 | P[i][j] is −1 on the diagonal and −A[i][j]/A[i][i] off it; c[i] = b[i]/A[i][i] |
| Relaxation.Start | lab2/main.py:25-34 | P as above, x all zeros, and R[i] the scaled residual of row i at x = 0 |
| Relaxation.InitialResidual | lab2/main.py:33-34 | at x = 0 the scaled residual of row i is c[i] |
| Relaxation.IterationEntryUniform | lab2/main.py:30 | P[i][j] = −A[i][j]/A[i][i] for every j, the diagonal included |
| Relaxation.IterationFormIsResidual | lab2/main.py:28-34 | c[i] + Σ_j P[i][j]·x[j] = (b[i] − Σ_j A[i][j]·x[j]) / A[i][i] |
| Relaxation.PivotAmong | lab2/main.py:39-44 | the first row among 0 .. k−1 with a largest \|residual\| |
| Relaxation.Pivot | lab2/main.py:39-44 | the loop picks the smallest index with maximal \|R[s]\|, and max_r = \|R[s]\| |
| Relaxation.PivotOf | lab2/main.py:39-44 | the pivot row of x is a row index; `Relaxation.Pivot` and `Relaxation.PivotAmong` say which |
| Relaxation.Relax | lab2/main.py:49-50 | one relaxation step: x with x[s] increased by row s's scaled residual, same length; `Relaxation.StepResidual` says what it does to the residuals |
| Relaxation.RelaxAt | lab2/main.py:49-56 | x changes only at s, by delta = R[s]; R[s] becomes 0; every other R[i] gains P[i][s]·delta |
| Relaxation.StepResidual | lab2/main.py:49-56 | after the step, row s's scaled residual is 0 and every other row's moves by P[i][s]·delta |
| Relaxation.MovedResidual | lab2/main.py:49-50 | adding delta to x[s] lowers row i's residual b[i] − Σ A[i][j]·x[j] by A[i][s]·delta |
| Relaxation.RelaxKeepingResiduals | lab2/main.py:49-56 | the step keeps R equal to the scaled residuals of the new x |
| Relaxation.Relaxed | lab2/main.py:36-58 | the loop from x: a vector of length n after at most fuel steps |
| Relaxation.RelaxedSettled | lab2/main.py:36-58 | a loop that stops before its fuel runs out leaves every \|scaled residual\| below eps |
| Relaxation.RelaxedStops | lab2/main.py:39-47 | when the pivot's \|scaled residual\| is below eps, the loop stops at once with x unchanged |
| Relaxation.RelaxedSteps | lab2/main.py:39-58 | otherwise one step moves x[s] by R[s] and the rest of the loop continues from there with one fewer step left |
| Relaxation.Iteration | lab2/main.py:37-58 | one pass of the while loop keeps R equal to the scaled residuals of x; when it stops, x is unchanged and `Relaxed` from x takes no step; otherwise `Relaxed` from the old x is one step followed by `Relaxed` from the new x |
| Relaxation.ExactSolutionStops | lab2/main.py:46-47 | started at an exact solution, the loop stops before its first step |
| Relaxation.RelaxationMethod | lab2/main.py:21-63 | the result is exactly `Relaxed` from x = 0; it has length n = len(b); the count is ≤ max_iter; below max_iter every \|residual\| < eps |
| Relaxation.SolveSystem | lab2/main.py:86-104 | rejects in source order: non-square; then det == 0; then, row by row, a missing row and a zero diagonal; then an empty b; otherwise it solves with eps = 1e-9 |
| Sor.MaxAbsDiff | lab2/old.py:20-27 | the max norm of the difference: ≥ 0, ≥ every \|x_new[i] − x_old[i]\|, and equal to one of them unless it is 0 |
| Sor.MaxAbsDiffSame | lab2/old.py:20-27 | equal vectors have norm difference 0 |
| Sor.MaxAbsDiffBelow | lab2/old.py:55 | the norm is below tol iff tol > 0 and every difference is below tol |
| Sor.VectorNormDiff | lab2/old.py:20-27 | the loop computes `MaxAbsDiff` |
| Sor.Numerator | lab2/old.py:38-49 | definition: b[i] − Σ_{j<i} A[i][j]·x[j] − Σ_{j>i} A[i][j]·x_old[j], the numerator of x_gs; `Sor.NumeratorExact` is about it |
| Sor.GaussSeidel | lab2/old.py:49 | definition: x_gs, the numerator divided by A[i][i]; `Sor.GaussSeidelFixed` is about it |
| Sor.SorEntry | lab2/old.py:52 | definition: (1 − ω)·x_old[i] + ω·x_gs; `Sor.SorEntryFixed` is about it |
| Sor.Sweep | lab2/old.py:38-52 | one sweep from the snapshot: a vector of the same length; `Sor.SweepInPlace` computes it and `Sor.SweepFixedPoint`/`Sor.FixedPointSolves` characterise its fixed points |
| Sor.SweepN | lab2/old.py:34-52 | k sweeps from x, each of the same length; `Sor.SorMethod` returns x after `sweeps` of them |
| Sor.SweepPrefix | lab2/old.py:38-52 | the first k steps of a sweep leave entries k and later at their snapshot values |
| Sor.SweepPrefixFinal | lab2/old.py:38-52 | an entry written by the sweep is not written again |
| Sor.SweepInPlace | lab2/old.py:38-52 | the in-place sweep turns x into `Sweep(x_old)`: x[i] = (1−ω)·x_old[i] + ω·x_gs, with this sweep's values below i and the snapshot above i |
| Sor.NumeratorExact | lab2/old.py:38-49 | row i of A x = b holds iff b[i] − sum_new − sum_old, taken at x, equals A[i][i]·x[i] |
| Sor.GaussSeidelFixed | lab2/old.py:49 | x_gs = x[i] iff the numerator is A[i][i]·x[i] |
| Sor.SorEntryFixed | lab2/old.py:52 | the relaxed value is x[i] when x_gs = x[i], and with ω ≠ 0 only then |
| Sor.SweepFixedPoint | lab2/old.py:38-52 | a sweep from an exact solution leaves x unchanged |
| Sor.FixedPointSolves | lab2/old.py:38-52 | with ω ≠ 0, only an exact solution is left unchanged by a sweep |
| Sor.ExactStartSettles | lab2/old.py:34-57 | from an exact solution the first sweep is settled for any tol > 0 |
| Sor.SweepAndMeasure | lab2/old.py:35-55 | one sweep takes x from k sweeps to k + 1 sweeps from zero, and the measured change is below tol exactly when sweep k + 1 is settled |
| Sor.SorMethod | lab2/old.py:29-60 | the result is x after `sweeps` sweeps from zero; sweeps ≤ max_iter; it returns early exactly at the first sweep whose change is < tol, and otherwise after max_iter sweeps |
| Sor.ScreenAndSolve | lab2/old.py:73-90 | a wrong row count is reported first; then, row by row, a bad row length before that row's zero diagonal; otherwise sor_method runs with ω = 1.2, tol = 1e-6, max_iter = 1000, and the result carries `Sor.SorMethod`'s guarantees: it stops at the first settled sweep, and an unconverged run has made all 1000 sweeps |

## Left out

- File and console I/O are not modelled:
  - `read_matrix` and `read_vector` in both lab2 files;
  - lab1's `main` reading coefficients with `input()`, and `format_root`;
  - all `print`/`exit` output. Each solver's outcome datatype (`Solutions`, `Verdict`, `Outcome`) stands in for these messages.
- IEEE-754 floating point is not modelled: everything is over exact `real`. The tests' accuracy claims, and convergence of the Newton, relaxation and SOR iterations, are analytic properties and are not proved.
- Newton.NewtonSingle: floating-point overflow on huge iterates is not modelled.
- Cardano.CardanoMethod: the cube roots, `acos` and `cos` are abstract functions. The model proves the reduction, the branch choice and the shape of each branch's roots, but not that the roots solve the cubic.
- Dedup.RemoveDuplicateRoots: `round(·, 4)` is an abstract key function. Python's `isinstance(root, complex)` test becomes the `Re`/`Cx` case of `Root`.
- Solver.NewtonMethod: requires a ≠ 0. With a = 0 the source divides by zero inside `cardano_method`; `solve_quartic` only calls it with a ≠ 0.
- Relaxation.RelaxationMethod: requires len(b) ≥ 1 even when max_iter = 0. In that case the source returns `([], 0)` without reading R[0]. `SolveSystem` models an empty b, under the default max_iter, as the `EmptyRightSide` rejection (the IndexError on R[0]).
- Relaxation.RelaxationMethod: also requires len(A) ≥ len(b), rows of at least len(b) entries and a nonzero diagonal (`WellPosed`). Where these fail, the source raises ZeroDivisionError or IndexError at lines 28 and 30 of lab2/main.py. The script's only call comes after checks that establish them, as `SolveSystem` shows.
- Relaxation.SolveSystem: the IndexError that `A[i][i]` raises when len(b) > len(A) becomes the `MissingRow` outcome, and the ValueError for a zero diagonal becomes `ZeroDiagonal`.
- Determinant.Det: requires a square matrix, although `determinant` accepts some others. With rows longer than the row count it answers: `determinant([[1, 2, 3]])` is 1 (lab2/main.py:77-78), and a 2×3 matrix gives m00·m11 − m01·m10 (line 80). Only rows that are too short make it raise IndexError. The model excludes non-square matrices because the script calls `determinant` only after `is_square_matrix` has accepted the matrix.
- Determinant: linearity of the determinant in a row is not proved; only the triangular, identity, zero-row and empty-matrix facts are.
- Sor.SorMethod: requires len(A) ≥ len(b), rows of at least len(b) entries and a nonzero diagonal (`SorPosed`), which `main` checks first. Otherwise the source raises IndexError or ZeroDivisionError at lines 42, 47 and 49 of lab2/old.py.
- The test scripts (lab1/tests.py, lab2/test_main.py) are not modelled. lab2/test_main.py expects messages the code never prints. The checks in lab1/tests.py:24-49 describe `newton_method_single`, not `newton_method`.
