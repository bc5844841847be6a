# Numerical kernel of Projeto2_CalculoNumerico, in Dafny

This project models the numerical routines of a small numerical-methods
course project and proves what they compute. Numbers are exact `real`s.
A Python exception that a routine catches and turns into `None` (an index
past the end, a division by zero, a singular system) becomes `None` of an
`Option`. Python lists that the routines copy and then change are `seq`
values here. So the caller's arguments can never change, and the copies
are local variables that the loops reassign.

- `gauss_elimination` (`gauss_elimination.dfy`, module `GaussElimination`):
  - **Forward phase.** Partial pivoting picks the first row with the
    largest `|A[i][k]|`. The row of `A` and the entry of `b` are exchanged
    together. The routine fails on a zero pivot, then eliminates the
    entries below the pivot.
  - **Back-substitution.** Fills in `x` from the last row up.
  - **Step log.** An optional log of abstract events.
  - **Specification.** Recursive functions (`ForwardFrom`, `BackFrom`,
    `Solve`) specify the loops.
  - **What is proved.** The result solves the caller's original system;
    the forward phase leaves an upper-triangular matrix with a nonzero
    diagonal; the solution does not depend on the log flag. On a system
    with all its coefficients the routine fails exactly when the matrix is
    singular (it has a nonzero null vector): a failure means a singular
    matrix, and a singular matrix always fails.
- `gauss_seidel` (`gauss_seidel.dfy`, module `GaussSeidel`) and
  `gauss_seidel_with_history` from `app.py`:
  - **Sweep.** Updates `x[i]` in place from the new values before `i` and
    the old values after it.
  - **Stopping rule.** Stops at the first sweep whose largest change is
    below `tol`, or when the sweep budget runs out.
  - **History variant.** Has a default initial guess `b[i] / A[i][i]` and
    keeps one snapshot per sweep.
  - **What is proved.**
    - How the count and the stopping rule relate.
    - The fixed points of a sweep are exactly the solutions of the system.
    - A zero error means the previous iterate already solved the system.
    - The history grows by one snapshot per sweep and the earlier
      snapshots stay as they were.
- `lagrange_interp` and `newton_interp`, in three files:
  - **Files.** `interpolation.dfy` holds the Lagrange form,
    `divided_differences.dfy` the divided differences, and
    `interpolators.dfy` the two routines as loops.
  - **Newton's table.** Built in place with a descending inner index and
    shown to hold `f[x0, ..., xk]`.
  - **Agreement.** On distinct nodes the Newton value equals the Lagrange
    value. To prove this, the recursive divided difference is first shown
    equal to its explicit form `sum_i y_i / prod_{j != i} (x_i - x_j)`.
  - **Interpolation.** Both forms return `y[k]` at node `x[k]`.
  - **Exactness.** `polynomial_exactness.dfy` (module
    `PolynomialExactness`) shows that on the values of a polynomial of
    degree below the number of distinct nodes both forms give that
    polynomial's value at every point, not only at the nodes. The
    polynomial is divided repeatedly by `(t - x[k])` to obtain its Newton
    coefficients, and those are shown to be the table of divided
    differences.
- `trapezio_repetido` and `simpson_repetido` (`integration.dfy`, module
  `Integration`):
  - **Results.** Each routine returns `None` exactly when it raises.
  - **Sum of simple rules.** Each composite formula equals the sum of the
    simple rule over its intervals, or over its pairs of intervals for
    Simpson.
  - **Exactness.** On equally spaced samples, the trapezoid rule is exact
    for straight lines and Simpson's rule is exact for cubics.

`linear_algebra.dfy` holds the shared vectors, matrices, dot products and
sums. `wrappers.dfy` holds `Option`.

## Model

| member | source | states |
|---|---|---|
| GaussElimination.PivotRow | Projeto2.py:20 | the pivot row lies in `[k, n)`, its `abs(A[i][k])` is maximal, and every earlier row in the range has a strictly smaller one (Python's `max` keeps the first maximum) |
| GaussElimination.Swap | Projeto2.py:21-23 | exchanging two rows (or two entries of `b`) puts each in the other's place, leaves every other row (entry) as it was and keeps the length |
| GaussElimination.ColumnStep | Projeto2.py:19-40 | one column that succeeds leaves a system of the same shape whose pivot at `k` is nonzero |
| GaussElimination.SwapLogged | Projeto2.py:21-25 | a column's log opens with a row exchange exactly when the pivot row differs from `k` |
| GaussElimination.RowMinus | Projeto2.py:38-39 | the reduced row: entries `k .. n-1` become `A[i][j] - m * A[k][j]`, the others stay as they were |
| GaussElimination.PartlyEliminated | Projeto2.py:34-40 | the matrix once the row loop has reduced rows `k+1 .. i-1`; it keeps the shape of the system |
| GaussElimination.ColumnLog | Projeto2.py:31-37 | the log lines of column `k` after the row loop has reached row `i`: the heading plus one line per reduced row, so `i - k` lines (1 before any row) |
| GaussElimination.ColumnLogStarts | Projeto2.py:31-37 | the log lines of a column begin with its elimination heading |
| GaussElimination.ZeroPivotMeansZeroColumn | Projeto2.py:20-28 | "Sistema singular." is raised only when column `k` is zero from row `k` down |
| GaussElimination.ColumnStepKeepsRows | Projeto2.py:18-40 | a column never changes the rows above `k` |
| GaussElimination.PartlyEliminatedRow | Projeto2.py:34-39 | after the row loop has reached row `i`, exactly rows `k+1 .. i-1` are reduced |
| GaussElimination.PartlyEliminatedRhsEntry | Projeto2.py:34-40 | the same for the right-hand side: entries `k+1 .. i-1` are `c[r] - m * c[k]`, the rest unchanged |
| GaussElimination.ReducedRowDot | Projeto2.py:35-39 | a reduced row's product with any `x` is the old row's product minus `m` times the pivot row's |
| GaussElimination.SwapSound | Projeto2.py:21-23 | every solution of the exchanged system solves the system before the exchange |
| GaussElimination.EliminationSound | Projeto2.py:34-40 | every solution of the reduced system solves the system before the reduction |
| GaussElimination.EliminationZeroBelow | Projeto2.py:34-39 | reducing by row `k` clears column `k` below the diagonal and keeps the earlier columns cleared |
| GaussElimination.ForwardFrom | Projeto2.py:18-40 | the forward phase, when it succeeds, keeps the rows above its starting column and leaves every later pivot nonzero |
| GaussElimination.ForwardSound | Projeto2.py:18-40 | every solution of the system the forward phase leaves solves the system it started from |
| GaussElimination.ForwardTriangular | Projeto2.py:18-40 | the forward phase leaves an upper-triangular matrix |
| GaussElimination.BackValue | Projeto2.py:48 | `x[i] = (b[i] - s) / A[i][i]` makes `A[i][i] * x[i] + s == b[i]` |
| GaussElimination.BackStable | Projeto2.py:46-48 | an entry of `x`, once computed, is not changed by the later (lower-index) steps |
| GaussElimination.BackFrom | Projeto2.py:43-48 | the vector `x`, started as `[0] * n`, once rows `n - 1` down to `i` are back-substituted; it has `n` entries |
| GaussElimination.BackLog | Projeto2.py:44-50 | one log line per back-substituted row: `n - i` lines for rows `n - 1` down to `i` |
| GaussElimination.BackSolves | Projeto2.py:43-48 | back-substitution solves an upper-triangular system with a nonzero diagonal |
| GaussElimination.Solve | Projeto2.py:12-58 | a returned solution has one entry per equation |
| GaussElimination.SolveSatisfies | Projeto2.py:7-58 | a returned solution satisfies `A x == b` for the caller's original `A` and `b` |
| GaussElimination.EliminatedZeros | Projeto2.py:34-40 | reducing a zero right-hand side leaves it zero |
| GaussElimination.ColumnNullVector | Projeto2.py:27-28 | when column `k` is zero from row `k` down and the earlier columns are reduced with nonzero pivots, some nonzero `v` has `A v == 0` |
| GaussElimination.ReducedSingular | Projeto2.py:20-40 | a nonzero null vector of the exchanged and reduced matrix is a nonzero null vector of the matrix before that column |
| GaussElimination.ForwardFailsSingular | Projeto2.py:18-40 | a forward phase that raises "Sistema singular." from column `k`, the earlier columns reduced, was run on a singular matrix |
| GaussElimination.SolveFailsSingular | Projeto2.py:7-58 | on a system with all its coefficients, the routine returns no solution only when `A` is singular, so a non-singular `A` always gets one |
| GaussElimination.SwapComplete | Projeto2.py:21-23 | every solution of the system before the exchange solves the exchanged system |
| GaussElimination.EliminationComplete | Projeto2.py:34-40 | every solution of the system before the reduction solves the reduced system |
| GaussElimination.MultiplierClears | Projeto2.py:35-39 | `A[i][k] -= m * A[k][k]` with `m = A[i][k] / A[k][k]` leaves zero below the pivot |
| GaussElimination.ForwardNullComplete | Projeto2.py:18-40 | a null vector of the matrix the forward phase starts from is a null vector of the triangular matrix it leaves |
| GaussElimination.TriangularNullTail | Projeto2.py:43-48 | against an upper-triangular matrix with a nonzero diagonal, a null vector is zero from any row on |
| GaussElimination.SolvedNonsingular | Projeto2.py:7-58 | when the routine returns a solution, the only null vector of `A` is zero |
| GaussElimination.SingularFails | Projeto2.py:7-58 | on a system with all its coefficients, a singular `A` always gets no solution; with `SolveFailsSingular`, the routine fails exactly when `A` is singular |
| GaussElimination.SingularExample | Projeto2.py:27-28 | the singular system `[[1, 2], [2, 4]]`, `[1, 1]` gets no solution |
| GaussElimination.Eliminate | Projeto2.py:7-58 | the routine returns `Solve`'s solution whatever `return_steps` is, and with it the log, also on failure |
| GaussElimination.ForwardPhase | Projeto2.py:18-40 | the `for k` loop computes the forward phase and its log, stopping at the first zero pivot |
| GaussElimination.EliminateColumn | Projeto2.py:19-40 | one pass of the `for k` loop: pivot, exchange, singularity test, reduction |
| GaussElimination.ReduceBelow | Projeto2.py:31-40 | the row loop reduces every row below `k` and its right-hand side, logging one update per row |
| GaussElimination.ReduceRow | Projeto2.py:38-39 | the innermost loop computes `A[i][j] - m * A[k][j]` for `j` in `[k, n)` and keeps the other entries |
| GaussElimination.BackSubstitute | Projeto2.py:43-50 | the back-substitution loop computes `BackFrom` and its log |
| GaussSeidel.RowSolution | Projeto2.py:117-119 | the new `x[i]` makes `A[i][i] * x[i] + s1 + s2 == b[i]` |
| GaussSeidel.SweepTo | Projeto2.py:116-119 | the iterate once `x[0] .. x[i-1]` have been updated in a sweep; it keeps the length of the old iterate |
| GaussSeidel.Sweep | Projeto2.py:116-119 | one whole sweep over all equations; it keeps the length of the iterate |
| GaussSeidel.MaxChange | Projeto2.py:121 | the error `max(abs(x[i] - x_old[i]))` over the first `n` components, never negative |
| GaussSeidel.Iterate | Projeto2.py:113-119 | the iterate after `k` sweeps from `x0`; it keeps the length of `x0` |
| GaussSeidel.StopsAt | Projeto2.py:113-125 | `c` is the count the routine returns: every earlier sweep has an error of at least `tol`, and `c` is the budget or sweep `c` has an error below `tol` |
| GaussSeidel.MaxChangeIsMax | Projeto2.py:121 | the measured error bounds every component's change and equals one of them |
| GaussSeidel.MaxChangeZero | Projeto2.py:121 | the error is zero exactly when no component changed |
| GaussSeidel.SweepToEntry | Projeto2.py:116-119 | during a sweep the rows passed keep their new values and the others still hold the old iterate |
| GaussSeidel.SweepEquation | Projeto2.py:116-119 | after a sweep equation `i` holds with the new unknowns before `i` and the old ones after it |
| GaussSeidel.SolutionStays | Projeto2.py:116-119 | a sweep from a solution of the system leaves it unchanged |
| GaussSeidel.FixedPointIffSolution | Projeto2.py:116-119 | a sweep leaves `x` unchanged if and only if `x` solves the system |
| GaussSeidel.SweepTail | Projeto2.py:116-119 | a sweep leaves the entries of `x` beyond the last unknown alone |
| GaussSeidel.ZeroChangeIffSolved | Projeto2.py:113-122 | a sweep's error is zero if and only if the iterate it started from solves the system |
| GaussSeidel.StopsAtUnique | Projeto2.py:113-125 | the stopping rule determines the returned count |
| GaussSeidel.LastErrorDecides | Projeto2.py:113-125 | a count equal to the budget means convergence exactly when the last sweep's error is below `tol` |
| GaussSeidel.RunSweep | Projeto2.py:116-119 | the `for i` loop computes one sweep, overwriting `x[i]` in place |
| GaussSeidel.GaussSeidel | Projeto2.py:108-129 | fails exactly on an empty system, a missing coefficient, a short `x0` or a zero diagonal; otherwise returns the iterate after the first sweep whose error is below `tol` with its number, or after the whole budget; no sweeps for a budget below 1 |
| GaussSeidel.InitialGuess | app.py:72-73 | the default guess solves each equation with every other unknown at zero |
| GaussSeidel.History | app.py:77-85 | the history after `c` sweeps: entry `j` is the number `j + 1`, the iterate of that sweep and its error, so it has `c` entries |
| GaussSeidel.HistoryGrows | app.py:85 | each sweep appends one snapshot and leaves the earlier snapshots unchanged |
| GaussSeidel.GaussSeidelWithHistory | app.py:68-88 | starts from `x0` or the default guess; returns the count of the stopping rule, the iterate of that sweep, and one numbered snapshot per sweep, so the history has as many entries as the count |
| GaussSeidel.SweepsWithHistory | app.py:77-88 | the `for k` loop stops at the first error below `tol` or after `max_iter` sweeps, with the history of all sweeps run |
| GaussSeidel.RecordSweep | app.py:79-85 | one turn of the `for k` loop: the next iterate, its error and the extended history |
| Interpolation.DistinctNodes | Projeto2.py:188 | on distinct nodes every divisor `x[i] - x[j]`, `i != j`, is nonzero |
| Interpolation.OtherFactorsWith | Projeto2.py:186-188 | the product of `(t - x[j])` over `j != i`, times `(t - x[i])`, is the product over all nodes |
| Interpolation.Basis | Projeto2.py:185-188 | the factor `L` of node `i` once the inner loop has passed `j < m`: the product of `(x0 - x[j]) / (x[i] - x[j])` over `j != i` |
| Interpolation.Lagrange | Projeto2.py:184-189 | the running `total` over `m` nodes once the terms `L * y[i]` of nodes `i < k` are added |
| Interpolation.BasisAtOwnNode | Projeto2.py:185-188 | the factor `L` of node `k` is 1 at `x0 = x[k]` |
| Interpolation.BasisAtOtherNode | Projeto2.py:185-188 | the factor `L` of node `i` is 0 at any other node |
| Interpolation.LagrangeAtNodeUpTo | Projeto2.py:184-189 | the running `total` at `x0 = x[k]` is `y[k]` once node `k` has been added, 0 before |
| Interpolation.LagrangeAtNode | Projeto2.py:180-192 | the Lagrange form interpolates: at `x[k]` it gives `y[k]` |
| DividedDifferences.DD | Projeto2.py:206-208 | the divided difference `f[x_lo, ..., x_hi-1]`: `y[lo]` for one node, else the difference of the two lower-order ones divided by `x[hi-1] - x[lo]` |
| DividedDifferences.Table | Projeto2.py:203-208 | the finished table: entry `k` is `f[x_0, ..., x_k]`, one entry per node |
| DividedDifferences.NewtonEval | Projeto2.py:211-215 | the Newton form `dd[0] + dd[1] * (x0 - x[0]) + ...` with `m` terms, accumulated as the evaluation loop does |
| DividedDifferences.Divided | Projeto2.py:208 | the quotient times the gap of the nodes gives back the difference of the entries |
| DividedDifferences.TermFirstNode | Projeto2.py:206-208 | the explicit weight of node `i` over `[lo, hi)` is its weight over `[lo+1, hi)` divided by `x[i] - x[lo]` |
| DividedDifferences.ExplicitRecurrence | Projeto2.py:206-208 | the explicit form obeys the divided-difference recurrence |
| DividedDifferences.DDExplicit | Projeto2.py:206-208 | the recursive divided difference `f[x_lo, ..., x_hi-1]` equals `sum_i y_i / prod_{j != i} (x_i - x_j)` |
| DividedDifferences.TableIsExplicit | Projeto2.py:203-208 | entry `m` of the table is the explicit form over the first `m + 1` nodes |
| DividedDifferences.BasisTerm | Projeto2.py:185-189 | each Lagrange term `L * y[i]` is the product over the other nodes times node `i`'s explicit weight |
| DividedDifferences.BasisGrow | Projeto2.py:185-189 | adding node `m` changes an old Lagrange term by that node's share of the next Newton term |
| DividedDifferences.BasisNew | Projeto2.py:185-189 | the Lagrange term of the new node `m` is its weight times the Newton product of the first `m` nodes |
| DividedDifferences.LagrangeStep | Projeto2.py:180-192 | the Lagrange value on `m + 1` nodes is the value on `m` nodes plus `f[x_0, ..., x_m]` times the Newton product |
| DividedDifferences.NewtonIsLagrange | Projeto2.py:195-219 | on distinct nodes the Newton form of the table equals the Lagrange form, over any first `m` nodes |
| DividedDifferences.NewtonAtNode | Projeto2.py:195-219 | the Newton form interpolates: at `x[k]` it gives `y[k]` |
| PolynomialExactness.DeflateSplit | Projeto2.py:211-215 | dividing a polynomial by `(t - s)` leaves its value at `s` as remainder: `p(t) == p(s) + (t - s) * q(t)` |
| PolynomialExactness.NewtonUpTo | Projeto2.py:211-215 | after `m` divisions by the node factors a polynomial is its first `m` Newton terms plus the node product times the quotient left |
| PolynomialExactness.NewtonBasis | Projeto2.py:211-215 | a polynomial with one coefficient per node equals, at every point, the Newton form of its Newton coefficients |
| PolynomialExactness.CoefficientsUnique | Projeto2.py:211-215 | two Newton forms on distinct nodes that agree at every node have the same coefficients |
| PolynomialExactness.TableOfPolynomial | Projeto2.py:203-208 | on the values of a polynomial with one coefficient per distinct node, the table of divided differences is that polynomial's Newton coefficients |
| PolynomialExactness.NewtonExact | Projeto2.py:195-219 | on the values of a polynomial of degree below the number of distinct nodes, `newton_interp` returns that polynomial's value at every `x0` |
| PolynomialExactness.LagrangeExact | Projeto2.py:180-192 | on the values of a polynomial of degree below the number of distinct nodes, `lagrange_interp` returns that polynomial's value at every `x0` |
| Interpolators.LagrangeInterp | Projeto2.py:180-192 | fails exactly when two nodes coincide or `y` is shorter than `x`; otherwise returns the Lagrange form, which gives `y[k]` at each node `x[k]`, and 0 for no nodes |
| Interpolators.BasisFactor | Projeto2.py:185-188 | the inner loop computes the basis factor `L` of node `i` |
| Interpolators.StageUpdate | Projeto2.py:206-208 | pass `j` turns entry `i >= j` into the next-order divided difference from entries `i` and `i - 1` of the previous pass |
| Interpolators.StageDone | Projeto2.py:206-208 | pass `j` leaves the finished entries below `j` unchanged |
| Interpolators.StageEnds | Projeto2.py:203-208 | the list starts as `y[:n]` and, after the last pass, holds the finished table |
| Interpolators.TablePass | Projeto2.py:207-208 | one descending pass raises every entry from `j` up by one order, reading each `dd[i-1]` before it is overwritten |
| Interpolators.DividedDifferenceTable | Projeto2.py:203-208 | the table loop leaves `dd[k] = f[x_0, ..., x_k]` for every `k` |
| Interpolators.NewtonEvaluate | Projeto2.py:211-215 | the evaluation loop computes the nested Newton form |
| Interpolators.NewtonInterp | Projeto2.py:195-219 | fails exactly on no nodes, `y` shorter than `x` or two equal nodes; otherwise returns the table of divided differences and the Newton value, which equals the Lagrange value |
| Integration.Trapezoid | Projeto2.py:259-264 | fails exactly when `x[1]` or `y[0]` is missing |
| Integration.TrapezoidRule | Projeto2.py:262 | the composite formula `h * (y[0] + y[-1] + 2 * sum(y[1:-1])) / 2` |
| Integration.TrapezoidPrefix | Projeto2.py:262 | the first `k` simple trapezoids add up to the step times the end samples once and the inner ones twice, halved |
| Integration.TrapezoidRuleIsPanelSum | Projeto2.py:262 | the composite formula is the sum of the simple rule over each interval |
| Integration.TrapezoidIsPanelSum | Projeto2.py:259-264 | `trapezio_repetido` is the sum of the simple rule over each interval |
| Integration.TrapezoidPanelExact | Projeto2.py:262 | on one interval the simple trapezoid rule integrates a straight line exactly |
| Integration.TrapezoidExactPrefix | Projeto2.py:262 | over samples of a line the first `k` trapezoids give the integral over `[0, k]` |
| Integration.TrapezoidExact | Projeto2.py:259-264 | on equally spaced samples of a straight line `trapezio_repetido` returns its exact integral |
| Integration.Simpson | Projeto2.py:266-277 | fails exactly when `x[1]` is missing, the number of intervals is odd, or the last odd sample is missing |
| Integration.SimpsonRule | Projeto2.py:272-275 | the composite formula `h * (y[0] + y[-1] + 4 * (odd samples) + 2 * (inner even samples)) / 3` over `m` pairs of intervals |
| Integration.SimpsonPrefix | Projeto2.py:272-275 | the first `j` simple Simpson rules give weights 1, 4, 2, ..., 4, 1 over the first `2j + 1` samples |
| Integration.SimpsonRuleIsPanelSum | Projeto2.py:272-275 | the composite formula is the sum of the simple rule over each pair of intervals |
| Integration.SimpsonIsPanelSum | Projeto2.py:266-277 | `simpson_repetido` is the sum of the simple rule over each pair of intervals |
| Integration.SimpsonPanelExact | Projeto2.py:272-275 | on one pair of intervals the simple Simpson rule integrates a cubic exactly |
| Integration.SimpsonExactPrefix | Projeto2.py:272-275 | over samples of a cubic the first `j` Simpson pairs give the integral over `[0, 2j]` |
| Integration.SimpsonExact | Projeto2.py:266-277 | on equally spaced samples of a cubic `simpson_repetido` returns its exact integral |

## Left out

- Floating point: the model computes with exact reals. Rounding, overflow, `inf` and `nan` are not modelled, and the tolerance test compares exact values.
- Console menus, `input()`, the `print` calls in the exception handlers, the Streamlit pages and the plots: these are I/O.
- Text of the step log: `gauss_elimination` logs formatted strings (`f"{m:.4f}"`). Here each log line is a `Step` value holding the numbers the line shows.
- Default arguments (`tol=1e-4`, `max_iter=1000`): here they are ordinary parameters.
- Decision order: the routines decide their failure cases before their loops run. Python raises part-way through instead. The result is the same (`None`), because a failed run returns nothing else.
- GaussElimination.Eliminate: when some entry `A[i][j]` with `i, j < len(b)` is missing, the model returns `None` with an empty log. Python returns the log lines written before the IndexError.
- GaussSeidel.GaussSeidelWithHistory: numpy raises rather than returning an error, so what the routine needs is a precondition. That means a coefficient for every entry, an `x0` as long as `b`, and a nonempty `b` when there is a sweep. A zero diagonal entry would make numpy produce `inf` or `nan`, so that is excluded by precondition too. Rows longer than `len(b)`, which numpy rejects with a shape error, are accepted. Ragged matrices are accepted in two more cases where `np.array(A, dtype=float)` (app.py:69) raises: when `x0` is given and `max_iter <= 0`, nothing is required of `A` at all (for example `A = [[1.0], [1.0, 2.0]]`, `b = [1, 2]`, `x0 = [0, 0]`, `max_iter = 0` returns `([0, 0], [], 0)`); and rows beyond `len(b)` may be of any length (for example `A = [[1, 0], [0, 1], [5]]` with `len(b) == 2`). In these cases the model returns a result where the source raises.
- Convergence of Gauss-Seidel (for instance under diagonal dominance): the routines neither check nor rely on it.
- Abscissae of the integration rules: both rules read only `x[0]` and `x[1]`. The exactness lemmas therefore assume the samples are equally spaced, `y[i]` at `x[0] + i * h`. The composite formulas themselves are modelled for any `y`, and the last sample is `y[-1]` even when `y` is longer than `x`.
- Exactness scope: exactness is stated for polynomials in the sample index. A polynomial in `x` sampled at equally spaced abscissae is one of these, of the same degree.
