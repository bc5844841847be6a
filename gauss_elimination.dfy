/** Gaussian elimination with partial pivoting and back-substitution
    (`gauss_elimination`). The routine works on private copies of the
    caller's matrix and right-hand side; here those are `seq` values, so
    the caller's data cannot change. */
module GaussElimination {
  import opened Wrappers
  import opened LinearAlgebra

  /** One entry of the optional step log, without its text formatting. */
  datatype Step =
    | RowSwap(column: nat, pivotRow: nat)
    | ColumnElimination(column: nat)
    | RowUpdate(row: nat, column: nat, multiplier: real)
    | BackSubstitutionStart
    | BackSubstitution(row: nat, rhs: real, sum: real, pivot: real, value: real)

  /** The result of `gauss_elimination`: the solution (or `None`) and the log. */
  datatype Outcome = Outcome(solution: Option<Vector>, log: seq<Step>)

  /** The working system after the forward phase (or `None`), with its log. */
  datatype Forward = Forward(system: Option<(Matrix, Vector)>, log: seq<Step>)

  /** `max(range(k, hi), key=lambda i: abs(W[i][k]))`: the first row index
      in `[k, hi)` whose entry in column `k` has the largest magnitude. */
  function PivotRow(W: Matrix, k: nat, hi: nat): (p: nat)
    requires k < hi <= |W| && forall i :: k <= i < hi ==> k < |W[i]|
    ensures k <= p < hi
    ensures forall i :: k <= i < hi ==> Magnitude(W, i, k) <= Magnitude(W, p, k)
    ensures forall i :: k <= i < p ==> Magnitude(W, i, k) < Magnitude(W, p, k)
    decreases hi
  {
    if hi == k + 1 then k
    else
      var p := PivotRow(W, k, hi - 1);
      if Magnitude(W, hi - 1, k) > Magnitude(W, p, k) then hi - 1 else p
  }

  /** `abs(W[i][k])`, the key of the pivot search. */
  function Magnitude(W: Matrix, i: nat, k: nat): real
    requires i < |W| && k < |W[i]|
  {
    Abs(W[i][k])
  }

  /** Exchange entries `i` and `j`. */
  function Swap<T>(s: seq<T>, i: nat, j: nat): (r: seq<T>)
    requires i < |s| && j < |s|
    ensures |r| == |s| && r[i] == s[j] && r[j] == s[i]
    ensures forall t :: 0 <= t < |s| && t != i && t != j ==> r[t] == s[t]
  {
    s[i := s[j]][j := s[i]]
  }

  /** The multiplier `m = W[i][k] / W[k][k]` that clears `W[i][k]`. */
  function Multiplier(entry: real, pivot: real): real
    requires pivot != 0.0
  {
    entry / pivot
  }

  /** `a - m * p`, the value of `a` after the update `a -= m * p`. */
  function Reduce(a: real, m: real, p: real): real
  {
    a - m * p
  }

  /** `a` after `a[j] -= m * e[j]` for every `j` in `[k, n)`. */
  function RowMinus(a: Vector, e: Vector, m: real, k: nat, n: nat): (row: Vector)
    requires n <= |a| && n <= |e|
    ensures |row| == |a|
    ensures forall j :: 0 <= j < |a| ==> row[j] == if k <= j < n then Reduce(a[j], m, e[j]) else a[j]
  {
    seq(|a|, j requires 0 <= j < |a| => if k <= j < n then Reduce(a[j], m, e[j]) else a[j])
  }

  /** Row `i` after `W[i][j] -= m * W[k][j]` for every `j` in `[k, n)`. */
  function ReducedRow(W: Matrix, k: nat, i: nat, n: nat): (row: Vector)
    requires Covers(W, n) && k < n && i < n && W[k][k] != 0.0
    ensures |row| == |W[i]|
  {
    RowMinus(W[i], W[k], Multiplier(W[i][k], W[k][k]), k, n)
  }

  /** The matrix after every row below `k` has been reduced by row `k`. */
  function Eliminated(W: Matrix, k: nat, n: nat): (E: Matrix)
    requires Covers(W, n) && k < n && W[k][k] != 0.0
    ensures |E| == |W| && Covers(E, n)
  {
    PartlyEliminated(W, k, n, n)
  }

  /** The right-hand side after `c[i] -= m * c[k]` for every row `i` below `k`. */
  function EliminatedRhs(W: Matrix, c: Vector, k: nat, n: nat): (e: Vector)
    requires Covers(W, n) && |c| == n && k < n && W[k][k] != 0.0
    ensures |e| == n
  {
    PartlyEliminatedRhs(W, c, k, n, n)
  }

  /** The matrix once the loop over rows has reduced rows `k+1 .. i-1`. */
  function PartlyEliminated(W: Matrix, k: nat, n: nat, i: nat): (E: Matrix)
    requires Covers(W, n) && k < i <= n && W[k][k] != 0.0
    ensures |E| == |W| && Covers(E, n)
    decreases i
  {
    if i == k + 1 then W else PartlyEliminated(W, k, n, i - 1)[i - 1 := ReducedRow(W, k, i - 1, n)]
  }

  /** Row `r` of the partly eliminated matrix: reduced when `k < r < i`, untouched otherwise. */
  lemma {:induction false} PartlyEliminatedRow(W: Matrix, k: nat, n: nat, i: nat, r: nat)
    requires Covers(W, n) && k < i <= n && W[k][k] != 0.0 && r < |W|
    ensures PartlyEliminated(W, k, n, i)[r] == if k < r < i then ReducedRow(W, k, r, n) else W[r]
    decreases i
  {
    if i > k + 1 {
      PartlyEliminatedRow(W, k, n, i - 1, r);
    }
  }

  /** The right-hand side once the loop over rows has reached row `i`. */
  function PartlyEliminatedRhs(W: Matrix, c: Vector, k: nat, n: nat, i: nat): (e: Vector)
    requires Covers(W, n) && |c| == n && k < i <= n && W[k][k] != 0.0
    ensures |e| == n
    decreases i
  {
    if i == k + 1 then c
    else PartlyEliminatedRhs(W, c, k, n, i - 1)[i - 1 := Reduce(c[i - 1], Multiplier(W[i - 1][k], W[k][k]), c[k])]
  }

  /** Entry `r` of the partly eliminated right-hand side. */
  lemma {:induction false} PartlyEliminatedRhsEntry(W: Matrix, c: Vector, k: nat, n: nat, i: nat, r: nat)
    requires Covers(W, n) && |c| == n && k < i <= n && W[k][k] != 0.0 && r < n
    ensures PartlyEliminatedRhs(W, c, k, n, i)[r] ==
      if k < r < i then Reduce(c[r], Multiplier(W[r][k], W[k][k]), c[k]) else c[r]
    decreases i
  {
    if i > k + 1 {
      PartlyEliminatedRhsEntry(W, c, k, n, i - 1, r);
    }
  }

  /** One more turn of the loop over rows reduces row `i` and leaves the rest. */
  lemma PartialNext(W: Matrix, c: Vector, k: nat, n: nat, i: nat)
    requires Covers(W, n) && |c| == n && k < i < n && W[k][k] != 0.0
    ensures var E, e := PartlyEliminated(W, k, n, i), PartlyEliminatedRhs(W, c, k, n, i);
      E[i] == W[i] && E[k] == W[k] && e[i] == c[i] && e[k] == c[k] &&
      PartlyEliminated(W, k, n, i + 1) == E[i := RowMinus(E[i], E[k], Multiplier(E[i][k], E[k][k]), k, n)] &&
      PartlyEliminatedRhs(W, c, k, n, i + 1) == e[i := Reduce(e[i], Multiplier(E[i][k], E[k][k]), e[k])]
  {
    PartlyEliminatedRow(W, k, n, i, i);
    PartlyEliminatedRow(W, k, n, i, k);
    PartlyEliminatedRhsEntry(W, c, k, n, i, i);
    PartlyEliminatedRhsEntry(W, c, k, n, i, k);
  }

  /** The log lines of the elimination at column `k`: its heading, then one
      line per reduced row `k+1 .. i-1`. */
  function ColumnLog(W: Matrix, k: nat, n: nat, i: nat): (log: seq<Step>)
    requires Covers(W, n) && k < n && i <= n && W[k][k] != 0.0
    ensures |log| == if i <= k + 1 then 1 else i - k
    decreases i
  {
    if i <= k + 1 then [ColumnElimination(k)]
    else ColumnLog(W, k, n, i - 1) + [RowUpdate(i - 1, k, Multiplier(W[i - 1][k], W[k][k]))]
  }

  /** One pass of the `for k` loop: exchange row `k` with the pivot row,
      fail if the pivot is still zero, else reduce every row below `k`. The
      result keeps the rows above `k` and has a nonzero pivot at `k`. */
  function ColumnStep(W: Matrix, c: Vector, k: nat, n: nat): (f: Forward)
    requires Covers(W, n) && |c| == n && k < n
    ensures f.system.Some? ==>
      var (U, d) := f.system.value;
      Covers(U, n) && |d| == n && |U| == |W| && U[k][k] != 0.0
  {
    var p := PivotRow(W, k, n);
    var W1, c1 := Swap(W, k, p), Swap(c, k, p);
    var swapped := if p != k then [RowSwap(k, p)] else [];
    if W1[k][k] == 0.0 then Forward(None, swapped)
    else
      PartlyEliminatedRow(W1, k, n, n, k);
      Forward(Some((Eliminated(W1, k, n), EliminatedRhs(W1, c1, k, n))), swapped + ColumnLog(W1, k, n, n))
  }

  /** A column step that succeeds leaves the reduced system of the exchanged rows. */
  lemma ColumnStepValue(W: Matrix, c: Vector, k: nat, n: nat)
    requires Covers(W, n) && |c| == n && k < n && ColumnStep(W, c, k, n).system.Some?
    ensures var p := PivotRow(W, k, n);
      var W1, c1 := Swap(W, k, p), Swap(c, k, p);
      W1[k][k] != 0.0 &&
      ColumnStep(W, c, k, n).system == Some((Eliminated(W1, k, n), EliminatedRhs(W1, c1, k, n)))
  {
  }

  /** One column of the forward phase leaves the rows above `k` alone. */
  lemma ColumnStepKeepsRows(W: Matrix, c: Vector, k: nat, n: nat)
    requires Covers(W, n) && |c| == n && k < n && ColumnStep(W, c, k, n).system.Some?
    ensures ColumnStep(W, c, k, n).system.value.0[..k] == W[..k]
  {
    var p := PivotRow(W, k, n);
    var W1 := Swap(W, k, p);
    forall r | 0 <= r < k
      ensures Eliminated(W1, k, n)[r] == W[r]
    {
      PartlyEliminatedRow(W1, k, n, n, r);
    }
  }

  /** The log of a column opens with its heading. */
  lemma {:induction false} ColumnLogStarts(W: Matrix, k: nat, n: nat, i: nat)
    requires Covers(W, n) && k < n && i <= n && W[k][k] != 0.0
    ensures |ColumnLog(W, k, n, i)| >= 1 && ColumnLog(W, k, n, i)[0] == ColumnElimination(k)
    decreases i
  {
    if i > k + 1 {
      ColumnLogStarts(W, k, n, i - 1);
    }
  }

  /** A column's log opens with a row exchange exactly when the pivot row
      is not row `k` itself. */
  lemma SwapLogged(W: Matrix, c: Vector, k: nat, n: nat)
    requires Covers(W, n) && |c| == n && k < n
    ensures var p, log := PivotRow(W, k, n), ColumnStep(W, c, k, n).log;
      (|log| >= 1 && log[0] == RowSwap(k, p)) <==> p != k
  {
    var p := PivotRow(W, k, n);
    var W1 := Swap(W, k, p);
    if W1[k][k] != 0.0 {
      ColumnLogStarts(W1, k, n, n);
    }
  }

  /** The forward phase from column `k` on. It fails exactly when some
      column's pivot is zero after the row exchange; on success rows above
      `k` are those of `W` and every later pivot is nonzero, so
      back-substitution never divides by zero. */
  function ForwardFrom(W: Matrix, c: Vector, k: nat, n: nat): (f: Forward)
    requires Covers(W, n) && |c| == n && k <= n
    ensures f.system.Some? ==>
      var (U, d) := f.system.value;
      Covers(U, n) && |d| == n && |U| == |W| &&
      U[..k] == W[..k] && NonzeroPivots(U, k, n)
    decreases n - k
  {
    if k == n then Forward(Some((W, c)), [])
    else
      var step := ColumnStep(W, c, k, n);
      match step.system
      case None => step
      case Some((W1, c1)) =>
        ColumnStepKeepsRows(W, c, k, n);
        var rest := ForwardFrom(W1, c1, k + 1, n);
        Forward(rest.system, step.log + rest.log)
  }

  /** `(rhs - s) / pivot`: the unknown that makes `pivot * v + s == rhs`. */
  function BackValue(rhs: real, s: real, pivot: real): (v: real)
    requires pivot != 0.0
    ensures pivot * v + s == rhs
  {
    (rhs - s) / pivot
  }

  /** Rows `i .. n-1` have a nonzero diagonal entry. */
  predicate NonzeroPivots(U: Matrix, i: nat, n: nat)
    requires Covers(U, n)
  {
    forall r :: i <= r < n ==> U[r][r] != 0.0
  }

  /** The vector `x` once rows `n - 1` down to `i` have been back-substituted
      (entries below `i` still hold their initial 0). */
  function BackFrom(U: Matrix, d: Vector, n: nat, i: nat): (x: Vector)
    requires Covers(U, n) && |d| == n && i <= n
    requires NonzeroPivots(U, 0, n)
    ensures |x| == n
    decreases n - i
  {
    if i == n then seq(n, _ => 0.0)
    else
      var x := BackFrom(U, d, n, i + 1);
      x[i := BackValue(d[i], Dot(U[i], x, i + 1, n), U[i][i])]
  }

  /** The back-substitution log lines for rows `n - 1` down to `i`, one per row. */
  function BackLog(U: Matrix, d: Vector, n: nat, i: nat): (log: seq<Step>)
    requires Covers(U, n) && |d| == n && i <= n
    requires NonzeroPivots(U, 0, n)
    ensures |log| == n - i
    decreases n - i
  {
    if i == n then []
    else
      var x := BackFrom(U, d, n, i + 1);
      var s := Dot(U[i], x, i + 1, n);
      BackLog(U, d, n, i + 1) + [BackSubstitution(i, d[i], s, U[i][i], BackValue(d[i], s, U[i][i]))]
  }

  /** What `gauss_elimination(A, b, True)` computes. A matrix without the
      entries `A[i][j]`, `i, j < len(b)`, raises an IndexError on some access. */
  function Solve(A: Matrix, b: Vector): (o: Outcome)
    ensures o.solution.Some? ==> |o.solution.value| == |b|
  {
    var n := |b|;
    if !Covers(A, n) then Outcome(None, [])
    else
      var f := ForwardFrom(A, b, 0, n);
      match f.system
      case None => Outcome(None, f.log)
      case Some((U, d)) =>
        Outcome(Some(BackFrom(U, d, n, 0)), f.log + [BackSubstitutionStart] + BackLog(U, d, n, 0))
  }

  /** `ForwardFrom` at a column below `n`, one column at a time. */
  lemma ForwardNext(W: Matrix, c: Vector, k: nat, n: nat, W1: Matrix, c1: Vector)
    requires Covers(W, n) && |c| == n && k < n
    requires ColumnStep(W, c, k, n).system == Some((W1, c1))
    ensures Covers(W1, n) && |c1| == n
    ensures ForwardFrom(W, c, k, n).system == ForwardFrom(W1, c1, k + 1, n).system
    ensures ForwardFrom(W, c, k, n).log == ColumnStep(W, c, k, n).log + ForwardFrom(W1, c1, k + 1, n).log
  {
  }

  lemma Regroup(a: seq<Step>, b: seq<Step>, c: seq<Step>)
    ensures a + b + c == a + (b + c)
  {
  }

  // ---------------------------------------------------------------------
  // Correctness of the forward phase

  /** Columns `0..k-1` are zero below the diagonal. */
  predicate ZeroBelow(W: Matrix, k: nat, n: nat)
    requires Covers(W, n) && k <= n
  {
    forall r, col :: 0 <= col < k && col < r < n ==> W[r][col] == 0.0
  }

  /** A zero pivot after the exchange means the whole column `k` from row
      `k` down is zero: the system is singular. */
  lemma ZeroPivotMeansZeroColumn(W: Matrix, k: nat, n: nat)
    requires Covers(W, n) && k < n
    requires Swap(W, k, PivotRow(W, k, n))[k][k] == 0.0
    ensures forall i :: k <= i < n ==> W[i][k] == 0.0
  {
    var p := PivotRow(W, k, n);
    assert W[p][k] == 0.0;
  }

  lemma SwapSound(W: Matrix, c: Vector, k: nat, p: nat, n: nat, x: Vector)
    requires Covers(W, n) && |c| == n && k < n && p < n && |x| >= n
    requires Satisfies(Swap(W, k, p), Swap(c, k, p), x, n)
    ensures Satisfies(W, c, x, n)
  {
    var W1, c1 := Swap(W, k, p), Swap(c, k, p);
    forall i | 0 <= i < n
      ensures Dot(W[i], x, 0, n) == c[i]
    {
      var t := if i == k then p else if i == p then k else i;
      assert W1[t] == W[i] && c1[t] == c[i];
    }
  }

  lemma SwapKeepsZeroBelow(W: Matrix, k: nat, p: nat, n: nat)
    requires Covers(W, n) && k <= p < n && ZeroBelow(W, k, n)
    ensures Covers(Swap(W, k, p), n) && ZeroBelow(Swap(W, k, p), k, n)
  {
  }

  /** Row `i` below `k`, once reduced, has dot product `W[i] . x - m * (W[k] . x)`. */
  lemma ReducedRowDot(W: Matrix, k: nat, i: nat, n: nat, x: Vector)
    requires Covers(W, n) && k < i < n && W[k][k] != 0.0 && |x| >= n
    requires forall col :: 0 <= col < k ==> W[k][col] == 0.0
    ensures Dot(ReducedRow(W, k, i, n), x, 0, n)
         == Dot(W[i], x, 0, n) - Multiplier(W[i][k], W[k][k]) * Dot(W[k], x, 0, n)
  {
    RowMinusDot(W[i], W[k], Multiplier(W[i][k], W[k][k]), k, n, x);
  }

  lemma RowMinusDot(a: Vector, e: Vector, m: real, k: nat, n: nat, x: Vector)
    requires n <= |a| && n <= |e| && n <= |x|
    requires forall col :: 0 <= col < k && col < n ==> e[col] == 0.0
    ensures Dot(RowMinus(a, e, m, k, n), x, 0, n) == Dot(a, x, 0, n) - m * Dot(e, x, 0, n)
  {
    var row := RowMinus(a, e, m, k, n);
    forall j | 0 <= j < n
      ensures row[j] == a[j] - m * e[j]
    {
      if j < k {
        assert e[j] == 0.0;
      }
    }
    DotCombination(row, a, e, m, x, 0, n);
  }

  /** Reducing the rows below `k` keeps every solution of the reduced system a
      solution of the original one (row `k` has zeros left of column `k`). */
  lemma EliminationSound(W: Matrix, c: Vector, k: nat, n: nat, x: Vector)
    requires Covers(W, n) && |c| == n && k < n && W[k][k] != 0.0 && |x| >= n
    requires forall col :: 0 <= col < k ==> W[k][col] == 0.0
    requires Satisfies(Eliminated(W, k, n), EliminatedRhs(W, c, k, n), x, n)
    ensures Satisfies(W, c, x, n)
  {
    var E, e := Eliminated(W, k, n), EliminatedRhs(W, c, k, n);
    PartlyEliminatedRow(W, k, n, n, k);
    PartlyEliminatedRhsEntry(W, c, k, n, n, k);
    assert E[k] == W[k] && e[k] == c[k];
    assert Dot(W[k], x, 0, n) == c[k];
    forall i | 0 <= i < n
      ensures Dot(W[i], x, 0, n) == c[i]
    {
      PartlyEliminatedRow(W, k, n, n, i);
      PartlyEliminatedRhsEntry(W, c, k, n, n, i);
      if k < i {
        assert E[i] == ReducedRow(W, k, i, n);
        ReducedRowDot(W, k, i, n, x);
        assert e[i] == Reduce(c[i], Multiplier(W[i][k], W[k][k]), c[k]);
      } else {
        assert E[i] == W[i] && e[i] == c[i];
      }
    }
  }

  /** Subtracting the multiplier times the pivot clears the entry. */
  lemma MultiplierClears(entry: real, pivot: real)
    requires pivot != 0.0
    ensures Reduce(entry, Multiplier(entry, pivot), pivot) == 0.0
  {
    assert Multiplier(entry, pivot) * pivot == entry;
  }

  lemma EliminationZeroBelow(W: Matrix, k: nat, n: nat)
    requires Covers(W, n) && k < n && W[k][k] != 0.0 && ZeroBelow(W, k, n)
    ensures ZeroBelow(Eliminated(W, k, n), k + 1, n)
  {
    var E := Eliminated(W, k, n);
    forall r, col | 0 <= col < k + 1 && col < r < n
      ensures E[r][col] == 0.0
    {
      PartlyEliminatedRow(W, k, n, n, r);
      if col == k {
        MultiplierClears(W[r][k], W[k][k]);
        assert E[r][col] == Reduce(W[r][k], Multiplier(W[r][k], W[k][k]), W[k][k]);
      }
    }
  }

  /** Every solution of the system left by the forward phase solves the
      system it started from. */
  lemma {:induction false} ForwardSound(W: Matrix, c: Vector, k: nat, n: nat, U: Matrix, d: Vector, x: Vector)
    requires Covers(W, n) && |c| == n && k <= n && |x| >= n && ZeroBelow(W, k, n)
    requires ForwardFrom(W, c, k, n).system == Some((U, d))
    requires Satisfies(U, d, x, n)
    ensures Satisfies(W, c, x, n)
    decreases n - k
  {
    if k < n {
      var p := PivotRow(W, k, n);
      var W1, c1 := Swap(W, k, p), Swap(c, k, p);
      ColumnStepValue(W, c, k, n);
      var E, e := Eliminated(W1, k, n), EliminatedRhs(W1, c1, k, n);
      ForwardNext(W, c, k, n, E, e);
      SwapKeepsZeroBelow(W, k, p, n);
      EliminationZeroBelow(W1, k, n);
      ForwardSound(E, e, k + 1, n, U, d, x);
      EliminationSound(W1, c1, k, n, x);
      SwapSound(W, c, k, p, n, x);
    }
  }

  /** The forward phase leaves an upper-triangular matrix. */
  lemma {:induction false} ForwardTriangular(W: Matrix, c: Vector, k: nat, n: nat)
    requires Covers(W, n) && |c| == n && k <= n && ZeroBelow(W, k, n)
    requires ForwardFrom(W, c, k, n).system.Some?
    ensures ZeroBelow(ForwardFrom(W, c, k, n).system.value.0, n, n)
    decreases n - k
  {
    if k < n {
      var p := PivotRow(W, k, n);
      var W1, c1 := Swap(W, k, p), Swap(c, k, p);
      SwapKeepsZeroBelow(W, k, p, n);
      EliminationZeroBelow(W1, k, n);
      ForwardTriangular(Eliminated(W1, k, n), EliminatedRhs(W1, c1, k, n), k + 1, n);
    }
  }

  // ---------------------------------------------------------------------
  // Correctness of back-substitution

  /** Once `x[r]` is computed, later (lower-index) steps leave it alone. */
  lemma {:induction false} BackStable(U: Matrix, d: Vector, n: nat, i: nat, r: nat)
    requires Covers(U, n) && |d| == n && i <= r < n
    requires NonzeroPivots(U, 0, n)
    ensures BackFrom(U, d, n, i)[r] == BackFrom(U, d, n, r)[r]
    decreases r - i
  {
    if i < r {
      BackStable(U, d, n, i + 1, r);
    }
  }

  /** Back-substitution solves an upper-triangular system with a nonzero diagonal. */
  lemma BackSolves(U: Matrix, d: Vector, n: nat)
    requires Covers(U, n) && |d| == n && ZeroBelow(U, n, n)
    requires NonzeroPivots(U, 0, n)
    ensures Satisfies(U, d, BackFrom(U, d, n, 0), n)
  {
    forall r | 0 <= r < n
      ensures Dot(U[r], BackFrom(U, d, n, 0), 0, n) == d[r]
    {
      BackSolvesRow(U, d, n, r);
    }
  }

  /** Equation `r` holds for the back-substituted vector. */
  lemma BackSolvesRow(U: Matrix, d: Vector, n: nat, r: nat)
    requires Covers(U, n) && |d| == n && ZeroBelow(U, n, n) && r < n
    requires NonzeroPivots(U, 0, n)
    ensures Dot(U[r], BackFrom(U, d, n, 0), 0, n) == d[r]
  {
    BackFixed(U, d, n, r);
    TriangularRow(U[r], BackFrom(U, d, n, 0), d[r], r, n);
  }

  /** Entry `r` of the result solves equation `r` given the entries after it. */
  lemma BackFixed(U: Matrix, d: Vector, n: nat, r: nat)
    requires Covers(U, n) && |d| == n && r < n
    requires NonzeroPivots(U, 0, n)
    ensures U[r][r] * BackFrom(U, d, n, 0)[r] + Dot(U[r], BackFrom(U, d, n, 0), r + 1, n) == d[r]
  {
    BackEntry(U, d, n, r);
    BackStable(U, d, n, 0, r);
    BackTail(U, d, n, r);
  }

  /** Row `r`'s entry is chosen so that equation `r` holds given the later entries. */
  lemma BackEntry(U: Matrix, d: Vector, n: nat, r: nat)
    requires Covers(U, n) && |d| == n && r < n
    requires NonzeroPivots(U, 0, n)
    ensures U[r][r] * BackFrom(U, d, n, r)[r] + Dot(U[r], BackFrom(U, d, n, r + 1), r + 1, n) == d[r]
  {
  }

  /** A row that is zero left of `r` meets `rhs` once `row[r] * x[r]` plus the
      rest of the row does. */
  lemma TriangularRow(row: Vector, x: Vector, rhs: real, r: nat, n: nat)
    requires r < n <= |row| && n <= |x|
    requires forall j :: 0 <= j < r ==> row[j] == 0.0
    requires row[r] * x[r] + Dot(row, x, r + 1, n) == rhs
    ensures Dot(row, x, 0, n) == rhs
  {
    DotSplit(row, x, 0, r, n);
    DotSplit(row, x, r, r + 1, n);
    DotZero(row, x, 0, r);
    assert Dot(row, x, r, r + 1) == row[r] * x[r];
  }

  /** The final vector agrees with the one row `r` was computed from on
      the entries after `r`. */
  lemma BackTail(U: Matrix, d: Vector, n: nat, r: nat)
    requires Covers(U, n) && |d| == n && r < n
    requires NonzeroPivots(U, 0, n)
    ensures Dot(U[r], BackFrom(U, d, n, 0), r + 1, n) == Dot(U[r], BackFrom(U, d, n, r + 1), r + 1, n)
  {
    var x, y := BackFrom(U, d, n, 0), BackFrom(U, d, n, r + 1);
    forall j | r + 1 <= j < n
      ensures x[j] == y[j]
    {
      BackStable(U, d, n, 0, j);
      BackStable(U, d, n, r + 1, j);
    }
    DotFrame(U[r], x, y, r + 1, n);
  }

  /** On success the returned vector solves the caller's original system. */
  lemma SolveSatisfies(A: Matrix, b: Vector)
    requires Solve(A, b).solution.Some?
    ensures Covers(A, |b|) && Satisfies(A, b, Solve(A, b).solution.value, |b|)
  {
    var n := |b|;
    var f := ForwardFrom(A, b, 0, n);
    var (U, d) := f.system.value;
    ForwardTriangular(A, b, 0, n);
    BackSolves(U, d, n);
    ForwardSound(A, b, 0, n, U, d, BackFrom(U, d, n, 0));
  }
  // ---------------------------------------------------------------------
  // Failure means a singular matrix

  /** The first `n` columns of `A` are linearly dependent: some nonzero `v`
      has `A v == 0`. */
  ghost predicate Singular(A: Matrix, n: nat)
    requires Covers(A, n)
  {
    exists v :: |v| == n && v != Zeros(n) && Satisfies(A, Zeros(n), v, n)
  }

  /** Reducing a zero right-hand side leaves it zero. */
  lemma EliminatedZeros(W: Matrix, k: nat, n: nat)
    requires Covers(W, n) && k < n && W[k][k] != 0.0
    ensures EliminatedRhs(W, Zeros(n), k, n) == Zeros(n)
  {
    var e := EliminatedRhs(W, Zeros(n), k, n);
    forall r | 0 <= r < n
      ensures e[r] == 0.0
    {
      PartlyEliminatedRhsEntry(W, Zeros(n), k, n, n, r);
    }
  }

  /** Equation `r` of `W v == 0` for the null vector of `ColumnNullVector`:
      `v` is `y` on `[0, k)`, 1 at `k` and 0 after it. */
  lemma NullRow(row: Vector, v: Vector, y: Vector, k: nat, n: nat, head: real)
    requires k < n <= |row| && |v| == n && |y| >= k
    requires forall j :: 0 <= j < k ==> v[j] == y[j]
    requires v[k] == 1.0 && forall j :: k < j < n ==> v[j] == 0.0
    requires Dot(row, y, 0, k) == head && head + row[k] == 0.0
    ensures Dot(row, v, 0, n) == 0.0
  {
    DotSplit(row, v, 0, k, n);
    DotSplit(row, v, k, k + 1, n);
    DotFrame(row, v, y, 0, k);
    DotZeroRight(row, v, k + 1, n);
    assert Dot(row, v, k, k + 1) == row[k] * v[k];
  }

  /** A matrix that is upper-triangular in its first `k` columns, with a
      nonzero diagonal there and column `k` zero from row `k` down, has a
      null vector: back-substitution on the leading block with `v[k] = 1`. */
  lemma ColumnNullVector(W: Matrix, k: nat, n: nat)
    requires Covers(W, n) && k < n && ZeroBelow(W, k, n) && NonzeroPivots(W, 0, k)
    requires forall i :: k <= i < n ==> W[i][k] == 0.0
    ensures Singular(W, n)
  {
    var U := W[..k];
    var d := seq(k, r requires 0 <= r < k => 0.0 - W[r][k]);
    assert Covers(U, k) && ZeroBelow(U, k, k) && NonzeroPivots(U, 0, k);
    BackSolves(U, d, k);
    var y := BackFrom(U, d, k, 0);
    var v := y + [1.0] + Zeros(n - k - 1);
    forall r | 0 <= r < n
      ensures Dot(W[r], v, 0, n) == Zeros(n)[r]
    {
      if r < k {
        assert U[r] == W[r];
        NullRow(W[r], v, y, k, n, 0.0 - W[r][k]);
      } else {
        DotZero(W[r], y, 0, k);
        NullRow(W[r], v, y, k, n, 0.0);
      }
    }
    assert v[k] != Zeros(n)[k];
  }

  /** If the forward phase fails from column `k`, with the columns before
      `k` already reduced to a nonzero diagonal, the matrix is singular. */
  lemma {:induction false} ForwardFailsSingular(W: Matrix, c: Vector, k: nat, n: nat)
    requires Covers(W, n) && |c| == n && k <= n && ZeroBelow(W, k, n) && NonzeroPivots(W, 0, k)
    requires ForwardFrom(W, c, k, n).system.None?
    ensures Singular(W, n)
    decreases n - k
  {
    assert k < n;
    var p := PivotRow(W, k, n);
    var W1, c1 := Swap(W, k, p), Swap(c, k, p);
    if W1[k][k] == 0.0 {
      ZeroPivotMeansZeroColumn(W, k, n);
      ColumnNullVector(W, k, n);
    } else {
      ColumnStepValue(W, c, k, n);
      var E, e := Eliminated(W1, k, n), EliminatedRhs(W1, c1, k, n);
      ForwardNext(W, c, k, n, E, e);
      SwapKeepsZeroBelow(W, k, p, n);
      EliminationZeroBelow(W1, k, n);
      ColumnStepKeepsRows(W, c, k, n);
      forall r | 0 <= r < k + 1
        ensures E[r][r] != 0.0
      {
        if r < k {
          assert E[..k][r] == W[..k][r];
        }
      }
      ForwardFailsSingular(E, e, k + 1, n);
      ReducedSingular(W, k, n);
    }
  }

  /** A null vector of the exchanged and reduced matrix is one of `W`. */
  lemma ReducedSingular(W: Matrix, k: nat, n: nat)
    requires Covers(W, n) && k < n && ZeroBelow(W, k, n)
    requires Swap(W, k, PivotRow(W, k, n))[k][k] != 0.0
    requires Singular(Eliminated(Swap(W, k, PivotRow(W, k, n)), k, n), n)
    ensures Singular(W, n)
  {
    var p := PivotRow(W, k, n);
    var W1 := Swap(W, k, p);
    var v :| |v| == n && v != Zeros(n) && Satisfies(Eliminated(W1, k, n), Zeros(n), v, n);
    SwapKeepsZeroBelow(W, k, p, n);
    EliminatedZeros(W1, k, n);
    EliminationSound(W1, Zeros(n), k, n, v);
    assert Swap(Zeros(n), k, p) == Zeros(n);
    SwapSound(W, Zeros(n), k, p, n, v);
  }

  /** `gauss_elimination` fails on a system of the right shape only when the
      matrix is singular; so a non-singular matrix always gets a solution. */
  lemma SolveFailsSingular(A: Matrix, b: Vector)
    requires Covers(A, |b|) && Solve(A, b).solution.None?
    ensures Singular(A, |b|)
  {
    ForwardFailsSingular(A, b, 0, |b|);
  }

  // ---------------------------------------------------------------------
  // A singular matrix always fails

  /** Exchanging two equations keeps every solution. */
  lemma SwapComplete(W: Matrix, c: Vector, k: nat, p: nat, n: nat, x: Vector)
    requires Covers(W, n) && |c| == n && k < n && p < n && |x| >= n
    requires Satisfies(W, c, x, n)
    ensures Satisfies(Swap(W, k, p), Swap(c, k, p), x, n)
  {
    var W1, c1 := Swap(W, k, p), Swap(c, k, p);
    forall i | 0 <= i < n
      ensures Dot(W1[i], x, 0, n) == c1[i]
    {
      var t := if i == k then p else if i == p then k else i;
      assert W1[i] == W[t] && c1[i] == c[t];
    }
  }

  /** Reducing the rows below `k` keeps every solution (the converse of
      `EliminationSound`). */
  lemma EliminationComplete(W: Matrix, c: Vector, k: nat, n: nat, x: Vector)
    requires Covers(W, n) && |c| == n && k < n && W[k][k] != 0.0 && |x| >= n
    requires forall col :: 0 <= col < k ==> W[k][col] == 0.0
    requires Satisfies(W, c, x, n)
    ensures Satisfies(Eliminated(W, k, n), EliminatedRhs(W, c, k, n), x, n)
  {
    var E, e := Eliminated(W, k, n), EliminatedRhs(W, c, k, n);
    forall i | 0 <= i < n
      ensures Dot(E[i], x, 0, n) == e[i]
    {
      PartlyEliminatedRow(W, k, n, n, i);
      PartlyEliminatedRhsEntry(W, c, k, n, n, i);
      if k < i {
        ReducedRowDot(W, k, i, n, x);
      }
    }
  }

  /** A null vector of the matrix the forward phase starts from is a null
      vector of the matrix it leaves. */
  lemma {:induction false} ForwardNullComplete(W: Matrix, c: Vector, k: nat, n: nat, v: Vector)
    requires Covers(W, n) && |c| == n && k <= n && |v| == n && ZeroBelow(W, k, n)
    requires ForwardFrom(W, c, k, n).system.Some?
    requires Satisfies(W, Zeros(n), v, n)
    ensures Satisfies(ForwardFrom(W, c, k, n).system.value.0, Zeros(n), v, n)
    decreases n - k
  {
    if k < n {
      var p := PivotRow(W, k, n);
      var W1, c1 := Swap(W, k, p), Swap(c, k, p);
      ColumnStepValue(W, c, k, n);
      var E, e := Eliminated(W1, k, n), EliminatedRhs(W1, c1, k, n);
      ForwardNext(W, c, k, n, E, e);
      SwapKeepsZeroBelow(W, k, p, n);
      EliminationZeroBelow(W1, k, n);
      SwapComplete(W, Zeros(n), k, p, n, v);
      assert Swap(Zeros(n), k, p) == Zeros(n);
      EliminationComplete(W1, Zeros(n), k, n, v);
      EliminatedZeros(W1, k, n);
      ForwardNullComplete(E, e, k + 1, n, v);
    }
  }

  /** Against an upper-triangular matrix with a nonzero diagonal, a null
      vector is zero from row `r` on (by equations `n - 1` down to `r`). */
  lemma {:induction false} TriangularNullTail(U: Matrix, v: Vector, n: nat, r: nat)
    requires Covers(U, n) && ZeroBelow(U, n, n) && NonzeroPivots(U, 0, n)
    requires |v| == n && r <= n && Satisfies(U, Zeros(n), v, n)
    ensures forall j :: r <= j < n ==> v[j] == 0.0
    decreases n - r
  {
    if r < n {
      TriangularNullTail(U, v, n, r + 1);
      DotSplit(U[r], v, 0, r, n);
      DotSplit(U[r], v, r, r + 1, n);
      DotZero(U[r], v, 0, r);
      DotZeroRight(U[r], v, r + 1, n);
      assert Dot(U[r], v, r, r + 1) == U[r][r] * v[r];
      assert U[r][r] * v[r] == 0.0;
    }
  }

  /** A successful run means the matrix is not singular: its only null
      vector is zero. */
  lemma SolvedNonsingular(A: Matrix, b: Vector)
    requires Covers(A, |b|) && Solve(A, b).solution.Some?
    ensures forall v :: |v| == |b| && Satisfies(A, Zeros(|b|), v, |b|) ==> v == Zeros(|b|)
  {
    var n := |b|;
    var U := ForwardFrom(A, b, 0, n).system.value.0;
    ForwardTriangular(A, b, 0, n);
    forall v | |v| == n && Satisfies(A, Zeros(n), v, n)
      ensures v == Zeros(n)
    {
      ForwardNullComplete(A, b, 0, n, v);
      TriangularNullTail(U, v, n, 0);
    }
  }

  /** `gauss_elimination` detects every singular system: on a singular
      matrix it returns no solution. With `SolveFailsSingular`, a system
      with all its coefficients fails exactly when its matrix is singular. */
  lemma SingularFails(A: Matrix, b: Vector)
    requires Covers(A, |b|) && Singular(A, |b|)
    ensures Solve(A, b).solution.None?
  {
    if Solve(A, b).solution.Some? {
      SolvedNonsingular(A, b);
    }
  }

  /** The singular system `x + 2y == 1`, `2x + 4y == 1` gets no solution:
      `(2, -1)` is a nonzero null vector of its matrix. */
  lemma SingularExample()
    ensures Solve([[1.0, 2.0], [2.0, 4.0]], [1.0, 1.0]).solution.None?
  {
    var A: Matrix, v: Vector := [[1.0, 2.0], [2.0, 4.0]], [2.0, -1.0];
    assert Dot(A[0], v, 0, 2) == 0.0 && Dot(A[1], v, 0, 2) == 0.0;
    assert v[0] != Zeros(2)[0];
    SingularFails(A, [1.0, 1.0]);
  }

  // ---------------------------------------------------------------------
  // The routine itself

  /** `gauss_elimination(A, b, return_steps)`. The solution does not depend on
      `returnSteps`; with it the log of `Solve` is returned, also on failure.
      `SolveSatisfies` states what a returned solution means. */
  method Eliminate(A: Matrix, b: Vector, returnSteps: bool) returns (x: Option<Vector>, steps: seq<Step>)
    ensures x == Solve(A, b).solution
    ensures steps == if returnSteps then Solve(A, b).log else []
  {
    var n := |b|;
    if !Covers(A, n) {
      // some access A[i][j] with i, j < n raises IndexError
      return None, [];
    }
    var system;
    system, steps := ForwardPhase(A, b, n, returnSteps);
    if system.None? {
      // "Sistema singular."
      return None, steps;
    }
    var (U, d) := system.value;
    var xs, log := BackSubstitute(U, d, n, returnSteps);
    if returnSteps {
      Regroup(steps, [BackSubstitutionStart], BackLog(U, d, n, 0));
    }
    x, steps := Some(xs), steps + log;
  }

  /** The `for k in range(n)` loop of the forward phase. */
  method ForwardPhase(A: Matrix, b: Vector, n: nat, returnSteps: bool)
    returns (system: Option<(Matrix, Vector)>, steps: seq<Step>)
    requires Covers(A, n) && |b| == n
    ensures system == ForwardFrom(A, b, 0, n).system
    ensures steps == if returnSteps then ForwardFrom(A, b, 0, n).log else []
  {
    var W, c := A, b;
    steps := [];
    var k := 0;
    while k < n
      invariant k <= n && Covers(W, n) && |c| == n
      invariant ForwardFrom(W, c, k, n).system == ForwardFrom(A, b, 0, n).system
      invariant returnSteps ==> steps + ForwardFrom(W, c, k, n).log == ForwardFrom(A, b, 0, n).log
      invariant !returnSteps ==> steps == []
    {
      ghost var W0, c0, steps0 := W, c, steps;
      var ok, log;
      ok, W, c, log := EliminateColumn(W, c, k, n, returnSteps);
      if !ok {
        return None, steps + log;
      }
      ForwardNext(W0, c0, k, n, W, c);
      if returnSteps {
        Regroup(steps0, log, ForwardFrom(W, c, k + 1, n).log);
      }
      steps := steps + log;
      k := k + 1;
    }
    assert ForwardFrom(W, c, n, n) == Forward(Some((W, c)), []);
    system := Some((W, c));
  }

  /** One pass of the `for k` loop: pivot selection and row exchange, the
      singularity test ("Sistema singular."), then the elimination below row
      `k`. `ok` is false when the pivot is zero. */
  method EliminateColumn(W0: Matrix, c0: Vector, k: nat, n: nat, returnSteps: bool)
    returns (ok: bool, W: Matrix, c: Vector, log: seq<Step>)
    requires Covers(W0, n) && |c0| == n && k < n
    ensures ok == ColumnStep(W0, c0, k, n).system.Some?
    ensures ok ==> ColumnStep(W0, c0, k, n).system.value == (W, c)
    ensures log == if returnSteps then ColumnStep(W0, c0, k, n).log else []
  {
    W, c := W0, c0;
    // partial pivoting
    var p := PivotRow(W, k, n);
    var swapped: seq<Step> := [];
    if p != k {
      W, c := W[k := W[p]][p := W[k]], c[k := c[p]][p := c[k]];
      swapped := [RowSwap(k, p)];
    }
    assert W == Swap(W0, k, p) && c == Swap(c0, k, p);
    log := if returnSteps then swapped else [];
    if W[k][k] == 0.0 {
      return false, W, c, log;
    }
    var reduced;
    W, c, reduced := ReduceBelow(W, c, k, n, returnSteps);
    return true, W, c, log + reduced;
  }

  /** The elimination phase at column `k`: `W[i][j] -= m * W[k][j]` and
      `c[i] -= m * c[k]` for every row `i` below `k`, in place. */
  method ReduceBelow(W0: Matrix, c0: Vector, k: nat, n: nat, returnSteps: bool)
    returns (W: Matrix, c: Vector, steps: seq<Step>)
    requires Covers(W0, n) && |c0| == n && k < n && W0[k][k] != 0.0
    ensures W == Eliminated(W0, k, n) && c == EliminatedRhs(W0, c0, k, n)
    ensures steps == if returnSteps then ColumnLog(W0, k, n, n) else []
  {
    W, c := W0, c0;
    steps := if returnSteps then [ColumnElimination(k)] else [];
    var i := k + 1;
    while i < n
      invariant k + 1 <= i <= n
      invariant W == PartlyEliminated(W0, k, n, i)
      invariant c == PartlyEliminatedRhs(W0, c0, k, n, i)
      invariant steps == if returnSteps then ColumnLog(W0, k, n, i) else []
    {
      PartialNext(W0, c0, k, n, i);
      assert W[i] == W0[i] && W[k] == W0[k];
      var m := Multiplier(W[i][k], W[k][k]);
      assert m == Multiplier(W0[i][k], W0[k][k]);
      if returnSteps {
        steps := steps + [RowUpdate(i, k, m)];
      }
      var row := ReduceRow(W[i], W[k], m, k, n);
      W, c := W[i := row], c[i := Reduce(c[i], m, c[k])];
      i := i + 1;
    }
  }

  /** The innermost loop: `row[j] -= m * pivot[j]` for `j` in `[k, n)`. */
  method ReduceRow(row0: Vector, pivot: Vector, m: real, k: nat, n: nat) returns (row: Vector)
    requires k <= n <= |row0| && n <= |pivot|
    ensures row == RowMinus(row0, pivot, m, k, n)
  {
    row := row0;
    var j := k;
    while j < n
      invariant |row| == |row0| && k <= j <= n
      invariant forall t :: 0 <= t < |row| ==> row[t] == if k <= t < j then row0[t] - m * pivot[t] else row0[t]
    {
      row := row[j := row[j] - m * pivot[j]];
      j := j + 1;
    }
    ghost var want := RowMinus(row0, pivot, m, k, n);
    assert forall t :: 0 <= t < |row| ==> row[t] == want[t];
  }

  /** The back-substitution loop, from the last row up. */
  method BackSubstitute(U: Matrix, d: Vector, n: nat, returnSteps: bool) returns (x: Vector, steps: seq<Step>)
    requires Covers(U, n) && |d| == n
    requires NonzeroPivots(U, 0, n)
    ensures x == BackFrom(U, d, n, 0)
    ensures steps == if returnSteps then [BackSubstitutionStart] + BackLog(U, d, n, 0) else []
  {
    x := seq(n, _ => 0.0);
    steps := if returnSteps then [BackSubstitutionStart] else [];
    var i := n;
    while i > 0
      invariant i <= n && x == BackFrom(U, d, n, i)
      invariant steps == if returnSteps then [BackSubstitutionStart] + BackLog(U, d, n, i) else []
    {
      i := i - 1;
      var s := Dot(U[i], x, i + 1, n);
      var v := BackValue(d[i], s, U[i][i]);
      x := x[i := v];
      if returnSteps {
        steps := steps + [BackSubstitution(i, d[i], s, U[i][i], v)];
      }
    }
  }
}
