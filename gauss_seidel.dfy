/** The Gauss-Seidel iteration, in the two forms of the program:
    `gauss_seidel` (which turns any exception into a failed result) and
    `gauss_seidel_with_history` (which starts from a default guess when
    none is given and records every sweep). The number of equations is
    always `|b|`; both routines work on copies, here `seq` values, so the
    caller's initial guess is never changed. */
module GaussSeidel {
  import opened Wrappers
  import opened LinearAlgebra

  /** Every equation `i < n` has a nonzero coefficient on `x[i]`. */
  predicate NonzeroDiagonal(A: Matrix, n: nat)
    requires Covers(A, n)
  {
    forall i :: 0 <= i < n ==> A[i][i] != 0.0
  }

  /** A sweep from `x` raises nothing: every coefficient it reads exists,
      `x` has an entry per unknown, and no division by a zero diagonal. */
  predicate Sweepable(A: Matrix, b: Vector, x: Vector)
  {
    Covers(A, |b|) && |x| >= |b| && NonzeroDiagonal(A, |b|)
  }

  /** `(rhs - s1 - s2) / pivot`: the value of the unknown that makes the
      equation `pivot * v + s1 + s2 == rhs` hold. */
  function RowSolution(rhs: real, s1: real, s2: real, pivot: real): (v: real)
    requires pivot != 0.0
    ensures pivot * v + s1 + s2 == rhs
  {
    (rhs - s1 - s2) / pivot
  }

  /** The iterate after a sweep has updated rows `0 .. i-1` from `xOld`:
      row `r` reads the new values of unknowns `j < r` and the old values of
      unknowns `j > r`. */
  function SweepTo(A: Matrix, b: Vector, xOld: Vector, i: nat): (x: Vector)
    requires Sweepable(A, b, xOld) && i <= |b|
    ensures |x| == |xOld|
    decreases i
  {
    if i == 0 then xOld
    else
      var x := SweepTo(A, b, xOld, i - 1);
      x[i - 1 := RowSolution(b[i - 1], Dot(A[i - 1], x, 0, i - 1), Dot(A[i - 1], xOld, i, |b|), A[i - 1][i - 1])]
  }

  /** One full sweep over all equations. */
  function Sweep(A: Matrix, b: Vector, xOld: Vector): (x: Vector)
    requires Sweepable(A, b, xOld)
    ensures |x| == |xOld|
  {
    SweepTo(A, b, xOld, |b|)
  }

  /** `max(abs(x[i] - y[i]) for i in range(n))`: the largest change of a
      component, attained by some component. */
  function MaxChange(x: Vector, y: Vector, n: nat): (e: real)
    requires 1 <= n <= |x| && n <= |y|
    ensures e >= 0.0
    decreases n
  {
    if n == 1 then Abs(x[0] - y[0])
    else
      var m := MaxChange(x, y, n - 1);
      var d := Abs(x[n - 1] - y[n - 1]);
      if d > m then d else m
  }

  /** The measured error bounds every component's change and is attained by one. */
  lemma {:induction false} MaxChangeIsMax(x: Vector, y: Vector, n: nat)
    requires 1 <= n <= |x| && n <= |y|
    ensures forall i :: 0 <= i < n ==> Abs(x[i] - y[i]) <= MaxChange(x, y, n)
    ensures exists i :: 0 <= i < n && MaxChange(x, y, n) == Abs(x[i] - y[i])
    decreases n
  {
    if n > 1 {
      MaxChangeIsMax(x, y, n - 1);
    }
  }

  /** The iterate after `k` sweeps from `x0`. */
  function Iterate(A: Matrix, b: Vector, x0: Vector, k: nat): (x: Vector)
    requires Sweepable(A, b, x0)
    ensures |x| == |x0|
    decreases k
  {
    if k == 0 then x0
    else
      SweepableStays(A, b, x0, Iterate(A, b, x0, k - 1));
      Sweep(A, b, Iterate(A, b, x0, k - 1))
  }

  lemma SweepableStays(A: Matrix, b: Vector, x: Vector, y: Vector)
    requires Sweepable(A, b, x) && |y| == |x|
    ensures Sweepable(A, b, y)
  {
  }

  /** Sweep `k + 1` starts from the iterate after sweep `k`, and its error
      and history entry are measured between the two. */
  lemma SweepNext(A: Matrix, b: Vector, x0: Vector, k: nat)
    requires Sweepable(A, b, x0) && |b| >= 1
    ensures Sweepable(A, b, Iterate(A, b, x0, k))
    ensures Iterate(A, b, x0, k + 1) == Sweep(A, b, Iterate(A, b, x0, k))
    ensures Change(A, b, x0, k + 1) == MaxChange(Iterate(A, b, x0, k + 1), Iterate(A, b, x0, k), |b|)
  {
  }

  /** The first `k` sweeps all miss the tolerance once the first `k - 1` and
      sweep `k` do. */
  lemma NoStopExtends(A: Matrix, b: Vector, x0: Vector, tol: real, k: nat)
    requires Sweepable(A, b, x0) && |b| >= 1 && k >= 1
    requires forall j :: 1 <= j < k ==> Change(A, b, x0, j) >= tol
    requires Change(A, b, x0, k) >= tol
    ensures forall j :: 1 <= j < k + 1 ==> Change(A, b, x0, j) >= tol
  {
  }

  /** The error measured after sweep `k` (counted from 1). */
  function Change(A: Matrix, b: Vector, x0: Vector, k: nat): real
    requires Sweepable(A, b, x0) && |b| >= 1 && k >= 1
  {
    MaxChange(Iterate(A, b, x0, k), Iterate(A, b, x0, k - 1), |b|)
  }

  /** `c` is the count the iteration returns with the sweep budget
      `maxIter`: the first sweep whose error is below `tol`, or the budget
      when no sweep before the last one gets there. */
  predicate StopsAt(A: Matrix, b: Vector, x0: Vector, tol: real, maxIter: int, c: int)
    requires Sweepable(A, b, x0) && |b| >= 1
  {
    1 <= c <= maxIter &&
    (forall k :: 1 <= k < c ==> Change(A, b, x0, k) >= tol) &&
    (c == maxIter || Change(A, b, x0, c) < tol)
  }

  /** One history entry `(k, x.copy(), err)`. */
  datatype Record = Record(sweep: int, x: Vector, err: real)

  /** The history of the first `c` sweeps: one snapshot per sweep, numbered
      from 1, holding the iterate and the error of that sweep. */
  function History(A: Matrix, b: Vector, x0: Vector, c: nat): (h: seq<Record>)
    requires Sweepable(A, b, x0) && |b| >= 1
    ensures |h| == c
  {
    seq(c, j requires 0 <= j < c => Record(j + 1, Iterate(A, b, x0, j + 1), Change(A, b, x0, j + 1)))
  }

  /** Each sweep appends one entry to the history and leaves the earlier
      snapshots as they were. */
  lemma HistoryGrows(A: Matrix, b: Vector, x0: Vector, c: nat)
    requires Sweepable(A, b, x0) && |b| >= 1
    ensures History(A, b, x0, c + 1) == History(A, b, x0, c) + [Record(c + 1, Iterate(A, b, x0, c + 1), Change(A, b, x0, c + 1))]
  {
    var h, h' := History(A, b, x0, c), History(A, b, x0, c + 1);
    assert forall j :: 0 <= j < c ==> h'[j] == h[j];
  }

  /** The default initial guess `b[i] / A[i][i]`: each component solves its
      own equation with every other unknown at zero. */
  function InitialGuess(A: Matrix, b: Vector): (g: Vector)
    requires Covers(A, |b|) && NonzeroDiagonal(A, |b|)
    ensures |g| == |b|
    ensures forall i :: 0 <= i < |b| ==> A[i][i] * g[i] == b[i]
  {
    seq(|b|, i requires 0 <= i < |b| => b[i] / A[i][i])
  }

  // ---------------------------------------------------------------------
  // Properties of a sweep

  /** Entries the sweep has passed keep the value they were given; the
      others still hold the previous iterate. */
  lemma {:induction false} SweepToEntry(A: Matrix, b: Vector, xOld: Vector, i: nat, j: nat)
    requires Sweepable(A, b, xOld) && i <= |b| && j < |xOld|
    ensures SweepTo(A, b, xOld, i)[j] == if j < i then SweepTo(A, b, xOld, j + 1)[j] else xOld[j]
    decreases i
  {
    if i > 0 && j != i - 1 {
      SweepToEntry(A, b, xOld, i - 1, j);
    }
  }

  /** After a sweep, equation `i` holds with the new values of the unknowns
      before `i` and the old values of those after it. */
  lemma SweepEquation(A: Matrix, b: Vector, xOld: Vector, i: nat)
    requires Sweepable(A, b, xOld) && i < |b|
    ensures var y := Sweep(A, b, xOld);
      A[i][i] * y[i] + Dot(A[i], y, 0, i) + Dot(A[i], xOld, i + 1, |b|) == b[i]
  {
    var n := |b|;
    var y, z := Sweep(A, b, xOld), SweepTo(A, b, xOld, i);
    forall j | 0 <= j < i
      ensures y[j] == z[j]
    {
      SweepToEntry(A, b, xOld, n, j);
      SweepToEntry(A, b, xOld, i, j);
    }
    DotFrame(A[i], y, z, 0, i);
    SweepToEntry(A, b, xOld, n, i);
  }

  /** `Dot` over a whole row, split around column `i`. */
  lemma RowSplit(row: Vector, x: Vector, i: nat, n: nat)
    requires i < n <= |row| && n <= |x|
    ensures Dot(row, x, 0, n) == Dot(row, x, 0, i) + row[i] * x[i] + Dot(row, x, i + 1, n)
  {
    DotSplit(row, x, 0, i, n);
    DotSplit(row, x, i, i + 1, n);
  }

  /** A solution of the system is left unchanged by the sweeps up to row `i`. */
  lemma {:induction false} SolutionStays(A: Matrix, b: Vector, x: Vector, i: nat)
    requires Sweepable(A, b, x) && i <= |b| && Satisfies(A, b, x, |b|)
    ensures SweepTo(A, b, x, i) == x
    decreases i
  {
    if i > 0 {
      var r := i - 1;
      SolutionStays(A, b, x, r);
      var s1, s2 := Dot(A[r], x, 0, r), Dot(A[r], x, r + 1, |b|);
      var v := RowSolution(b[r], s1, s2, A[r][r]);
      assert A[r][r] * v + s1 + s2 == b[r];
      RowSplit(A[r], x, r, |b|);
      assert A[r][r] * x[r] + s1 + s2 == b[r];
      assert Times(v, A[r][r]) == Times(x[r], A[r][r]);
      Cancel(v, A[r][r], x[r]);
    }
  }

  /** The fixed points of a sweep are exactly the solutions of the system. */
  lemma FixedPointIffSolution(A: Matrix, b: Vector, x: Vector)
    requires Sweepable(A, b, x)
    ensures Sweep(A, b, x) == x <==> Satisfies(A, b, x, |b|)
  {
    if Sweep(A, b, x) == x {
      forall i | 0 <= i < |b|
        ensures Dot(A[i], x, 0, |b|) == b[i]
      {
        SweepEquation(A, b, x, i);
        RowSplit(A[i], x, i, |b|);
      }
    }
    if Satisfies(A, b, x, |b|) {
      SolutionStays(A, b, x, |b|);
    }
  }

  /** The measured error is zero exactly when no component changed. */
  lemma MaxChangeZero(x: Vector, y: Vector, n: nat)
    requires 1 <= n <= |x| && n <= |y|
    ensures MaxChange(x, y, n) == 0.0 <==> x[..n] == y[..n]
  {
    MaxChangeIsMax(x, y, n);
    if MaxChange(x, y, n) == 0.0 {
      forall i | 0 <= i < n
        ensures x[..n][i] == y[..n][i]
      {
        assert Abs(x[i] - y[i]) <= 0.0;
      }
    }
    if x[..n] == y[..n] {
      forall i | 0 <= i < n
        ensures Abs(x[i] - y[i]) == 0.0
      {
        assert x[..n][i] == y[..n][i];
      }
    }
  }

  /** A sweep leaves entries beyond the last unknown alone. */
  lemma SweepTail(A: Matrix, b: Vector, x: Vector)
    requires Sweepable(A, b, x)
    ensures Sweep(A, b, x)[|b|..] == x[|b|..]
  {
    forall j | |b| <= j < |x|
      ensures Sweep(A, b, x)[j] == x[j]
    {
      SweepToEntry(A, b, x, |b|, j);
    }
  }

  /** Sweep `k` reports a zero error exactly when the iterate it started
      from already solves the system. */
  lemma ZeroChangeIffSolved(A: Matrix, b: Vector, x0: Vector, k: nat)
    requires Sweepable(A, b, x0) && |b| >= 1 && k >= 1
    ensures Change(A, b, x0, k) == 0.0 <==> Satisfies(A, b, Iterate(A, b, x0, k - 1), |b|)
  {
    var n := |b|;
    var x := Iterate(A, b, x0, k - 1);
    SweepableStays(A, b, x0, x);
    var y := Sweep(A, b, x);
    assert Iterate(A, b, x0, k) == y;
    MaxChangeZero(y, x, n);
    SweepTail(A, b, x);
    assert y == y[..n] + y[n..] && x == x[..n] + x[n..];
    FixedPointIffSolution(A, b, x);
  }

  // ---------------------------------------------------------------------
  // Properties of the stopping rule

  /** The stopping rule determines the count. */
  lemma StopsAtUnique(A: Matrix, b: Vector, x0: Vector, tol: real, maxIter: int, c: int, c': int)
    requires Sweepable(A, b, x0) && |b| >= 1
    requires StopsAt(A, b, x0, tol, maxIter, c) && StopsAt(A, b, x0, tol, maxIter, c')
    ensures c == c'
  {
  }

  /** Some sweep within the budget met the tolerance exactly when the sweep
      the count names did: a count equal to the budget means convergence
      when the last error is below `tol`, and exhaustion otherwise. */
  lemma LastErrorDecides(A: Matrix, b: Vector, x0: Vector, tol: real, maxIter: int, c: int)
    requires Sweepable(A, b, x0) && |b| >= 1 && StopsAt(A, b, x0, tol, maxIter, c)
    ensures (exists k :: 1 <= k <= maxIter && Change(A, b, x0, k) < tol) <==> Change(A, b, x0, c) < tol
  {
    if exists k :: 1 <= k <= maxIter && Change(A, b, x0, k) < tol {
      var k :| 1 <= k <= maxIter && Change(A, b, x0, k) < tol;
    }
  }

  // ---------------------------------------------------------------------
  // The routines

  /** One sweep, `for i in range(n)`, overwriting `x[i]` in place. */
  method RunSweep(A: Matrix, b: Vector, xOld: Vector) returns (x: Vector)
    requires Sweepable(A, b, xOld)
    ensures x == Sweep(A, b, xOld)
  {
    var n := |b|;
    x := xOld;
    for i := 0 to n
      invariant x == SweepTo(A, b, xOld, i)
    {
      var s1 := Dot(A[i], x, 0, i);
      var s2 := Dot(A[i], xOld, i + 1, n);
      x := x[i := RowSolution(b[i], s1, s2, A[i][i])];
    }
  }

  /** `gauss_seidel(A, b, x0, tol, max_iter)`. A budget of no sweeps returns
      the copy of `x0` and the budget. Otherwise the first sweep raises an
      IndexError (a missing coefficient or a short `x0`), a
      ZeroDivisionError (a zero diagonal entry) or a ValueError (`max` of no
      changes when `b` is empty) exactly when `Sweepable` fails or `b` is
      empty, and the handler turns that into `None`; the later sweeps read
      the same entries and cannot raise. */
  method GaussSeidel(A: Matrix, b: Vector, x0: Vector, tol: real, maxIter: int) returns (r: Option<(Vector, int)>)
    ensures maxIter <= 0 ==> r == Some((x0, maxIter))
    ensures maxIter >= 1 ==> (r.Some? <==> |b| >= 1 && Sweepable(A, b, x0))
    ensures maxIter >= 1 && r.Some? ==>
      |b| >= 1 && Sweepable(A, b, x0) &&
      StopsAt(A, b, x0, tol, maxIter, r.value.1) && r.value.0 == Iterate(A, b, x0, r.value.1)
  {
    var n := |b|;
    if maxIter <= 0 {
      return Some((x0, maxIter));
    }
    if n == 0 || !Sweepable(A, b, x0) {
      return None;
    }
    var x := x0;
    var it: nat := 0;
    while it < maxIter
      invariant it <= maxIter && x == Iterate(A, b, x0, it)
      invariant forall k :: 1 <= k <= it ==> Change(A, b, x0, k) >= tol
    {
      var xOld := x;
      SweepableStays(A, b, x0, xOld);
      x := RunSweep(A, b, xOld);
      var err := MaxChange(x, xOld, n);
      assert err == Change(A, b, x0, it + 1);
      if err < tol {
        return Some((x, it + 1));
      }
      it := it + 1;
    }
    return Some((x, maxIter));
  }

  /** `gauss_seidel_with_history(A, b, x0, tol, max_iter)`: the same
      iteration from `x0`, or from `InitialGuess` when `x0` is `None`, with
      one `Record` per sweep. The numpy routine raises instead of returning
      an error, so what it needs becomes a precondition; division by a zero
      diagonal, which numpy turns into inf or nan, is excluded the same way. */
  method GaussSeidelWithHistory(A: Matrix, b: Vector, x0: Option<Vector>, tol: real, maxIter: int)
    returns (x: Vector, history: seq<Record>, count: int)
    requires x0.None? || maxIter >= 1 ==> Covers(A, |b|) && NonzeroDiagonal(A, |b|)
    requires x0.Some? && maxIter >= 1 ==> |x0.value| == |b|
    requires maxIter >= 1 ==> |b| >= 1
    ensures var start := if x0.Some? then x0.value else InitialGuess(A, b);
      maxIter <= 0 ==> x == start && history == [] && count == maxIter
    ensures var start := if x0.Some? then x0.value else InitialGuess(A, b);
      maxIter >= 1 ==>
        Sweepable(A, b, start) &&
        StopsAt(A, b, start, tol, maxIter, count) && x == Iterate(A, b, start, count) &&
        history == History(A, b, start, count)
  {
    var n := |b|;
    x := if x0.Some? then x0.value else InitialGuess(A, b);
    if maxIter <= 0 {
      return x, [], maxIter;
    }
    x, history, count := SweepsWithHistory(A, b, x, tol, maxIter);
  }

  /** The `for k in range(1, max_iter + 1)` loop of
      `gauss_seidel_with_history`, from the initial iterate `x0`. */
  method SweepsWithHistory(A: Matrix, b: Vector, x0: Vector, tol: real, maxIter: int)
    returns (x: Vector, history: seq<Record>, count: int)
    requires Sweepable(A, b, x0) && |b| >= 1 && maxIter >= 1
    ensures StopsAt(A, b, x0, tol, maxIter, count)
    ensures x == Iterate(A, b, x0, count) && history == History(A, b, x0, count)
  {
    var n := |b|;
    x, history := x0, [];
    var k: nat := 1;
    while k <= maxIter
      invariant 1 <= k <= maxIter + 1
      invariant x == Iterate(A, b, x0, k - 1) && history == History(A, b, x0, k - 1)
      invariant forall j :: 1 <= j < k ==> Change(A, b, x0, j) >= tol
    {
      var err;
      x, history, err := RecordSweep(A, b, x0, k, x, history);
      if err < tol {
        return x, history, k;
      }
      NoStopExtends(A, b, x0, tol, k);
      k := k + 1;
    }
    return x, history, maxIter;
  }

  /** The body of the `for k` loop: sweep `k` from `x`, its error, and the
      history extended by the snapshot `(k, x.copy(), err)`. */
  method RecordSweep(A: Matrix, b: Vector, x0: Vector, k: nat, xOld: Vector, history0: seq<Record>)
    returns (x: Vector, history: seq<Record>, err: real)
    requires Sweepable(A, b, x0) && |b| >= 1 && k >= 1
    requires xOld == Iterate(A, b, x0, k - 1) && history0 == History(A, b, x0, k - 1)
    ensures x == Iterate(A, b, x0, k) && history == History(A, b, x0, k) && err == Change(A, b, x0, k)
  {
    SweepNext(A, b, x0, k - 1);
    HistoryGrows(A, b, x0, k - 1);
    x := RunSweep(A, b, xOld);
    err := MaxChange(x, xOld, |b|);
    history := history0 + [Record(k, x, err)];
  }
}
