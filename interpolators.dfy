/** The two interpolation routines, `lagrange_interp` and `newton_interp`,
    as the loops they run. Python turns every exception they raise (an
    index past the end of `y`, a division by the gap between two equal
    nodes, `dd[0]` of an empty table) into a failed result; here the
    failure is decided before the loops, which then cannot fail. */
module Interpolators {
  import opened Wrappers
  import opened LinearAlgebra
  import opened Interpolation
  import opened DividedDifferences

  /** `lagrange_interp(x, y, x0)`: the sum over the nodes of `L * y[i]`,
      `L` multiplied up over the other nodes. */
  method LagrangeInterp(x: Vector, y: Vector, t: real) returns (r: Option<real>)
    ensures r.None? <==> !Distinct(x) || |y| < |x|
    ensures r.Some? ==> r.value == Lagrange(x, y, t, |x|, |x|)
    ensures r.Some? ==> forall k :: 0 <= k < |x| && t == x[k] ==> r.value == y[k]
    ensures |x| == 0 ==> r == Some(0.0)
  {
    var n := |x|;
    if !Distinct(x) || |y| < n {
      return None;
    }
    var total := 0.0;
    for i := 0 to n
      invariant total == Lagrange(x, y, t, n, i)
    {
      var L := BasisFactor(x, i, t);
      total := total + L * y[i];
    }
    forall k | 0 <= k < n && t == x[k]
      ensures total == y[k]
    {
      LagrangeAtNode(x, y, k);
    }
    return Some(total);
  }

  /** The inner loop of `lagrange_interp`: `L` multiplied by
      `(x0 - x[j]) / (x[i] - x[j])` for every node `j != i`. */
  method BasisFactor(x: Vector, i: nat, t: real) returns (L: real)
    requires i < |x| && Distinct(x)
    ensures L == Basis(x, i, t, |x|)
  {
    L := 1.0;
    for j := 0 to |x|
      invariant L == Basis(x, i, t, j)
    {
      if i != j {
        DistinctNodes(x, i, j);
        L := L * ((t - x[j]) / (x[i] - x[j]));
      }
    }
  }

  /** Entry `k` of the working list `dd` after `p` passes of the table
      loop: `f[x[k-p], ..., x[k]]`, or `f[x[0], ..., x[k]]` once `k < p`,
      which no later pass changes. */
  function Stage(x: Vector, y: Vector, p: nat, k: nat): real
    requires k < |x| <= |y| && Distinct(x)
  {
    DD(x, y, if k >= p then k - p else 0, k + 1)
  }

  /** `dd` holds the entries after `p` passes. */
  predicate AtStage(x: Vector, y: Vector, dd: Vector, p: nat)
    requires |x| <= |y| && Distinct(x)
  {
    |dd| == |x| && forall k :: 0 <= k < |x| ==> dd[k] == Stage(x, y, p, k)
  }

  /** Pass `j` divides entry `i >= j` by the gap of `j + 1` nodes, from the
      entries `i` and `i - 1` of the previous pass. */
  lemma StageUpdate(x: Vector, y: Vector, j: nat, i: nat)
    requires 1 <= j <= i < |x| <= |y| && Distinct(x)
    ensures x[i] != x[i - j]
    ensures Stage(x, y, j, i) == Divided(Stage(x, y, j - 1, i), Stage(x, y, j - 1, i - 1), x[i], x[i - j])
  {
    DistinctNodes(x, i, i - j);
  }

  /** Pass `j` leaves the finished entries `i < j` alone. */
  lemma StageDone(x: Vector, y: Vector, j: nat, i: nat)
    requires i < j && i < |x| <= |y| && Distinct(x)
    ensures Stage(x, y, j, i) == Stage(x, y, j - 1, i)
  {
  }

  /** Before any pass entry `k` is `y[k]`; after `|x| - 1` passes it is
      `f[x[0], ..., x[k]]`, the finished table. */
  lemma StageEnds(x: Vector, y: Vector, k: nat)
    requires k < |x| <= |y| && Distinct(x)
    ensures Stage(x, y, 0, k) == y[k]
    ensures Stage(x, y, |x| - 1, k) == Table(x, y)[k]
  {
  }

  /** One pass `for i in range(n-1, j-1, -1)`, from the last entry down so
      that `dd[i-1]` still holds the previous pass's value when `dd[i]`
      reads it. */
  method TablePass(x: Vector, y: Vector, dd: Vector, j: nat) returns (next: Vector)
    requires 1 <= j < |x| <= |y| && Distinct(x) && AtStage(x, y, dd, j - 1)
    ensures AtStage(x, y, next, j)
  {
    var n := |x|;
    next := dd;
    for i := n downto j
      invariant |next| == n
      invariant forall k :: 0 <= k < i ==> next[k] == Stage(x, y, j - 1, k)
      invariant forall k :: i <= k < n ==> next[k] == Stage(x, y, j, k)
    {
      StageUpdate(x, y, j, i);
      next := next[i := Divided(next[i], next[i - 1], x[i], x[i - j])];
    }
    forall k | 0 <= k < j
      ensures next[k] == Stage(x, y, j, k)
    {
      StageDone(x, y, j, k);
    }
  }

  /** The table loop: `dd` starts as `y[:n]` and after the passes
      `j = 1 .. n-1` holds the divided differences `f[x[0], ..., x[k]]`. */
  method DividedDifferenceTable(x: Vector, y: Vector) returns (dd: Vector)
    requires 1 <= |x| <= |y| && Distinct(x)
    ensures dd == Table(x, y)
  {
    var n := |x|;
    dd := y[..n];
    forall k | 0 <= k < n
      ensures dd[k] == Stage(x, y, 0, k)
    {
      StageEnds(x, y, k);
    }
    for j := 1 to n
      invariant AtStage(x, y, dd, j - 1)
    {
      dd := TablePass(x, y, dd, j);
    }
    forall k | 0 <= k < n
      ensures dd[k] == Table(x, y)[k]
    {
      StageEnds(x, y, k);
    }
  }

  /** The evaluation loop: `produto` grows by one node factor per step and
      `result` by one Newton term. */
  method NewtonEvaluate(x: Vector, c: Vector, t: real) returns (result: real)
    requires 1 <= |c| <= |x|
    ensures result == NewtonEval(x, c, t, |c|)
  {
    var n := |c|;
    result := c[0];
    var produto := 1.0;
    for i := 1 to n
      invariant produto == NewtonProduct(x, t, i - 1)
      invariant result == NewtonEval(x, c, t, i)
    {
      produto := produto * (t - x[i - 1]);
      result := result + c[i] * produto;
    }
  }

  /** `newton_interp(x, y, x0)`: the interpolated value and the table of
      divided differences, which on distinct nodes gives the value of the
      Lagrange form. */
  method NewtonInterp(x: Vector, y: Vector, t: real) returns (r: Option<(real, Vector)>)
    ensures r.None? <==> |x| == 0 || |y| < |x| || !Distinct(x)
    ensures r.Some? ==> |x| <= |y| && Distinct(x) && r.value.1 == Table(x, y)
    ensures r.Some? ==> r.value.0 == NewtonEval(x, Table(x, y), t, |x|)
    ensures r.Some? ==> r.value.0 == Lagrange(x, y, t, |x|, |x|)
  {
    var n := |x|;
    if n == 0 || |y| < n || !Distinct(x) {
      return None;
    }
    var dd := DividedDifferenceTable(x, y);
    var result := NewtonEvaluate(x, dd, t);
    NewtonIsLagrange(x, y, t, n);
    return Some((result, dd));
  }
}
