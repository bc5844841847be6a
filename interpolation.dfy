/** Polynomial interpolation through the points `(x[i], y[i])`: the
    Lagrange form evaluated by `lagrange_interp` and the node products it
    shares with the Newton form of `newton_interp`. */
module Interpolation {
  import opened LinearAlgebra

  /** No two nodes coincide (otherwise both routines divide by zero). */
  predicate Distinct(x: Vector)
  {
    forall i, j :: 0 <= i < j < |x| ==> Apart(x, i, j)
  }

  /** Nodes `i` and `j` differ; named so that `Distinct` is only unfolded
      for the pairs a proof asks about. */
  predicate Apart(x: Vector, i: nat, j: nat)
    requires i < |x| && j < |x|
  {
    x[i] != x[j]
  }

  lemma DistinctNodes(x: Vector, i: nat, j: nat)
    requires i < |x| && j < |x| && i != j && Distinct(x)
    ensures x[i] != x[j]
  {
    if i < j {
      assert Apart(x, i, j);
    } else {
      assert Apart(x, j, i);
    }
  }

  // ---------------------------------------------------------------------
  // Products over the nodes

  /** `(t - x[0]) * ... * (t - x[m-1])`, the `produto` of the Newton form. */
  function NewtonProduct(x: Vector, t: real, m: nat): real
    requires m <= |x|
  {
    if m == 0 then 1.0 else NewtonProduct(x, t, m - 1) * (t - x[m - 1])
  }

  /** `(t - x[j])` multiplied over `j < m`, `j != i`. */
  function OtherFactors(x: Vector, i: nat, t: real, m: nat): real
    requires m <= |x|
  {
    if m == 0 then 1.0
    else if m - 1 == i then OtherFactors(x, i, t, m - 1)
    else OtherFactors(x, i, t, m - 1) * (t - x[m - 1])
  }

  // ---------------------------------------------------------------------
  // The Lagrange form

  /** The Lagrange basis factor `L` of node `i` after the inner loop has
      passed `j < m`: the product of `(t - x[j]) / (x[i] - x[j])`, `j != i`. */
  function Basis(x: Vector, i: nat, t: real, m: nat): real
    requires i < |x| && m <= |x| && Distinct(x)
  {
    if m == 0 then 1.0
    else if m - 1 == i then Basis(x, i, t, m - 1)
    else
      assert x[i] != x[m - 1] by { DistinctNodes(x, i, m - 1); }
      Basis(x, i, t, m - 1) * ((t - x[m - 1]) / (x[i] - x[m - 1]))
  }

  /** The term `L * y[i]` of each of the first `m` nodes, its basis taken
      over those `m` nodes. */
  function LagrangeTerms(x: Vector, y: Vector, t: real, m: nat): (terms: Vector)
    requires m <= |x| && m <= |y| && Distinct(x)
    ensures |terms| == m
  {
    seq(m, i requires 0 <= i < m => Basis(x, i, t, m) * y[i])
  }

  /** The running `total` after the outer loop has added the terms of the
      nodes `i < k`. */
  function Lagrange(x: Vector, y: Vector, t: real, m: nat, k: nat): real
    requires k <= m <= |x| && m <= |y| && Distinct(x)
  {
    Sum(LagrangeTerms(x, y, t, m), k)
  }

  /** A node at or beyond `m` is not among the factors: nothing is left out. */
  lemma {:induction false} OtherFactorsWithout(x: Vector, i: nat, t: real, m: nat)
    requires m <= i < |x|
    ensures OtherFactors(x, i, t, m) == NewtonProduct(x, t, m)
  {
    if m > 0 {
      OtherFactorsWithout(x, i, t, m - 1);
    }
  }

  /** Leaving node `i < m` out of the node product, then putting it back. */
  lemma {:induction false} OtherFactorsWith(x: Vector, i: nat, t: real, m: nat)
    requires i < m <= |x|
    ensures OtherFactors(x, i, t, m) * (t - x[i]) == NewtonProduct(x, t, m)
  {
    if i == m - 1 {
      OtherFactorsWithout(x, i, t, m - 1);
    } else {
      OtherFactorsWith(x, i, t, m - 1);
      assert OtherFactors(x, i, t, m) == OtherFactors(x, i, t, m - 1) * (t - x[m - 1]);
      MoveFactor(OtherFactors(x, i, t, m - 1), t - x[m - 1], t - x[i], NewtonProduct(x, t, m - 1));
    }
  }

  lemma MoveFactor(a: real, b: real, c: real, n: real)
    requires a * c == n
    ensures (a * b) * c == n * b
  {
  }

  /** At its own node a basis factor is 1. */
  lemma {:induction false} BasisAtOwnNode(x: Vector, k: nat, m: nat)
    requires k < |x| && m <= |x| && Distinct(x)
    ensures Basis(x, k, x[k], m) == 1.0
  {
    if m > 0 {
      BasisAtOwnNode(x, k, m - 1);
      if m - 1 != k {
        DistinctNodes(x, k, m - 1);
        OneQuotient(x[k] - x[m - 1]);
      }
    }
  }

  lemma OneQuotient(v: real)
    requires v != 0.0
    ensures v / v == 1.0
  {
  }

  /** At any other node among the first `m` a basis factor is 0. */
  lemma {:induction false} BasisAtOtherNode(x: Vector, i: nat, k: nat, m: nat)
    requires i < |x| && k < m <= |x| && i != k && Distinct(x)
    ensures Basis(x, i, x[k], m) == 0.0
  {
    if m - 1 > k {
      BasisAtOtherNode(x, i, k, m - 1);
    } else {
      DistinctNodes(x, i, k);
      assert (x[k] - x[m - 1]) / (x[i] - x[m - 1]) == 0.0;
    }
  }

  /** Partial sums of the Lagrange form at node `x[k]`. */
  lemma {:induction false} LagrangeAtNodeUpTo(x: Vector, y: Vector, k: nat, m: nat, n: nat)
    requires n <= m <= |x| && m <= |y| && k < m && Distinct(x)
    ensures Lagrange(x, y, x[k], m, n) == if k < n then y[k] else 0.0
  {
    if n > 0 {
      LagrangeAtNodeUpTo(x, y, k, m, n - 1);
      if n - 1 == k {
        BasisAtOwnNode(x, k, m);
      } else {
        BasisAtOtherNode(x, n - 1, k, m);
      }
    }
  }

  /** The Lagrange form interpolates: at node `x[k]` it gives `y[k]`. */
  lemma LagrangeAtNode(x: Vector, y: Vector, k: nat)
    requires |x| <= |y| && k < |x| && Distinct(x)
    ensures Lagrange(x, y, x[k], |x|, |x|) == y[k]
  {
    LagrangeAtNodeUpTo(x, y, k, |x|, |x|);
  }
}
