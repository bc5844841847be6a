/** Interpolation is exact on polynomials: when the data `y[i]` are the
    values at the nodes of a polynomial of degree below the number of nodes,
    the Newton form of `newton_interp` and the Lagrange form of
    `lagrange_interp` give the value of that polynomial at every point, not
    only at the nodes. The polynomial is written out by its coefficients;
    repeated division by `(t - x[k])` rewrites it in the Newton basis of the
    nodes, and those Newton coefficients are shown to be the table of
    divided differences. */
module PolynomialExactness {
  import opened LinearAlgebra
  import opened Interpolation
  import opened DividedDifferences

  /** `a[0] + a[1] * t + ... + a[|a| - 1] * t^(|a| - 1)`, by Horner's rule. */
  function Horner(a: Vector, t: real): real
  {
    if |a| == 0 then 0.0 else a[0] + Times(t, Horner(a[1..], t))
  }

  /** The quotient of `a` by `(t - s)`: its coefficients, one fewer. */
  function Deflate(a: Vector, s: real): (q: Vector)
    requires |a| >= 1
    ensures |q| == |a| - 1
  {
    if |a| == 1 then [] else [Horner(a[1..], s)] + Deflate(a[1..], s)
  }

  lemma DeflateStep(a0: real, t: real, s: real, r: real, q: real, rt: real)
    requires rt == r + Times(t - s, q)
    ensures a0 + Times(t, rt) == (a0 + Times(s, r)) + Times(t - s, r + Times(t, q))
  {
    assert t * (r + (t - s) * q) == s * r + (t - s) * (r + t * q);
  }

  /** Division with remainder: `p(t) == p(s) + (t - s) * q(t)`. */
  lemma {:induction false} DeflateSplit(a: Vector, s: real, t: real)
    requires |a| >= 1
    ensures Horner(a, t) == Horner(a, s) + Times(t - s, Horner(Deflate(a, s), t))
    decreases |a|
  {
    var r := a[1..];
    if |a| == 1 {
      assert Horner(r, t) == 0.0 && Horner(r, s) == 0.0;
      assert Horner(Deflate(a, s), t) == 0.0;
    } else {
      DeflateSplit(r, s, t);
      var q := Deflate(r, s);
      assert Deflate(a, s)[1..] == q;
      assert Horner(Deflate(a, s), t) == Horner(r, s) + Times(t, Horner(q, t));
      DeflateStep(a[0], t, s, Horner(r, s), Horner(q, t), Horner(r, t));
    }
  }

  /** The quotient left after dividing by `(t - x[0]) ... (t - x[k - 1])`. */
  function Remainder(a: Vector, x: Vector, k: nat): (r: Vector)
    requires k <= |a| && k <= |x|
    ensures |r| == |a| - k
  {
    if k == 0 then a else Deflate(Remainder(a, x, k - 1), x[k - 1])
  }

  /** Newton coefficient `k` of `a`: the remainder after `k` divisions,
      evaluated at `x[k]`. */
  function Coefficient(a: Vector, x: Vector, k: int): real
    requires |a| == |x|
  {
    if 0 <= k < |x| then Horner(Remainder(a, x, k), x[k]) else 0.0
  }

  /** The coefficients of `a` in the Newton basis of the nodes. */
  function NewtonCoefficients(a: Vector, x: Vector): (c: Vector)
    requires |a| == |x|
    ensures |c| == |x|
  {
    seq(|x|, k => Coefficient(a, x, k))
  }

  /** The step of `NewtonUpTo` on plain reals: `h` is the Newton value `e`
      so far plus the product `np` times the quotient value `r`; `r` splits
      into the next coefficient `b` plus `g` times the next quotient value
      `q`; `e1` and `np1` are the Newton value and product one node on. */
  lemma NewtonStep(h: real, e: real, np: real, r: real, b: real, g: real, q: real,
                   e1: real, np1: real)
    requires h == e + Times(np, r) && r == b + Times(g, q)
    requires e1 == e + b * np && np1 == np * g
    ensures h == e1 + Times(np1, q)
  {
    assert np * (b + g * q) == b * np + (np * g) * q;
  }

  /** The first `m` Newton terms of `a`, coefficient by coefficient: the
      value `NewtonEval` gives on `NewtonCoefficients(a, x)`, written without
      the sequence so that the induction below stays small. */
  function NewtonSum(a: Vector, x: Vector, t: real, m: nat): real
    requires 1 <= m <= |a| == |x|
  {
    if m == 1 then Coefficient(a, x, 0)
    else NewtonSum(a, x, t, m - 1) + Coefficient(a, x, m - 1) * NewtonProduct(x, t, m - 1)
  }

  lemma {:induction false} NewtonSumIsEval(a: Vector, x: Vector, t: real, m: nat)
    requires 1 <= m <= |a| == |x|
    ensures NewtonSum(a, x, t, m) == NewtonEval(x, NewtonCoefficients(a, x), t, m)
    decreases m
  {
    if m > 1 {
      NewtonSumIsEval(a, x, t, m - 1);
    }
  }

  /** After `m` divisions the polynomial is the first `m` Newton terms plus
      the node product times the quotient left. */
  lemma {:induction false} NewtonUpTo(a: Vector, x: Vector, t: real, m: nat)
    requires 1 <= m <= |a| == |x|
    ensures Horner(a, t) == NewtonSum(a, x, t, m)
                            + Times(NewtonProduct(x, t, m), Horner(Remainder(a, x, m), t))
    decreases m
  {
    if m == 1 {
      DeflateSplit(a, x[0], t);
      assert NewtonProduct(x, t, 1) == 1.0 * (t - x[0]);
    } else {
      var k := m - 1;
      NewtonUpTo(a, x, t, k);
      var r := Remainder(a, x, k);
      var b, q := Horner(r, x[k]), Horner(Deflate(r, x[k]), t);
      DeflateSplit(r, x[k], t);
      assert Coefficient(a, x, k) == b;
      NewtonStep(Horner(a, t), NewtonSum(a, x, t, k), NewtonProduct(x, t, k), Horner(r, t),
                 b, t - x[k], q, NewtonSum(a, x, t, m), NewtonProduct(x, t, m));
      assert Remainder(a, x, m) == Deflate(r, x[k]);
    }
  }

  /** A polynomial with one coefficient per node is its Newton form. */
  lemma NewtonBasis(a: Vector, x: Vector, t: real)
    requires 1 <= |a| == |x|
    ensures Horner(a, t) == NewtonEval(x, NewtonCoefficients(a, x), t, |x|)
  {
    NewtonUpTo(a, x, t, |x|);
    NewtonSumIsEval(a, x, t, |x|);
    assert Horner(Remainder(a, x, |x|), t) == 0.0;
  }

  // ---------------------------------------------------------------------
  // Newton forms that agree at the nodes have the same coefficients

  /** The node product vanishes at every node it contains. */
  lemma {:induction false} ProductAtNode(x: Vector, j: nat, m: nat)
    requires j < m <= |x|
    ensures NewtonProduct(x, x[j], m) == 0.0
    decreases m
  {
    if m > j + 1 {
      ProductAtNode(x, j, m - 1);
    }
  }

  /** On distinct nodes, the product of the first `j` nodes is nonzero at `x[j]`. */
  lemma {:induction false} ProductNonzero(x: Vector, j: nat, m: nat)
    requires m <= j < |x| && Distinct(x)
    ensures NewtonProduct(x, x[j], m) != 0.0
    decreases m
  {
    if m > 0 {
      ProductNonzero(x, j, m - 1);
      DistinctNodes(x, j, m - 1);
    }
  }

  /** At node `x[j]` the Newton terms after the `(j + 1)`-th vanish. */
  lemma {:induction false} NewtonAtNodeTruncates(x: Vector, c: Vector, j: nat, m: nat)
    requires j < m <= |c| && m - 1 <= |x| && j < |x|
    ensures NewtonEval(x, c, x[j], m) == NewtonEval(x, c, x[j], j + 1)
    decreases m
  {
    if m > j + 1 {
      NewtonAtNodeTruncates(x, c, j, m - 1);
      ProductAtNode(x, j, m - 1);
    }
  }

  /** Only the first `m` coefficients matter. */
  lemma {:induction false} NewtonFrame(x: Vector, c: Vector, d: Vector, t: real, m: nat)
    requires 1 <= m <= |c| && m <= |d| && m - 1 <= |x|
    requires forall k :: 0 <= k < m ==> c[k] == d[k]
    ensures NewtonEval(x, c, t, m) == NewtonEval(x, d, t, m)
    decreases m
  {
    if m > 1 {
      NewtonFrame(x, c, d, t, m - 1);
    }
  }

  /** Two Newton forms on distinct nodes that agree at every node have the
      same coefficients, the first `m` of them after `m` steps. */
  lemma {:induction false} CoefficientsUnique(x: Vector, c: Vector, d: Vector, m: nat)
    requires m <= |x| == |c| == |d| && Distinct(x)
    requires forall i :: 0 <= i < |x| ==> NewtonEval(x, c, x[i], |x|) == NewtonEval(x, d, x[i], |x|)
    ensures forall k :: 0 <= k < m ==> c[k] == d[k]
    decreases m
  {
    if m > 0 {
      var j := m - 1;
      CoefficientsUnique(x, c, d, j);
      NewtonAtNodeTruncates(x, c, j, |x|);
      NewtonAtNodeTruncates(x, d, j, |x|);
      assert NewtonEval(x, c, x[j], j + 1) == NewtonEval(x, d, x[j], j + 1);
      if j > 0 {
        NewtonFrame(x, c, d, x[j], j);
        ProductNonzero(x, j, j);
        assert Times(c[j], NewtonProduct(x, x[j], j)) == Times(d[j], NewtonProduct(x, x[j], j));
        Cancel(c[j], NewtonProduct(x, x[j], j), d[j]);
      }
    }
  }

  // ---------------------------------------------------------------------
  // Exactness

  /** `y` holds the values of the polynomial `a` at the nodes. */
  predicate OnPolynomial(x: Vector, y: Vector, a: Vector)
    requires |x| <= |y|
  {
    forall i :: 0 <= i < |x| ==> y[i] == Horner(a, x[i])
  }

  /** The divided differences of a polynomial's values are its Newton coefficients. */
  lemma TableOfPolynomial(x: Vector, y: Vector, a: Vector)
    requires 1 <= |x| <= |y| && |a| == |x| && Distinct(x) && OnPolynomial(x, y, a)
    ensures Table(x, y) == NewtonCoefficients(a, x)
  {
    var c, d := Table(x, y), NewtonCoefficients(a, x);
    forall i | 0 <= i < |x|
      ensures NewtonEval(x, c, x[i], |x|) == NewtonEval(x, d, x[i], |x|)
    {
      NewtonAtNode(x, y, i);
      NewtonBasis(a, x, x[i]);
    }
    CoefficientsUnique(x, c, d, |x|);
  }

  /** `newton_interp` is exact on polynomials of degree below the number of
      nodes: at every point it gives the polynomial's value. */
  lemma NewtonExact(x: Vector, y: Vector, a: Vector, t: real)
    requires 1 <= |x| <= |y| && |a| == |x| && Distinct(x) && OnPolynomial(x, y, a)
    ensures NewtonEval(x, Table(x, y), t, |x|) == Horner(a, t)
  {
    TableOfPolynomial(x, y, a);
    NewtonBasis(a, x, t);
  }

  /** `lagrange_interp` is exact on polynomials of degree below the number
      of nodes (with no nodes, the only such polynomial is 0). */
  lemma LagrangeExact(x: Vector, y: Vector, a: Vector, t: real)
    requires |x| <= |y| && |a| == |x| && Distinct(x) && OnPolynomial(x, y, a)
    ensures Lagrange(x, y, t, |x|, |x|) == Horner(a, t)
  {
    if |x| == 0 {
      assert Horner(a, t) == 0.0;
    } else {
      NewtonExact(x, y, a, t);
      NewtonIsLagrange(x, y, t, |x|);
    }
  }
}
