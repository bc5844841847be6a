/** Divided differences and the Newton form used by `newton_interp`, with
    the proof that on distinct nodes the Newton form built from the
    divided-difference table is the Lagrange form. */
module DividedDifferences {
  import opened LinearAlgebra
  import opened Interpolation

  /** One division of the table: `(hiValue - loValue) / (hiNode - loNode)`. */
  function Divided(hiValue: real, loValue: real, hiNode: real, loNode: real): (q: real)
    requires hiNode != loNode
    ensures q * (hiNode - loNode) == hiValue - loValue
  {
    (hiValue - loValue) / (hiNode - loNode)
  }

  /** The divided difference `f[x[lo], ..., x[hi - 1]]` of the data `y`. */
  function DD(x: Vector, y: Vector, lo: nat, hi: nat): real
    requires lo < hi <= |x| && hi <= |y| && Distinct(x)
    decreases hi - lo
  {
    if hi == lo + 1 then y[lo]
    else
      DistinctNodes(x, hi - 1, lo);
      Divided(DD(x, y, lo + 1, hi), DD(x, y, lo, hi - 1), x[hi - 1], x[lo])
  }

  /** The finished table: entry `i` is `f[x[0], ..., x[i]]`. */
  function Table(x: Vector, y: Vector): (c: Vector)
    requires |x| <= |y| && Distinct(x)
    ensures |c| == |x|
  {
    seq(|x|, i requires 0 <= i < |x| => DD(x, y, 0, i + 1))
  }

  /** The Newton form with coefficients `c` after `m` terms:
      `c[0] + c[1] * (t - x[0]) + ... + c[m-1] * (t - x[0]) * ... * (t - x[m-2])`,
      accumulated term by term as the evaluation loop does. */
  function NewtonEval(x: Vector, c: Vector, t: real, m: nat): real
    requires 1 <= m <= |c| && m - 1 <= |x|
  {
    if m == 1 then c[0] else NewtonEval(x, c, t, m - 1) + c[m - 1] * NewtonProduct(x, t, m - 1)
  }

  // ---------------------------------------------------------------------
  // The divided difference in explicit form

  /** `y[i]` divided by the gap `x[i] - x[j]` to every other node `j` of
      `[lo, hi)`, one node at a time. */
  function Term(x: Vector, y: Vector, lo: nat, hi: nat, i: nat): real
    requires lo <= hi <= |x| && i < |x| && i < |y| && Distinct(x)
    decreases hi
  {
    if hi == lo then y[i]
    else if hi - 1 == i then Term(x, y, lo, hi - 1, i)
    else
      DistinctNodes(x, i, hi - 1);
      Term(x, y, lo, hi - 1, i) / (x[i] - x[hi - 1])
  }

  /** The terms of the nodes of `[lo, hi)`, in order. */
  function Terms(x: Vector, y: Vector, lo: nat, hi: nat): (terms: Vector)
    requires lo <= hi <= |x| && hi <= |y| && Distinct(x)
    ensures |terms| == hi - lo
  {
    seq(hi - lo, j requires 0 <= j < hi - lo => Term(x, y, lo, hi, lo + j))
  }

  /** The explicit form of `f[x[lo], ..., x[hi - 1]]`: the sum of its terms. */
  function Explicit(x: Vector, y: Vector, lo: nat, hi: nat): real
    requires lo <= hi <= |x| && hi <= |y| && Distinct(x)
  {
    Sum(Terms(x, y, lo, hi), hi - lo)
  }

  lemma DivSwap(q: real, a: real, g: real)
    requires a != 0.0 && g != 0.0
    ensures (q / a) / g == (q / g) / a
  {
  }

  /** The gap to the first node of the range can be divided out first. */
  lemma {:induction false} TermFirstNode(x: Vector, y: Vector, lo: nat, hi: nat, i: nat)
    requires lo < hi <= |x| && i < |x| && i < |y| && Distinct(x)
    ensures i != lo ==> x[i] != x[lo]
    ensures Term(x, y, lo, hi, i) ==
      if i == lo then Term(x, y, lo + 1, hi, i) else Term(x, y, lo + 1, hi, i) / (x[i] - x[lo])
    decreases hi
  {
    if i != lo {
      DistinctNodes(x, i, lo);
    }
    if hi > lo + 1 {
      TermFirstNode(x, y, lo, hi - 1, i);
      if hi - 1 != i && i != lo {
        DistinctNodes(x, i, hi - 1);
        DivSwap(Term(x, y, lo + 1, hi - 1, i), x[i] - x[lo], x[i] - x[hi - 1]);
      }
    }
  }

  /** The gap to the last node of the range is the last one divided out. */
  lemma TermLastNode(x: Vector, y: Vector, lo: nat, hi: nat, i: nat)
    requires lo < hi <= |x| && i < |x| && i < |y| && hi - 1 != i && Distinct(x)
    ensures x[i] - x[hi - 1] != 0.0
    ensures Term(x, y, lo, hi, i) == Over(Term(x, y, lo, hi - 1, i), x[i] - x[hi - 1])
  {
    DistinctNodes(x, i, hi - 1);
  }

  lemma NegQuotient(v: real, d: real, e: real)
    requires d != 0.0 && e == 0.0 - d
    ensures 0.0 == v + (v / e) * d
  {
  }

  lemma ScaleBack(v: real, d: real)
    requires d != 0.0
    ensures v == 0.0 + (v / d) * d
  {
  }

  lemma QuotientIs(v: real, s: real, z: real)
    requires s != 0.0 && z * s == v
    ensures v / s == z
  {
  }

  lemma MiddleStep(q: real, a: real, b: real, d: real)
    requires a != 0.0 && b != 0.0 && d == a - b
    ensures q / b == q / a + ((q / a) / b) * d
  {
    var w := (q / a) / b;
    assert w * b == q / a;
    assert (w * b) * a == q;
    QuotientIs(q, b, w * a);
    QuotientIs(q, a, w * b);
  }

  /** The term of the first node `lo`, which only `[lo, hi - 1)` and
      `[lo, hi)` contain. */
  lemma TermFirst(x: Vector, y: Vector, lo: nat, hi: nat)
    requires lo + 2 <= hi <= |x| && hi <= |y| && Distinct(x)
    ensures 0.0 == Term(x, y, lo, hi - 1, lo) + Term(x, y, lo, hi, lo) * (x[hi - 1] - x[lo])
  {
    DistinctNodes(x, hi - 1, lo);
    assert Term(x, y, lo, hi, lo) == Term(x, y, lo, hi - 1, lo) / (x[lo] - x[hi - 1]);
    NegQuotient(Term(x, y, lo, hi - 1, lo), x[hi - 1] - x[lo], x[lo] - x[hi - 1]);
  }

  /** The term of a node strictly inside the range, which all three
      ranges contain. */
  lemma TermMiddle(x: Vector, y: Vector, lo: nat, hi: nat, i: nat)
    requires lo < i < hi - 1 && hi <= |x| && hi <= |y| && Distinct(x)
    ensures Term(x, y, lo + 1, hi, i) == Term(x, y, lo, hi - 1, i) + Term(x, y, lo, hi, i) * (x[hi - 1] - x[lo])
  {
    DistinctNodes(x, i, hi - 1);
    var q := Term(x, y, lo + 1, hi - 1, i);
    var a, b := x[i] - x[lo], x[i] - x[hi - 1];
    TermFirstNode(x, y, lo, hi - 1, i);
    assert Term(x, y, lo + 1, hi, i) == q / b;
    assert Term(x, y, lo, hi, i) == Term(x, y, lo, hi - 1, i) / b;
    MiddleStep(q, a, b, x[hi - 1] - x[lo]);
  }

  /** The term of the last node `hi - 1`, which only `[lo + 1, hi)` and
      `[lo, hi)` contain. */
  lemma TermLast(x: Vector, y: Vector, lo: nat, hi: nat)
    requires lo + 2 <= hi <= |x| && hi <= |y| && Distinct(x)
    ensures Term(x, y, lo + 1, hi, hi - 1) == 0.0 + Term(x, y, lo, hi, hi - 1) * (x[hi - 1] - x[lo])
  {
    TermFirstNode(x, y, lo, hi, hi - 1);
    ScaleBack(Term(x, y, lo + 1, hi, hi - 1), x[hi - 1] - x[lo]);
  }

  lemma EntryFirst(x: Vector, y: Vector, lo: nat, hi: nat, j: nat)
    requires lo + 2 <= hi <= |x| && hi <= |y| && Distinct(x) && j == 0
    ensures ([0.0] + Terms(x, y, lo + 1, hi))[j]
            == (Terms(x, y, lo, hi - 1) + [0.0])[j] + Times(Terms(x, y, lo, hi)[j], x[hi - 1] - x[lo])
  {
    TermFirst(x, y, lo, hi);
  }

  lemma EntryMiddle(x: Vector, y: Vector, lo: nat, hi: nat, j: nat)
    requires lo + 2 <= hi <= |x| && hi <= |y| && Distinct(x) && 0 < j < hi - lo - 1
    ensures ([0.0] + Terms(x, y, lo + 1, hi))[j]
            == (Terms(x, y, lo, hi - 1) + [0.0])[j] + Times(Terms(x, y, lo, hi)[j], x[hi - 1] - x[lo])
  {
    TermMiddle(x, y, lo, hi, lo + j);
  }

  lemma EntryLast(x: Vector, y: Vector, lo: nat, hi: nat, j: nat)
    requires lo + 2 <= hi <= |x| && hi <= |y| && Distinct(x) && j == hi - lo - 1
    ensures ([0.0] + Terms(x, y, lo + 1, hi))[j]
            == (Terms(x, y, lo, hi - 1) + [0.0])[j] + Times(Terms(x, y, lo, hi)[j], x[hi - 1] - x[lo])
  {
    TermLast(x, y, lo, hi);
  }

  /** Node by node, the terms of `[lo + 1, hi)` with a zero in front equal
      the terms of `[lo, hi - 1)` with a zero behind plus the terms of
      `[lo, hi)` times `x[hi - 1] - x[lo]`. */
  lemma ExplicitEntry(x: Vector, y: Vector, lo: nat, hi: nat, j: nat)
    requires lo + 2 <= hi <= |x| && hi <= |y| && Distinct(x) && j < hi - lo
    ensures ([0.0] + Terms(x, y, lo + 1, hi))[j]
            == (Terms(x, y, lo, hi - 1) + [0.0])[j] + Times(Terms(x, y, lo, hi)[j], x[hi - 1] - x[lo])
  {
    if j == 0 {
      EntryFirst(x, y, lo, hi, j);
    } else if j == hi - lo - 1 {
      EntryLast(x, y, lo, hi, j);
    } else {
      EntryMiddle(x, y, lo, hi, j);
    }
  }

  /** The explicit forms satisfy the divided-difference recurrence. */
  lemma ExplicitRecurrence(x: Vector, y: Vector, lo: nat, hi: nat)
    requires lo + 2 <= hi <= |x| && hi <= |y| && Distinct(x)
    ensures Explicit(x, y, lo + 1, hi) == Explicit(x, y, lo, hi - 1) + Times(Explicit(x, y, lo, hi), x[hi - 1] - x[lo])
  {
    forall j | 0 <= j < hi - lo
      ensures ([0.0] + Terms(x, y, lo + 1, hi))[j]
              == (Terms(x, y, lo, hi - 1) + [0.0])[j] + Times(Terms(x, y, lo, hi)[j], x[hi - 1] - x[lo])
    {
      ExplicitEntry(x, y, lo, hi, j);
    }
    SumShifted(Terms(x, y, lo + 1, hi), Terms(x, y, lo, hi - 1), Terms(x, y, lo, hi), x[hi - 1] - x[lo]);
  }

  /** A single node: both forms are `y[lo]`. */
  lemma DDExplicitSingle(x: Vector, y: Vector, lo: nat)
    requires lo < |x| && lo < |y| && Distinct(x)
    ensures DD(x, y, lo, lo + 1) == Explicit(x, y, lo, lo + 1)
  {
    assert Term(x, y, lo, lo + 1, lo) == Term(x, y, lo, lo, lo) == y[lo];
    assert Terms(x, y, lo, lo + 1)[0] == y[lo];
    assert Sum(Terms(x, y, lo, lo + 1), 1) == Sum(Terms(x, y, lo, lo + 1), 0) + y[lo];
  }

  /** If the two shorter ranges agree, so does `[lo, hi)`. */
  lemma DDExplicitStep(x: Vector, y: Vector, lo: nat, hi: nat)
    requires lo + 2 <= hi <= |x| && hi <= |y| && Distinct(x)
    requires DD(x, y, lo + 1, hi) == Explicit(x, y, lo + 1, hi)
    requires DD(x, y, lo, hi - 1) == Explicit(x, y, lo, hi - 1)
    ensures DD(x, y, lo, hi) == Explicit(x, y, lo, hi)
  {
    ExplicitRecurrence(x, y, lo, hi);
    DistinctNodes(x, hi - 1, lo);
    assert DD(x, y, lo, hi) == Divided(DD(x, y, lo + 1, hi), DD(x, y, lo, hi - 1), x[hi - 1], x[lo]);
    assert Times(DD(x, y, lo, hi), x[hi - 1] - x[lo]) == Explicit(x, y, lo + 1, hi) - Explicit(x, y, lo, hi - 1);
    Cancel(DD(x, y, lo, hi), x[hi - 1] - x[lo], Explicit(x, y, lo, hi));
  }

  /** Each divided difference is the sum over the nodes `i` of its range of
      `y[i]` divided by the gaps from `x[i]` to the other nodes. */
  lemma {:induction false} DDExplicit(x: Vector, y: Vector, lo: nat, hi: nat)
    requires lo < hi <= |x| && hi <= |y| && Distinct(x)
    ensures DD(x, y, lo, hi) == Explicit(x, y, lo, hi)
    decreases hi - lo
  {
    if hi == lo + 1 {
      DDExplicitSingle(x, y, lo);
    } else {
      DDExplicit(x, y, lo + 1, hi);
      DDExplicit(x, y, lo, hi - 1);
      DDExplicitStep(x, y, lo, hi);
    }
  }

  // ---------------------------------------------------------------------
  // From the Lagrange form to the Newton form

  /** One more node `m - 1 != i` multiplies the basis of node `i` by
      `(t - x[m-1]) / (x[i] - x[m-1])` and its other factors by `t - x[m-1]`. */
  lemma BasisNext(x: Vector, i: nat, t: real, m: nat)
    requires i < |x| && 0 < m <= |x| && m - 1 != i && Distinct(x)
    ensures x[i] - x[m - 1] != 0.0
    ensures Basis(x, i, t, m) == Times(Basis(x, i, t, m - 1), Over(t - x[m - 1], x[i] - x[m - 1]))
    ensures OtherFactors(x, i, t, m) == Times(OtherFactors(x, i, t, m - 1), t - x[m - 1])
  {
    DistinctNodes(x, i, m - 1);
    var b, q := Basis(x, i, t, m - 1), (t - x[m - 1]) / (x[i] - x[m - 1]);
    assert Basis(x, i, t, m) == b * q;
  }

  lemma BasisTermStep(b: real, v: real, o: real, q: real, u: real, w: real)
    requires w != 0.0 && Times(b, v) == Times(o, q)
    ensures Times(Times(b, Over(u, w)), v) == Times(Times(o, u), Over(q, w))
  {
    calc {
      (b * (u / w)) * v;
      (b * v) * (u / w);
      (o * q) * (u / w);
      (o * u) * (q / w);
    }
  }

  /** `BasisTerm` for one more node `m - 1 != i`. */
  lemma BasisTermNext(x: Vector, y: Vector, t: real, i: nat, m: nat)
    requires i < |x| && i < |y| && 0 < m <= |x| && m - 1 != i && Distinct(x)
    requires Times(Basis(x, i, t, m - 1), y[i]) == Times(OtherFactors(x, i, t, m - 1), Term(x, y, 0, m - 1, i))
    ensures Times(Basis(x, i, t, m), y[i]) == Times(OtherFactors(x, i, t, m), Term(x, y, 0, m, i))
  {
    BasisNext(x, i, t, m);
    TermLastNode(x, y, 0, m, i);
    BasisTermStep(Basis(x, i, t, m - 1), y[i], OtherFactors(x, i, t, m - 1), Term(x, y, 0, m - 1, i),
                  t - x[m - 1], x[i] - x[m - 1]);
  }

  /** A basis factor times its data value is the product of the other
      node factors times the explicit term of the node. */
  lemma {:induction false} BasisTerm(x: Vector, y: Vector, t: real, i: nat, m: nat)
    requires i < |x| && i < |y| && m <= |x| && Distinct(x)
    ensures Times(Basis(x, i, t, m), y[i]) == Times(OtherFactors(x, i, t, m), Term(x, y, 0, m, i))
  {
    if m > 0 {
      BasisTerm(x, y, t, i, m - 1);
      if m - 1 != i {
        BasisTermNext(x, y, t, i, m);
      }
    }
  }

  lemma AddQuotient(c: real, u: real, w: real, z: real)
    requires w != 0.0 && z == w + u
    ensures c * (z / w) == c + c * (u / w)
  {
    QuotientIs(z, w, 1.0 + u / w);
  }

  lemma GrowStep(b: real, v: real, o: real, q: real, u: real, z: real, w: real)
    requires w != 0.0 && Times(b, v) == Times(o, q) && u == z - w
    ensures Times(Times(b, Over(z, w)), v) == Times(b, v) + Times(Over(q, w), Times(o, u))
  {
    BasisTermStep(b, v, o, q, u, w);
    AddQuotient(b * v, u, w, z);
    assert (b * (z / w)) * v == (b * v) * (z / w);
  }

  /** Adding node `m` to the basis of an earlier node `i` adds the explicit
      term of `i` times the Newton product of the first `m` nodes. */
  lemma BasisGrow(x: Vector, y: Vector, t: real, i: nat, m: nat)
    requires i < m < |x| && m < |y| && Distinct(x)
    ensures Times(Basis(x, i, t, m + 1), y[i])
            == Times(Basis(x, i, t, m), y[i]) + Times(Term(x, y, 0, m + 1, i), NewtonProduct(x, t, m))
  {
    BasisTerm(x, y, t, i, m);
    OtherFactorsWith(x, i, t, m);
    assert Times(OtherFactors(x, i, t, m), t - x[i]) == NewtonProduct(x, t, m);
    BasisNext(x, i, t, m + 1);
    TermLastNode(x, y, 0, m + 1, i);
    GrowStep(Basis(x, i, t, m), y[i], OtherFactors(x, i, t, m), Term(x, y, 0, m, i),
             t - x[i], t - x[m], x[i] - x[m]);
  }

  /** The basis of the new node `m` times its value is its explicit term
      times the Newton product of the first `m` nodes. */
  lemma BasisNew(x: Vector, y: Vector, t: real, m: nat)
    requires m < |x| && m < |y| && Distinct(x)
    ensures Times(Basis(x, m, t, m + 1), y[m]) == Times(Term(x, y, 0, m + 1, m), NewtonProduct(x, t, m))
  {
    BasisTerm(x, y, t, m, m);
    OtherFactorsWithout(x, m, t, m);
    assert Basis(x, m, t, m + 1) == Basis(x, m, t, m);
    assert Term(x, y, 0, m + 1, m) == Term(x, y, 0, m, m);
  }

  lemma LagrangeEntryOld(x: Vector, y: Vector, t: real, m: nat, j: nat)
    requires j < m < |x| && m < |y| && Distinct(x)
    ensures LagrangeTerms(x, y, t, m + 1)[j]
            == (LagrangeTerms(x, y, t, m) + [0.0])[j] + Times(Terms(x, y, 0, m + 1)[j], NewtonProduct(x, t, m))
  {
    BasisGrow(x, y, t, j, m);
  }

  lemma LagrangeEntryNew(x: Vector, y: Vector, t: real, m: nat, j: nat)
    requires j == m < |x| && m < |y| && Distinct(x)
    ensures LagrangeTerms(x, y, t, m + 1)[j]
            == (LagrangeTerms(x, y, t, m) + [0.0])[j] + Times(Terms(x, y, 0, m + 1)[j], NewtonProduct(x, t, m))
  {
    BasisNew(x, y, t, m);
  }

  /** Node by node, adding node `m` to the Lagrange form adds the explicit
      terms of `[0, m + 1)` times the Newton product of the first `m` nodes. */
  lemma LagrangeEntry(x: Vector, y: Vector, t: real, m: nat, j: nat)
    requires j <= m < |x| && m < |y| && Distinct(x)
    ensures LagrangeTerms(x, y, t, m + 1)[j]
            == (LagrangeTerms(x, y, t, m) + [0.0])[j] + Times(Terms(x, y, 0, m + 1)[j], NewtonProduct(x, t, m))
  {
    if j < m {
      LagrangeEntryOld(x, y, t, m, j);
    } else {
      LagrangeEntryNew(x, y, t, m, j);
    }
  }

  /** Adding node `m` to the Lagrange form adds the explicit form of
      `[0, m + 1)` times the Newton product of the first `m` nodes. */
  lemma LagrangeStep(x: Vector, y: Vector, t: real, m: nat)
    requires m < |x| && m < |y| && Distinct(x)
    ensures Lagrange(x, y, t, m + 1, m + 1)
            == Lagrange(x, y, t, m, m) + Times(Explicit(x, y, 0, m + 1), NewtonProduct(x, t, m))
  {
    forall j | 0 <= j < m + 1
      ensures LagrangeTerms(x, y, t, m + 1)[j]
              == (LagrangeTerms(x, y, t, m) + [0.0])[j] + Times(Terms(x, y, 0, m + 1)[j], NewtonProduct(x, t, m))
    {
      LagrangeEntry(x, y, t, m, j);
    }
    SumCombination(LagrangeTerms(x, y, t, m + 1), LagrangeTerms(x, y, t, m) + [0.0], Terms(x, y, 0, m + 1),
                   NewtonProduct(x, t, m), m + 1);
    SumAppendZero(LagrangeTerms(x, y, t, m));
  }

  /** One node: both forms are `y[0]`. */
  lemma NewtonIsLagrangeSingle(x: Vector, y: Vector, t: real)
    requires 1 <= |x| <= |y| && Distinct(x)
    ensures NewtonEval(x, Table(x, y), t, 1) == Lagrange(x, y, t, 1, 1)
  {
    assert Basis(x, 0, t, 1) == Basis(x, 0, t, 0) == 1.0;
    assert LagrangeTerms(x, y, t, 1)[0] == y[0];
    assert Sum(LagrangeTerms(x, y, t, 1), 1) == Sum(LagrangeTerms(x, y, t, 1), 0) + y[0];
    assert Table(x, y)[0] == DD(x, y, 0, 1) == y[0];
  }

  /** One more term of the Newton form, in the shape of `LagrangeStep`. */
  lemma NewtonEvalNext(x: Vector, c: Vector, t: real, m: nat)
    requires 1 <= m < |c| && m <= |x|
    ensures NewtonEval(x, c, t, m + 1) == NewtonEval(x, c, t, m) + Times(c[m], NewtonProduct(x, t, m))
  {
  }

  /** Each entry of the table is the explicit form of its range. */
  lemma TableIsExplicit(x: Vector, y: Vector, m: nat)
    requires m < |x| <= |y| && Distinct(x)
    ensures Table(x, y)[m] == Explicit(x, y, 0, m + 1)
  {
    DDExplicit(x, y, 0, m + 1);
  }

  /** If the forms agree on the first `m` nodes, they agree on `m + 1`. */
  lemma NewtonIsLagrangeStep(x: Vector, y: Vector, t: real, m: nat)
    requires 1 <= m < |x| <= |y| && Distinct(x)
    requires NewtonEval(x, Table(x, y), t, m) == Lagrange(x, y, t, m, m)
    ensures NewtonEval(x, Table(x, y), t, m + 1) == Lagrange(x, y, t, m + 1, m + 1)
  {
    LagrangeStep(x, y, t, m);
    TableIsExplicit(x, y, m);
    NewtonEvalNext(x, Table(x, y), t, m);
  }

  /** On distinct nodes the Newton form with the divided-difference table
      agrees with the Lagrange form, for every prefix of the nodes. */
  lemma {:induction false} NewtonIsLagrange(x: Vector, y: Vector, t: real, m: nat)
    requires 1 <= m <= |x| <= |y| && Distinct(x)
    ensures NewtonEval(x, Table(x, y), t, m) == Lagrange(x, y, t, m, m)
  {
    if m == 1 {
      NewtonIsLagrangeSingle(x, y, t);
    } else {
      NewtonIsLagrange(x, y, t, m - 1);
      NewtonIsLagrangeStep(x, y, t, m - 1);
    }
  }

  /** The Newton form interpolates. */
  lemma NewtonAtNode(x: Vector, y: Vector, k: nat)
    requires |x| <= |y| && k < |x| && Distinct(x)
    ensures NewtonEval(x, Table(x, y), x[k], |x|) == y[k]
  {
    NewtonIsLagrange(x, y, x[k], |x|);
    LagrangeAtNode(x, y, k);
  }
}
