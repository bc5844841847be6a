/** Dense matrices and vectors over exact reals, shared by the two linear solvers. */
module LinearAlgebra {

  type Vector = seq<real>
  type Matrix = seq<seq<real>>

  function Abs(v: real): (r: real)
    ensures r >= 0.0 && (r == v || r == -v)
  {
    if v < 0.0 then -v else v
  }

  /** Every entry `A[i][j]` with `i, j < n` exists (longer rows and extra rows are ignored). */
  predicate Covers(A: Matrix, n: nat)
  {
    |A| >= n && forall i :: 0 <= i < n ==> |A[i]| >= n
  }

  /** `r[lo] * x[lo] + ... + r[hi - 1] * x[hi - 1]`, accumulated from the left as Python's `sum` does. */
  function Dot(r: Vector, x: Vector, lo: nat, hi: nat): real
    requires lo <= hi <= |r| && hi <= |x|
    decreases hi - lo
  {
    if lo == hi then 0.0 else Dot(r, x, lo, hi - 1) + r[hi - 1] * x[hi - 1]
  }

  /** `v[0] + ... + v[k - 1]`, accumulated from the left as Python's `sum` does. */
  function Sum(v: Vector, k: nat): real
    requires k <= |v|
  {
    if k == 0 then 0.0 else Sum(v, k - 1) + v[k - 1]
  }

  /** `a * b` under a name. It exists to keep proofs cheap for the solver:
      proofs about recursively defined quantities state their products
      through `Times`, so that an arithmetic fact proved once about plain
      reals applies to those quantities by matching names instead of by
      nonlinear arithmetic. */
  function Times(a: real, b: real): real
  {
    a * b
  }

  /** `a / b` under a name, for the same reason as `Times` (solver cost). */
  function Over(a: real, b: real): real
    requires b != 0.0
  {
    a / b
  }

  /** A factor common to two products comes out of their sum. */
  lemma TimesSum(h: real, a: real, b: real, c: real)
    requires a + b == c
    ensures Times(h, a) + Times(h, b) == Times(h, c)
  {
  }

  /** A nonzero factor cancels. */
  lemma Cancel(q: real, d: real, e: real)
    requires d != 0.0 && Times(q, d) == Times(e, d)
    ensures q == e
  {
    assert (q - e) * d == 0.0;
  }

  /** Summing `a == b + c * p` entrywise. */
  lemma {:induction false} SumCombination(a: Vector, b: Vector, c: Vector, p: real, k: nat)
    requires k <= |a| && k <= |b| && k <= |c|
    requires forall j :: 0 <= j < k ==> a[j] == b[j] + Times(c[j], p)
    ensures Sum(a, k) == Sum(b, k) + Times(Sum(c, k), p)
  {
    if k > 0 {
      SumCombination(a, b, c, p, k - 1);
      assert (Sum(c, k - 1) + c[k - 1]) * p == Sum(c, k - 1) * p + c[k - 1] * p;
    }
  }

  /** Only the first `k` entries matter. */
  lemma {:induction false} SumFrame(a: Vector, b: Vector, k: nat)
    requires k <= |a| && k <= |b|
    requires forall j :: 0 <= j < k ==> a[j] == b[j]
    ensures Sum(a, k) == Sum(b, k)
  {
    if k > 0 {
      SumFrame(a, b, k - 1);
    }
  }

  /** A zero in front changes no sum. */
  lemma {:induction false} SumPrependZero(v: Vector, k: nat)
    requires k <= |v|
    ensures Sum([0.0] + v, k + 1) == Sum(v, k)
  {
    if k > 0 {
      SumPrependZero(v, k - 1);
      assert ([0.0] + v)[k] == v[k - 1];
    }
  }

  /** Nor does a zero behind. */
  lemma SumAppendZero(v: Vector)
    ensures Sum(v + [0.0], |v| + 1) == Sum(v, |v|)
  {
    SumFrame(v + [0.0], v, |v|);
  }

  /** Summing `[0] + u == (l + [0]) + w * p` entrywise, with `u` and `l` one
      entry shorter than `w`. */
  lemma SumShifted(u: Vector, l: Vector, w: Vector, p: real)
    requires |u| == |l| && |w| == |l| + 1
    requires forall j :: 0 <= j < |w| ==> ([0.0] + u)[j] == (l + [0.0])[j] + Times(w[j], p)
    ensures Sum(u, |u|) == Sum(l, |l|) + Times(Sum(w, |w|), p)
  {
    SumCombination([0.0] + u, l + [0.0], w, p, |w|);
    SumPrependZero(u, |u|);
    SumAppendZero(l);
  }

  /** The zero vector of length `n`. */
  function Zeros(n: nat): (z: Vector)
    ensures |z| == n && forall i :: 0 <= i < n ==> z[i] == 0.0
  {
    seq(n, _ => 0.0)
  }

  /** Entries of `x` that are zero contribute nothing. */
  lemma {:induction false} DotZeroRight(r: Vector, x: Vector, lo: nat, hi: nat)
    requires lo <= hi <= |r| && hi <= |x|
    requires forall j :: lo <= j < hi ==> x[j] == 0.0
    ensures Dot(r, x, lo, hi) == 0.0
    decreases hi - lo
  {
    if lo < hi {
      DotZeroRight(r, x, lo, hi - 1);
    }
  }

  /** `x` solves the first `n` equations `A[i][0..n) . x == b[i]`. */
  predicate Satisfies(A: Matrix, b: Vector, x: Vector, n: nat)
    requires Covers(A, n) && |b| >= n && |x| >= n
  {
    forall i :: 0 <= i < n ==> Dot(A[i], x, 0, n) == b[i]
  }

  lemma {:induction false} DotSplit(r: Vector, x: Vector, lo: nat, mid: nat, hi: nat)
    requires lo <= mid <= hi <= |r| && hi <= |x|
    ensures Dot(r, x, lo, hi) == Dot(r, x, lo, mid) + Dot(r, x, mid, hi)
    decreases hi - mid
  {
    if mid < hi {
      DotSplit(r, x, lo, mid, hi - 1);
    }
  }

  /** Only the entries of `x` in `[lo, hi)` matter. */
  lemma {:induction false} DotFrame(r: Vector, x: Vector, y: Vector, lo: nat, hi: nat)
    requires lo <= hi <= |r| && hi <= |x| && hi <= |y|
    requires forall j :: lo <= j < hi ==> x[j] == y[j]
    ensures Dot(r, x, lo, hi) == Dot(r, y, lo, hi)
    decreases hi - lo
  {
    if lo < hi {
      DotFrame(r, x, y, lo, hi - 1);
    }
  }

  lemma {:induction false} DotZero(r: Vector, x: Vector, lo: nat, hi: nat)
    requires lo <= hi <= |r| && hi <= |x|
    requires forall j :: lo <= j < hi ==> r[j] == 0.0
    ensures Dot(r, x, lo, hi) == 0.0
    decreases hi - lo
  {
    if lo < hi {
      DotZero(r, x, lo, hi - 1);
    }
  }

  /** A row that is `b - m * e` entrywise has dot product `b . x - m * (e . x)`. */
  lemma {:induction false} DotCombination(a: Vector, b: Vector, e: Vector, m: real, x: Vector, lo: nat, hi: nat)
    requires lo <= hi <= |a| && hi <= |b| && hi <= |e| && hi <= |x|
    requires forall j :: lo <= j < hi ==> a[j] == b[j] - m * e[j]
    ensures Dot(a, x, lo, hi) == Dot(b, x, lo, hi) - m * Dot(e, x, lo, hi)
    decreases hi - lo
  {
    if lo < hi {
      DotCombination(a, b, e, m, x, lo, hi - 1);
      var j := hi - 1;
      calc {
        Dot(a, x, lo, hi);
        Dot(a, x, lo, j) + a[j] * x[j];
        Dot(b, x, lo, j) - m * Dot(e, x, lo, j) + (b[j] - m * e[j]) * x[j];
        { assert (b[j] - m * e[j]) * x[j] == b[j] * x[j] - m * (e[j] * x[j]); }
        (Dot(b, x, lo, j) + b[j] * x[j]) - m * (Dot(e, x, lo, j) + e[j] * x[j]);
      }
    }
  }
}
