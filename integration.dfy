/** The composite trapezoid and Simpson rules, `trapezio_repetido` and
    `simpson_repetido`. Both take the step `h` from the first two abscissae
    alone and never read the others, so the samples `y` are taken to be
    equally spaced, `y[i]` at `x[0] + i * h`. Python turns the exceptions
    they raise (a missing `x[1]`, `y[0]` or odd-indexed sample, an odd
    number of Simpson intervals) into `None`. */
module Integration {
  import opened Wrappers
  import opened LinearAlgebra

  // ---------------------------------------------------------------------
  // The trapezoid rule

  /** `h = x[1] - x[0]`, the step both rules take. */
  function Step(x: Vector): real
    requires |x| >= 2
  {
    x[1] - x[0]
  }

  /** `sum(y[1:k])`, accumulated from the left. */
  function InteriorSum(y: Vector, k: nat): real
    requires k <= |y|
  {
    if k <= 1 then 0.0 else InteriorSum(y, k - 1) + y[k - 1]
  }

  /** `h * (y[0] + y[-1] + 2 * sum(y[1:-1])) / 2`. */
  function TrapezoidRule(h: real, y: Vector): real
    requires |y| >= 1
  {
    h * (y[0] + y[|y| - 1] + 2.0 * InteriorSum(y, |y| - 1)) / 2.0
  }

  /** `trapezio_repetido(x, y)`: it fails exactly when `x[1]` or `y[0]`
      does not exist. */
  function Trapezoid(x: Vector, y: Vector): (r: Option<real>)
    ensures r.None? <==> |x| < 2 || |y| == 0
  {
    if |x| < 2 || |y| == 0 then None else Some(TrapezoidRule(Step(x), y))
  }

  /** The simple trapezoid rule on one interval of width `h`. */
  function TrapezoidPanel(h: real, a: real, b: real): real
  {
    h * (a + b) / 2.0
  }

  /** The simple rule on each interval between neighbouring samples. */
  function TrapezoidPanels(h: real, y: Vector): (panels: Vector)
    requires |y| >= 1
    ensures |panels| == |y| - 1
  {
    seq(|y| - 1, i requires 0 <= i < |y| - 1 => TrapezoidPanel(h, y[i], y[i + 1]))
  }

  /** The simple trapezoid rule is the step times the mean of the two samples. */
  lemma TrapezoidPanelScale(h: real, a: real, b: real, v: real)
    requires (a + b) / 2.0 == v
    ensures TrapezoidPanel(h, a, b) == Times(h, v)
  {
  }

  /** The first `k` intervals: the end samples once, the inner ones twice. */
  lemma {:induction false} TrapezoidPrefix(h: real, y: Vector, k: nat)
    requires 1 <= k < |y|
    ensures Sum(TrapezoidPanels(h, y), k) == Times(h, (y[0] + y[k] + 2.0 * InteriorSum(y, k)) / 2.0)
  {
    var panels := TrapezoidPanels(h, y);
    if k == 1 {
      assert Sum(panels, 1) == Sum(panels, 0) + panels[0];
      TrapezoidPanelScale(h, y[0], y[1], (y[0] + y[k] + 2.0 * InteriorSum(y, k)) / 2.0);
    } else {
      TrapezoidPrefix(h, y, k - 1);
      TrapezoidPanelScale(h, y[k - 1], y[k], (y[k - 1] + y[k]) / 2.0);
      TimesSum(h, (y[0] + y[k - 1] + 2.0 * InteriorSum(y, k - 1)) / 2.0, (y[k - 1] + y[k]) / 2.0,
               (y[0] + y[k] + 2.0 * InteriorSum(y, k)) / 2.0);
    }
  }

  /** The step factored out of the composite rule. */
  lemma TrapezoidRuleScale(h: real, y: Vector, k: nat)
    requires k == |y| - 1
    ensures TrapezoidRule(h, y) == Times(h, (y[0] + y[k] + 2.0 * InteriorSum(y, k)) / 2.0)
  {
  }

  /** The composite rule with step `h` is the sum of the simple rule over
      the intervals between neighbouring samples. */
  lemma TrapezoidRuleIsPanelSum(h: real, y: Vector)
    requires |y| >= 2
    ensures TrapezoidRule(h, y) == Sum(TrapezoidPanels(h, y), |y| - 1)
  {
    var k := |y| - 1;
    TrapezoidPrefix(h, y, k);
    TrapezoidRuleScale(h, y, k);
  }

  /** `trapezio_repetido` is the sum of the simple rule over the intervals
      between neighbouring samples. */
  lemma TrapezoidIsPanelSum(x: Vector, y: Vector)
    requires |x| >= 2 && |y| >= 2
    ensures Trapezoid(x, y) == Some(Sum(TrapezoidPanels(Step(x), y), |y| - 1))
  {
    TrapezoidRuleIsPanelSum(Step(x), y);
  }

  // ---------------------------------------------------------------------
  // The Simpson rule

  /** `y[first] + y[first + 2] + ...`, `k` samples two apart, accumulated
      from the left. */
  function StrideSum(y: Vector, first: nat, k: nat): real
    requires first + 2 * k <= |y| + 1
  {
    if k == 0 then 0.0 else StrideSum(y, first, k - 1) + y[first + 2 * (k - 1)]
  }

  /** `h * soma / 3` with `soma = y[0] + y[-1] + 4 * (odd samples below
      2m) + 2 * (even samples strictly between 0 and 2m)`, for `m` pairs of
      intervals. */
  function SimpsonRule(h: real, y: Vector, m: nat): real
    requires 1 <= m && 2 * m <= |y|
  {
    h * (y[0] + y[|y| - 1] + 4.0 * StrideSum(y, 1, m) + 2.0 * StrideSum(y, 2, m - 1)) / 3.0
  }

  /** `simpson_repetido(x, y)`: it fails exactly when `x[1]` does not
      exist, the number of intervals `|x| - 1` is odd, or the last odd
      sample `y[|x| - 2]` does not exist (then `y[0]` is the only other
      sample read that could be missing, and it is not). */
  function Simpson(x: Vector, y: Vector): (r: Option<real>)
    ensures r.None? <==> |x| < 2 || (|x| - 1) % 2 != 0 || |y| < |x| - 1
  {
    if |x| < 2 || (|x| - 1) % 2 != 0 || |y| < |x| - 1 then None
    else Some(SimpsonRule(Step(x), y, (|x| - 1) / 2))
  }

  /** The simple Simpson rule on one pair of intervals of width `h`. */
  function SimpsonPanel(h: real, a: real, b: real, c: real): real
  {
    h * (a + 4.0 * b + c) / 3.0
  }

  /** The simple rule on each pair of intervals, starting at the even samples. */
  function SimpsonPanels(h: real, y: Vector): (panels: Vector)
    requires |y| >= 1
    ensures |panels| == (|y| - 1) / 2
  {
    seq((|y| - 1) / 2, k requires 0 <= k < (|y| - 1) / 2 => SimpsonPanel(h, y[2 * k], y[2 * k + 1], y[2 * k + 2]))
  }

  /** The simple Simpson rule is the step times the weighted mean of the
      three samples. */
  lemma SimpsonPanelScale(h: real, a: real, b: real, c: real, v: real)
    requires (a + 4.0 * b + c) / 3.0 == v
    ensures SimpsonPanel(h, a, b, c) == Times(h, v)
  {
  }

  /** The first `j` pairs: the end samples once, the odd ones four times,
      the inner even ones twice. */
  lemma {:induction false} SimpsonPrefix(h: real, y: Vector, j: nat)
    requires 1 <= j && 2 * j < |y|
    ensures Sum(SimpsonPanels(h, y), j)
            == Times(h, (y[0] + y[2 * j] + 4.0 * StrideSum(y, 1, j) + 2.0 * StrideSum(y, 2, j - 1)) / 3.0)
  {
    var panels := SimpsonPanels(h, y);
    var k := j - 1;
    if j == 1 {
      assert Sum(panels, 1) == Sum(panels, 0) + panels[0];
      SimpsonPanelScale(h, y[0], y[1], y[2],
                        (y[0] + y[2 * j] + 4.0 * StrideSum(y, 1, j) + 2.0 * StrideSum(y, 2, j - 1)) / 3.0);
    } else {
      SimpsonPrefix(h, y, k);
      SimpsonPanelScale(h, y[2 * k], y[2 * k + 1], y[2 * k + 2], (y[2 * k] + 4.0 * y[2 * k + 1] + y[2 * k + 2]) / 3.0);
      TimesSum(h, (y[0] + y[2 * k] + 4.0 * StrideSum(y, 1, k) + 2.0 * StrideSum(y, 2, k - 1)) / 3.0,
               (y[2 * k] + 4.0 * y[2 * k + 1] + y[2 * k + 2]) / 3.0,
               (y[0] + y[2 * j] + 4.0 * StrideSum(y, 1, j) + 2.0 * StrideSum(y, 2, j - 1)) / 3.0);
    }
  }

  /** The step factored out of the composite rule. */
  lemma SimpsonRuleScale(h: real, y: Vector, m: nat)
    requires 1 <= m && |y| == 2 * m + 1
    ensures SimpsonRule(h, y, m)
            == Times(h, (y[0] + y[2 * m] + 4.0 * StrideSum(y, 1, m) + 2.0 * StrideSum(y, 2, m - 1)) / 3.0)
  {
  }

  /** The composite rule over `m` pairs of intervals is the sum of the
      simple rule over those pairs when `y[2m]` is the last sample. */
  lemma SimpsonRuleIsPanelSum(h: real, y: Vector, m: nat)
    requires 1 <= m && |y| == 2 * m + 1
    ensures SimpsonRule(h, y, m) == Sum(SimpsonPanels(h, y), m)
  {
    SimpsonPrefix(h, y, m);
    SimpsonRuleScale(h, y, m);
  }

  /** With one sample per abscissa, `simpson_repetido` is the sum of the
      simple rule over consecutive pairs of intervals. */
  lemma SimpsonIsPanelSum(x: Vector, y: Vector)
    requires |x| >= 3 && (|x| - 1) % 2 == 0 && |y| == |x|
    ensures Simpson(x, y) == Some(Sum(SimpsonPanels(Step(x), y), (|y| - 1) / 2))
  {
    SimpsonRuleIsPanelSum(Step(x), y, (|x| - 1) / 2);
  }

  // ---------------------------------------------------------------------
  // Exactness on polynomials

  /** `c0 + c1 s + c2 s^2 + c3 s^3`, a polynomial of degree at most three
      in the sample index `s`. Sampling a cubic in `x` at `x[0] + i * h`
      gives a cubic in `i`. */
  datatype Cubic = Cubic(c0: real, c1: real, c2: real, c3: real)

  function Square(s: real): real { s * s }
  function Cube(s: real): real { s * s * s }
  function Fourth(s: real): real { s * s * s * s }

  function At(p: Cubic, s: real): real
  {
    p.c0 + Times(p.c1, s) + Times(p.c2, Square(s)) + Times(p.c3, Cube(s))
  }

  /** The integral of `p` from 0 to `s`. */
  function Integral(p: Cubic, s: real): real
  {
    Times(p.c0, s) + Times(p.c1, Square(s)) / 2.0 + Times(p.c2, Cube(s)) / 3.0 + Times(p.c3, Fourth(s)) / 4.0
  }

  /** `y` holds the values of `p` at the indices `0, 1, ...`. */
  predicate Samples(y: Vector, p: Cubic)
  {
    forall i :: 0 <= i < |y| ==> y[i] == At(p, i as real)
  }

  lemma TrapezoidConstant(c: real, s: real)
    ensures (c + c) / 2.0 == Times(c, s + 1.0) - Times(c, s)
  {
  }

  lemma TrapezoidLinear(c: real, s: real)
    ensures (Times(c, s) + Times(c, s + 1.0)) / 2.0 == Times(c, Square(s + 1.0)) / 2.0 - Times(c, Square(s)) / 2.0
  {
    assert Square(s + 1.0) - Square(s) == 2.0 * s + 1.0;
    assert c * (Square(s + 1.0) - Square(s)) == c * (2.0 * s + 1.0);
  }

  /** On one interval the simple trapezoid rule integrates a straight line exactly. */
  lemma TrapezoidPanelExact(p: Cubic, s: real, t: real)
    requires p.c2 == 0.0 && p.c3 == 0.0 && t == s + 1.0
    ensures (At(p, s) + At(p, t)) / 2.0 == Integral(p, t) - Integral(p, s)
  {
    TrapezoidConstant(p.c0, s);
    TrapezoidLinear(p.c1, s);
  }

  lemma SimpsonConstant(c: real, s: real)
    ensures (c + 4.0 * c + c) / 3.0 == Times(c, s + 2.0) - Times(c, s)
  {
  }

  lemma SimpsonLinear(c: real, s: real)
    ensures (Times(c, s) + 4.0 * Times(c, s + 1.0) + Times(c, s + 2.0)) / 3.0
            == Times(c, Square(s + 2.0)) / 2.0 - Times(c, Square(s)) / 2.0
  {
    assert Square(s + 2.0) - Square(s) == 4.0 * s + 4.0;
    assert c * (Square(s + 2.0) - Square(s)) == c * (4.0 * s + 4.0);
  }

  lemma SimpsonQuadratic(c: real, s: real)
    ensures (Times(c, Square(s)) + 4.0 * Times(c, Square(s + 1.0)) + Times(c, Square(s + 2.0))) / 3.0
            == Times(c, Cube(s + 2.0)) / 3.0 - Times(c, Cube(s)) / 3.0
  {
    var u := Square(s) + 4.0 * Square(s + 1.0) + Square(s + 2.0);
    assert u == Cube(s + 2.0) - Cube(s);
    assert c * u == c * (Cube(s + 2.0) - Cube(s));
  }

  lemma SimpsonCubic(c: real, s: real)
    ensures (Times(c, Cube(s)) + 4.0 * Times(c, Cube(s + 1.0)) + Times(c, Cube(s + 2.0))) / 3.0
            == Times(c, Fourth(s + 2.0)) / 4.0 - Times(c, Fourth(s)) / 4.0
  {
    var u := Cube(s) + 4.0 * Cube(s + 1.0) + Cube(s + 2.0);
    assert u == 3.0 * (Fourth(s + 2.0) - Fourth(s)) / 4.0;
    assert c * u == c * (3.0 * (Fourth(s + 2.0) - Fourth(s)) / 4.0);
  }

  /** On one pair of intervals the simple Simpson rule integrates a cubic exactly. */
  lemma SimpsonPanelExact(p: Cubic, s: real, t: real, u: real)
    requires t == s + 1.0 && u == s + 2.0
    ensures (At(p, s) + 4.0 * At(p, t) + At(p, u)) / 3.0 == Integral(p, u) - Integral(p, s)
  {
    SimpsonConstant(p.c0, s);
    SimpsonLinear(p.c1, s);
    SimpsonQuadratic(p.c2, s);
    SimpsonCubic(p.c3, s);
  }

  /** Over samples of a straight line, trapezoid `k - 1` is the step times
      the integral over `[k - 1, k]`. */
  lemma TrapezoidPanelIs(h: real, y: Vector, p: Cubic, k: nat)
    requires 1 <= k < |y| && p.c2 == 0.0 && p.c3 == 0.0 && Samples(y, p)
    ensures TrapezoidPanels(h, y)[k - 1] == Times(h, Integral(p, k as real) - Integral(p, (k - 1) as real))
  {
    assert y[k - 1] == At(p, (k - 1) as real) && y[k] == At(p, k as real);
    TrapezoidPanelExact(p, (k - 1) as real, k as real);
    TrapezoidPanelScale(h, y[k - 1], y[k], Integral(p, k as real) - Integral(p, (k - 1) as real));
  }

  /** The first `k` trapezoids over samples of a straight line add up to
      its integral over `[0, k]`, scaled by the step. */
  lemma {:induction false} TrapezoidExactPrefix(h: real, y: Vector, p: Cubic, k: nat)
    requires k < |y| && p.c2 == 0.0 && p.c3 == 0.0 && Samples(y, p)
    ensures Sum(TrapezoidPanels(h, y), k) == Times(h, Integral(p, k as real))
  {
    if k > 0 {
      TrapezoidExactPrefix(h, y, p, k - 1);
      TrapezoidPanelIs(h, y, p, k);
      TimesSum(h, Integral(p, (k - 1) as real), Integral(p, k as real) - Integral(p, (k - 1) as real),
               Integral(p, k as real));
    }
  }

  /** Over samples of a cubic, Simpson pair `j - 1` is the step times the
      integral over `[2j - 2, 2j]`. */
  lemma SimpsonPanelIs(h: real, y: Vector, p: Cubic, j: nat)
    requires 1 <= j && 2 * j < |y| && Samples(y, p)
    ensures SimpsonPanels(h, y)[j - 1] == Times(h, Integral(p, (2 * j) as real) - Integral(p, (2 * (j - 1)) as real))
  {
    var k := j - 1;
    assert y[2 * k] == At(p, (2 * k) as real) && y[2 * k + 1] == At(p, (2 * k + 1) as real);
    assert y[2 * k + 2] == At(p, (2 * j) as real);
    SimpsonPanelExact(p, (2 * k) as real, (2 * k + 1) as real, (2 * j) as real);
    SimpsonPanelScale(h, y[2 * k], y[2 * k + 1], y[2 * k + 2], Integral(p, (2 * j) as real) - Integral(p, (2 * k) as real));
  }

  /** The first `j` Simpson pairs over samples of a cubic add up to its
      integral over `[0, 2j]`, scaled by the step. */
  lemma {:induction false} SimpsonExactPrefix(h: real, y: Vector, p: Cubic, j: nat)
    requires 2 * j < |y| && Samples(y, p)
    ensures Sum(SimpsonPanels(h, y), j) == Times(h, Integral(p, (2 * j) as real))
  {
    if j > 0 {
      SimpsonExactPrefix(h, y, p, j - 1);
      SimpsonPanelIs(h, y, p, j);
      TimesSum(h, Integral(p, (2 * (j - 1)) as real), Integral(p, (2 * j) as real) - Integral(p, (2 * (j - 1)) as real),
               Integral(p, (2 * j) as real));
    }
  }

  /** The trapezoid rule is exact on equally spaced samples of a straight
      line: it returns the step times the integral of the line over the
      sample indices, which is the integral over `[x[0], x[0] + (|y| - 1) h]`. */
  lemma TrapezoidExact(x: Vector, y: Vector, p: Cubic)
    requires |x| >= 2 && |y| >= 2 && p.c2 == 0.0 && p.c3 == 0.0 && Samples(y, p)
    ensures Trapezoid(x, y) == Some(Step(x) * Integral(p, (|y| - 1) as real))
  {
    TrapezoidIsPanelSum(x, y);
    TrapezoidExactPrefix(Step(x), y, p, |y| - 1);
    assert Times(Step(x), Integral(p, (|y| - 1) as real)) == Step(x) * Integral(p, (|y| - 1) as real);
  }

  /** The Simpson rule is exact on equally spaced samples of a cubic, one
      per abscissa over an even number of intervals. */
  lemma SimpsonExact(x: Vector, y: Vector, p: Cubic)
    requires |x| >= 3 && (|x| - 1) % 2 == 0 && |y| == |x| && Samples(y, p)
    ensures Simpson(x, y) == Some(Step(x) * Integral(p, (|y| - 1) as real))
  {
    var m := (|y| - 1) / 2;
    assert (2 * m) as real == (|y| - 1) as real;
    SimpsonIsPanelSum(x, y);
    SimpsonExactPrefix(Step(x), y, p, m);
    assert Times(Step(x), Integral(p, (|y| - 1) as real)) == Step(x) * Integral(p, (|y| - 1) as real);
  }
}
