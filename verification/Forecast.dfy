/**
 The disk-full forecast (tools/status-board/main.go, forecastDaysToFull): a least-squares line
 through the usage samples, extrapolated to the size of the disk. Floats are modelled as reals.
 */
module Forecast {

  datatype Sample = Sample(ts: int, used: int)

  /** A sample as a point: seconds since the first one, and bytes used. */
  datatype Point = Point(x: real, y: real)

  const SECONDS_PER_DAY: real := 86400.0

  function PointAt(hist: seq<Sample>, k: nat): Point
    requires k < |hist|
  {
    Point((hist[k].ts - hist[0].ts) as real, hist[k].used as real)
  }

  function Points(hist: seq<Sample>): (p: seq<Point>)
    ensures |p| == |hist|
  {
    seq(|hist|, k requires 0 <= k < |hist| => PointAt(hist, k))
  }

  // ---------- sums ----------

  function Sum(s: seq<real>): real {
    if s == [] then 0.0 else Sum(s[..|s| - 1]) + s[|s| - 1]
  }

  function Linear(f: real, g: real, h: real, a: real, b: real): real {
    f + a * g + b * h
  }

  /** Every element of `r` is the same linear combination of those of `f`, `g` and `h`. */
  predicate Combines(r: seq<real>, f: seq<real>, g: seq<real>, h: seq<real>, a: real, b: real) {
    && |r| == |f| == |g| == |h|
    && forall k :: 0 <= k < |r| ==> r[k] == Linear(f[k], g[k], h[k], a, b)
  }

  /** Sums are linear. */
  lemma {:induction false} Combination(r: seq<real>, f: seq<real>, g: seq<real>, h: seq<real>, a: real, b: real)
    requires Combines(r, f, g, h, a, b)
    ensures Sum(r) == Linear(Sum(f), Sum(g), Sum(h), a, b)
  {
    if r != [] {
      var n := |r| - 1;
      Combination(r[..n], f[..n], g[..n], h[..n], a, b);
      AddLinear(Sum(f[..n]), Sum(g[..n]), Sum(h[..n]), f[n], g[n], h[n], a, b);
    }
  }

  lemma AddLinear(f: real, g: real, h: real, f': real, g': real, h': real, a: real, b: real)
    ensures Linear(f, g, h, a, b) + Linear(f', g', h', a, b) == Linear(f + f', g + g', h + h', a, b)
  {
  }

  lemma {:induction false} SumAtLeast(s: seq<real>)
    requires forall k :: 0 <= k < |s| ==> s[k] >= 0.0
    ensures Sum(s) >= 0.0
    ensures forall k :: 0 <= k < |s| ==> Sum(s) >= s[k]
  {
    if s != [] {
      SumAtLeast(s[..|s| - 1]);
    }
  }

  function Xs(p: seq<Point>): (r: seq<real>)
    ensures |r| == |p| && forall k :: 0 <= k < |p| ==> r[k] == p[k].x
  {
    seq(|p|, k requires 0 <= k < |p| => p[k].x)
  }

  function Ys(p: seq<Point>): (r: seq<real>)
    ensures |r| == |p| && forall k :: 0 <= k < |p| ==> r[k] == p[k].y
  {
    seq(|p|, k requires 0 <= k < |p| => p[k].y)
  }

  function XYs(p: seq<Point>): (r: seq<real>)
    ensures |r| == |p| && forall k :: 0 <= k < |p| ==> r[k] == p[k].x * p[k].y
  {
    seq(|p|, k requires 0 <= k < |p| => p[k].x * p[k].y)
  }

  function XXs(p: seq<Point>): (r: seq<real>)
    ensures |r| == |p| && forall k :: 0 <= k < |p| ==> r[k] == p[k].x * p[k].x
  {
    seq(|p|, k requires 0 <= k < |p| => p[k].x * p[k].x)
  }

  function Ones(n: nat): (r: seq<real>)
    ensures |r| == n && forall k :: 0 <= k < n ==> r[k] == 1.0
  {
    seq(n, _ => 1.0)
  }

  function Zeros(n: nat): (r: seq<real>)
    ensures |r| == n && forall k :: 0 <= k < n ==> r[k] == 0.0
  {
    seq(n, _ => 0.0)
  }

  lemma {:induction false} SumOnes(n: nat)
    ensures Sum(Ones(n)) == n as real
  {
    if n > 0 {
      SumOnes(n - 1);
      assert Ones(n)[..n - 1] == Ones(n - 1);
    }
  }

  function DenomOf(n: real, sx: real, sxx: real): real {
    n * sxx - sx * sx
  }

  function SlopeOf(n: real, sx: real, sy: real, sxy: real, denom: real): real
    requires denom != 0.0
  {
    (n * sxy - sx * sy) / denom
  }

  function InterceptOf(n: real, sx: real, sy: real, slope: real): real
    requires n != 0.0
  {
    (sy - slope * sx) / n
  }

  function Denom(p: seq<Point>): real {
    DenomOf(|p| as real, Sum(Xs(p)), Sum(XXs(p)))
  }

  function Slope(p: seq<Point>): real
    requires Denom(p) != 0.0
  {
    SlopeOf(|p| as real, Sum(Xs(p)), Sum(Ys(p)), Sum(XYs(p)), Denom(p))
  }

  function Intercept(p: seq<Point>): real
    requires p != [] && Denom(p) != 0.0
  {
    InterceptOf(|p| as real, Sum(Xs(p)), Sum(Ys(p)), Slope(p))
  }

  /** Enough samples over enough time for a fit. */
  predicate Fit(hist: seq<Sample>) {
    |hist| >= 4 && hist[|hist| - 1].ts - hist[0].ts >= 6 * 3600
  }

  /** The points are not all above each other: the first and the last are apart. */
  predicate Apart(p: seq<Point>) {
    p != [] && p[0].x != p[|p| - 1].x
  }

  lemma FitApart(hist: seq<Sample>)
    requires Fit(hist)
    ensures Apart(Points(hist))
  {
    var p, n := Points(hist), |hist|;
    assert p[0] == PointAt(hist, 0) && p[n - 1] == PointAt(hist, n - 1);
  }

  // ---------- squares ----------

  function Times(a: real, b: real): (p: real)
    ensures a > 0.0 && b > 0.0 ==> p > 0.0
  {
    a * b
  }

  function Squared(a: real): (q: real)
    ensures q >= 0.0 && (a != 0.0 ==> q > 0.0)
  {
    if a >= 0.0 then Times(a, a) else Times(-a, -a)
  }

  lemma Product(u: real, x: real)
    requires u != 0.0 && x != 0.0
    ensures u * x != 0.0
  {
  }

  lemma Divided(x: real, d: real)
    requires d != 0.0
    ensures (x / d) * d == x && d * (x / d) == x
  {
  }

  // ---------- the denominator is positive ----------

  /** The squared distances of the points from `x`. */
  function Distances(p: seq<Point>, x: real): (r: seq<real>)
    ensures |r| == |p| && forall k :: 0 <= k < |p| ==> r[k] == Squared(p[k].x - x)
  {
    seq(|p|, k requires 0 <= k < |p| => Squared(p[k].x - x))
  }

  lemma DistancesCombine(p: seq<Point>, x: real, a: real, b: real)
    requires a == -2.0 * x && b == Squared(x)
    ensures Combines(Distances(p, x), XXs(p), Xs(p), Ones(|p|), a, b)
  {
    forall k | 0 <= k < |p|
      ensures Distances(p, x)[k] == Linear(XXs(p)[k], Xs(p)[k], Ones(|p|)[k], a, b)
    {
      DistanceTerm(p[k].x, x, a, b);
    }
  }

  lemma DistanceTerm(c: real, x: real, a: real, b: real)
    requires a == -2.0 * x && b == Squared(x)
    ensures Squared(c - x) == Linear(c * c, c, 1.0, a, b)
  {
    assert a * c == -2.0 * (x * c);
    assert Squared(c - x) == c * c - 2.0 * (x * c) + x * x;
  }

  lemma DistancesSum(p: seq<Point>, x: real, a: real, b: real)
    requires a == -2.0 * x && b == Squared(x)
    ensures Sum(Distances(p, x)) == Linear(Sum(XXs(p)), Sum(Xs(p)), |p| as real, a, b)
  {
    DistancesCombine(p, x, a, b);
    Combination(Distances(p, x), XXs(p), Xs(p), Ones(|p|), a, b);
    SumOnes(|p|);
  }

  /** The denominator is n times the sum of the squared distances from the mean. */
  lemma DenomIsSpread(p: seq<Point>, x: real)
    requires p != [] && |p| as real * x == Sum(Xs(p))
    ensures Denom(p) == Times(|p| as real, Sum(Distances(p, x)))
  {
    SpreadTerms(p, |p| as real, x, -2.0 * x, Squared(x));
  }

  lemma SpreadTerms(p: seq<Point>, n: real, x: real, a: real, b: real)
    requires n == |p| as real && Times(n, x) == Sum(Xs(p)) && a == -2.0 * x && b == Squared(x)
    ensures Denom(p) == Times(n, Sum(Distances(p, x)))
  {
    DistancesSum(p, x, a, b);
    MeanTerm(n, Sum(Xs(p)), Sum(XXs(p)), x, a, b, Sum(Distances(p, x)));
  }

  lemma MeanTerm(n: real, sx: real, sxx: real, x: real, a: real, b: real, d: real)
    requires Times(n, x) == sx && a == -2.0 * x && b == Squared(x) && d == Linear(sxx, sx, n, a, b)
    ensures DenomOf(n, sx, sxx) == Times(n, d)
  {
    assert n * (a * sx) == -2.0 * ((n * x) * sx);
    assert n * (b * n) == (n * x) * (n * x);
    assert n * d == n * sxx + n * (a * sx) + n * (b * n);
  }

  /** The denominator of the fit is positive. */
  lemma DenomPositive(p: seq<Point>)
    requires Apart(p)
    ensures Denom(p) > 0.0
  {
    var n := |p| as real;
    var x := Sum(Xs(p)) / n;
    var d := Distances(p, x);
    SumAtLeast(d);
    assert d[0] == Squared(p[0].x - x) && d[|p| - 1] == Squared(p[|p| - 1].x - x);
    Divided(Sum(Xs(p)), n);
    DenomIsSpread(p, x);
  }

  // ---------- least squares ----------

  /** The residuals of the line y = a * x + b. */
  function Residuals(p: seq<Point>, a: real, b: real): (r: seq<real>)
    ensures |r| == |p| && forall k :: 0 <= k < |p| ==> r[k] == p[k].y - (a * p[k].x + b)
  {
    seq(|p|, k requires 0 <= k < |p| => p[k].y - (a * p[k].x + b))
  }

  /** The values of the line u * x + v at the points. */
  function Values(p: seq<Point>, u: real, v: real): (r: seq<real>)
    ensures |r| == |p| && forall k :: 0 <= k < |p| ==> r[k] == u * p[k].x + v
  {
    seq(|p|, k requires 0 <= k < |p| => u * p[k].x + v)
  }

  function Squares(s: seq<real>): (r: seq<real>)
    ensures |r| == |s| && forall k :: 0 <= k < |s| ==> r[k] == Squared(s[k])
  {
    seq(|s|, k requires 0 <= k < |s| => Squared(s[k]))
  }

  function Pairwise(s: seq<real>, t: seq<real>): (r: seq<real>)
    requires |s| == |t|
    ensures |r| == |s| && forall k :: 0 <= k < |s| ==> r[k] == s[k] * t[k]
  {
    seq(|s|, k requires 0 <= k < |s| => s[k] * t[k])
  }

  /** The sum of the squared errors of the line y = a * x + b. */
  function SSE(p: seq<Point>, a: real, b: real): real {
    Sum(Squares(Residuals(p, a, b)))
  }

  /** The residuals of the line a, b sum to zero, plainly and weighted by x. */
  predicate Normal(p: seq<Point>, a: real, b: real) {
    Sum(Residuals(p, a, b)) == 0.0 && Sum(Weighted(p, a, b)) == 0.0
  }

  lemma ResidualsCombine(p: seq<Point>, a: real, b: real)
    ensures Combines(Residuals(p, a, b), Ys(p), Xs(p), Ones(|p|), -a, -b)
  {
    forall k | 0 <= k < |p|
      ensures Residuals(p, a, b)[k] == Linear(Ys(p)[k], Xs(p)[k], Ones(|p|)[k], -a, -b)
    {
      ResidualLinear(p[k].x, p[k].y, a, b);
    }
  }

  lemma ResidualLinear(x: real, y: real, a: real, b: real)
    ensures y - (a * x + b) == Linear(y, x, 1.0, -a, -b)
  {
  }

  lemma ResidualSum(p: seq<Point>, a: real, b: real)
    ensures Sum(Residuals(p, a, b)) == Linear(Sum(Ys(p)), Sum(Xs(p)), |p| as real, -a, -b)
  {
    ResidualsCombine(p, a, b);
    Combination(Residuals(p, a, b), Ys(p), Xs(p), Ones(|p|), -a, -b);
    SumOnes(|p|);
  }

  /** The residuals weighted by x. */
  function Weighted(p: seq<Point>, a: real, b: real): (r: seq<real>)
    ensures |r| == |p|
  {
    Pairwise(Residuals(p, a, b), Xs(p))
  }

  lemma WeightedCombine(p: seq<Point>, a: real, b: real)
    ensures Combines(Weighted(p, a, b), XYs(p), XXs(p), Xs(p), -a, -b)
  {
    forall k | 0 <= k < |p|
      ensures Weighted(p, a, b)[k] == Linear(XYs(p)[k], XXs(p)[k], Xs(p)[k], -a, -b)
    {
      WeightedTerm(Residuals(p, a, b)[k], p[k].x, p[k].y, a, b);
    }
  }

  lemma WeightedTerm(e: real, x: real, y: real, a: real, b: real)
    requires e == y - (a * x + b)
    ensures e * x == Linear(x * y, x * x, x, -a, -b)
  {
    assert (a * x) * x == a * (x * x);
    assert e * x == y * x - (a * x) * x - b * x;
  }

  lemma WeightedSum(p: seq<Point>, a: real, b: real)
    ensures Sum(Weighted(p, a, b)) == Linear(Sum(XYs(p)), Sum(XXs(p)), Sum(Xs(p)), -a, -b)
  {
    WeightedCombine(p, a, b);
    Combination(Weighted(p, a, b), XYs(p), XXs(p), Xs(p), -a, -b);
  }

  /** The fitted line solves the normal equations. */
  lemma NormalEquations(p: seq<Point>)
    requires p != [] && Denom(p) != 0.0
    ensures Normal(p, Slope(p), Intercept(p))
  {
    var a, b := Slope(p), Intercept(p);
    ResidualSum(p, a, b);
    WeightedSum(p, a, b);
    Solved(|p| as real, Sum(Xs(p)), Sum(Ys(p)), Sum(XYs(p)), Sum(XXs(p)), Denom(p), a, b,
           Sum(Residuals(p, a, b)), Sum(Weighted(p, a, b)));
  }

  lemma Solved(n: real, sx: real, sy: real, sxy: real, sxx: real, denom: real, a: real, b: real, e: real, ex: real)
    requires n > 0.0 && denom != 0.0 && denom == DenomOf(n, sx, sxx)
    requires a == SlopeOf(n, sx, sy, sxy, denom) && b == InterceptOf(n, sx, sy, a)
    requires e == Linear(sy, sx, n, -a, -b) && ex == Linear(sxy, sxx, sx, -a, -b)
    ensures e == 0.0 && ex == 0.0
  {
    Divided(n * sxy - sx * sy, denom);
    Divided(sy - a * sx, n);
    Expand(n, sxy, a, sxx, b, sx, sy);
    if ex != 0.0 {
      Product(n, ex);
    }
  }

  lemma Expand(n: real, sxy: real, a: real, sxx: real, b: real, sx: real, sy: real)
    requires n * b == sy - a * sx && a * (n * sxx - sx * sx) == n * sxy - sx * sy
    ensures n * (sxy + (-a) * sxx + (-b) * sx) == 0.0
  {
    assert n * (sxy + (-a) * sxx + (-b) * sx) == n * sxy - n * (a * sxx) - n * (b * sx);
    assert n * (b * sx) == (n * b) * sx == sy * sx - (a * sx) * sx;
    assert a * (n * sxx - sx * sx) == a * (n * sxx) - a * (sx * sx);
    assert n * (a * sxx) == a * (n * sxx) && (a * sx) * sx == a * (sx * sx);
  }

  /** The residuals weighted by the line u, v. */
  function Cross(p: seq<Point>, a: real, b: real, u: real, v: real): (r: seq<real>)
    ensures |r| == |p|
  {
    Pairwise(Residuals(p, a, b), Values(p, u, v))
  }

  lemma CrossCombine(p: seq<Point>, a: real, b: real, u: real, v: real)
    ensures Combines(Cross(p, a, b, u, v), Zeros(|p|), Weighted(p, a, b), Residuals(p, a, b), u, v)
  {
    var e := Residuals(p, a, b);
    forall k | 0 <= k < |p|
      ensures Cross(p, a, b, u, v)[k] == Linear(Zeros(|p|)[k], Weighted(p, a, b)[k], e[k], u, v)
    {
      CrossTerm(e[k], p[k].x, u, v);
    }
  }

  lemma CrossTerm(e: real, x: real, u: real, v: real)
    ensures e * (u * x + v) == Linear(0.0, e * x, e, u, v)
  {
  }

  /** The residuals of a solution are orthogonal to every line. */
  lemma Orthogonal(p: seq<Point>, a: real, b: real, u: real, v: real)
    requires Normal(p, a, b)
    ensures Sum(Cross(p, a, b, u, v)) == 0.0
  {
    CrossCombine(p, a, b, u, v);
    Combination(Cross(p, a, b, u, v), Zeros(|p|), Weighted(p, a, b), Residuals(p, a, b), u, v);
    ZeroSum(Zeros(|p|));
  }

  /** By how much two lines differ at the points, squared. */
  function Gaps(p: seq<Point>, u: real, v: real): (r: seq<real>)
    ensures |r| == |p|
  {
    Squares(Values(p, u, v))
  }

  lemma ShiftCombine(p: seq<Point>, a: real, b: real, a': real, b': real, u: real, v: real)
    requires a' == a + u && b' == b + v
    ensures Combines(Squares(Residuals(p, a', b')), Squares(Residuals(p, a, b)), Cross(p, a, b, u, v),
                     Gaps(p, u, v), -2.0, 1.0)
  {
    forall k | 0 <= k < |p|
      ensures Squares(Residuals(p, a', b'))[k]
           == Linear(Squares(Residuals(p, a, b))[k], Cross(p, a, b, u, v)[k], Gaps(p, u, v)[k], -2.0, 1.0)
    {
      ShiftTerm(p[k].x, p[k].y, a, b, a', b', u, v, Residuals(p, a', b')[k], Residuals(p, a, b)[k], Values(p, u, v)[k]);
    }
  }

  lemma ShiftTerm(x: real, y: real, a: real, b: real, a': real, b': real, u: real, v: real,
                  e': real, e: real, w: real)
    requires a' == a + u && b' == b + v
    requires e' == y - (a' * x + b') && e == y - (a * x + b) && w == u * x + v
    ensures Squared(e') == Linear(Squared(e), e * w, Squared(w), -2.0, 1.0)
  {
    assert a' * x == a * x + u * x;
    assert e' == e - w;
    SquareOfDifference(e, w);
  }

  /** How the sum of squared errors grows from one line to another. */
  lemma Shift(p: seq<Point>, a: real, b: real, a': real, b': real, u: real, v: real)
    requires a' == a + u && b' == b + v
    ensures SSE(p, a', b') == SSE(p, a, b) - 2.0 * Sum(Cross(p, a, b, u, v)) + Sum(Gaps(p, u, v))
  {
    ShiftCombine(p, a, b, a', b', u, v);
    Combination(Squares(Residuals(p, a', b')), Squares(Residuals(p, a, b)), Cross(p, a, b, u, v),
                Gaps(p, u, v), -2.0, 1.0);
  }

  lemma SquareOfDifference(r: real, d: real)
    ensures Squared(r - d) == Linear(Squared(r), r * d, Squared(d), -2.0, 1.0)
  {
  }

  /** A solution of the normal equations is the one line with the least sum of squared errors. */
  lemma NormalIsBest(p: seq<Point>, s: real, c: real, a: real, b: real)
    requires Apart(p) && Normal(p, s, c)
    ensures SSE(p, s, c) <= SSE(p, a, b)
    ensures SSE(p, s, c) == SSE(p, a, b) <==> a == s && b == c
  {
    var u, v := a - s, b - c;
    Orthogonal(p, s, c, u, v);
    Shift(p, s, c, a, b, u, v);
    GapMeaning(p, u, v);
  }

  /** Two different lines cannot agree at both the first and the last point. */
  lemma GapMeaning(p: seq<Point>, u: real, v: real)
    requires Apart(p)
    ensures Sum(Gaps(p, u, v)) >= 0.0
    ensures Sum(Gaps(p, u, v)) == 0.0 <==> u == 0.0 && v == 0.0
  {
    var w, last := Values(p, u, v), |p| - 1;
    SumAtLeast(Squares(w));
    if u == 0.0 && v == 0.0 {
      assert forall k :: 0 <= k < |p| ==> w[k] == 0.0;
      ZeroSum(Squares(w));
    } else {
      assert Squares(w)[0] == Squared(w[0]) && Squares(w)[last] == Squared(w[last]);
      TwoZeros(u, v, p[0].x, p[last].x);
    }
  }

  lemma {:induction false} ZeroSum(s: seq<real>)
    requires forall k :: 0 <= k < |s| ==> s[k] == 0.0
    ensures Sum(s) == 0.0
  {
    if s != [] {
      ZeroSum(s[..|s| - 1]);
    }
  }

  lemma TwoZeros(u: real, v: real, x: real, y: real)
    requires x != y && (u != 0.0 || v != 0.0)
    ensures u * x + v != 0.0 || u * y + v != 0.0
  {
    if u != 0.0 {
      Product(u, x - y);
    }
  }

  /** No line has a smaller sum of squared errors, and no other line has one as small. */
  lemma LeastSquares(hist: seq<Sample>, a: real, b: real)
    requires Fit(hist)
    ensures var p := Points(hist);
      && Denom(p) > 0.0
      && SSE(p, Slope(p), Intercept(p)) <= SSE(p, a, b)
      && (SSE(p, Slope(p), Intercept(p)) == SSE(p, a, b) <==> a == Slope(p) && b == Intercept(p))
  {
    var p := Points(hist);
    FitApart(hist);
    DenomPositive(p);
    NormalEquations(p);
    NormalIsBest(p, Slope(p), Intercept(p), a, b);
  }

  // ---------- the forecast ----------

  /** The line slope * t + intercept, `t` seconds after the first sample. */
  function Line(slope: real, intercept: real, t: real): real {
    slope * t + intercept
  }

  /** The line `d` days after tNow. */
  function Ahead(slope: real, intercept: real, tNow: real, d: real): real {
    Line(slope, intercept, tNow + d * SECONDS_PER_DAY)
  }

  /** What a fitted line promises: when it does not rise, -1; when it is at the top already, 0;
      otherwise the one number of days ahead at which it is at the top. */
  ghost predicate Forecasts(slope: real, intercept: real, top: real, tNow: real, days: real) {
    && (days == -1.0 <==> slope <= 0.0)
    && (days == 0.0 <==> slope > 0.0 && Line(slope, intercept, tNow) >= top)
    && (days > 0.0 <==> slope > 0.0 && Line(slope, intercept, tNow) < top)
    && (days > 0.0 ==> forall d: real :: Ahead(slope, intercept, tNow, d) == top <==> d == days)
  }

  // ---------- the same in clock time ----------

  /** By how much a sample misses the line used = m * ts + c. */
  function Miss(sample: Sample, m: real, c: real): real {
    sample.used as real - (m * sample.ts as real + c)
  }

  /** The sum of the squared errors of that line. */
  function Error(hist: seq<Sample>, m: real, c: real): real {
    if hist == [] then 0.0
    else Error(hist[..|hist| - 1], m, c) + Squared(Miss(hist[|hist| - 1], m, c))
  }

  /** No line has a smaller one. */
  ghost predicate Best(hist: seq<Sample>, m: real, c: real) {
    forall a: real, b: real :: Error(hist, m, c) <= Error(hist, a, b)
  }

  /** The value at the first sample of a line in clock time. */
  function AtStart(m: real, c: real, t0: int): real {
    c + m * t0 as real
  }

  lemma MissIs(hist: seq<Sample>, m: real, c: real, k: nat)
    requires k < |hist|
    ensures Miss(hist[k], m, c) == Residuals(Points(hist), m, AtStart(m, c, hist[0].ts))[k]
  {
    var ts, t0 := hist[k].ts, hist[0].ts;
    assert Points(hist)[k] == PointAt(hist, k);
    assert m * (ts - t0) as real == m * ts as real - m * t0 as real;
  }

  lemma {:induction false} ErrorUpTo(hist: seq<Sample>, m: real, c: real, i: nat, errors: seq<real>)
    requires i <= |hist| == |errors| && forall k :: 0 <= k < |hist| ==> errors[k] == Squared(Miss(hist[k], m, c))
    ensures Error(hist[..i], m, c) == Sum(errors[..i])
  {
    if i > 0 {
      ErrorUpTo(hist, m, c, i - 1, errors);
      SumNext(errors, i - 1);
      assert hist[..i][..i - 1] == hist[..i - 1];
    }
  }

  lemma ErrorIsSSE(hist: seq<Sample>, m: real, c: real)
    requires hist != []
    ensures Error(hist, m, c) == SSE(Points(hist), m, AtStart(m, c, hist[0].ts))
  {
    var errors := Squares(Residuals(Points(hist), m, AtStart(m, c, hist[0].ts)));
    forall k | 0 <= k < |hist| ensures errors[k] == Squared(Miss(hist[k], m, c)) {
      MissIs(hist, m, c, k);
    }
    ErrorUpTo(hist, m, c, |hist|, errors);
    assert hist[..|hist|] == hist && errors[..|hist|] == errors;
  }

  /** The fitted line, moved to clock time, is the best line, and there is no other. */
  lemma BestIff(hist: seq<Sample>, m: real, c: real)
    requires Fit(hist)
    ensures Denom(Points(hist)) > 0.0
    ensures Best(hist, m, c) <==>
              m == Slope(Points(hist)) && AtStart(m, c, hist[0].ts) == Intercept(Points(hist))
  {
    var p, t0 := Points(hist), hist[0].ts;
    LeastSquares(hist, m, AtStart(m, c, t0));
    ErrorIsSSE(hist, m, c);
    var slope, base := FittedLine(hist);
    if m == slope && AtStart(m, c, t0) == Intercept(p) {
      forall a: real, b: real ensures Error(hist, m, c) <= Error(hist, a, b) {
        ErrorIsSSE(hist, a, b);
        LeastSquares(hist, a, AtStart(a, b, t0));
      }
    }
    if Best(hist, m, c) {
      assert Error(hist, m, c) <= Error(hist, slope, base);
    }
  }

  lemma FittedLine(hist: seq<Sample>) returns (m: real, c: real)
    requires Fit(hist)
    ensures var p := Points(hist);
      && Denom(p) > 0.0 && m == Slope(p) && AtStart(m, c, hist[0].ts) == Intercept(p)
      && Error(hist, m, c) == SSE(p, Slope(p), Intercept(p))
  {
    LeastSquares(hist, 0.0, 0.0);
    m := Slope(Points(hist));
    c := FromStart(m, Intercept(Points(hist)), hist[0].ts);
    ErrorIsSSE(hist, m, c);
  }

  lemma FromStart(m: real, b: real, t0: int) returns (c: real)
    ensures AtStart(m, c, t0) == b
  {
    c := b - m * t0 as real;
  }

  /** When usage does not grow, -1; when the line is at the top by now, 0; otherwise it is in that many days. */
  ghost predicate Foretold(m: real, c: real, top: real, now: int, days: real) {
    && (days == -1.0 <==> m <= 0.0)
    && (days == 0.0 <==> m > 0.0 && m * now as real + c >= top)
    && (days > 0.0 <==> m > 0.0 && m * now as real + c < top)
    && (days > 0.0 ==> m * (now as real + days * 86400.0) + c == top)
  }

  lemma ForetoldLine(m: real, c: real, intercept: real, t0: int, top: real, now: int, days: real)
    requires Forecasts(m, intercept, top, (now - t0) as real, days) && AtStart(m, c, t0) == intercept
    ensures Foretold(m, c, top, now, days)
  {
    var ahead := days * SECONDS_PER_DAY;
    assert m * (now - t0) as real == m * now as real - m * t0 as real;
    if days > 0.0 {
      assert Ahead(m, intercept, (now - t0) as real, days) == top;
      assert m * ((now - t0) as real + ahead) == m * (now as real + ahead) - m * t0 as real;
    }
  }

  /** The four sums of the fit, in one pass. */
  method Sums(hist: seq<Sample>) returns (sumX: real, sumY: real, sumXY: real, sumXX: real)
    requires hist != []
    ensures var p := Points(hist);
      && sumX == Sum(Xs(p)) && sumY == Sum(Ys(p))
      && sumXY == Sum(XYs(p)) && sumXX == Sum(XXs(p))
  {
    sumX, sumY, sumXY, sumXX := 0.0, 0.0, 0.0, 0.0;
    var t0 := hist[0].ts;
    ghost var p := Points(hist);
    for i := 0 to |hist|
      invariant Partial(p, i, sumX, sumY, sumXY, sumXX)
    {
      var x := (hist[i].ts - t0) as real;
      var y := hist[i].used as real;
      assert p[i] == PointAt(hist, i) == Point(x, y);
      PartialNext(p, i, sumX, sumY, sumXY, sumXX, x, y);
      sumX, sumY := sumX + x, sumY + y;
      sumXY, sumXX := sumXY + x * y, sumXX + x * x;
    }
    assert Xs(p)[..|p|] == Xs(p) && Ys(p)[..|p|] == Ys(p) && XYs(p)[..|p|] == XYs(p) && XXs(p)[..|p|] == XXs(p);
  }

  predicate Partial(p: seq<Point>, i: nat, sumX: real, sumY: real, sumXY: real, sumXX: real)
    requires i <= |p|
  {
    && sumX == Sum(Xs(p)[..i]) && sumY == Sum(Ys(p)[..i])
    && sumXY == Sum(XYs(p)[..i]) && sumXX == Sum(XXs(p)[..i])
  }

  lemma PartialNext(p: seq<Point>, i: nat, sumX: real, sumY: real, sumXY: real, sumXX: real, x: real, y: real)
    requires i < |p| && p[i] == Point(x, y) && Partial(p, i, sumX, sumY, sumXY, sumXX)
    ensures Partial(p, i + 1, sumX + x, sumY + y, sumXY + x * y, sumXX + x * x)
  {
    SumNext(Xs(p), i);
    SumNext(Ys(p), i);
    SumNext(XYs(p), i);
    SumNext(XXs(p), i);
  }

  lemma SumNext(s: seq<real>, i: nat)
    requires i < |s|
    ensures Sum(s[..i + 1]) == Sum(s[..i]) + s[i]
  {
    assert s[..i + 1][..i] == s[..i];
  }

  method ForecastDaysToFull(hist: seq<Sample>, total: int, now: int) returns (days: real)
    ensures total <= 0 || |hist| < 4 || hist[|hist| - 1].ts - hist[0].ts < 6 * 3600 ==> days == -1.0
    ensures total > 0 && |hist| >= 4 && hist[|hist| - 1].ts - hist[0].ts >= 6 * 3600 ==>
      && (exists m: real, c: real :: Best(hist, m, c))
      && (forall m: real, c: real :: Best(hist, m, c) ==> Foretold(m, c, total as real, now, days))
  {
    if total <= 0 {
      return -1.0;
    }
    if |hist| < 4 {
      return -1.0;
    }
    if hist[|hist| - 1].ts - hist[0].ts < 6 * 3600 {
      return -1.0;
    }
    var sumX, sumY, sumXY, sumXX := Sums(hist);
    var n := |hist| as real;
    ghost var p := Points(hist);
    FitApart(hist);
    DenomPositive(p);
    var denom := DenomOf(n, sumX, sumXX);
    if denom == 0.0 {
      return -1.0;
    }
    var slope := SlopeOf(n, sumX, sumY, sumXY, denom);
    var intercept := InterceptOf(n, sumX, sumY, slope);
    days := DaysAhead(slope, intercept, total as real, (now - hist[0].ts) as real);
    ghost var m0, c0 := FittedLine(hist);
    BestIff(hist, m0, c0);
    forall m: real, c: real | Best(hist, m, c) ensures Foretold(m, c, total as real, now, days) {
      BestIff(hist, m, c);
      ForetoldLine(m, c, intercept, hist[0].ts, total as real, now, days);
    }
  }

  /** The end of the forecast, once the line is fitted. */
  method DaysAhead(slope: real, intercept: real, top: real, tNow: real) returns (days: real)
    ensures Forecasts(slope, intercept, top, tNow, days)
  {
    if slope <= 0.0 {
      return -1.0;
    }
    var tFull := (top - intercept) / slope;
    MeetsTop(slope, intercept, top, tNow, tFull);
    if tFull <= tNow {
      return 0.0;
    }
    days := (tFull - tNow) / SECONDS_PER_DAY;
    forall d: real ensures Ahead(slope, intercept, tNow, d) == top <==> d == days {
      DayAhead(slope, intercept, top, tNow, tFull, days, d);
    }
  }

  /** A rising line is at the top at one time only, and below it before. */
  lemma MeetsTop(slope: real, intercept: real, top: real, tNow: real, tFull: real)
    requires slope > 0.0 && tFull == (top - intercept) / slope
    ensures tFull <= tNow <==> Line(slope, intercept, tNow) >= top
    ensures Line(slope, intercept, tFull) == top
  {
    assert slope * tFull == top - intercept;
    if tFull <= tNow {
      assert slope * (tNow - tFull) >= 0.0;
    } else {
      assert Times(slope, tFull - tNow) == slope * tFull - slope * tNow;
    }
  }

  lemma DayAhead(slope: real, intercept: real, top: real, tNow: real, tFull: real, days: real, d: real)
    requires slope > 0.0 && Line(slope, intercept, tFull) == top && days == (tFull - tNow) / SECONDS_PER_DAY
    ensures d == days <==> Ahead(slope, intercept, tNow, d) == top
  {
    var t := tNow + d * SECONDS_PER_DAY;
    assert d == days <==> t == tFull;
    assert slope * (t - tFull) == slope * t - slope * tFull;
    if t != tFull {
      Product(slope, t - tFull);
    }
  }
}
