/** Ordinary least squares over the reals. */
module Regression {
  import opened Numbers
  import opened Options

  /** `ols_fit`'s result; the standard error is kept as its square. */
  datatype Fit = Fit(slope: real, intercept: real, rSquared: real, ssRes: real, ssTot: real, n: nat,
                     xMean: real, sxx: real, slopeVariance: Option<real>, residualVariance: real)

  datatype FitResult = Fitted(fit: Fit) | LengthMismatch | TooFewPoints | NoVarianceInX

  function Sum(s: seq<real>): real {
    if s == [] then 0.0 else s[0] + Sum(s[1..])
  }

  function Square(x: real): (r: real)
    ensures r >= 0.0 && (r == 0.0 <==> x == 0.0)
  {
    NoZeroProduct(x, x);
    x * x
  }

  lemma NoZeroProduct(x: real, y: real)
    ensures x * y == 0.0 <==> x == 0.0 || y == 0.0
    ensures x > 0.0 && y > 0.0 ==> x * y > 0.0
    ensures x < 0.0 && y < 0.0 ==> x * y > 0.0
    ensures x >= 0.0 && y >= 0.0 ==> x * y >= 0.0
  {
    if x > 0.0 && y < 0.0 {
      assert x * (-y) > 0.0;
    } else if x < 0.0 && y > 0.0 {
      assert (-x) * y > 0.0;
    } else if x < 0.0 && y < 0.0 {
      assert (-x) * (-y) > 0.0;
    }
  }

  function SumSquares(s: seq<real>, c: real): real {
    if s == [] then 0.0 else Square(s[0] - c) + SumSquares(s[1..], c)
  }

  function Cross(u: real, v: real): real {
    u * v
  }

  function SumProducts(xs: seq<real>, ys: seq<real>, cx: real, cy: real): real
    requires |xs| == |ys|
  {
    if xs == [] then 0.0 else Cross(xs[0] - cx, ys[0] - cy) + SumProducts(xs[1..], ys[1..], cx, cy)
  }

  /** How far the line `a + b * x` misses a point. */
  function Error(x: real, y: real, a: real, b: real): real {
    y - (a + b * x)
  }

  /** The residual sum of squares of the line `a + b * x`. */
  function Residual(xs: seq<real>, ys: seq<real>, a: real, b: real): real
    requires |xs| == |ys|
  {
    if xs == [] then 0.0 else Square(Error(xs[0], ys[0], a, b)) + Residual(xs[1..], ys[1..], a, b)
  }

  function OlsFit(xs: seq<real>, ys: seq<real>): FitResult {
    var n := |xs|;
    if n != |ys| then LengthMismatch
    else if n < 2 then TooFewPoints
    else
      var xMean, yMean := Sum(xs) / n as real, Sum(ys) / n as real;
      var sxx, sxy := SumSquares(xs, xMean), SumProducts(xs, ys, xMean, yMean);
      if sxx == 0.0 then NoVarianceInX
      else
        var slope := sxy / sxx;
        var intercept := yMean - slope * xMean;
        var ssTot, ssRes := SumSquares(ys, yMean), Residual(xs, ys, intercept, slope);
        var r := if ssTot == 0.0 then 1.0 else Max(0.0, 1.0 - ssRes / ssTot);
        var variance := if n > 2 then ssRes / (n - 2) as real else 0.0;
        var slopeVariance := if n > 2 then Some(variance / sxx) else None;
        Fitted(Fit(slope, intercept, r, ssRes, ssTot, n, xMean, sxx, slopeVariance, variance))
  }

  function Predict(f: Fit, x: real): real {
    f.intercept + f.slope * x
  }

  // ---- sums about a centre ----

  lemma {:induction false} SquaresNonNegative(s: seq<real>, c: real)
    ensures SumSquares(s, c) >= 0.0
    ensures SumSquares(s, c) == 0.0 ==> forall i :: 0 <= i < |s| ==> s[i] == c
  {
    hide Square;
    if s != [] {
      SquaresNonNegative(s[1..], c);
      assert forall i :: 0 < i < |s| ==> s[i] == s[1..][i - 1];
    }
  }

  /** Deviations from the mean add up to nothing. */
  lemma {:induction false} SumOfShifted(xs: seq<real>, c: real)
    ensures Sum(Shifted(xs, c)) == Sum(xs) - |xs| as real * c
  {
    if xs != [] {
      SumOfShifted(xs[1..], c);
      assert Shifted(xs, c)[1..] == Shifted(xs[1..], c);
      assert |xs| as real * c == |xs[1..]| as real * c + c;
    }
  }

  function Shifted(xs: seq<real>, c: real): seq<real> {
    seq(|xs|, i requires 0 <= i < |xs| => xs[i] - c)
  }

  /** The residual of any line in terms of the sums about any centre `(cx, cy)`, `e` being the line's
      error at the centre. */
  lemma {:induction false} ResidualAbout(xs: seq<real>, ys: seq<real>, a: real, b: real, cx: real, cy: real, e: real)
    requires |xs| == |ys| && e == a + b * cx - cy
    ensures Residual(xs, ys, a, b) ==
      Combined(b, e, |xs| as real, SumSquares(ys, cy), SumProducts(xs, ys, cx, cy), SumSquares(xs, cx),
               Sum(Shifted(ys, cy)), Sum(Shifted(xs, cx)))
  {
    hide Square, Combined, Error, Cross;
    if xs == [] {
      NothingCombined(b, e);
      assert |xs| as real == 0.0 && Shifted(xs, cx) == [] && Shifted(ys, cy) == [];
    } else {
      ResidualAbout(xs[1..], ys[1..], a, b, cx, cy, e);
      assert Shifted(xs, cx)[1..] == Shifted(xs[1..], cx) && Shifted(xs, cx)[0] == xs[0] - cx;
      assert Shifted(ys, cy)[1..] == Shifted(ys[1..], cy) && Shifted(ys, cy)[0] == ys[0] - cy;
      assert |xs| as real == |xs[1..]| as real + 1.0;
      PointSquare(xs[0], ys[0], a, b, cx, cy, e);
      OneMorePoint(Square(ys[0] - cy), Cross(xs[0] - cx, ys[0] - cy), Square(xs[0] - cx), xs[0] - cx, ys[0] - cy,
                   b, e, |xs[1..]| as real,
                   SumSquares(ys[1..], cy), SumProducts(xs[1..], ys[1..], cx, cy), SumSquares(xs[1..], cx),
                   Sum(Shifted(ys[1..], cy)), Sum(Shifted(xs[1..], cx)));
    }
  }

  function Combined(b: real, e: real, n: real, syy: real, sxy: real, sxx: real, sy: real, sx: real): real {
    syy - 2.0 * (b * sxy) + b * b * sxx - 2.0 * (e * (sy - b * sx)) + n * (e * e)
  }

  lemma NothingCombined(b: real, e: real)
    ensures Combined(b, e, 0.0, 0.0, 0.0, 0.0, 0.0, 0.0) == 0.0
  {
  }

  lemma PointSquare(x: real, y: real, a: real, b: real, cx: real, cy: real, e: real)
    requires e == a + b * cx - cy
    ensures Square(Error(x, y, a, b)) ==
      Combined(b, e, 1.0, Square(y - cy), Cross(x - cx, y - cy), Square(x - cx), y - cy, x - cx)
  {
    ErrorSquare(x - cx, y - cy, b, e, y - (a + b * x));
  }

  lemma ErrorSquare(u: real, v: real, b: real, e: real, d: real)
    requires d == v - b * u - e
    ensures d * d == v * v - 2.0 * (b * (u * v)) + b * b * (u * u) - 2.0 * (e * (v - b * u)) + e * e
  {
  }

  lemma OneMorePoint(vv: real, uv: real, uu: real, u: real, v: real, b: real, e: real, m: real,
                     syy: real, sxy: real, sxx: real, sy: real, sx: real)
    ensures Combined(b, e, 1.0, vv, uv, uu, v, u) + Combined(b, e, m, syy, sxy, sxx, sy, sx)
         == Combined(b, e, m + 1.0, vv + syy, uv + sxy, uu + sxx, v + sy, u + sx)
  {
    assert b * (uv + sxy) == b * uv + b * sxy;
    assert b * b * (uu + sxx) == b * b * uu + b * b * sxx;
    assert e * ((v + sy) - b * (u + sx)) == e * (v - b * u) + e * (sy - b * sx);
    assert (m + 1.0) * (e * e) == m * (e * e) + e * e;
  }

  lemma MeanCentres(xs: seq<real>, mean: real)
    requires |xs| > 0 && mean == Sum(xs) / |xs| as real
    ensures Sum(Shifted(xs, mean)) == 0.0
  {
    hide Sum;
    SumOfShifted(xs, mean);
    assert mean * |xs| as real == Sum(xs);
  }

  // ---- least squares ----

  /** About the means the cross terms vanish. */
  lemma ResidualAboutMeans(xs: seq<real>, ys: seq<real>, a: real, b: real, xMean: real, yMean: real, e: real)
    requires |xs| == |ys| > 0 && e == a + b * xMean - yMean
    requires xMean == Sum(xs) / |xs| as real && yMean == Sum(ys) / |ys| as real
    ensures Residual(xs, ys, a, b) ==
      Combined(b, e, |xs| as real, SumSquares(ys, yMean), SumProducts(xs, ys, xMean, yMean), SumSquares(xs, xMean), 0.0, 0.0)
  {
    hide Sum, SumSquares, SumProducts, Residual, Combined;
    MeanCentres(xs, xMean);
    MeanCentres(ys, yMean);
    ResidualAbout(xs, ys, a, b, xMean, yMean, e);
  }

  /** How far the line `a + b * x` is from the fitted line at the mean of x. */
  function Gap(f: Fit, a: real, b: real): real {
    a + b * f.xMean - Predict(f, f.xMean)
  }

  /** What a line loses against the fitted line. */
  function Excess(f: Fit, a: real, b: real): real {
    f.sxx * Square(b - f.slope) + f.n as real * Square(Gap(f, a, b))
  }

  /** The normal equation for the slope. */
  predicate SlopeSolves(f: Fit, sxy: real) {
    f.slope * f.sxx == sxy
  }

  /** The residual of any line is that of the fitted line plus two squares: one in the difference of
      the slopes, one in the difference of the lines at the mean. */
  lemma ResidualOfAnyLine(xs: seq<real>, ys: seq<real>, a: real, b: real)
    requires OlsFit(xs, ys).Fitted?
    ensures |xs| == |ys|
    ensures var f := OlsFit(xs, ys).fit; Residual(xs, ys, a, b) == f.ssRes + Excess(f, a, b)
  {
    hide Sum, SumSquares, SumProducts, Residual, OlsFit, Excess, Combined, SlopeSolves;
    FitFacts(xs, ys);
    var f, yMean := OlsFit(xs, ys).fit, Sum(ys) / |ys| as real;
    var sxy := SumProducts(xs, ys, f.xMean, yMean);
    ResidualAboutMeans(xs, ys, a, b, f.xMean, yMean, Gap(f, a, b));
    ResidualAboutMeans(xs, ys, f.intercept, f.slope, f.xMean, yMean, 0.0);
    CompleteSquare(f, a, b, f.ssTot, sxy);
  }

  lemma CompleteSquare(f: Fit, a: real, b: real, syy: real, sxy: real)
    requires SlopeSolves(f, sxy)
    ensures Combined(b, Gap(f, a, b), f.n as real, syy, sxy, f.sxx, 0.0, 0.0)
         == Combined(f.slope, 0.0, f.n as real, syy, sxy, f.sxx, 0.0, 0.0) + Excess(f, a, b)
  {
    hide Gap;
    SquareOfDifference(f.sxx, f.slope, b, sxy);
  }

  lemma SquareOfDifference(sxx: real, slope: real, b: real, sxy: real)
    requires slope * sxx == sxy
    ensures b * b * sxx - 2.0 * (b * sxy) == slope * slope * sxx - 2.0 * (slope * sxy) + sxx * Square(b - slope)
  {
    assert slope * sxy == slope * slope * sxx;
    assert b * sxy == b * slope * sxx;
    assert sxx * Square(b - slope) == sxx * b * b - 2.0 * (b * slope * sxx) + slope * slope * sxx;
  }

  lemma Quotient(a: real, b: real)
    requires b != 0.0
    ensures a / b * b == a
  {
  }

  /** What a fit is, in the terms the proofs use. */
  lemma FitFacts(xs: seq<real>, ys: seq<real>)
    requires OlsFit(xs, ys).Fitted?
    ensures |xs| == |ys| >= 2
    ensures var f, yMean := OlsFit(xs, ys).fit, Sum(ys) / |ys| as real;
      && f.n == |xs| && f.xMean == Sum(xs) / |xs| as real
      && f.sxx == SumSquares(xs, f.xMean) && f.sxx != 0.0
      && SlopeSolves(f, SumProducts(xs, ys, f.xMean, yMean))
      && Predict(f, f.xMean) == yMean
      && f.ssTot == SumSquares(ys, yMean) && f.ssRes == Residual(xs, ys, f.intercept, f.slope)
  {
    hide Sum, SumSquares, SumProducts, Residual;
    var yMean := Sum(ys) / |ys| as real;
    var xMean := Sum(xs) / |xs| as real;
    Quotient(SumProducts(xs, ys, xMean, yMean), SumSquares(xs, xMean));
  }

  /** Least squares: no line has a smaller residual, and only the fitted line has that residual. */
  lemma FitIsLeastSquares(xs: seq<real>, ys: seq<real>, a: real, b: real)
    requires OlsFit(xs, ys).Fitted?
    ensures |xs| == |ys|
    ensures var f := OlsFit(xs, ys).fit;
      && f.ssRes <= Residual(xs, ys, a, b)
      && (Residual(xs, ys, a, b) == f.ssRes <==> a == f.intercept && b == f.slope)
  {
    hide Sum, SumSquares, SumProducts, Residual, OlsFit, Excess;
    FitFacts(xs, ys);
    var f := OlsFit(xs, ys).fit;
    ResidualOfAnyLine(xs, ys, a, b);
    SquaresNonNegative(xs, f.xMean);
    ExcessIsASquareSum(f, a, b);
  }

  lemma ExcessIsASquareSum(f: Fit, a: real, b: real)
    requires f.sxx > 0.0 && f.n > 0
    ensures Excess(f, a, b) >= 0.0
    ensures Excess(f, a, b) == 0.0 <==> a == f.intercept && b == f.slope
  {
    hide Square;
    NoZeroProduct(f.sxx, Square(b - f.slope));
    NoZeroProduct(f.n as real, Square(Gap(f, a, b)));
    if b == f.slope {
      assert Gap(f, a, b) == a - f.intercept;
    }
  }

  lemma {:induction false} ResidualNonNegative(xs: seq<real>, ys: seq<real>, a: real, b: real)
    requires |xs| == |ys|
    ensures Residual(xs, ys, a, b) >= 0.0
  {
    hide Square;
    if xs != [] {
      ResidualNonNegative(xs[1..], ys[1..], a, b);
    }
  }

  lemma {:induction false} FlatLineResidual(xs: seq<real>, ys: seq<real>, c: real)
    requires |xs| == |ys|
    ensures Residual(xs, ys, c, 0.0) == SumSquares(ys, c)
  {
    hide Square;
    if xs != [] {
      FlatLineResidual(xs[1..], ys[1..], c);
      assert Error(xs[0], ys[0], c, 0.0) == ys[0] - c;
    }
  }

  /** The residual lies between nothing and the total, so the `max` around R squared never acts, and
      R squared is one exactly when the fitted line meets every point. */
  lemma RSquaredIsAShare(xs: seq<real>, ys: seq<real>)
    requires OlsFit(xs, ys).Fitted?
    ensures var f := OlsFit(xs, ys).fit;
      && 0.0 <= f.ssRes <= f.ssTot
      && (f.ssTot > 0.0 ==> f.rSquared == 1.0 - f.ssRes / f.ssTot)
      && 0.0 <= f.rSquared <= 1.0
      && (f.rSquared == 1.0 <==> f.ssRes == 0.0)
  {
    hide Sum, SumSquares, SumProducts, Residual;
    var f, yMean := OlsFit(xs, ys).fit, Sum(ys) / |ys| as real;
    ResidualNonNegative(xs, ys, f.intercept, f.slope);
    FlatLineResidual(xs, ys, yMean);
    FitIsLeastSquares(xs, ys, yMean, 0.0);
    if f.ssTot > 0.0 {
      Share(f.ssRes, f.ssTot);
    }
  }

  lemma Share(part: real, whole: real)
    requires 0.0 <= part <= whole && whole > 0.0
    ensures 0.0 <= part / whole <= 1.0 && (part / whole == 0.0 <==> part == 0.0)
  {
    assert part / whole * whole == part;
  }

  // ---- when a fit exists ----

  /** The fit is refused for lack of variance exactly when all x are the same. */
  lemma NoVarianceMeansOneX(xs: seq<real>, ys: seq<real>)
    requires |xs| == |ys| >= 2
    ensures OlsFit(xs, ys).NoVarianceInX? <==> forall i, j :: 0 <= i < |xs| && 0 <= j < |xs| ==> xs[i] == xs[j]
  {
    hide Sum, SumSquares, SumProducts, Residual;
    var n := |xs| as real;
    var mean := Sum(xs) / n;
    SquaresNonNegative(xs, mean);
    if forall i, j :: 0 <= i < |xs| && 0 <= j < |xs| ==> xs[i] == xs[j] {
      SumOfConstant(xs, xs[0]);
      assert mean == xs[0] by {
        Quotient(Sum(xs), n);
        NoZeroProduct(n, mean - xs[0]);
        assert n * (mean - xs[0]) == n * mean - n * xs[0];
      }
    }
  }

  lemma {:induction false} SumOfConstant(xs: seq<real>, c: real)
    requires forall i :: 0 <= i < |xs| ==> xs[i] == c
    ensures Sum(xs) == |xs| as real * c && SumSquares(xs, c) == 0.0
  {
    if xs != [] {
      SumOfConstant(xs[1..], c);
      assert |xs| as real * c == |xs[1..]| as real * c + c;
    }
  }
}
