/** What a daily aggregate and a trend say, in terms of the samples and of the points they come from. */
module TrendRules {
  import opened Numbers
  import opened Options
  import opened Regression
  import opened Trend
  import Outliers

  // ---- days ----

  const DAY := 86_400_000_000
  const MINUTE := 60_000_000

  /** The day of a sample is the one whose local midnights its time lies between. */
  lemma DayIsAnInterval(s: Sample, tz: int, d: int)
    ensures DayOf(s, tz) == d <==> d * DAY <= s.time + tz * MINUTE < (d + 1) * DAY
  {
  }

  lemma {:induction false} OnDay(samples: seq<Sample>, day: int, tz: int)
    ensures forall s :: s in On(samples, day, tz) <==>
      s in samples && day * DAY <= s.time + tz * MINUTE < (day + 1) * DAY
  {
    hide DayOf;
    if samples != [] {
      var n := |samples| - 1;
      OnDay(samples[..n], day, tz);
      assert samples == samples[..n] + [samples[n]];
      DayIsAnInterval(samples[n], tz, day);
    }
  }

  // ---- the numbers of a day ----

  lemma {:induction false} GreatestOf(v: seq<real>)
    requires v != []
    ensures MaxOf(v) in v && forall x <- v :: x <= MaxOf(v)
  {
    if |v| > 1 {
      GreatestOf(v[1..]);
      assert v == [v[0]] + v[1..];
    }
  }

  lemma {:induction false} LeastOf(v: seq<real>)
    requires v != []
    ensures MinOf(v) in v && forall x <- v :: MinOf(v) <= x
  {
    if |v| > 1 {
      LeastOf(v[1..]);
      assert v == [v[0]] + v[1..];
    }
  }

  /** The percentile lies between the two values at either side of 95 hundredths of the way, and on values in equal steps
      exactly there. */
  lemma PercentileBetween(d: seq<real>, i: nat)
    requires d != [] && Outliers.Sorted(d) && i < |d|
    ensures 100 * i <= 95 * (|d| - 1) ==> d[i] <= Percentile95(d)
    ensures 100 * i >= 95 * (|d| - 1) ==> Percentile95(d) <= d[i]
  {
    if |d| > 1 {
      var m := |d| - 1;
      var j, delta := 95 * m / 100, 95 * m % 100;
      assert 95 * m == 100 * j + delta;
      MixedInWhole(d[j], d[j + 1], delta);
      if 100 * i <= 95 * m {
        assert i <= j && d[i] <= d[j];
      }
      if 100 * i >= 95 * m {
        assert i > j || (i == j && delta == 0);
        assert i > j ==> d[j + 1] <= d[i];
      }
    }
  }

  lemma Mixed(a: real, b: real, w: real)
    requires a <= b && 0.0 <= w < 100.0
    ensures a <= (a * (100.0 - w) + b * w) / 100.0 <= b
    ensures w == 0.0 ==> (a * (100.0 - w) + b * w) / 100.0 == a
  {
    assert a * (100.0 - w) == 100.0 * a - a * w;
    assert (b - a) * w == b * w - a * w;
    NoZeroProduct(b - a, w);
    NoZeroProduct(b - a, 100.0 - w);
    assert (b - a) * (100.0 - w) == (b - a) * 100.0 - (b - a) * w;
  }

  lemma MixedInWhole(a: real, b: real, delta: nat)
    requires a <= b && delta < 100
    ensures a <= (a * (100 - delta) as real + b * delta as real) / 100.0 <= b
    ensures delta == 0 ==> (a * (100 - delta) as real + b * delta as real) / 100.0 == a
  {
    assert (100 - delta) as real == 100.0 - delta as real;
    Mixed(a, b, delta as real);
  }

  lemma PercentileOfSteps(d: seq<real>, a: real, step: real)
    requires d != [] && forall i :: 0 <= i < |d| ==> d[i] == a + step * i as real
    ensures Percentile95(d) == a + step * (0.95 * (|d| - 1) as real)
  {
    if |d| > 1 {
      var m := |d| - 1;
      var j, delta := 95 * m / 100, 95 * m % 100;
      assert 95 * m == 100 * j + delta;
      var x, y, w := m as real, j as real, delta as real;
      assert (95 * m) as real == 95.0 * x && (100 * j + delta) as real == 100.0 * y + w;
      assert (j + 1) as real == y + 1.0;
      StepMixed(a, step, y, w);
      assert 0.95 * x == (100.0 * y + w) / 100.0;
    }
  }

  lemma StepMixed(a: real, step: real, j: real, w: real)
    ensures ((a + step * j) * (100.0 - w) + (a + step * (j + 1.0)) * w) / 100.0 == a + step * ((100.0 * j + w) / 100.0)
  {
    var c := a + step * j;
    assert a + step * (j + 1.0) == c + step;
    assert c * (100.0 - w) == 100.0 * c - c * w;
    assert (c + step) * w == c * w + step * w;
    assert step * ((100.0 * j + w) / 100.0) == step * j + step * w / 100.0;
  }

  /** What the aggregate of some samples says: how many they are, their mean, their greatest, their percentile in order of
      size, and the mean of the utilizations that are stated. */
  predicate Says(g: Aggregate, day: seq<Sample>) {
    && g.samples == |day|
    && g.mean * |day| as real == Sum(Used(day))
    && g.peak in Used(day) && (forall x <- Used(day) :: x <= g.peak)
    && day != [] && g.p95 == Percentile95(Outliers.Ascending(Used(day)))
    && (g.utilization.None? <==> forall s <- day :: s.percent.None?)
    && (g.utilization.Some? ==> g.utilization.value * |Percents(day)| as real == Sum(Percents(day)))
  }

  lemma AggregateOfSays(samples: seq<Sample>, day: int, first: int)
    requires samples != []
    ensures Says(AggregateOf(samples, day, first), samples)
  {
    hide Sum, Percentile95, Percents, MaxOf, Outliers.Ascending, Mean;
    GreatestOf(Used(samples));
    PercentsOf(samples);
    MeanTimes(Used(samples));
    NoMean();
    if Percents(samples) != [] {
      MeanTimes(Percents(samples));
    }
  }

  lemma NoMean()
    ensures Mean([]) == None
  {
  }

  /** Every day's aggregate says this of exactly the samples between its midnights, at its distance from the first day. */
  lemma AggregateSays(aggregates: seq<Aggregate>, samples: seq<Sample>, tz: int, i: nat)
    requires IsDaily(aggregates, samples, tz) && i < |aggregates|
    ensures aggregates[i].offset == aggregates[i].day - aggregates[0].day
    ensures Says(aggregates[i], On(samples, aggregates[i].day, tz))
  {
    hide On, Says, Used, Percents, MaxOf, Percentile95, Mean, Outliers.Ascending;
    AggregateOfSays(On(samples, aggregates[i].day, tz), aggregates[i].day, aggregates[0].day);
  }

  lemma MeanTimes(v: seq<real>)
    requires v != []
    ensures Mean(v).Some? && Mean(v).value * |v| as real == Sum(v)
  {
    Quotient(Sum(v), |v| as real);
  }

  lemma {:induction false} PercentsOf(samples: seq<Sample>)
    ensures Percents(samples) == [] <==> forall s <- samples :: s.percent.None?
    ensures forall p :: p in Percents(samples) <==> exists s :: s in samples && s.percent == Some(p)
  {
    if samples != [] {
      PercentsOf(samples[1..]);
      assert samples == [samples[0]] + samples[1..];
    }
  }

  // ---- the line ----

  /** The squares of what a line misses, over the points not excluded. */
  function Misses(points: seq<Point>, excluded: seq<nat>, a: real, b: real, k: nat): real
    requires k <= |points|
    decreases |points| - k
  {
    if k == |points| then 0.0
    else
      (if k in excluded then 0.0 else Square(Error(points[k].offset as real, points[k].value, a, b)))
      + Misses(points, excluded, a, b, k + 1)
  }

  lemma OneMorePoint(p: Point, rest: seq<Point>, a: real, b: real)
    ensures Residual(Offsets([p] + rest), Values([p] + rest), a, b)
      == Square(Error(p.offset as real, p.value, a, b)) + Residual(Offsets(rest), Values(rest), a, b)
  {
    hide Square, Error;
    var all := [p] + rest;
    assert Offsets(all)[1..] == Offsets(rest) && Values(all)[1..] == Values(rest);
  }

  lemma {:induction false} MissesAreResidual(points: seq<Point>, excluded: seq<nat>, a: real, b: real, k: nat)
    requires k <= |points|
    ensures var kept := Without(points, excluded, k);
      Residual(Offsets(kept), Values(kept), a, b) == Misses(points, excluded, a, b, k)
    decreases |points| - k
  {
    hide Square, Residual, Error;
    if k < |points| {
      MissesAreResidual(points, excluded, a, b, k + 1);
      var rest := Without(points, excluded, k + 1);
      if k !in excluded {
        OneMorePoint(points[k], rest, a, b);
        assert Without(points, excluded, k) == [points[k]] + rest;
      } else {
        assert Without(points, excluded, k) == rest;
      }
    } else {
      NoMisses(a, b);
    }
  }

  lemma NoMisses(a: real, b: real)
    ensures Residual(Offsets([]), Values([]), a, b) == 0.0
  {
  }

  lemma {:induction false} NoneWithout(points: seq<Point>, k: nat)
    requires k <= |points|
    ensures Without(points, [], k) == points[k..]
    decreases |points| - k
  {
    if k < |points| {
      NoneWithout(points, k + 1);
    }
  }

  /** A trend leaves out the outliers, unless that would leave fewer than two points, and is the fit of the others. */
  lemma TrendIsAFit(points: seq<Point>, exclude: bool, threshold: real)
    requires FitTrend(points, exclude, threshold).Trend?
    ensures var r := FitTrend(points, exclude, threshold);
      var out := if exclude then Outliers.RobustOutliers(Values(points), threshold) else [];
      var kept := Without(points, r.excluded, 0);
      && |points| >= 2
      && r.fell == (|Without(points, out, 0)| < 2)
      && r.excluded == (if r.fell then [] else out)
      && OlsFit(Offsets(kept), Values(kept)) == Fitted(r.fit) && r.classification == Classify(r.fit, Values(kept))
      && r.fit.n == |kept| >= 2
  {
    hide Classify, Sum, SumSquares, SumProducts, Residual, Outliers.RobustOutliers, Without;
    NoneWithout(points, 0);
    var r := FitTrend(points, exclude, threshold);
    FitFacts(Offsets(Without(points, r.excluded, 0)), Values(Without(points, r.excluded, 0)));
  }

  /** No line misses the points that are not excluded by less, and only the trend's own by as little. */
  lemma TrendIsLeastSquares(points: seq<Point>, exclude: bool, threshold: real, a: real, b: real)
    requires FitTrend(points, exclude, threshold).Trend?
    ensures var r := FitTrend(points, exclude, threshold);
      && Misses(points, r.excluded, r.fit.intercept, r.fit.slope, 0) <= Misses(points, r.excluded, a, b, 0)
      && (Misses(points, r.excluded, a, b, 0) == Misses(points, r.excluded, r.fit.intercept, r.fit.slope, 0) <==>
            a == r.fit.intercept && b == r.fit.slope)
  {
    hide FitTrend, OlsFit, Without, Misses, Residual;
    TrendIsAFit(points, exclude, threshold);
    var r := FitTrend(points, exclude, threshold);
    var kept := Without(points, r.excluded, 0);
    MissesAreResidual(points, r.excluded, a, b, 0);
    MissesAreResidual(points, r.excluded, r.fit.intercept, r.fit.slope, 0);
    FitIsLeastSquares(Offsets(kept), Values(kept), a, b);
    FitFacts(Offsets(kept), Values(kept));
  }

  // ---- the classification ----

  /** The slope is more than twice its standard error, both squared: the squared error is the residual per degree of
      freedom over the spread of the offsets. */
  predicate Significant(f: Fit) {
    f.n > 2 && f.slope * f.slope * f.sxx * (f.n - 2) as real > 4.0 * f.ssRes
  }

  lemma VarianceFacts(xs: seq<real>, ys: seq<real>)
    requires OlsFit(xs, ys).Fitted?
    ensures var f := OlsFit(xs, ys).fit;
      && f.sxx > 0.0
      && (f.n == 2 ==> f.slopeVariance == None && f.residualVariance == 0.0)
      && (f.n > 2 ==> f.slopeVariance.Some? && f.residualVariance * (f.n - 2) as real == f.ssRes
                      && f.slopeVariance.value * f.sxx == f.residualVariance)
  {
    hide Sum, SumSquares, SumProducts, Residual;
    var f := OlsFit(xs, ys).fit;
    FitFacts(xs, ys);
    SquaresNonNegative(xs, f.xMean);
    if f.n > 2 {
      Quotient(f.ssRes, (f.n - 2) as real);
      Quotient(f.residualVariance, f.sxx);
    }
  }

  lemma SignificantMeans(f: Fit)
    requires f.n > 2 && f.sxx > 0.0 && f.slopeVariance.Some?
    requires f.residualVariance * (f.n - 2) as real == f.ssRes && f.slopeVariance.value * f.sxx == f.residualVariance
    ensures Square(f.slope) > 4.0 * f.slopeVariance.value <==> Significant(f)
  {
    var m, v, q := (f.n - 2) as real, f.slopeVariance.value, f.slope * f.slope;
    ScaledOrder(q, 4.0 * v, f.sxx * m);
    assert 4.0 * v * (f.sxx * m) == 4.0 * (v * f.sxx * m);
    assert q * (f.sxx * m) == q * f.sxx * m;
  }

  lemma ScaledOrder(a: real, b: real, w: real)
    ensures w > 0.0 ==> (a > b <==> a * w > b * w)
  {
  }

  /** The spread of the values beyond which a flat line reads as noise: no two of them differ by so much that 0.15 times the
      difference reaches the residual deviation. */
  predicate Noisy(f: Fit, ys: seq<real>) {
    && (exists y <- ys, z <- ys :: y != z)
    && forall y <- ys, z <- ys :: f.residualVariance > Spread(y, z)
  }

  function Spread(y: real, z: real): real {
    (0.15 * (y - z)) * (0.15 * (y - z))
  }

  lemma NoisyMeans(f: Fit, ys: seq<real>)
    requires ys != []
    ensures var range := MaxOf(ys) - MinOf(ys);
      range > 0.0 && f.residualVariance > Square(VOLATILITY_RATIO * range) <==> Noisy(f, ys)
  {
    hide MaxOf, MinOf, Square;
    GreatestOf(ys);
    LeastOf(ys);
    var hi, lo := MaxOf(ys), MinOf(ys);
    forall y, z | y in ys && z in ys
      ensures Spread(y, z) <= Spread(hi, lo) && (y != z ==> hi > lo)
    {
      SquareGrows(0.15 * (y - z), 0.15 * (hi - lo));
    }
    SpreadIsSquare(hi, lo);
  }

  lemma SpreadIsSquare(hi: real, lo: real)
    ensures Square(VOLATILITY_RATIO * (hi - lo)) == Spread(hi, lo)
  {
  }

  lemma SquareGrows(a: real, b: real)
    requires -b <= a <= b
    ensures a * a <= b * b
  {
    assert (b - a) * (b + a) >= 0.0;
    assert (b - a) * (b + a) == b * b - a * a;
  }

  /** How a trend is classified: two points by the sign of the slope; more by its sign if it is significant, and otherwise as
      volatile or stable by the noise. */
  lemma TrendClassified(points: seq<Point>, exclude: bool, threshold: real)
    requires FitTrend(points, exclude, threshold).Trend?
    ensures var r := FitTrend(points, exclude, threshold);
      var ys := Values(Without(points, r.excluded, 0));
      && (r.classification == Increasing <==>
            if r.fit.n == 2 then r.fit.slope > 0.000_000_000_001 else Significant(r.fit) && r.fit.slope > 0.0)
      && (r.classification == Decreasing <==>
            if r.fit.n == 2 then r.fit.slope < -0.000_000_000_001 else Significant(r.fit) && r.fit.slope < 0.0)
      && (r.classification == Volatile <==> r.fit.n > 2 && !Significant(r.fit) && Noisy(r.fit, ys))
      && r.classification != Unknown
  {
    hide FitTrend, OlsFit, Without, MaxOf, MinOf, Significant, Noisy;
    TrendIsAFit(points, exclude, threshold);
    var r := FitTrend(points, exclude, threshold);
    var kept := Without(points, r.excluded, 0);
    VarianceFacts(Offsets(kept), Values(kept));
    NoisyMeans(r.fit, Values(kept));
    if r.fit.n > 2 {
      SignificantMeans(r.fit);
      FlatIsNotSignificant(Offsets(kept), Values(kept));
    }
  }

  lemma FlatIsNotSignificant(xs: seq<real>, ys: seq<real>)
    requires OlsFit(xs, ys).Fitted?
    ensures Significant(OlsFit(xs, ys).fit) ==> OlsFit(xs, ys).fit.slope != 0.0
  {
    hide Sum, SumSquares, SumProducts, Residual, OlsFit;
    FitFacts(xs, ys);
    ResidualNonNegative(xs, ys, OlsFit(xs, ys).fit.intercept, OlsFit(xs, ys).fit.slope);
  }
}
