/** Daily aggregation of a series and the trend fitted over it. */
module Trend {
  import opened Options
  import opened Regression
  import opened Numbers
  import Outliers
  import Sorting

  // ---- daily aggregates ----

  datatype Sample = Sample(time: int, used: real, percent: Option<real>)

  datatype Aggregate = Aggregate(
    day: int, offset: int, mean: real, p95: real, peak: real, utilization: Option<real>, samples: nat)

  const MICROS_PER_DAY := 86_400_000_000
  const MICROS_PER_MINUTE := 60_000_000

  /** The calendar day of a sample in the configured timezone. */
  function DayOf(s: Sample, tzMinutes: int): int {
    (s.time + tzMinutes * MICROS_PER_MINUTE) / MICROS_PER_DAY
  }

  /** The samples of a day, in their order. */
  function On(samples: seq<Sample>, day: int, tz: int): seq<Sample> {
    if samples == [] then []
    else if DayOf(samples[|samples| - 1], tz) == day
    then On(samples[..|samples| - 1], day, tz) + [samples[|samples| - 1]]
    else On(samples[..|samples| - 1], day, tz)
  }

  function Used(samples: seq<Sample>): seq<real> {
    seq(|samples|, i requires 0 <= i < |samples| => samples[i].used)
  }

  function Percents(samples: seq<Sample>): seq<real> {
    if samples == [] then []
    else (match samples[0].percent case Some(p) => [p] case None => []) + Percents(samples[1..])
  }

  function Mean(values: seq<real>): Option<real> {
    if values == [] then None else Some(Sum(values) / |values| as real)
  }

  ghost function Days(samples: seq<Sample>, tz: int): set<int> {
    set s | s in samples :: DayOf(s, tz)
  }

  function MaxOf(v: seq<real>): real
    requires v != []
  {
    if |v| == 1 then v[0] else Max(v[0], MaxOf(v[1..]))
  }

  /** `statistics.quantiles(n=100, method="inclusive")[94]` of sorted data. */
  function Percentile95(sorted: seq<real>): real
    requires sorted != []
  {
    if |sorted| == 1 then sorted[0]
    else
      var m := |sorted| - 1;
      var j, delta := 95 * m / 100, 95 * m % 100;
      (sorted[j] * (100 - delta) as real + sorted[j + 1] * delta as real) / 100.0
  }

  function AggregateOf(samples: seq<Sample>, day: int, first: int): Aggregate
    requires samples != []
  {
    var used := Used(samples);
    Aggregate(day, day - first, Mean(used).value, Percentile95(Outliers.Ascending(used)), MaxOf(used),
              Mean(Percents(samples)), |samples|)
  }

  /** One aggregate a day, in order: what `aggregate_daily` promises about its result. */
  ghost predicate IsDaily(aggregates: seq<Aggregate>, samples: seq<Sample>, tz: int) {
    && (forall i, j :: 0 <= i < j < |aggregates| ==> aggregates[i].day < aggregates[j].day)
    && (set a | a in aggregates :: a.day) == Days(samples, tz)
    && forall i :: 0 <= i < |aggregates| ==>
         && On(samples, aggregates[i].day, tz) != []
         && aggregates[i] == AggregateOf(On(samples, aggregates[i].day, tz), aggregates[i].day, aggregates[0].day)
  }

  predicate InOrder(s: seq<int>) {
    forall i, j :: 0 <= i < j < |s| ==> s[i] < s[j]
  }

  function SortedDays(days: seq<int>): seq<int> {
    Sorting.Sort((a: int, b: int) => a < b, days)
  }

  lemma DaysInOrder(days: seq<int>)
    requires forall i, j :: 0 <= i < j < |days| ==> days[i] != days[j]
    ensures InOrder(SortedDays(days)) && forall d :: d in SortedDays(days) <==> d in days
  {
    var below := (a: int, b: int) => a < b;
    var sorted := SortedDays(days);
    Sorting.SortSorts(below, days);
    Sorting.SortKeepsElements(below, days);
    forall i, j | 0 <= i < j < |sorted|
      ensures sorted[i] < sorted[j]
    {
      assert !below(sorted[j], sorted[i]);
      if sorted[i] == sorted[j] {
        Twice(sorted, i, j);
        Once(days, sorted[i]);
      }
    }
  }

  lemma Twice(s: seq<int>, i: nat, j: nat)
    requires i < j < |s| && s[i] == s[j]
    ensures multiset(s)[s[i]] >= 2
  {
    assert s == s[..j] + [s[j]] + s[j + 1..];
    assert s[..j][i] == s[i];
    assert s[i] in multiset(s[..j]);
  }

  lemma Once(s: seq<int>, d: int)
    requires forall i, j :: 0 <= i < j < |s| ==> s[i] != s[j]
    ensures multiset(s)[d] <= 1
  {
    if d in multiset(s) {
      var k :| 0 <= k < |s| && s[k] == d;
      assert s == s[..k] + [s[k]] + s[k + 1..];
      assert d !in multiset(s[..k]) && d !in multiset(s[k + 1..]);
    }
  }

  lemma {:induction false} OnEmpty(samples: seq<Sample>, day: int, tz: int)
    ensures On(samples, day, tz) == [] <==> day !in Days(samples, tz)
  {
    if samples != [] {
      var init, last := samples[..|samples| - 1], samples[|samples| - 1];
      OnEmpty(init, day, tz);
      assert samples == init + [last];
      assert Days(samples, tz) == Days(init, tz) + {DayOf(last, tz)};
    }
  }

  method DailyBuckets(samples: seq<Sample>, tz: int) returns (buckets: map<int, seq<Sample>>, keys: seq<int>)
    ensures forall d :: d in keys <==> d in buckets
    ensures forall d :: d in buckets <==> On(samples, d, tz) != []
    ensures forall d <- buckets :: buckets[d] == On(samples, d, tz)
    ensures forall j, k :: 0 <= j < k < |keys| ==> keys[j] != keys[k]
  {
    buckets, keys := map[], [];
    for i := 0 to |samples|
      invariant forall d :: d in buckets <==> On(samples[..i], d, tz) != []
      invariant forall d <- buckets :: buckets[d] == On(samples[..i], d, tz)
      invariant forall d :: d in keys <==> d in buckets
      invariant forall j, k :: 0 <= j < k < |keys| ==> keys[j] != keys[k]
    {
      var day := DayOf(samples[i], tz);
      assert samples[..i + 1][..i] == samples[..i];
      if day !in buckets {
        assert forall k :: 0 <= k < |keys| ==> keys[k] in keys;
        keys := keys + [day];
      }
      buckets := buckets[day := (if day in buckets then buckets[day] else []) + [samples[i]]];
    }
    assert samples[..|samples|] == samples;
  }

  /** `aggregate_daily`: bucket the samples by day, then one aggregate for each day in order. */
  method AggregateDaily(samples: seq<Sample>, tz: int) returns (aggregates: seq<Aggregate>)
    ensures IsDaily(aggregates, samples, tz)
  {
    hide On, DayOf, Used, Percents, Mean, Outliers.Ascending, MaxOf, Percentile95, SortedDays;
    var buckets, keys := DailyBuckets(samples, tz);
    var days := SortedDays(keys);
    DaysInOrder(keys);
    forall d: int
      ensures d in days <==> d in Days(samples, tz)
    {
      OnEmpty(samples, d, tz);
    }
    aggregates := [];
    for i := 0 to |days|
      invariant |aggregates| == i
      invariant forall k :: 0 <= k < i ==>
        (days[k] in buckets && buckets[days[k]] != [] && aggregates[k] == AggregateOf(buckets[days[k]], days[k], days[0]))
    {
      assert days[i] in days;
      aggregates := aggregates + [AggregateOf(buckets[days[i]], days[i], days[0])];
    }
    DaysOfAggregates(aggregates, days);
  }

  lemma DaysOfAggregates(aggregates: seq<Aggregate>, days: seq<int>)
    requires |aggregates| == |days| && forall k :: 0 <= k < |days| ==> aggregates[k].day == days[k]
    ensures (set a | a in aggregates :: a.day) == set d | d in days
  {
    forall d: int
      ensures d in (set a | a in aggregates :: a.day) <==> d in days
    {
      if d in days {
        var k :| 0 <= k < |days| && days[k] == d;
        assert aggregates[k] in aggregates;
      }
    }
  }

  // ---- what daily aggregates satisfy ----

  /** The x-axis of the regression: strictly increasing whole days from zero. */
  lemma OffsetsIncrease(aggregates: seq<Aggregate>, samples: seq<Sample>, tz: int)
    requires IsDaily(aggregates, samples, tz)
    ensures aggregates != [] ==> aggregates[0].offset == 0
    ensures forall i, j :: 0 <= i < j < |aggregates| ==> aggregates[i].offset < aggregates[j].offset
  {
  }

  function CountSamples(aggregates: seq<Aggregate>): nat {
    if aggregates == [] then 0 else aggregates[0].samples + CountSamples(aggregates[1..])
  }

  function CountOn(samples: seq<Sample>, days: set<int>, tz: int): nat {
    if samples == [] then 0
    else CountOn(samples[..|samples| - 1], days, tz) + (if DayOf(samples[|samples| - 1], tz) in days then 1 else 0)
  }

  lemma {:induction false} CountOnSplit(samples: seq<Sample>, days: set<int>, d: int, tz: int)
    requires d !in days
    ensures CountOn(samples, days + {d}, tz) == CountOn(samples, days, tz) + |On(samples, d, tz)|
  {
    if samples != [] {
      CountOnSplit(samples[..|samples| - 1], days, d, tz);
    }
  }

  lemma {:induction false} CountOnAll(samples: seq<Sample>, days: set<int>, tz: int)
    requires Days(samples, tz) <= days
    ensures CountOn(samples, days, tz) == |samples|
  {
    if samples != [] {
      var init, last := samples[..|samples| - 1], samples[|samples| - 1];
      assert last in samples && forall s <- init :: s in samples;
      assert DayOf(last, tz) in Days(samples, tz);
      CountOnAll(init, days, tz);
    }
  }

  lemma {:induction false} CountOnNone(samples: seq<Sample>, tz: int)
    ensures CountOn(samples, {}, tz) == 0
  {
    if samples != [] {
      CountOnNone(samples[..|samples| - 1], tz);
    }
  }

  lemma {:induction false} CountTail(aggregates: seq<Aggregate>, samples: seq<Sample>, tz: int)
    requires forall i, j :: 0 <= i < j < |aggregates| ==> aggregates[i].day < aggregates[j].day
    requires forall i :: 0 <= i < |aggregates| ==> aggregates[i].samples == |On(samples, aggregates[i].day, tz)|
    ensures CountSamples(aggregates) == CountOn(samples, set a | a in aggregates :: a.day, tz)
  {
    if aggregates == [] {
      CountOnNone(samples, tz);
      assert (set a | a in aggregates :: a.day) == {};
    } else {
      var head, rest := aggregates[0], aggregates[1..];
      CountTail(rest, samples, tz);
      var days := set a | a in rest :: a.day;
      assert aggregates == [head] + rest;
      assert (set a | a in aggregates :: a.day) == days + {head.day};
      CountOnSplit(samples, days, head.day, tz);
    }
  }

  /** Every sample is counted in exactly one day. */
  lemma EverySampleCounted(aggregates: seq<Aggregate>, samples: seq<Sample>, tz: int)
    requires IsDaily(aggregates, samples, tz)
    ensures CountSamples(aggregates) == |samples|
  {
    CountTail(aggregates, samples, tz);
    CountOnAll(samples, Days(samples, tz), tz);
  }

  // ---- the trend ----

  datatype Point = Point(offset: int, value: real)

  datatype Classification = Increasing | Decreasing | Stable | Volatile | Unknown

  /** `fell` says that the fit fell back to the full series. */
  datatype TrendResult =
    | NoTrend(n: nat)
    | Trend(classification: Classification, fit: Fit, excluded: seq<nat>, fell: bool)
    | FitFailed

  function Values(points: seq<Point>): seq<real> {
    seq(|points|, i requires 0 <= i < |points| => points[i].value)
  }

  function Offsets(points: seq<Point>): seq<real> {
    seq(|points|, i requires 0 <= i < |points| => points[i].offset as real)
  }

  /** The points whose index is not listed. */
  function Without(points: seq<Point>, out: seq<nat>, k: nat): seq<Point>
    requires k <= |points|
    decreases |points| - k
  {
    if k == |points| then []
    else if k in out then Without(points, out, k + 1)
    else [points[k]] + Without(points, out, k + 1)
  }

  function MinOf(v: seq<real>): real
    requires v != []
  {
    if |v| == 1 then v[0] else var m := MinOf(v[1..]); if v[0] <= m then v[0] else m
  }

  const EPSILON := 0.000_000_000_001
  const VOLATILITY_RATIO := 0.15

  /** Comparisons with the standard error and the residual deviation, squared on both sides. */
  function Classify(f: Fit, ys: seq<real>): Classification
    requires ys != []
  {
    if f.n == 2 then
      if f.slope > EPSILON then Increasing else if f.slope < -EPSILON then Decreasing else Stable
    else
      var variance := if f.slopeVariance.Some? then f.slopeVariance.value else 0.0;
      if Square(f.slope) > 4.0 * variance then (if f.slope > 0.0 then Increasing else Decreasing)
      else
        var range := MaxOf(ys) - MinOf(ys);
        if range > 0.0 && f.residualVariance > Square(VOLATILITY_RATIO * range) then Volatile else Stable
  }

  function FitTrend(points: seq<Point>, exclude: bool, threshold: real): TrendResult {
    if |points| < 2 then NoTrend(|points|)
    else
      var out := if exclude then Outliers.RobustOutliers(Values(points), threshold) else [];
      var kept := Without(points, out, 0);
      var fell := |kept| < 2;
      var used := if fell then points else kept;
      var r := OlsFit(Offsets(used), Values(used));
      if !r.Fitted? then FitFailed
      else Trend(Classify(r.fit, Values(used)), r.fit, if fell then [] else out, fell)
  }

  predicate OffsetsInOrder(points: seq<Point>) {
    forall i, j :: 0 <= i < j < |points| ==> points[i].offset < points[j].offset
  }

  lemma {:induction false} WithoutKeepsOrder(points: seq<Point>, out: seq<nat>, k: nat)
    requires OffsetsInOrder(points) && k <= |points|
    ensures var r := Without(points, out, k);
      OffsetsInOrder(r) && (k < |points| ==> forall i :: 0 <= i < |r| ==> points[k].offset <= r[i].offset)
    decreases |points| - k
  {
    if k < |points| {
      WithoutKeepsOrder(points, out, k + 1);
      var rest := Without(points, out, k + 1);
      assert Without(points, out, k) == if k in out then rest else [points[k]] + rest;
    }
  }

  ghost function ListedFrom(out: seq<nat>, k: nat, n: nat): set<nat> {
    set i | i in out && k <= i < n
  }

  lemma {:induction false} WithoutCount(points: seq<Point>, out: seq<nat>, k: nat)
    requires k <= |points|
    ensures |Without(points, out, k)| + |ListedFrom(out, k, |points|)| == |points| - k
    decreases |points| - k
  {
    var now := ListedFrom(out, k, |points|);
    if k == |points| {
      assert now == {};
    } else {
      WithoutCount(points, out, k + 1);
      var next := ListedFrom(out, k + 1, |points|);
      assert now == if k in out then next + {k} else next;
    }
  }

  lemma NothingListed(n: nat)
    ensures ListedFrom([], 0, n) == {}
  {
  }

  lemma ListedStep(out: seq<nat>, n: nat)
    requires out != []
    ensures var s, t := ListedFrom(out, 0, n), ListedFrom(out[1..], 0, n);
      s == if out[0] < n then t + {out[0]} else t
    ensures (forall i :: 0 < i < |out| ==> out[0] < out[i]) ==> out[0] !in ListedFrom(out[1..], 0, n)
  {
    assert out == [out[0]] + out[1..];
    assert forall i :: 0 < i < |out| ==> out[i] == out[1..][i - 1];
  }

  lemma {:induction false} ListedCount(out: seq<nat>, n: nat)
    ensures |ListedFrom(out, 0, n)| <= |out|
    ensures (forall i, j :: 0 <= i < j < |out| ==> out[i] < out[j]) && (forall i :: 0 <= i < |out| ==> out[i] < n) ==>
      |ListedFrom(out, 0, n)| == |out|
  {
    hide ListedFrom;
    if out == [] {
      NothingListed(n);
    } else {
      ListedCount(out[1..], n);
      ListedStep(out, n);
      assert forall i :: 0 < i < |out| ==> out[i] == out[1..][i - 1];
    }
  }

  lemma KeptAtLeast(points: seq<Point>, out: seq<nat>)
    ensures |Without(points, out, 0)| + |out| >= |points|
  {
    WithoutCount(points, out, 0);
    ListedCount(out, |points|);
  }

  /** With the default exclusion the fallback to the full series never happens; below the factor it does. */
  lemma NoFallback(points: seq<Point>, exclude: bool, threshold: real)
    requires threshold >= Outliers.Z_FACTOR && |points| >= 2
    ensures FitTrend(points, exclude, threshold).Trend? ==>
      !FitTrend(points, exclude, threshold).fell
    ensures var out := if exclude then Outliers.RobustOutliers(Values(points), threshold) else [];
      |Without(points, out, 0)| >= 2
  {
    var out := if exclude then Outliers.RobustOutliers(Values(points), threshold) else [];
    Outliers.AtMostHalfFlagged(Values(points), threshold);
    KeptAtLeast(points, out);
  }

  /** On strictly increasing offsets the fit never fails, whatever the threshold. */
  lemma FitNeverFails(points: seq<Point>, exclude: bool, threshold: real)
    requires OffsetsInOrder(points)
    ensures !FitTrend(points, exclude, threshold).FitFailed?
  {
    hide OlsFit, Classify;
    if |points| >= 2 {
      var out := if exclude then Outliers.RobustOutliers(Values(points), threshold) else [];
      WithoutKeepsOrder(points, out, 0);
      var kept := Without(points, out, 0);
      var used := if |kept| < 2 then points else kept;
      assert Offsets(used)[0] < Offsets(used)[1];
      NoVarianceMeansOneX(Offsets(used), Values(used));
      FitOnlyRefuses(Offsets(used), Values(used));
    }
  }

  lemma FitOnlyRefuses(xs: seq<real>, ys: seq<real>)
    requires |xs| == |ys| >= 2
    ensures OlsFit(xs, ys).Fitted? || OlsFit(xs, ys).NoVarianceInX?
  {
  }

  /** A daily series always gets a trend: at least two days, and no failure. */
  lemma DailySeriesGetsATrend(aggregates: seq<Aggregate>, samples: seq<Sample>, tz: int, threshold: real)
    requires IsDaily(aggregates, samples, tz) && |aggregates| >= 2 && threshold >= Outliers.Z_FACTOR
    ensures var points := seq(|aggregates|, i requires 0 <= i < |aggregates| => Point(aggregates[i].offset, aggregates[i].mean));
      var r := FitTrend(points, true, threshold);
      r.Trend? && !r.fell && 2 * |r.excluded| <= |aggregates|
  {
    hide OlsFit, Classify;
    var points := seq(|aggregates|, i requires 0 <= i < |aggregates| => Point(aggregates[i].offset, aggregates[i].mean));
    OffsetsIncrease(aggregates, samples, tz);
    FitNeverFails(points, true, threshold);
    NoFallback(points, true, threshold);
    Outliers.AtMostHalfFlagged(Values(points), threshold);
  }

  ghost predicate NeverFallsBack(threshold: real) {
    forall points: seq<Point> :: OffsetsInOrder(points) && FitTrend(points, true, threshold).Trend? ==>
      !FitTrend(points, true, threshold).fell
  }

  const SPREAD_POINTS: seq<Point> :=
    [Point(0, -1.0), Point(1, -1.0), Point(2, -1.0), Point(3, 0.0), Point(4, 1.0), Point(5, 1.0), Point(6, 1.0)]

  lemma SpreadFallsBack(threshold: real)
    requires threshold < Outliers.Z_FACTOR
    ensures FitTrend(SPREAD_POINTS, true, threshold).Trend? && FitTrend(SPREAD_POINTS, true, threshold).fell
  {
    hide OlsFit, Classify, Outliers.RobustOutliers, Without;
    FitNeverFails(SPREAD_POINTS, true, threshold);
    assert Values(SPREAD_POINTS) == Outliers.SPREAD;
    var out := Outliers.RobustOutliers(Outliers.SPREAD, threshold);
    Outliers.MostFlagged(threshold);
    Outliers.OutlierIndices(Outliers.SPREAD, threshold);
    WithoutCount(SPREAD_POINTS, out, 0);
    ListedCount(out, |SPREAD_POINTS|);
  }

  lemma TrendHasTwo(points: seq<Point>, threshold: real)
    requires FitTrend(points, true, threshold).Trend?
    ensures |points| >= 2
  {
  }

  /** The fallback is unreachable if and only if the threshold is at least 0.6745. */
  lemma FallbackIffThreshold(threshold: real)
    ensures NeverFallsBack(threshold) <==> threshold >= Outliers.Z_FACTOR
  {
    hide FitTrend;
    if threshold >= Outliers.Z_FACTOR {
      forall points: seq<Point> | FitTrend(points, true, threshold).Trend?
        ensures !FitTrend(points, true, threshold).fell
      {
        TrendHasTwo(points, threshold);
        NoFallback(points, true, threshold);
      }
    } else {
      SpreadFallsBack(threshold);
      assert OffsetsInOrder(SPREAD_POINTS);
    }
  }
}
