/** The modified z-score rule: deviations from the median, scaled by their own median. */
module Outliers {
  import Sorting

  predicate Sorted(s: seq<real>) {
    forall i, j :: 0 <= i < j < |s| ==> s[i] <= s[j]
  }

  function Ascending(s: seq<real>): (r: seq<real>)
    ensures Sorted(r) && |r| == |s| && multiset(r) == multiset(s)
  {
    SortAscends(s);
    Sorting.Sort((a: real, b: real) => a < b, s)
  }

  lemma SortAscends(s: seq<real>)
    ensures var r := Sorting.Sort((a: real, b: real) => a < b, s);
      Sorted(r) && |r| == |s| && multiset(r) == multiset(s)
  {
    var below := (a: real, b: real) => a < b;
    Sorting.SortSorts(below, s);
    var r := Sorting.Sort(below, s);
    assert |multiset(r)| == |multiset(s)|;
    assert forall i, j :: 0 <= i < j < |r| ==> !below(r[j], r[i]);
  }

  lemma MultisetTail(s: seq<real>)
    requires s != []
    ensures multiset(s[1..]) == multiset(s) - multiset{s[0]} && s[0] in multiset(s)
  {
    assert s == [s[0]] + s[1..];
  }

  lemma LeastFirst(d: seq<real>, e: seq<real>)
    requires Sorted(d) && d != [] && e != [] && multiset(d) == multiset(e)
    ensures d[0] <= e[0]
  {
    assert e[0] in multiset(d);
  }

  /** A sorted sequence is the only one with its elements. */
  lemma {:induction false} SortedUnique(d: seq<real>, e: seq<real>)
    requires Sorted(d) && Sorted(e) && multiset(d) == multiset(e)
    ensures d == e
  {
    assert |multiset(d)| == |multiset(e)|;
    if d != [] {
      LeastFirst(d, e);
      LeastFirst(e, d);
      MultisetTail(d);
      MultisetTail(e);
      SortedUnique(d[1..], e[1..]);
      assert d == [d[0]] + d[1..] && e == [e[0]] + e[1..];
    }
  }

  function Median(s: seq<real>): real
    requires s != []
  {
    var d, n := Ascending(s), |s|;
    if n % 2 == 1 then d[n / 2] else (d[n / 2 - 1] + d[n / 2]) / 2.0
  }

  function Negated(s: seq<real>): (r: seq<real>)
    ensures |r| == |s|
  {
    seq(|s|, i requires 0 <= i < |s| => -s[i])
  }

  function Backwards(s: seq<real>): (r: seq<real>)
    ensures |r| == |s| && forall i :: 0 <= i < |s| ==> r[i] == s[|s| - 1 - i]
  {
    seq(|s|, i requires 0 <= i < |s| => s[|s| - 1 - i])
  }

  lemma {:induction false} BackwardsPermutes(s: seq<real>)
    ensures multiset(Backwards(s)) == multiset(s)
  {
    if s != [] {
      var n := |s| - 1;
      BackwardsPermutes(s[..n]);
      assert Backwards(s) == [s[n]] + Backwards(s[..n]);
      assert s == s[..n] + [s[n]];
    }
  }

  lemma {:induction false} NegatedPermutes(a: seq<real>, b: seq<real>)
    requires multiset(a) == multiset(b)
    ensures multiset(Negated(a)) == multiset(Negated(b))
  {
    hide Negated;
    if a == [] {
      assert |multiset(b)| == 0;
    } else {
      MultisetTail(a);
      var k :| 0 <= k < |b| && b[k] == a[0];
      var (front, back) := (b[..k], b[k + 1..]);
      assert b == front + ([b[k]] + back);
      assert multiset(a[1..]) == multiset(front + back);
      NegatedPermutes(a[1..], front + back);
      assert a == [a[0]] + a[1..];
      NegatedInParts([a[0]], a[1..]);
      NegatedInParts(front, back);
      NegatedInParts(front, [b[k]] + back);
      NegatedInParts([b[k]], back);
    }
  }

  lemma NegatedInParts(a: seq<real>, b: seq<real>)
    ensures Negated(a + b) == Negated(a) + Negated(b)
  {
  }

  /** Turning the values round turns the median round: it lies as far from either end. */
  lemma MedianTurned(s: seq<real>)
    requires s != []
    ensures Median(Negated(s)) == -Median(s)
  {
    hide Ascending, Negated, Backwards;
    var d := Ascending(s);
    NegatedPermutes(s, d);
    BackwardsPermutes(Negated(d));
    TurnedIsSorted(d);
    SortedUnique(Ascending(Negated(s)), Backwards(Negated(d)));
    NegatedAt(d);
  }

  lemma NegatedAt(d: seq<real>)
    ensures forall i :: 0 <= i < |d| ==> Negated(d)[i] == -d[i]
  {
  }

  lemma TurnedIsSorted(d: seq<real>)
    requires Sorted(d)
    ensures Sorted(Backwards(Negated(d)))
  {
  }

  /** The median of two values is half way between them. */
  lemma MedianOfTwo(a: real, b: real)
    ensures Median([a, b]) == (a + b) / 2.0
  {
    var d := Ascending([a, b]);
    assert d[0] in multiset([a, b]) && d[1] in multiset([a, b]);
    assert d == [d[0], d[1]] && multiset(d) == multiset{d[0], d[1]};
  }

  // ---- how many values lie above the median ----

  function CountAbove(s: seq<real>, m: real): nat {
    if s == [] then 0 else (if s[0] > m then 1 else 0) + CountAbove(s[1..], m)
  }

  lemma {:induction false} CountPermuted(a: seq<real>, b: seq<real>, m: real)
    requires multiset(a) == multiset(b)
    ensures CountAbove(a, m) == CountAbove(b, m)
  {
    if a == [] {
      assert |multiset(b)| == 0;
    } else {
      MultisetTail(a);
      var k :| 0 <= k < |b| && b[k] == a[0];
      var (front, back) := (b[..k], b[k + 1..]);
      assert b == front + ([b[k]] + back);
      assert multiset(a[1..]) == multiset(front + back);
      CountPermuted(a[1..], front + back, m);
      CountConcat(front, [b[k]] + back, m);
      CountConcat(front, back, m);
    }
  }

  lemma {:induction false} CountAtMostRest(s: seq<real>, m: real, k: nat)
    requires k <= |s| && forall i :: 0 <= i < k ==> s[i] <= m
    ensures CountAbove(s, m) <= |s| - k
  {
    if s != [] {
      CountAtMostRest(s[1..], m, if k > 0 then k - 1 else 0);
    }
  }

  /** At most half of the values lie above the median. */
  lemma HalfAboveMedian(s: seq<real>)
    requires s != []
    ensures 2 * CountAbove(s, Median(s)) <= |s|
  {
    hide Ascending, CountAbove;
    var d, n, m := Ascending(s), |s|, Median(s);
    CountPermuted(d, s, m);
    if n % 2 == 1 {
      CountAtMostRest(d, m, n / 2 + 1);
    } else {
      assert d[n / 2 - 1] <= d[n / 2];
      CountAtMostRest(d, m, n / 2);
    }
  }

  // ---- the rule ----

  function Abs(x: real): real {
    if x < 0.0 then -x else x
  }

  function Deviations(values: seq<real>, centre: real): (d: seq<real>)
    ensures |d| == |values| && forall i :: 0 <= i < |d| ==> d[i] == Abs(values[i] - centre)
  {
    seq(|values|, i requires 0 <= i < |values| => Abs(values[i] - centre))
  }

  function Sum(s: seq<real>): real {
    if s == [] then 0.0 else s[0] + Sum(s[1..])
  }

  const Z_FACTOR := 0.6745

  /** The scale of the deviations: their median, or their mean when the median is zero. */
  function Scale(devs: seq<real>): real
    requires devs != []
  {
    if Median(devs) == 0.0 then Sum(devs) / |devs| as real else Median(devs)
  }

  /** The modified z-score passes the threshold. */
  predicate Far(d: real, scale: real, threshold: real)
    requires scale != 0.0
  {
    Z_FACTOR * d / scale > threshold
  }

  /** The flagged indices from `k` on, in order. */
  function FlaggedFrom(devs: seq<real>, scale: real, threshold: real, k: nat): seq<nat>
    requires scale != 0.0 && k <= |devs|
    decreases |devs| - k
  {
    if k == |devs| then []
    else if Far(devs[k], scale, threshold) then [k] + FlaggedFrom(devs, scale, threshold, k + 1)
    else FlaggedFrom(devs, scale, threshold, k + 1)
  }

  lemma {:induction false} FlaggedExactly(devs: seq<real>, scale: real, threshold: real, k: nat)
    requires scale != 0.0 && k <= |devs|
    ensures var r := FlaggedFrom(devs, scale, threshold, k);
      && (forall i :: i in r <==> k <= i < |devs| && Far(devs[i], scale, threshold))
      && (forall i, j :: 0 <= i < j < |r| ==> r[i] < r[j])
    decreases |devs| - k
  {
    hide Far;
    if k < |devs| {
      FlaggedExactly(devs, scale, threshold, k + 1);
      var rest := FlaggedFrom(devs, scale, threshold, k + 1);
      assert forall i :: 0 <= i < |rest| ==> rest[i] in rest;
      assert forall i :: i in [k] + rest <==> i == k || i in rest;
    }
  }

  function RobustOutliers(values: seq<real>, threshold: real): seq<nat> {
    if |values| < 4 then []
    else
      var devs := Deviations(values, Median(values));
      if Scale(devs) == 0.0 then [] else FlaggedFrom(devs, Scale(devs), threshold, 0)
  }

  /** Which values are outliers: of at least four, those whose distance from the median, times 0.6745, exceeds the threshold
      times the median of these distances, or their mean where that median is zero; none where that is zero too. */
  lemma OutliersExactly(values: seq<real>, threshold: real, i: nat)
    ensures i in RobustOutliers(values, threshold) <==>
      && |values| >= 4 && i < |values|
      && var devs := Deviations(values, Median(values));
      var scale := if Median(devs) != 0.0 then Median(devs) else Sum(devs) / |devs| as real;
      scale > 0.0 && 0.6745 * Abs(values[i] - Median(values)) > threshold * scale
  {
    hide Median, Sum;
    if |values| >= 4 {
      var devs := Deviations(values, Median(values));
      MedianNonNegative(devs);
      SumNonNegative(devs);
      var scale := Scale(devs);
      assert Sum(devs) / |devs| as real >= 0.0;
      if scale != 0.0 {
        FlaggedExactly(devs, scale, threshold, 0);
        if i < |values| {
          FarMeans(devs[i], scale, threshold);
        }
      }
    }
  }

  lemma FarMeans(d: real, scale: real, threshold: real)
    requires scale > 0.0
    ensures Far(d, scale, threshold) <==> 0.6745 * d > threshold * scale
  {
    var q := Z_FACTOR * d / scale;
    assert q * scale == Z_FACTOR * d;
    assert q > threshold <==> q * scale > threshold * scale;
  }

  lemma OutlierIndices(values: seq<real>, threshold: real)
    ensures var r := RobustOutliers(values, threshold);
      && (forall i :: 0 <= i < |r| ==> r[i] < |values|)
      && (forall i, j :: 0 <= i < j < |r| ==> r[i] < r[j])
  {
    if |values| >= 4 {
      var devs := Deviations(values, Median(values));
      if Scale(devs) != 0.0 {
        FlaggedExactly(devs, Scale(devs), threshold, 0);
        var r := FlaggedFrom(devs, Scale(devs), threshold, 0);
        assert forall i :: 0 <= i < |r| ==> r[i] in r;
      }
    }
  }

  // ---- at most half are flagged, exactly for thresholds of at least the factor ----

  lemma {:induction false} FlaggedAreAbove(devs: seq<real>, scale: real, threshold: real, k: nat, bar: real)
    requires scale != 0.0 && k <= |devs|
    requires forall i :: 0 <= i < |devs| && Far(devs[i], scale, threshold) ==> devs[i] > bar
    ensures |FlaggedFrom(devs, scale, threshold, k)| <= CountAbove(devs[k..], bar)
    decreases |devs| - k
  {
    hide Far;
    if k < |devs| {
      FlaggedAreAbove(devs, scale, threshold, k + 1, bar);
      assert devs[k..][1..] == devs[k + 1..];
    }
  }

  lemma FarMeansAboveScale(d: real, scale: real, threshold: real)
    requires scale > 0.0 && threshold >= Z_FACTOR && Far(d, scale, threshold)
    ensures d > scale
  {
    assert Z_FACTOR * d == Z_FACTOR * d / scale * scale;
    assert Z_FACTOR * d / scale * scale > threshold * scale;
    assert threshold * scale >= Z_FACTOR * scale;
  }

  lemma {:induction false} SumNonNegative(s: seq<real>)
    requires forall i :: 0 <= i < |s| ==> s[i] >= 0.0
    ensures Sum(s) >= 0.0
  {
    if s != [] {
      SumNonNegative(s[1..]);
    }
  }

  lemma MedianNonNegative(s: seq<real>)
    requires s != [] && forall i :: 0 <= i < |s| ==> s[i] >= 0.0
    ensures Median(s) >= 0.0
  {
    hide Ascending;
    assert forall i :: 0 <= i < |s| ==> Ascending(s)[i] in multiset(s);
  }

  /** Both branches of the rule, the median scale and the mean scale, flag at most half. */
  lemma AtMostHalfFlagged(values: seq<real>, threshold: real)
    requires threshold >= Z_FACTOR
    ensures 2 * |RobustOutliers(values, threshold)| <= |values|
  {
    if |values| >= 4 {
      var devs := Deviations(values, Median(values));
      SumNonNegative(devs);
      MedianNonNegative(devs);
      HalfAboveMedian(devs);
      var scale := Scale(devs);
      assert scale >= Median(devs) by {
        assert Sum(devs) / |devs| as real >= 0.0;
      }
      if scale != 0.0 {
        forall i | 0 <= i < |devs| && Far(devs[i], scale, threshold)
          ensures devs[i] > Median(devs)
        {
          FarMeansAboveScale(devs[i], scale, threshold);
        }
        FlaggedAreAbove(devs, scale, threshold, 0, Median(devs));
        assert devs[0..] == devs;
      }
    }
  }

  const SPREAD: seq<real> := [-1.0, -1.0, -1.0, 0.0, 1.0, 1.0, 1.0]

  /** Under the factor the rule can flag six of seven values. */
  lemma MostFlagged(threshold: real)
    requires threshold < Z_FACTOR
    ensures |RobustOutliers(SPREAD, threshold)| >= 6
  {
    hide Ascending, Median, CountAbove, FlaggedFrom;
    MedianOfSpread();
    var devs := Deviations(SPREAD, Median(SPREAD));
    assert devs == SPREAD_DEVIATIONS;
    MedianOfDeviations();
    assert Scale(devs) == 1.0;
    forall i | 0 <= i < |devs| && devs[i] > 0.5
      ensures Far(devs[i], 1.0, threshold)
    {
    }
    AboveAreFlagged(devs, 1.0, threshold, 0, 0.5);
    assert devs[0..] == devs;
    SixOnes();
  }

  const SPREAD_DEVIATIONS: seq<real> := [1.0, 1.0, 1.0, 0.0, 1.0, 1.0, 1.0]

  lemma {:induction false} AboveAreFlagged(devs: seq<real>, scale: real, threshold: real, k: nat, bar: real)
    requires scale != 0.0 && k <= |devs|
    requires forall i :: 0 <= i < |devs| && devs[i] > bar ==> Far(devs[i], scale, threshold)
    ensures |FlaggedFrom(devs, scale, threshold, k)| >= CountAbove(devs[k..], bar)
    decreases |devs| - k
  {
    hide Far;
    if k < |devs| {
      AboveAreFlagged(devs, scale, threshold, k + 1, bar);
      assert devs[k..][1..] == devs[k + 1..];
    }
  }

  lemma SixOnes()
    ensures CountAbove(SPREAD_DEVIATIONS, 0.5) == 6
  {
    var three := [1.0, 1.0, 1.0];
    ThreeOnes();
    assert SPREAD_DEVIATIONS == three + ([0.0] + three);
    CountConcat(three, [0.0] + three, 0.5);
    assert ([0.0] + three)[1..] == three;
  }

  lemma ThreeOnes()
    ensures CountAbove([1.0, 1.0, 1.0], 0.5) == 3
  {
    assert [1.0, 1.0, 1.0][1..] == [1.0, 1.0] && [1.0, 1.0][1..] == [1.0] && [1.0][1..] == [];
    assert CountAbove([1.0], 0.5) == 1 && CountAbove([1.0, 1.0], 0.5) == 2;
  }

  lemma {:induction false} CountConcat(a: seq<real>, b: seq<real>, m: real)
    ensures CountAbove(a + b, m) == CountAbove(a, m) + CountAbove(b, m)
  {
    if a == [] {
      assert a + b == b;
    } else {
      CountConcat(a[1..], b, m);
      assert (a + b)[1..] == a[1..] + b;
    }
  }

  lemma MedianOfSpread()
    ensures Median(SPREAD) == 0.0
  {
    hide Ascending;
    SortedUnique(Ascending(SPREAD), SPREAD);
  }

  lemma MiddleOfSpread(d: seq<real>)
    requires Sorted(d) && |d| == 7 && multiset(d) == multiset(SPREAD_DEVIATIONS)
    ensures d[3] == 1.0
  {
    hide CountAbove;
    CountPermuted(d, SPREAD_DEVIATIONS, 0.5);
    SixOnes();
    if d[3] <= 0.5 {
      CountAtMostRest(d, 0.5, 4);
    }
    assert d[3] in multiset(d);
    FromSpread(d[3]);
  }

  lemma FromSpread(v: real)
    requires v in multiset(SPREAD_DEVIATIONS)
    ensures v == 0.0 || v == 1.0
  {
    assert v in SPREAD_DEVIATIONS;
  }

  lemma MedianOfDeviations()
    ensures Median(SPREAD_DEVIATIONS) == 1.0
  {
    hide Ascending;
    MiddleOfSpread(Ascending(SPREAD_DEVIATIONS));
  }

  ghost predicate NeverMoreThanHalf(threshold: real) {
    forall values: seq<real> :: 2 * |RobustOutliers(values, threshold)| <= |values|
  }

  /** The rule never flags more than half of any series if and only if the threshold is at least 0.6745. */
  lemma HalfIffThreshold(threshold: real)
    ensures NeverMoreThanHalf(threshold) <==> threshold >= Z_FACTOR
  {
    if threshold >= Z_FACTOR {
      forall values: seq<real>
        ensures 2 * |RobustOutliers(values, threshold)| <= |values|
      {
        AtMostHalfFlagged(values, threshold);
      }
    } else {
      MostFlagged(threshold);
      assert 2 * |RobustOutliers(SPREAD, threshold)| > |SPREAD|;
    }
  }
}
