/** Resize events in a capacity series, and the segment after the last one. */
module Segmentation {
  import opened Options
  import opened Normalization
  import opened Sorting
  import opened TextOrder
  import opened UtcText

  const EPSILON := 0.005

  datatype Event = Event(stamp: string, oldTotal: real, newTotal: real, evidence: string)

  /** Every sample has a valid time, as every normalized sample does. */
  predicate Timed(s: seq<Sample>) {
    forall i :: 0 <= i < |s| ==> ValidUtc(s[i].at)
  }

  /** The total changed by more than the tolerance from one sample to the next. */
  predicate Resized(prev: Sample, cur: Sample) {
    prev.total != 0.0 && cur.total != 0.0 && Abs(cur.total - prev.total) / prev.total > EPSILON
  }

  function EventAt(prev: Sample, cur: Sample): Event
    requires ValidUtc(cur.at)
  {
    Event(IsoFormat(cur.at), prev.total, cur.total, cur.evidence)
  }

  function Events(s: seq<Sample>): seq<Event>
    requires Timed(s)
  {
    if |s| <= 1 then []
    else
      var n := |s| - 1;
      Events(s[..n]) + if Resized(s[n - 1], s[n]) then [EventAt(s[n - 1], s[n])] else []
  }

  method DetectCapacityEvents(samples: seq<Sample>) returns (events: seq<Event>)
    requires Timed(samples)
    ensures events == Events(samples)
  {
    hide Resized;
    events := [];
    if samples == [] {
      return;
    }
    var prev := samples[0];
    for i := 1 to |samples|
      invariant prev == samples[i - 1] && events == Events(samples[..i])
    {
      assert samples[..i + 1][..i] == samples[..i];
      var cur := samples[i];
      if Resized(prev, cur) {
        events := events + [EventAt(prev, cur)];
      }
      prev := cur;
    }
    assert samples[..|samples|] == samples;
  }

  /** Of two positive totals the later is a resize exactly when it is more than half a per cent above or below the
      earlier. */
  lemma ResizedMeans(prev: Sample, cur: Sample)
    requires prev.total > 0.0 && cur.total > 0.0
    ensures Resized(prev, cur) <==> cur.total > 1.005 * prev.total || cur.total < 0.995 * prev.total
  {
    var d, p := Abs(cur.total - prev.total), prev.total;
    assert d / p * p == d;
    assert d / p > EPSILON <==> d > EPSILON * p by {
      OverShare(d / p, EPSILON, p);
    }
  }

  lemma OverShare(a: real, b: real, p: real)
    requires p > 0.0
    ensures a > b <==> a * p > b * p
  {
  }

  /** How many resizes happen among the first `n` samples. */
  function ResizesUpTo(s: seq<Sample>, n: nat): nat
    requires n <= |s|
  {
    if n <= 1 then 0 else ResizesUpTo(s, n - 1) + if Resized(s[n - 2], s[n - 1]) then 1 else 0
  }

  lemma {:induction false} ResizesOfFront(s: seq<Sample>, m: nat, n: nat)
    requires n <= m <= |s|
    ensures ResizesUpTo(s[..m], n) == ResizesUpTo(s, n)
  {
    hide Resized;
    if n > 1 {
      ResizesOfFront(s, m, n - 1);
    }
  }

  /** Each resize leaves its event in its place, and there are no others: the time and evidence of the later sample, and
      both totals. */
  lemma {:induction false} EveryResizeIsAnEvent(s: seq<Sample>, i: nat)
    requires Timed(s) && 0 < i < |s| && Resized(s[i - 1], s[i])
    ensures |Events(s)| == ResizesUpTo(s, |s|) && ResizesUpTo(s, i) < |Events(s)|
    ensures Events(s)[ResizesUpTo(s, i)] == Event(IsoFormat(s[i].at), s[i - 1].total, s[i].total, s[i].evidence)
  {
    hide Resized, IsoFormat, ValidUtc;
    var n := |s| - 1;
    EventsCounted(s);
    EventsCounted(s[..n]);
    ResizesOfFront(s, n, n);
    if i < n {
      EveryResizeIsAnEvent(s[..n], i);
      ResizesOfFront(s, n, i);
    }
  }

  lemma {:induction false} EventsCounted(s: seq<Sample>)
    requires Timed(s)
    ensures |Events(s)| == ResizesUpTo(s, |s|)
  {
    hide Resized, IsoFormat, ValidUtc;
    if |s| > 1 {
      var n := |s| - 1;
      EventsCounted(s[..n]);
      ResizesOfFront(s, n, n);
    }
  }

  /** The samples whose text time does not sort before the given one. */
  function Since(s: seq<Sample>, stamp: string): seq<Sample>
    requires Timed(s)
  {
    if s == [] then []
    else
      var n := |s| - 1;
      Since(s[..n], stamp) + if Less(IsoFormat(s[n].at), stamp) then [] else [s[n]]
  }

  function SegmentAfterLastEvent(s: seq<Sample>, events: seq<Event>): seq<Sample>
    requires Timed(s)
  {
    if events == [] then s else Since(s, events[|events| - 1].stamp)
  }

  // ---- one series ----

  /** The samples of one target and metric: times strictly increase and totals are positive. */
  predicate Series(s: seq<Sample>) {
    && Timed(s)
    && (forall i :: 0 <= i < |s| ==> s[i].total > 0.0)
    && forall i, j :: 0 <= i < j < |s| ==> Micros(s[i].at) < Micros(s[j].at)
  }

  /** Where the last event of a series happened; 0 if there was none. */
  function LastResize(s: seq<Sample>): (k: nat)
    ensures s != [] ==> k < |s|
    ensures k > 0 ==> k < |s| && Resized(s[k - 1], s[k])
    ensures forall i :: k < i < |s| ==> !Resized(s[i - 1], s[i])
  {
    if |s| <= 1 then 0
    else if Resized(s[|s| - 2], s[|s| - 1]) then |s| - 1
    else LastResize(s[..|s| - 1])
  }

  lemma {:induction false} LastEventIsLastResize(s: seq<Sample>)
    requires Timed(s)
    ensures var k := LastResize(s);
      if k == 0 then Events(s) == [] else Events(s) != [] && Events(s)[|Events(s)| - 1] == EventAt(s[k - 1], s[k])
  {
    hide Resized;
    if |s| > 1 {
      LastEventIsLastResize(s[..|s| - 1]);
    }
  }

  lemma {:induction false} SinceIsSuffix(s: seq<Sample>, k: nat)
    requires Series(s) && k < |s|
    ensures Since(s, IsoFormat(s[k].at)) == s[k..]
  {
    hide IsoFormat, Less, Micros, ValidUtc;
    var n := |s| - 1;
    IsoOrderIsTimeOrder(s[n].at, s[k].at);
    if k == n {
      SinceIsEmpty(s[..n], s[n].at);
    } else {
      SinceIsSuffix(s[..n], k);
    }
  }

  lemma {:induction false} SinceIsEmpty(s: seq<Sample>, at: Utc)
    requires Timed(s) && ValidUtc(at) && forall i :: 0 <= i < |s| ==> Micros(s[i].at) < Micros(at)
    ensures Since(s, IsoFormat(at)) == []
  {
    hide IsoFormat, Less, Micros, ValidUtc;
    if s != [] {
      IsoOrderIsTimeOrder(s[|s| - 1].at, at);
      SinceIsEmpty(s[..|s| - 1], at);
    }
  }

  lemma {:induction false} NoResizeNoEvent(s: seq<Sample>)
    requires Timed(s) && forall i :: 0 < i < |s| ==> !Resized(s[i - 1], s[i])
    ensures Events(s) == []
  {
    hide Resized;
    if |s| > 1 {
      assert forall i :: 0 <= i < |s| - 1 ==> s[..|s| - 1][i] == s[i];
      NoResizeNoEvent(s[..|s| - 1]);
    }
  }

  /** The segment of a series is exactly what starts at the last resize, and detecting again on it finds
      nothing. */
  lemma SegmentIsSettled(s: seq<Sample>)
    requires Series(s)
    ensures var segment := SegmentAfterLastEvent(s, Events(s));
      && segment == s[LastResize(s)..]
      && Series(segment) && Events(segment) == []
  {
    hide Resized, Since, Micros, ValidUtc, LastResize, Events, IsoFormat;
    LastEventIsLastResize(s);
    var k := LastResize(s);
    if k > 0 {
      SinceIsSuffix(s, k);
    } else {
      assert s[0..] == s;
    }
    SuffixIsSettled(s, k);
  }

  lemma SuffixIsSettled(s: seq<Sample>, k: nat)
    requires Series(s) && k <= |s| && forall i :: k < i < |s| ==> !Resized(s[i - 1], s[i])
    ensures Series(s[k..]) && Events(s[k..]) == []
  {
    hide Resized, Micros, ValidUtc, Events;
    var segment := s[k..];
    forall i | 0 < i < |segment|
      ensures !Resized(segment[i - 1], segment[i])
    {
      assert !Resized(s[k + i - 1], s[k + i]);
    }
    NoResizeNoEvent(segment);
  }

  // ---- drift ----

  function Power(base: real, n: nat): (p: real)
    requires base > 0.0
    ensures p > 0.0
  {
    if n == 0 then 1.0 else base * Power(base, n - 1)
  }

  lemma SmallStep(prev: Sample, cur: Sample)
    requires prev.total > 0.0 && cur.total > 0.0 && !Resized(prev, cur)
    ensures (1.0 - EPSILON) * prev.total <= cur.total <= (1.0 + EPSILON) * prev.total
  {
    var d, p := Abs(cur.total - prev.total), prev.total;
    assert d / p <= EPSILON;
    assert d / p * p == d;
    assert d <= EPSILON * p;
  }

  /** Two bounded steps in a row. */
  lemma Compound(a: real, b: real, c: real, lo: real, hi: real)
    requires lo * a <= b <= hi * a
    requires (1.0 - EPSILON) * b <= c <= (1.0 + EPSILON) * b
    ensures (1.0 - EPSILON) * lo * a <= c <= (1.0 + EPSILON) * hi * a
  {
    assert (1.0 - EPSILON) * lo * a == (1.0 - EPSILON) * (lo * a);
    assert (1.0 + EPSILON) * hi * a == (1.0 + EPSILON) * (hi * a);
  }

  lemma NextPower(base: real, k: nat)
    requires base > 0.0 && k > 0
    ensures Power(base, k) == base * Power(base, k - 1)
  {
  }

  lemma NoPower(base: real, a: real)
    requires base > 0.0
    ensures Power(base, 0) * a == a
  {
  }

  /** Within a settled segment the total drifts by at most the tolerance a step, compounded. */
  lemma {:induction false} DriftIsBounded(s: seq<Sample>, i: nat, k: nat)
    requires Series(s) && Events(s) == [] && i + k < |s|
    ensures Power(1.0 - EPSILON, k) * s[i].total <= s[i + k].total <= Power(1.0 + EPSILON, k) * s[i].total
    decreases k
  {
    hide Resized, ValidUtc, Micros, Events, Power;
    var a := s[i].total;
    if k == 0 {
      NoPower(1.0 - EPSILON, a);
      NoPower(1.0 + EPSILON, a);
    } else {
      DriftIsBounded(s, i, k - 1);
      LastEventIsLastResize(s);
      assert !Resized(s[i + k - 1], s[i + k]);
      SmallStep(s[i + k - 1], s[i + k]);
      Compound(a, s[i + k - 1].total, s[i + k].total, Power(1.0 - EPSILON, k - 1), Power(1.0 + EPSILON, k - 1));
      NextPower(1.0 - EPSILON, k);
      NextPower(1.0 + EPSILON, k);
    }
  }

  // ---- normalized samples of one target and metric are a series ----

  predicate OneSeries(samples: seq<Sample>) {
    forall i, j :: 0 <= i < |samples| && 0 <= j < |samples| ==>
      samples[i].target == samples[j].target && samples[i].metric == samples[j].metric
  }

  lemma NormalizedIsSeries(clock: Clock, hint: Option<string>, raws: seq<Raw>)
    requires OneSeries(Processed(clock, hint, raws).samples)
    ensures Series(Sort(Sooner, Processed(clock, hint, raws).samples))
  {
    hide Processed, Sort, Micros, ValidUtc, Bounded, IsoFormat;
    var p := Processed(clock, hint, raws);
    var s := Sort(Sooner, p.samples);
    SamplesAreOrderly(clock, hint, raws);
    NormalizedSamples(clock, hint, raws);
    SoonerIsAnOrder();
    SortSorts(Sooner, p.samples);
    forall i | 0 <= i < |s|
      ensures ValidUtc(s[i].at) && s[i].total > 0.0
    {
      assert s[i] in s;
      SoundIsPositive(s[i]);
    }
    forall i, j | 0 <= i < j < |s|
      ensures Micros(s[i].at) < Micros(s[j].at)
    {
      IsoOrderIsTimeOrder(s[i].at, s[j].at);
      DifferentPlaces(p.samples, s, i, j);
    }
  }

  lemma SoundIsPositive(s: Sample)
    requires Sound(s)
    ensures ValidUtc(s.at) && s.total > 0.0
  {
  }

  /** Two places in a permutation come from two places in the original. */
  lemma DifferentPlaces(a: seq<Sample>, b: seq<Sample>, i: nat, j: nat)
    requires multiset(a) == multiset(b) && i < j < |b|
    ensures exists k, l :: 0 <= k < |a| && 0 <= l < |a| && k != l && a[k] == b[i] && a[l] == b[j]
  {
    assert b[i] in multiset(a) && b[j] in multiset(a);
    var k :| 0 <= k < |a| && a[k] == b[i];
    if b[i] == b[j] {
      TwiceHere(b, i, j);
      var rest := a[..k] + a[k + 1..];
      assert a == a[..k] + [a[k]] + a[k + 1..];
      assert multiset(a) == multiset(rest) + multiset{a[k]};
      assert b[i] in multiset(rest);
      var m :| 0 <= m < |rest| && rest[m] == b[i];
      assert a[if m < k then m else m + 1] == b[j];
    } else {
      var l :| 0 <= l < |a| && a[l] == b[j];
    }
  }

  lemma TwiceHere(b: seq<Sample>, i: nat, j: nat)
    requires i < j < |b| && b[i] == b[j]
    ensures multiset(b)[b[i]] >= 2
  {
    assert b == b[..j] + b[j..];
    assert b[..j][i] == b[i] && b[j..][0] == b[j];
    assert b[i] in multiset(b[..j]) && b[j] in multiset(b[j..]);
  }
}
