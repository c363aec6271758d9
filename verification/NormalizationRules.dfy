/** What becomes of a raw sample: each exclusion with its condition, and what a kept sample says of the raw one. */
module NormalizationRules {
  import opened Normalization
  import opened Calendar
  import opened UtcText
  import opened Numbers
  import opened Options
  import Sorting

  /** No required text is missing. */
  predicate Complete(raw: Raw) {
    raw.Raw? && "" !in [raw.target, raw.technology, raw.resourceType, raw.metric, raw.timestamp, raw.unit, raw.source, raw.evidence]
  }

  predicate Dated(clock: Clock, raw: Raw) {
    raw.Raw? && clock(raw.timestamp).Some? && ValidUtc(clock(raw.timestamp).value)
  }

  predicate Sized(raw: Raw) {
    raw.Raw? && raw.total.Finite? && raw.total.r > 0.0
  }

  /** The used capacity a sample states: outright, or else as so many hundredths of its total. */
  predicate States(raw: Raw, used: real)
    requires Sized(raw)
  {
    raw.used == Finite(used) || (raw.used == Absent && raw.utilization.Finite? && used * 100.0 == raw.utilization.r * raw.total.r)
  }

  predicate StatesNonsense(raw: Raw)
    requires raw.Raw?
  {
    raw.used == NotFinite || (raw.used == Absent && raw.utilization == NotFinite)
  }

  predicate StatesNothing(raw: Raw)
    requires raw.Raw?
  {
    raw.used == Absent && raw.utilization == Absent
  }

  /** Processor capacity: the hint says so, or without one the resource type. */
  predicate IsCpu(raw: Raw, hint: Option<string>)
    requires raw.Raw?
  {
    Lower(match hint case Some(h) => (if h == "" then raw.resourceType else h) case None => raw.resourceType) == "cpu"
  }

  predicate White(c: char) {
    c in {' ', '\t', '\n', '\U{0B}', '\U{0C}', '\r'}
  }

  predicate AllWhite(s: string) {
    forall i :: 0 <= i < |s| ==> White(s[i])
  }

  /** Stripping takes the white space off both ends and nothing else. */
  lemma {:induction false} StripMeans(s: string) returns (front: string, back: string)
    ensures s == front + Strip(s) + back && AllWhite(front) && AllWhite(back)
    ensures Strip(s) != "" ==> !White(Strip(s)[0]) && !White(Strip(s)[|Strip(s)| - 1])
    decreases |s|
  {
    hide Strip, White, AllWhite;
    StripStep(s);
    front, back := "", "";
    NoneWhite();
    if s != "" && IsSpace(s[0]) {
      front, back := StripMeans(s[1..]);
      OneMoreWhite(s[0], front);
      assert s == [s[0]] + s[1..];
      assert [s[0]] + (front + Strip(s) + back) == [s[0]] + front + Strip(s) + back;
      front := [s[0]] + front;
    } else if s != "" && IsSpace(s[|s| - 1]) {
      front, back := StripMeans(s[..|s| - 1]);
      OneMoreWhite(s[|s| - 1], back);
      assert s == s[..|s| - 1] + [s[|s| - 1]];
      assert front + Strip(s) + back + [s[|s| - 1]] == front + Strip(s) + (back + [s[|s| - 1]]);
      back := back + [s[|s| - 1]];
    }
  }

  lemma StripStep(s: string)
    ensures s != "" && IsSpace(s[0]) ==> Strip(s) == Strip(s[1..])
    ensures s != "" && !IsSpace(s[0]) && IsSpace(s[|s| - 1]) ==> Strip(s) == Strip(s[..|s| - 1])
    ensures s == "" || (!IsSpace(s[0]) && !IsSpace(s[|s| - 1])) ==> Strip(s) == s
    ensures forall c :: IsSpace(c) <==> White(c)
  {
  }

  lemma NoneWhite()
    ensures AllWhite("")
  {
  }

  lemma OneMoreWhite(c: char, s: string)
    requires White(c) && AllWhite(s)
    ensures AllWhite([c] + s) && AllWhite(s + [c])
  {
    hide White;
  }

  const UPPER := "ABCDEFGHIJKLMNOPQRSTUVWXYZ"
  const LOWER := "abcdefghijklmnopqrstuvwxyz"

  /** Each of the 26 capitals becomes its small letter, and any other character stays. */
  lemma LowerMeans(s: string, i: nat)
    requires i < |s|
    ensures |Lower(s)| == |s|
    ensures forall k :: 0 <= k < 26 && UPPER[k] == s[i] ==> Lower(s)[i] == LOWER[k]
    ensures s[i] !in UPPER ==> Lower(s)[i] == s[i]
  {
    forall k | 0 <= k < 26
      ensures UPPER[k] == 'A' + k as char && LOWER[k] == 'a' + k as char
    {
    }
    if 'A' <= s[i] <= 'Z' {
      var k := (s[i] - 'A') as int;
      assert UPPER[k] == s[i];
    }
  }

  /** The number of bytes in each unit. */
  const UNITS: map<string, real> := map[
    "b" := 1.0, "byte" := 1.0, "bytes" := 1.0,
    "kb" := Power10(3), "mb" := Power10(6), "gb" := Power10(9), "tb" := Power10(12),
    "kib" := Power2(10), "mib" := Power2(20), "gib" := Power2(30), "tib" := Power2(40)]

  function Power10(n: nat): real {
    if n == 0 then 1.0 else 10.0 * Power10(n - 1)
  }

  function Power2(n: nat): real {
    if n == 0 then 1.0 else 2.0 * Power2(n - 1)
  }

  lemma Powers()
    ensures Power10(3) == 1000.0 && Power10(6) == 1000000.0 && Power10(9) == 1000000000.0 && Power10(12) == 1000000000000.0
    ensures Power2(10) == 1024.0 && Power2(20) == 1048576.0 && Power2(30) == 1073741824.0 && Power2(40) == 1099511627776.0
  {
    assert Power2(5) == 32.0;
    assert Power2(15) == 32768.0;
    assert Power2(25) == 33554432.0;
    assert Power2(35) == 34359738368.0;
  }

  /** A unit is known exactly if it is listed, white space and case aside, and stands for so many bytes. */
  lemma FactorIsListed(unit: string)
    ensures var u := Lower(Strip(unit));
      && (Factor(unit).Some? <==> u in UNITS)
      && (u in UNITS ==> Factor(unit).value == UNITS[u])
  {
    hide Lower, Strip, Power10, Power2;
    Powers();
  }

  // ---- exclusions ----

  /** Complete, dated and the first with its key. */
  predicate First(clock: Clock, seen: set<Key>, raw: Raw) {
    Complete(raw) && Dated(clock, raw) && KeyOf(clock, raw) !in seen
  }

  ghost predicate Plausible(raw: Raw)
    requires Sized(raw)
  {
    exists used :: States(raw, used) && 0.0 <= used <= 1.01 * raw.total.r
  }

  predicate KnownUnit(raw: Raw, hint: Option<string>)
    requires raw.Raw?
  {
    IsCpu(raw, hint) || Lower(Strip(Strip(raw.unit))) in UNITS
  }

  lemma StatesOne(raw: Raw, total: real)
    requires Sized(raw) && total == raw.total.r
    ensures UsedOf(raw, total).Value? ==> States(raw, UsedOf(raw, total).r)
    ensures forall used :: States(raw, used) ==> UsedOf(raw, total) == Value(used)
    ensures UsedOf(raw, total) == Refused(NonFiniteValue) <==> StatesNonsense(raw)
    ensures UsedOf(raw, total) == Refused(MissingRequiredField) <==> StatesNothing(raw)
    ensures UsedOf(raw, total).Refused? ==> StatesNonsense(raw) || StatesNothing(raw)
  {
    if raw.used == Absent && raw.utilization.Finite? {
      var p := raw.utilization.r;
      assert (p / 100.0 * total) * 100.0 == p * total by {
        Hundredths(p, total);
      }
    }
  }

  lemma Hundredths(p: real, total: real)
    ensures (p / 100.0 * total) * 100.0 == p * total
  {
    assert p / 100.0 * 100.0 == p;
  }

  /** The kind a sample is of: cores or a percentage of them for a processor, bytes for anything else. */
  function KindOf(raw: Raw, hint: Option<string>): Kind
    requires raw.Raw?
  {
    if !IsCpu(raw, hint) then Bytes
    else if Lower(Strip(raw.unit)) in {"percentage", "percent", "%"} then Percentage else Cores
  }

  lemma ScaleMeans(raw: Raw, hint: Option<string>)
    requires raw.Raw?
    ensures var s := Scale(raw, hint);
      && (s.Some? <==> KnownUnit(raw, hint))
      && (s.Some? ==> s.value.0 == KindOf(raw, hint))
      && (s.Some? ==> s.value.1 == if IsCpu(raw, hint) then 1.0 else UNITS[Lower(Strip(Strip(raw.unit)))])
  {
    hide Lower, Strip;
    FactorIsListed(Strip(raw.unit));
  }

  /** Between nothing and the total, one per cent of tolerance granted. */
  predicate InBounds(used: real, total: real) {
    0.0 <= used && used <= 1.01 * total
  }

  /** The sample passes everything but perhaps its unit. */
  predicate Measured(raw: Raw) {
    Sized(raw) && UsedOf(raw, raw.total.r).Value? && InBounds(UsedOf(raw, raw.total.r).r, raw.total.r)
  }

  lemma MeasuredMeans(raw: Raw)
    ensures Measured(raw) <==> Sized(raw) && Plausible(raw)
  {
    if Sized(raw) {
      StatesOne(raw, raw.total.r);
    }
  }

  lemma FirstMeans(clock: Clock, seen: set<Key>, raw: Raw)
    ensures First(clock, seen, raw) <==> HasFields(raw) && Readable(clock, raw) && KeyOf(clock, raw) !in seen
    ensures Complete(raw) <==> HasFields(raw)
    ensures HasFields(raw) ==> (Readable(clock, raw) <==> Dated(clock, raw))
  {
    hide KeyOf, ValidUtc;
  }

  /** Every exclusion, with exactly when it happens. */
  lemma FateSays(clock: Clock, hint: Option<string>, seen: set<Key>, canonical: Option<Kind>, raw: Raw, index: nat)
    ensures var f := FateOf(clock, hint, seen, canonical, raw, index);
      && (f == Excluded(MissingRequiredField) <==> !Complete(raw) || (First(clock, seen, raw) && Sized(raw) && StatesNothing(raw)))
      && (f == Excluded(InvalidTimestamp) <==> Complete(raw) && !Dated(clock, raw))
      && (f == Excluded(DuplicateTimestamp) <==> Complete(raw) && Dated(clock, raw) && !First(clock, seen, raw))
      && (f == Excluded(InvalidCapacityInput) <==> First(clock, seen, raw) && !Sized(raw))
      && (f == Excluded(NonFiniteValue) <==> First(clock, seen, raw) && Sized(raw) && StatesNonsense(raw))
      && (f == Excluded(NegativeUsed) <==> First(clock, seen, raw) && Sized(raw) && exists u :: States(raw, u) && u < 0.0)
      && (f == Excluded(UsedExceedsTotal) <==>
            First(clock, seen, raw) && Sized(raw) && exists u :: States(raw, u) && u > 1.01 * raw.total.r)
      && (f == Excluded(UnitMismatch) <==>
            First(clock, seen, raw) && Sized(raw) && Plausible(raw)
            && (!KnownUnit(raw, hint) || (canonical.Some? && canonical.value != KindOf(raw, hint))))
      && (f.Kept? <==>
            First(clock, seen, raw) && Sized(raw) && Plausible(raw)
            && KnownUnit(raw, hint) && (canonical == None || canonical == Some(KindOf(raw, hint))))
  {
    hide KeyOf, ValidUtc, KindOf, KnownUnit, Scale, IsCpu, Diverges, Percent, Times, First, UsedOf, States, StatesNonsense,
      StatesNothing, Plausible;
    FirstMeans(clock, seen, raw);
    MeasuredMeans(raw);
    if raw.Raw? {
      ScaleMeans(raw, hint);
    }
    if Sized(raw) {
      StatesOne(raw, raw.total.r);
      assert raw.total.r * (1.0 + TOLERANCE) == 1.01 * raw.total.r;
    }
  }

  // ---- what a kept sample says ----

  /** It names what the raw sample names, its total is the stated one in the unit's measure, its share of it is the stated
      share, and that is the stated utilization where nothing else is given. */
  predicate Tells(clock: Clock, hint: Option<string>, raw: Raw, s: Sample) {
    && Complete(raw) && Dated(clock, raw) && Sized(raw) && KnownUnit(raw, hint)
    && s.target == raw.target && s.resourceType == raw.resourceType && s.metric == raw.metric && s.evidence == raw.evidence
    && s.at == clock(raw.timestamp).value && s.kind == KindOf(raw, hint)
    && s.total == Times(raw.total.r, if IsCpu(raw, hint) then 1.0 else UNITS[Lower(Strip(Strip(raw.unit)))])
    && (raw.used.Finite? ==> s.used * raw.total.r == raw.used.r * s.total && s.percent * raw.total.r == 100.0 * raw.used.r)
    && (raw.used == Absent ==> raw.utilization == Finite(s.percent))
  }

  /** Both are given, and the stated utilization is more than two per cent, of the greater one, away from the share. */
  predicate Strays(raw: Raw, percent: real)
    requires raw.Raw?
  {
    && raw.used.Finite? && raw.utilization.Finite?
    && var stated := raw.utilization.r;
       Abs(percent - stated) > 0.02 * Max(Max(percent, stated), 0.000000001)
  }

  lemma StraysMeans(raw: Raw, percent: real)
    requires raw.Raw? && raw.used != NotFinite
    ensures Diverges(raw, percent) <==> Strays(raw, percent)
  {
    if raw.utilization.Finite? {
      var top := Max(Max(percent, raw.utilization.r), 0.000000001);
      OverTop(Abs(percent - raw.utilization.r), top);
    }
  }

  lemma OverTop(d: real, top: real)
    requires top > 0.0
    ensures d / top > 0.02 <==> d > 0.02 * top
  {
    assert d / top * top == d;
  }

  lemma Shares(used: real, total: real, factor: real)
    requires total > 0.0 && factor > 0.0
    ensures Times(used, factor) * total == used * Times(total, factor)
    ensures Percent(Times(used, factor), Times(total, factor)) * total == 100.0 * used
  {
    var t, u := total * factor, used * factor;
    assert t > 0.0;
    var q := u / t;
    assert q * t == u;
    Cancelled(q, used, total, factor);
  }

  lemma Cancelled(q: real, used: real, total: real, factor: real)
    requires factor > 0.0 && q * (total * factor) == used * factor
    ensures q * total == used
  {
    assert q * total * factor == used * factor;
    assert (q * total - used) * factor == 0.0;
  }

  lemma KeptTells(clock: Clock, hint: Option<string>, seen: set<Key>, canonical: Option<Kind>, raw: Raw, index: nat)
    requires FateOf(clock, hint, seen, canonical, raw, index).Kept?
    ensures var f := FateOf(clock, hint, seen, canonical, raw, index);
      && f.sample.index == index && Tells(clock, hint, raw, f.sample)
      && (f.flagged <==> Strays(raw, f.sample.percent))
  {
    hide KeyOf, ValidUtc, KindOf, KnownUnit, Scale, IsCpu, Percent, Times, First, UNITS, Diverges, Strays;
    FateSays(clock, hint, seen, canonical, raw, index);
    ScaleMeans(raw, hint);
    StraysMeans(raw, FateOf(clock, hint, seen, canonical, raw, index).sample.percent);
    var used := UsedOf(raw, raw.total.r).r;
    Shares(used, raw.total.r, Scale(raw, hint).value.1);
    if raw.used == Absent {
      var percent := FateOf(clock, hint, seen, canonical, raw, index).sample.percent;
      SameShare(percent, raw.utilization.r, raw.total.r);
    }
  }

  lemma SameShare(percent: real, stated: real, total: real)
    requires total > 0.0 && percent * total == 100.0 * (stated / 100.0 * total)
    ensures percent == stated
  {
    Hundredths(stated, total);
    assert (percent - stated) * total == 0.0;
  }

  /** Of every input: each sample that comes out tells what the raw sample at its index states. */
  lemma {:induction false} SamplesTell(clock: Clock, hint: Option<string>, raws: seq<Raw>)
    ensures forall s <- Processed(clock, hint, raws).samples :: s.index < |raws| && Tells(clock, hint, raws[s.index], s)
  {
    hide FateOf, Tells;
    if raws != [] {
      var n := |raws| - 1;
      SamplesTell(clock, hint, raws[..n]);
      var p := Processed(clock, hint, raws[..n]);
      if FateOf(clock, hint, p.seen, p.canonical, raws[n], n).Kept? {
        KeptTells(clock, hint, p.seen, p.canonical, raws[n], n);
      }
    }
  }

  // ---- order ----

  /** Issues come in the order of the input, and so do the samples before they are put in order of time; samples of one time
      keep that order. */
  lemma {:induction false} InInputOrder(clock: Clock, hint: Option<string>, raws: seq<Raw>)
    ensures var p := Processed(clock, hint, raws);
      && (forall i, j :: 0 <= i < j < |p.issues| ==> p.issues[i].index <= p.issues[j].index)
      && (forall i, j :: 0 <= i < j < |p.samples| ==> p.samples[i].index < p.samples[j].index)
      && (forall i <- p.issues :: i.index < |raws|) && (forall s <- p.samples :: s.index < |raws|)
  {
    hide FateOf;
    if raws != [] {
      var n := |raws| - 1;
      var p := Processed(clock, hint, raws[..n]);
      InInputOrder(clock, hint, raws[..n]);
      FateNeverFlags(clock, hint, p.seen, p.canonical, raws[n], n);
      assert forall i :: 0 <= i < |p.issues| ==> p.issues[i] in p.issues;
      assert forall i :: 0 <= i < |p.samples| ==> p.samples[i] in p.samples;
    }
  }

  lemma SameTimeKeepsOrder(clock: Clock, hint: Option<string>, raws: seq<Raw>, time: int)
    ensures var p, at := Processed(clock, hint, raws), (s: Sample) => Micros(s.at) == time;
      Sorting.Filtered(at, Sorting.Sort(Sooner, p.samples)) == Sorting.Filtered(at, p.samples)
  {
    hide Processed, Micros;
    SoonerIsAnOrder();
    Sorting.SortIsStable(Sooner, (s: Sample) => Micros(s.at) == time, Processed(clock, hint, raws).samples);
  }
}
