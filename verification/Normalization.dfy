/** Validating and normalizing capacity samples. */
module Normalization {
  import opened Numbers
  import opened Options
  import opened Calendar
  import opened UtcText
  import opened Sorting

  /** A number as it arrives: not given, not a finite number, or a number. */
  datatype Num = Absent | NotFinite | Finite(r: real)

  /** A raw sample. A required text that is missing or empty is "". */
  datatype Raw =
    | NotAnObject
    | Raw(target: string, technology: string, resourceType: string, metric: string, timestamp: string, unit: string,
          source: string, evidence: string, total: Num, used: Num, utilization: Num)

  datatype Kind = Bytes | Cores | Percentage

  datatype Sample = Sample(target: string, resourceType: string, metric: string, at: Utc, total: real, used: real,
                           percent: real, kind: Kind, evidence: string, index: nat)

  datatype IssueType =
    | MissingRequiredField | InvalidTimestamp | DuplicateTimestamp | InvalidCapacityInput | NonFiniteValue
    | NegativeUsed | UsedExceedsTotal | UnitMismatch | CrossCheckMismatch

  datatype Issue = Issue(kind: IssueType, index: nat)

  /** Every issue excludes its sample but the last kind, which only flags it. */
  predicate Excludes(i: Issue) {
    i.kind != CrossCheckMismatch
  }

  /** Reading a timestamp that states its offset. */
  type Clock = string -> Option<Utc>

  // ---- one sample ----

  datatype Key = Key(target: string, metric: string, stamp: string)

  predicate HasFields(raw: Raw) {
    && raw.Raw? && raw.target != "" && raw.technology != "" && raw.resourceType != "" && raw.metric != ""
    && raw.timestamp != "" && raw.unit != "" && raw.source != "" && raw.evidence != ""
  }

  /** The sample is complete enough to be told apart from others. */
  predicate Readable(clock: Clock, raw: Raw) {
    HasFields(raw) && clock(raw.timestamp).Some? && ValidUtc(clock(raw.timestamp).value)
  }

  function KeyOf(clock: Clock, raw: Raw): Key
    requires Readable(clock, raw)
  {
    Key(raw.target, raw.metric, IsoFormat(clock(raw.timestamp).value))
  }

  predicate IsSpace(c: char) {
    c == ' ' || '\t' <= c <= '\r'
  }

  function Strip(s: string): string {
    if s != "" && IsSpace(s[0]) then Strip(s[1..])
    else if s != "" && IsSpace(s[|s| - 1]) then Strip(s[..|s| - 1])
    else s
  }

  function Lower(s: string): string {
    seq(|s|, i requires 0 <= i < |s| => if 'A' <= s[i] <= 'Z' then s[i] - 'A' + 'a' else s[i])
  }

  function Factor(unit: string): (f: Option<real>)
    ensures f.Some? ==> f.value > 0.0
  {
    var u := Lower(Strip(unit));
    if u == "b" || u == "byte" || u == "bytes" then Some(1.0)
    else if u == "kb" then Some(1000.0)
    else if u == "kib" then Some(1024.0)
    else if u == "mb" then Some(1000000.0)
    else if u == "mib" then Some(1048576.0)
    else if u == "gb" then Some(1000000000.0)
    else if u == "gib" then Some(1073741824.0)
    else if u == "tb" then Some(1000000000000.0)
    else if u == "tib" then Some(1099511627776.0)
    else None
  }

  const TOLERANCE := 0.01
  const CROSS_CHECK := 0.02

  /** What used capacity a sample states, directly or by its utilization, or why it states none. */
  datatype Stated = Value(r: real) | Refused(why: IssueType)

  function UsedOf(raw: Raw, total: real): Stated
    requires raw.Raw?
  {
    match raw.used
    case Finite(r) => Value(r)
    case NotFinite => Refused(NonFiniteValue)
    case Absent =>
      match raw.utilization
      case Finite(p) => Value(p / 100.0 * total)
      case NotFinite => Refused(NonFiniteValue)
      case Absent => Refused(MissingRequiredField)
  }

  /** How the unit of a sample is to be read; `None` for a unit nobody knows. */
  function Scale(raw: Raw, hint: Option<string>): (s: Option<(Kind, real)>)
    requires raw.Raw?
    ensures s.Some? ==> s.value.1 > 0.0
  {
    var unit := Strip(raw.unit);
    if Lower(if hint.Some? && hint.value != "" then hint.value else raw.resourceType) == "cpu" then
      Some((if Lower(unit) in ["percentage", "percent", "%"] then Percentage else Cores, 1.0))
    else if Factor(unit).Some? then Some((Bytes, Factor(unit).value))
    else None
  }

  function Abs(a: real): real {
    if a >= 0.0 then a else -a
  }

  predicate Diverges(raw: Raw, percent: real)
    requires raw.Raw?
  {
    && raw.utilization.Finite? && raw.used != Absent
    && var top := Max(Max(percent, raw.utilization.r), 0.000000001);
       Abs(percent - raw.utilization.r) / top > CROSS_CHECK
  }

  datatype Fate = Excluded(why: IssueType) | Kept(sample: Sample, flagged: bool)

  /** What becomes of a readable sample that is the first with its key. */
  function Valued(clock: Clock, hint: Option<string>, canonical: Option<Kind>, raw: Raw, index: nat): Fate
    requires Readable(clock, raw)
  {
    if !raw.total.Finite? || raw.total.r <= 0.0 then Excluded(InvalidCapacityInput)
    else
      var total, stated := raw.total.r, UsedOf(raw, raw.total.r);
      if stated.Refused? then Excluded(stated.why)
      else if stated.r < 0.0 then Excluded(NegativeUsed)
      else if stated.r > total * (1.0 + TOLERANCE) then Excluded(UsedExceedsTotal)
      else
        var scale := Scale(raw, hint);
        if scale.None? then Excluded(UnitMismatch)
        else
          var (kind, factor) := scale.value;
          if canonical.Some? && canonical.value != kind then Excluded(UnitMismatch)
          else
            var percent := Percent(Times(stated.r, factor), Times(total, factor));
            Kept(Sample(raw.target, raw.resourceType, raw.metric, clock(raw.timestamp).value, Times(total, factor), Times(stated.r, factor),
                        percent, kind, raw.evidence, index), Diverges(raw, percent))
  }

  function Times(a: real, b: real): real {
    a * b
  }

  function Percent(used: real, total: real): real {
    if total == 0.0 then 0.0 else used / total * 100.0
  }

  function FateOf(clock: Clock, hint: Option<string>, seen: set<Key>, canonical: Option<Kind>, raw: Raw, index: nat): Fate {
    if !HasFields(raw) then Excluded(MissingRequiredField)
    else if !Readable(clock, raw) then Excluded(InvalidTimestamp)
    else if KeyOf(clock, raw) in seen then Excluded(DuplicateTimestamp)
    else Valued(clock, hint, canonical, raw, index)
  }

  // ---- the loop ----

  datatype Progress = Progress(samples: seq<Sample>, issues: seq<Issue>, seen: set<Key>, canonical: Option<Kind>)

  const START := Progress([], [], {}, None)

  function Step(clock: Clock, hint: Option<string>, p: Progress, raw: Raw, index: nat): Progress {
    var fate := FateOf(clock, hint, p.seen, p.canonical, raw, index);
    var seen := p.seen + if Readable(clock, raw) then {KeyOf(clock, raw)} else {};
    match fate
    case Excluded(why) => p.(issues := p.issues + [Issue(why, index)], seen := seen)
    case Kept(sample, flagged) =>
      Progress(p.samples + [sample], p.issues + (if flagged then [Issue(CrossCheckMismatch, index)] else []), seen, Some(sample.kind))
  }

  function Processed(clock: Clock, hint: Option<string>, raws: seq<Raw>): Progress {
    if raws == [] then START
    else
      var n := |raws| - 1;
      Step(clock, hint, Processed(clock, hint, raws[..n]), raws[n], n)
  }

  predicate Sooner(a: Sample, b: Sample) {
    Micros(a.at) < Micros(b.at)
  }

  method NormalizeSamples(clock: Clock, hint: Option<string>, raws: seq<Raw>)
    returns (samples: seq<Sample>, issues: seq<Issue>, excluded: nat, duplicates: nat)
    ensures samples == Sort(Sooner, Processed(clock, hint, raws).samples) && issues == Processed(clock, hint, raws).issues
    ensures excluded == |raws| - |samples| && duplicates == ClaimedCount(clock, raws)
  {
    hide FateOf, Valued, Sooner;
    samples, issues := [], [];
    var seen: set<Key>, canonical: Option<Kind> := {}, None;
    for i := 0 to |raws|
      invariant Progress(samples, issues, seen, canonical) == Processed(clock, hint, raws[..i]) && |samples| <= i
    {
      assert raws[..i + 1][..i] == raws[..i];
      var fate := FateOf(clock, hint, seen, canonical, raws[i], i);
      if Readable(clock, raws[i]) {
        seen := seen + {KeyOf(clock, raws[i])};
      }
      match fate {
        case Excluded(why) => issues := issues + [Issue(why, i)];
        case Kept(sample, flagged) =>
          if flagged {
            issues := issues + [Issue(CrossCheckMismatch, i)];
          }
          samples, canonical := samples + [sample], Some(sample.kind);
      }
    }
    assert raws[..|raws|] == raws;
    SoonerIsAnOrder();
    SortKeepsElements(Sooner, samples);
    samples := Sort(Sooner, samples);
    excluded := |raws| - |samples|;
    duplicates := DuplicatesIn(issues);
    DuplicatesCounted(clock, hint, raws);
  }

  lemma SoonerIsAnOrder()
    ensures IsOrder(Sooner)
  {
    hide Micros;
  }

  // ---- every index is accounted for once ----

  function SamplesAt(samples: seq<Sample>, i: nat): nat {
    if samples == [] then 0
    else SamplesAt(samples[..|samples| - 1], i) + if samples[|samples| - 1].index == i then 1 else 0
  }

  function ExclusionsAt(issues: seq<Issue>, i: nat): nat {
    if issues == [] then 0
    else
      var last := issues[|issues| - 1];
      ExclusionsAt(issues[..|issues| - 1], i) + if last.index == i && Excludes(last) then 1 else 0
  }

  lemma SamplesSnoc(samples: seq<Sample>, s: Sample, i: nat)
    ensures SamplesAt(samples + [s], i) == SamplesAt(samples, i) + if s.index == i then 1 else 0
  {
    assert (samples + [s])[..|samples|] == samples;
  }

  lemma IssuesSnoc(issues: seq<Issue>, s: Issue, i: nat)
    ensures ExclusionsAt(issues + [s], i) == ExclusionsAt(issues, i) + if s.index == i && Excludes(s) then 1 else 0
  {
    assert (issues + [s])[..|issues|] == issues;
  }

  lemma FateNeverFlags(clock: Clock, hint: Option<string>, seen: set<Key>, canonical: Option<Kind>, raw: Raw, index: nat)
    ensures var f := FateOf(clock, hint, seen, canonical, raw, index);
      if f.Excluded? then f.why != CrossCheckMismatch else f.sample.index == index
  {
    hide Scale, Percent, Diverges, KeyOf;
  }

  /** Each raw index becomes exactly one sample or exactly one excluding issue, and no other index appears. */
  lemma {:induction false} EveryIndexOnce(clock: Clock, hint: Option<string>, raws: seq<Raw>, i: nat)
    ensures var p := Processed(clock, hint, raws);
      SamplesAt(p.samples, i) + ExclusionsAt(p.issues, i) == if i < |raws| then 1 else 0
  {
    hide FateOf, SamplesAt, ExclusionsAt;
    if raws == [] {
      NothingAt(i);
    } else {
      var n := |raws| - 1;
      var p := Processed(clock, hint, raws[..n]);
      EveryIndexOnce(clock, hint, raws[..n], i);
      FateNeverFlags(clock, hint, p.seen, p.canonical, raws[n], n);
      match FateOf(clock, hint, p.seen, p.canonical, raws[n], n)
      case Excluded(why) => IssuesSnoc(p.issues, Issue(why, n), i);
      case Kept(sample, flagged) =>
        SamplesSnoc(p.samples, sample, i);
        IssuesSnoc(p.issues, Issue(CrossCheckMismatch, n), i);
        assert p.issues + [] == p.issues;
    }
  }

  lemma NothingAt(i: nat)
    ensures SamplesAt([], i) == 0 && ExclusionsAt([], i) == 0
  {
  }

  // ---- duplicates: the first with a key claims it ----

  /** Whether a sample before the k-th has the same target, metric and instant. */
  ghost predicate Claimed(clock: Clock, raws: seq<Raw>, k: nat)
    requires k < |raws| && Readable(clock, raws[k])
  {
    exists j :: 0 <= j < k && Readable(clock, raws[j]) && KeyOf(clock, raws[j]) == KeyOf(clock, raws[k])
  }

  ghost predicate KeyAmong(clock: Clock, raws: seq<Raw>, key: Key) {
    exists j :: 0 <= j < |raws| && Readable(clock, raws[j]) && KeyOf(clock, raws[j]) == key
  }

  lemma KeyAmongSnoc(clock: Clock, raws: seq<Raw>, key: Key)
    requires raws != []
    ensures var n := |raws| - 1;
      KeyAmong(clock, raws, key) <==> KeyAmong(clock, raws[..n], key) || (Readable(clock, raws[n]) && KeyOf(clock, raws[n]) == key)
  {
    hide Readable, KeyOf;
    var n := |raws| - 1;
    if KeyAmong(clock, raws[..n], key) {
      var j :| 0 <= j < n && Readable(clock, raws[..n][j]) && KeyOf(clock, raws[..n][j]) == key;
      assert Readable(clock, raws[j]);
    }
    if KeyAmong(clock, raws, key) {
      var j :| 0 <= j < |raws| && Readable(clock, raws[j]) && KeyOf(clock, raws[j]) == key;
      assert j < n ==> raws[..n][j] == raws[j];
    }
  }

  lemma {:induction false} SeenHolds(clock: Clock, hint: Option<string>, raws: seq<Raw>, key: Key)
    ensures key in Processed(clock, hint, raws).seen <==> KeyAmong(clock, raws, key)
  {
    hide FateOf, Readable, KeyOf, KeyAmong;
    if raws == [] {
      NoKeyAmong(clock, key);
    } else {
      var n := |raws| - 1;
      SeenHolds(clock, hint, raws[..n], key);
      KeyAmongSnoc(clock, raws, key);
      assert Processed(clock, hint, raws).seen == Processed(clock, hint, raws[..n]).seen + (if Readable(clock, raws[n]) then {KeyOf(clock, raws[n])} else {});
    }
  }

  lemma NoKeyAmong(clock: Clock, key: Key)
    ensures !KeyAmong(clock, [], key)
  {
  }

  /** What became of the k-th raw sample. */
  function FateAt(clock: Clock, hint: Option<string>, raws: seq<Raw>, k: nat): Fate
    requires k < |raws|
  {
    var p := Processed(clock, hint, raws[..k]);
    FateOf(clock, hint, p.seen, p.canonical, raws[k], k)
  }

  /** A sample is a duplicate exactly when an earlier readable one has its target, metric and instant, be that
      one kept or excluded: even a sample with impossible numbers keeps a later, correct one out. */
  lemma DuplicateExactly(clock: Clock, hint: Option<string>, raws: seq<Raw>, k: nat)
    requires k < |raws|
    ensures FateAt(clock, hint, raws, k) == Excluded(DuplicateTimestamp) <==>
      Readable(clock, raws[k]) && Claimed(clock, raws, k)
  {
    hide Readable, Valued, Processed, KeyOf;
    var p := Processed(clock, hint, raws[..k]);
    ReadableHasFields(clock, raws[k]);
    if Readable(clock, raws[k]) {
      ValuedIsNoDuplicate(clock, hint, p.canonical, raws[k], k);
      SeenHolds(clock, hint, raws[..k], KeyOf(clock, raws[k]));
      ClaimedByPrefix(clock, raws, k);
    }
  }

  function DuplicatesIn(issues: seq<Issue>): nat {
    if issues == [] then 0
    else DuplicatesIn(issues[..|issues| - 1]) + if issues[|issues| - 1].kind == DuplicateTimestamp then 1 else 0
  }

  /** The readable samples whose key an earlier one has. */
  ghost function ClaimedCount(clock: Clock, raws: seq<Raw>): nat {
    if raws == [] then 0
    else
      var n := |raws| - 1;
      ClaimedCount(clock, raws[..n]) + if Readable(clock, raws[n]) && Claimed(clock, raws, n) then 1 else 0
  }

  lemma DuplicatesSnoc(issues: seq<Issue>, s: Issue)
    ensures DuplicatesIn(issues + [s]) == DuplicatesIn(issues) + if s.kind == DuplicateTimestamp then 1 else 0
  {
    assert (issues + [s])[..|issues|] == issues;
  }

  /** The issues name as many duplicates as there are. */
  lemma {:induction false} DuplicatesCounted(clock: Clock, hint: Option<string>, raws: seq<Raw>)
    ensures DuplicatesIn(Processed(clock, hint, raws).issues) == ClaimedCount(clock, raws)
  {
    hide FateOf, DuplicatesIn, Claimed, Readable;
    if raws == [] {
      NoDuplicates();
    } else {
      var n := |raws| - 1;
      var p := Processed(clock, hint, raws[..n]);
      DuplicatesCounted(clock, hint, raws[..n]);
      DuplicateExactly(clock, hint, raws, n);
      match FateOf(clock, hint, p.seen, p.canonical, raws[n], n)
      case Excluded(why) => DuplicatesSnoc(p.issues, Issue(why, n));
      case Kept(_, _) =>
        DuplicatesSnoc(p.issues, Issue(CrossCheckMismatch, n));
        assert p.issues + [] == p.issues;
    }
  }

  lemma NoDuplicates()
    ensures DuplicatesIn([]) == 0
  {
  }

  lemma ClaimedByPrefix(clock: Clock, raws: seq<Raw>, k: nat)
    requires k < |raws| && Readable(clock, raws[k])
    ensures Claimed(clock, raws, k) <==> KeyAmong(clock, raws[..k], KeyOf(clock, raws[k]))
  {
    hide Readable, KeyOf;
    assert forall j :: 0 <= j < k ==> raws[..k][j] == raws[j];
    if KeyAmong(clock, raws[..k], KeyOf(clock, raws[k])) {
      var j :| 0 <= j < k && Readable(clock, raws[..k][j]) && KeyOf(clock, raws[..k][j]) == KeyOf(clock, raws[k]);
      assert Readable(clock, raws[j]);
    }
    if Claimed(clock, raws, k) {
      var j :| 0 <= j < k && Readable(clock, raws[j]) && KeyOf(clock, raws[j]) == KeyOf(clock, raws[k]);
      assert Readable(clock, raws[..k][j]);
    }
  }

  lemma ReadableHasFields(clock: Clock, raw: Raw)
    ensures Readable(clock, raw) ==> HasFields(raw)
  {
  }

  lemma ValuedIsNoDuplicate(clock: Clock, hint: Option<string>, canonical: Option<Kind>, raw: Raw, index: nat)
    requires Readable(clock, raw)
    ensures Valued(clock, hint, canonical, raw, index) != Excluded(DuplicateTimestamp)
  {
    hide Scale, Percent, Diverges, Readable;
  }

  const ALWAYS: Clock := (s: string) => Some(Utc(Date(2026, 1, 1), 0, 0, 0, 0))

  /** 10 of 100 cores. */
  const GOOD := Raw("t", "x", "cpu", "m", "noon", "cores", "s", "e", Finite(100.0), Finite(10.0), Absent)

  lemma ProcessedOne(clock: Clock, hint: Option<string>, raw: Raw)
    ensures Processed(clock, hint, [raw]) == Step(clock, hint, START, raw, 0)
  {
    hide Step;
    assert [raw][..0] == [];
  }

  /** A sample with an impossible total keeps the correct one of the same instant out: with it nothing is kept,
      without it the correct sample is. */
  lemma BadSampleWins()
    ensures var bad := GOOD.(total := Finite(-1.0));
      && Processed(ALWAYS, Some("cpu"), [bad, GOOD]).samples == []
      && FateAt(ALWAYS, Some("cpu"), [bad, GOOD], 1) == Excluded(DuplicateTimestamp)
      && |Processed(ALWAYS, Some("cpu"), [GOOD]).samples| == 1
  {
    hide IsoFormat;
    var bad := GOOD.(total := Finite(-1.0));
    var both := [bad, GOOD];
    assert both[..1] == [bad] && [bad][..0] == [] && [GOOD][..0] == [];
    assert Readable(ALWAYS, bad) && Readable(ALWAYS, GOOD) && KeyOf(ALWAYS, bad) == KeyOf(ALWAYS, GOOD);
    assert Claimed(ALWAYS, both, 1) by {
      assert Readable(ALWAYS, both[0]);
    }
    DuplicateExactly(ALWAYS, Some("cpu"), both, 1);
    var first := Processed(ALWAYS, Some("cpu"), [bad]);
    ProcessedOne(ALWAYS, Some("cpu"), bad);
    ProcessedOne(ALWAYS, Some("cpu"), GOOD);
    assert FateOf(ALWAYS, Some("cpu"), {}, None, bad, 0) == Excluded(InvalidCapacityInput);
    assert Processed(ALWAYS, Some("cpu"), both) == Step(ALWAYS, Some("cpu"), first, GOOD, 1);
  }

  // ---- what is kept ----

  /** A share of a positive total, with the tolerance granted, and the percentage it is. */
  predicate Bounded(used: real, total: real, percent: real) {
    && total > 0.0 && 0.0 <= used <= 1.01 * total
    && percent * total == 100.0 * used
  }

  predicate Sound(s: Sample) {
    ValidUtc(s.at) && Bounded(s.used, s.total, s.percent)
  }

  lemma ScaledBounds(used: real, total: real, factor: real)
    requires factor > 0.0 && total > 0.0 && 0.0 <= used <= total * (1.0 + TOLERANCE)
    ensures Bounded(Times(used, factor), Times(total, factor), Percent(Times(used, factor), Times(total, factor)))
  {
    var t, u := total * factor, used * factor;
    assert used * factor <= total * 1.01 * factor;
    assert t * 1.01 == total * 1.01 * factor;
    assert t > 0.0;
    assert u / t * t == u;
  }

  lemma KeptIsSound(clock: Clock, hint: Option<string>, canonical: Option<Kind>, raw: Raw, index: nat)
    requires Readable(clock, raw) && Valued(clock, hint, canonical, raw, index).Kept?
    ensures var s := Valued(clock, hint, canonical, raw, index).sample;
      && Sound(s) && (canonical.Some? ==> canonical.value == s.kind)
      && KeyOf(clock, raw) == Key(s.target, s.metric, IsoFormat(s.at))
  {
    hide Percent, Times, Bounded, Diverges, IsoFormat, Scale;
    var total, used := raw.total.r, UsedOf(raw, raw.total.r).r;
    ScaledBounds(used, total, Scale(raw, hint).value.1);
  }

  function SampleKey(s: Sample): Key
    requires ValidUtc(s.at)
  {
    Key(s.target, s.metric, IsoFormat(s.at))
  }

  /** Among the samples kept so far: each is sound, of the one kind, and has a claimed key that no other has. */
  predicate Orderly(p: Progress) {
    && (forall i :: 0 <= i < |p.samples| ==> Sound(p.samples[i]) && p.canonical == Some(p.samples[i].kind) && SampleKey(p.samples[i]) in p.seen)
    && (forall i, j :: 0 <= i < j < |p.samples| ==> SampleKey(p.samples[i]) != SampleKey(p.samples[j]))
  }

  lemma {:induction false} SamplesAreOrderly(clock: Clock, hint: Option<string>, raws: seq<Raw>)
    ensures Orderly(Processed(clock, hint, raws))
    ensures Processed(clock, hint, raws).samples == [] ==> Processed(clock, hint, raws).canonical == None
  {
    hide Valued, Readable, Sound, IsoFormat, ValidUtc;
    if raws != [] {
      var n := |raws| - 1;
      var p, raw := Processed(clock, hint, raws[..n]), raws[n];
      SamplesAreOrderly(clock, hint, raws[..n]);
      if FateOf(clock, hint, p.seen, p.canonical, raw, n).Kept? {
        KeptIsSound(clock, hint, p.canonical, raw, n);
      }
    }
  }

  /** Whatever comes in, the samples that come out are in order of time, all of one kind, no two with the same
      target, metric and instant, and each uses between nothing and 1.01 times its total. */
  lemma NormalizedSamples(clock: Clock, hint: Option<string>, raws: seq<Raw>)
    ensures var s := Sort(Sooner, Processed(clock, hint, raws).samples);
      && |s| == |Processed(clock, hint, raws).samples|
      && (forall x :: x in s <==> x in Processed(clock, hint, raws).samples)
      && (forall i, j :: 0 <= i < j < |s| ==> Micros(s[i].at) <= Micros(s[j].at))
      && (forall x <- s :: Sound(x))
      && (forall x <- s, y <- s :: x.kind == y.kind)
  {
    hide Processed, Sound, Sort, Micros;
    var p := Processed(clock, hint, raws);
    SamplesAreOrderly(clock, hint, raws);
    SoonerIsAnOrder();
    SortKeepsElements(Sooner, p.samples);
    SortSorts(Sooner, p.samples);
    var s := Sort(Sooner, p.samples);
    assert forall i, j :: 0 <= i < j < |s| ==> !Sooner(s[j], s[i]);
    forall x | x in s
      ensures Sound(x) && p.canonical == Some(x.kind)
    {
      var i :| 0 <= i < |p.samples| && p.samples[i] == x;
    }
  }
}
