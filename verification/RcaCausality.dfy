/** From hypotheses to a root cause and to recommendations. */
module RcaCausality {
  import opened Options
  import opened RcaRules
  import opened RcaHypotheses
  import opened Digits

  /** Which declared evidence is there. */
  datatype Manifest = Manifest(declared: seq<string>, present: set<string>, missing: set<string>, complete: bool)

  function IdsPresent(items: seq<Evidence>): set<string> {
    set e | e in items :: e.id
  }

  function BuildManifest(declared: seq<string>, items: seq<Evidence>): Manifest {
    var present := IdsPresent(items);
    var missing := (set d | d in declared) - present;
    Manifest(declared, present, missing, missing == {})
  }

  // ---- the completeness gate ----

  const CAPPED := "declared evidence reference(s) missing \U{2014} capped below CONFIRMED"

  function Capped(h: Hypothesis): Hypothesis {
    if h.status == CONFIRMED then h.(status := SUPPORTED, confidence := MEDIUM, missing := h.missing + [CAPPED]) else h
  }

  function Gated(hs: seq<Hypothesis>, m: Manifest): (g: seq<Hypothesis>)
    ensures |g| == |hs|
    ensures forall i :: 0 <= i < |hs| ==> g[i] == if m.complete then hs[i] else Capped(hs[i])
  {
    if m.complete then hs else seq(|hs|, i requires 0 <= i < |hs| => Capped(hs[i]))
  }

  method ApplyGate(hs: seq<Hypothesis>, m: Manifest) returns (adjusted: seq<Hypothesis>)
    ensures adjusted == Gated(hs, m)
  {
    if m.complete {
      return hs;
    }
    adjusted := [];
    for i := 0 to |hs|
      invariant |adjusted| == i && forall k :: 0 <= k < i ==> adjusted[k] == Capped(hs[k])
    {
      adjusted := adjusted + [Capped(hs[i])];
    }
  }

  // ---- the root cause ----

  datatype Completeness = Confirmed | Probable | Inconclusive | Insufficient

  datatype RootCause = RootCause(id: string, completeness: Completeness, confirmed: seq<string>, competing: seq<string>)

  function WithStatus(hs: seq<Hypothesis>, s: Status): (r: seq<Hypothesis>)
    ensures forall h :: h in r <==> h in hs && h.status == s
    ensures |r| <= |hs|
  {
    if hs == [] then []
    else
      var h := hs[|hs| - 1];
      assert hs == hs[..|hs| - 1] + [h];
      WithStatus(hs[..|hs| - 1], s) + if h.status == s then [h] else []
  }

  function WithSources(hs: seq<Hypothesis>, n: nat): (r: seq<Hypothesis>)
    ensures forall h :: h in r <==> h in hs && h.sources == n
  {
    if hs == [] then []
    else
      var h := hs[|hs| - 1];
      assert hs == hs[..|hs| - 1] + [h];
      WithSources(hs[..|hs| - 1], n) + if h.sources == n then [h] else []
  }

  function MostSources(hs: seq<Hypothesis>): (n: nat)
    requires hs != []
    ensures exists h :: h in hs && h.sources == n
    ensures forall h :: h in hs ==> h.sources <= n
  {
    var last := hs[|hs| - 1];
    if |hs| == 1 then assert last in hs; last.sources
    else
      var n := MostSources(hs[..|hs| - 1]);
      assert hs == hs[..|hs| - 1] + [last];
      if last.sources >= n then assert last in hs; last.sources else n
  }

  function IdsOf(hs: seq<Hypothesis>): (ids: seq<string>)
    ensures |ids| == |hs| && forall i :: 0 <= i < |hs| ==> ids[i] == hs[i].id
  {
    seq(|hs|, i requires 0 <= i < |hs| => hs[i].id)
  }

  function RcaId(incident: string): string {
    "RCA-" + incident + "-001"
  }

  function AggregateRootCause(incident: string, hs: seq<Hypothesis>): RootCause {
    var id, confirmed, supported := RcaId(incident), WithStatus(hs, CONFIRMED), WithStatus(hs, SUPPORTED);
    if confirmed != [] then RootCause(id, Confirmed, IdsOf(confirmed), [])
    else if supported == [] then RootCause(id, Insufficient, [], [])
    else
      var top := WithSources(supported, MostSources(supported));
      if |top| == 1 then RootCause(id, Probable, [], [])
      else RootCause(id, Inconclusive, [], IdsOf(top))
  }

  /** A hypothesis is at the top if it is SUPPORTED and no SUPPORTED one has more sources. */
  predicate AtTop(hs: seq<Hypothesis>, h: Hypothesis) {
    h in hs && h.status == SUPPORTED && forall g <- hs :: g.status == SUPPORTED ==> g.sources <= h.sources
  }

  predicate DistinctIds(hs: seq<Hypothesis>) {
    forall i, j :: 0 <= i < j < |hs| ==> hs[i].id != hs[j].id
  }

  lemma {:induction false} FilterKeepsDistinct(hs: seq<Hypothesis>, s: Status, n: nat)
    requires DistinctIds(hs)
    ensures DistinctIds(WithStatus(hs, s)) && DistinctIds(WithSources(hs, n))
  {
    if hs != [] {
      var k := |hs| - 1;
      FilterKeepsDistinct(hs[..k], s, n);
      forall h | h in hs[..k]
        ensures h.id != hs[k].id
      {
        var i :| 0 <= i < k && hs[..k][i] == h;
        assert hs[i].id != hs[k].id;
      }
      DistinctSnoc(WithStatus(hs[..k], s), hs[k]);
      DistinctSnoc(WithSources(hs[..k], n), hs[k]);
    }
  }

  lemma DistinctSnoc(hs: seq<Hypothesis>, h: Hypothesis)
    requires DistinctIds(hs) && forall g <- hs :: g.id != h.id
    ensures DistinctIds(hs + [h])
  {
    assert forall i :: 0 <= i < |hs| ==> hs[i] in hs;
  }

  predicate NoneIs(hs: seq<Hypothesis>, s: Status) {
    forall h <- hs :: h.status != s
  }

  /** The result is CONFIRMED exactly when some hypothesis is, and then it names exactly those. */
  lemma ConfirmedExactly(incident: string, hs: seq<Hypothesis>)
    ensures var rc := AggregateRootCause(incident, hs);
      && (rc.completeness == Confirmed <==> !NoneIs(hs, CONFIRMED))
      && (forall id :: id in rc.confirmed <==> exists h :: h in hs && h.status == CONFIRMED && h.id == id)
  {
    hide WithStatus, WithSources, MostSources;
    var confirmed := WithStatus(hs, CONFIRMED);
    IdsHold(confirmed);
    EmptyOrFirst(confirmed);
  }

  /** One hypothesis alone is at the top. */
  ghost predicate OneAtTop(hs: seq<Hypothesis>) {
    exists h :: AtTop(hs, h) && forall g :: AtTop(hs, g) ==> g == h
  }

  /** The ids of exactly those at the top. */
  ghost predicate IdsAtTop(hs: seq<Hypothesis>, ids: seq<string>) {
    forall id :: id in ids <==> exists h :: AtTop(hs, h) && h.id == id
  }

  lemma Top(hs: seq<Hypothesis>, supported: seq<Hypothesis>) returns (top: seq<Hypothesis>)
    requires DistinctIds(hs) && supported == WithStatus(hs, SUPPORTED) && supported != []
    ensures top == WithSources(supported, MostSources(supported))
    ensures |top| == 1 <==> OneAtTop(hs)
    ensures IdsAtTop(hs, IdsOf(top))
  {
    hide WithStatus, WithSources, MostSources, DistinctIds, AtTop, OneAtTop, IdsAtTop;
    var n := MostSources(supported);
    top := WithSources(supported, n);
    TopIsTop(hs, n);
    FilterKeepsDistinct(hs, SUPPORTED, n);
    FilterKeepsDistinct(supported, SUPPORTED, n);
    SomeAtTop(supported, n);
    IdsOfTop(hs, top);
    OneOfTop(hs, top);
  }

  lemma IdsOfTop(hs: seq<Hypothesis>, top: seq<Hypothesis>)
    requires forall h :: h in top <==> AtTop(hs, h)
    ensures IdsAtTop(hs, IdsOf(top))
  {
    hide AtTop, IdsOf;
    IdsHold(top);
  }

  lemma OneOfTop(hs: seq<Hypothesis>, top: seq<Hypothesis>)
    requires top != [] && DistinctIds(top) && forall h :: h in top <==> AtTop(hs, h)
    ensures |top| == 1 <==> OneAtTop(hs)
  {
    hide AtTop;
    assert top[0] in top;
    if |top| == 1 {
      assert forall g :: AtTop(hs, g) ==> g == top[0];
    } else {
      assert top[1] in top && top[0].id != top[1].id;
    }
  }

  /** Otherwise it is INSUFFICIENT when nothing is SUPPORTED, PROBABLE when one hypothesis alone is at the
      top, and INCONCLUSIVE when several are, and then it names exactly those. */
  lemma UnconfirmedExactly(incident: string, hs: seq<Hypothesis>)
    requires DistinctIds(hs) && NoneIs(hs, CONFIRMED)
    ensures var rc := AggregateRootCause(incident, hs);
      && (rc.completeness == Insufficient <==> NoneIs(hs, SUPPORTED))
      && (rc.completeness == Probable <==> OneAtTop(hs))
      && (rc.completeness == Inconclusive ==> IdsAtTop(hs, rc.competing))
  {
    hide WithStatus, WithSources, MostSources, DistinctIds, AtTop, OneAtTop, IdsAtTop;
    var supported := WithStatus(hs, SUPPORTED);
    EmptyOrFirst(WithStatus(hs, CONFIRMED));
    EmptyOrFirst(supported);
    if supported != [] {
      var top := Top(hs, supported);
    } else {
      NoTop(hs);
    }
  }

  lemma SomeAtTop(hs: seq<Hypothesis>, n: nat)
    requires hs != [] && n == MostSources(hs)
    ensures WithSources(hs, n) != []
  {
    hide WithSources, MostSources;
    var h :| h in hs && h.sources == n;
    assert h in WithSources(hs, n);
  }

  lemma NoTop(hs: seq<Hypothesis>)
    ensures NoneIs(hs, SUPPORTED) ==> !OneAtTop(hs)
  {
  }

  lemma EmptyOrFirst(hs: seq<Hypothesis>)
    ensures hs == [] <==> forall h :: h !in hs
  {
    if hs != [] {
      assert hs[0] in hs;
    }
  }

  lemma TopIsTop(hs: seq<Hypothesis>, n: nat)
    requires WithStatus(hs, SUPPORTED) != [] && n == MostSources(WithStatus(hs, SUPPORTED))
    ensures forall h :: h in WithSources(WithStatus(hs, SUPPORTED), n) <==> AtTop(hs, h)
  {
    hide WithStatus, WithSources, MostSources;
  }

  lemma IdsHold(hs: seq<Hypothesis>)
    ensures forall id :: id in IdsOf(hs) <==> exists h :: h in hs && h.id == id
  {
    forall id
      ensures id in IdsOf(hs) <==> exists h :: h in hs && h.id == id
    {
      if id in IdsOf(hs) {
        var i :| 0 <= i < |hs| && IdsOf(hs)[i] == id;
        assert hs[i] in hs;
      }
      if h :| h in hs && h.id == id {
        var i :| 0 <= i < |hs| && hs[i] == h;
        assert IdsOf(hs)[i] == id;
      }
    }
  }

  // ---- recommendations ----

  datatype Recommendation = Recommendation(id: string, linkedTo: string, action: string, executed: bool)

  /** A number with at least three digits. */
  function Number3(n: nat): string {
    if n < 1000 then Pad(n, 3) else Decimal(n)
  }

  function RecId(rcaId: string, n: nat): string {
    "REC-" + rcaId + "-" + Number3(n)
  }

  /** The rule a dictionary by rule id holds. */
  function RuleOf(rules: seq<Rule>, id: string): Option<Rule> {
    if rules == [] then None
    else if rules[|rules| - 1].id == id then Some(rules[|rules| - 1])
    else RuleOf(rules[..|rules| - 1], id)
  }

  function ActionsFor(rules: seq<Rule>, h: Hypothesis, confirmed: seq<string>): seq<string> {
    if h.id in confirmed && RuleOf(rules, h.ruleId).Some? then RuleOf(rules, h.ruleId).value.actions else []
  }

  function Actions(rules: seq<Rule>, hs: seq<Hypothesis>, confirmed: seq<string>): seq<string> {
    if hs == [] then []
    else Actions(rules, hs[..|hs| - 1], confirmed) + ActionsFor(rules, hs[|hs| - 1], confirmed)
  }

  function Numbered(rcaId: string, actions: seq<string>): (recs: seq<Recommendation>)
    ensures |recs| == |actions|
    ensures forall i :: 0 <= i < |actions| ==> recs[i] == Recommendation(RecId(rcaId, i + 1), rcaId, actions[i], false)
  {
    seq(|actions|, i requires 0 <= i < |actions| => Recommendation(RecId(rcaId, i + 1), rcaId, actions[i], false))
  }

  function Recommended(rules: seq<Rule>, hs: seq<Hypothesis>, rc: RootCause): seq<Recommendation> {
    if rc.completeness != Confirmed then [] else Numbered(rc.id, Actions(rules, hs, rc.confirmed))
  }

  method BuildRecommendations(rules: seq<Rule>, hs: seq<Hypothesis>, rc: RootCause) returns (recs: seq<Recommendation>)
    ensures recs == Recommended(rules, hs, rc)
  {
    hide RuleOf, RecId;
    recs := [];
    if rc.completeness != Confirmed {
      return;
    }
    var number := 1;
    for i := 0 to |hs|
      invariant recs == Numbered(rc.id, Actions(rules, hs[..i], rc.confirmed)) && number == |recs| + 1
    {
      assert hs[..i + 1][..i] == hs[..i];
      ghost var before, actions := Actions(rules, hs[..i], rc.confirmed), ActionsFor(rules, hs[i], rc.confirmed);
      if hs[i].id in rc.confirmed {
        var rule := RuleOf(rules, hs[i].ruleId);
        if rule.Some? {
          for k := 0 to |rule.value.actions|
            invariant recs == Numbered(rc.id, before + actions[..k]) && number == |recs| + 1
          {
            recs := recs + [Recommendation(RecId(rc.id, number), rc.id, rule.value.actions[k], false)];
            number := number + 1;
          }
          assert actions[..|actions|] == actions;
        }
      }
    }
    assert hs[..|hs|] == hs;
  }

  // ---- the composition ----

  datatype Result = Result(incident: string, manifest: Manifest, hypotheses: seq<Hypothesis>, rootCause: RootCause,
                           recommendations: seq<Recommendation>)

  function Pipeline(incident: string, declared: seq<string>, rules: seq<Rule>, items: seq<Evidence>, max: nat): Result {
    var m := BuildManifest(declared, items);
    var hs := Gated(Generated(incident, rules, items, max), m);
    var rc := AggregateRootCause(incident, hs);
    Result(incident, m, hs, rc, Recommended(rules, hs, rc))
  }

  method RunRca(incident: string, declared: seq<string>, rules: seq<Rule>, items: seq<Evidence>, max: nat) returns (r: Result)
    ensures r == Pipeline(incident, declared, rules, items, max)
  {
    hide Generated, Gated, AggregateRootCause, Recommended;
    var m := BuildManifest(declared, items);
    var generated, _ := GenerateHypotheses(incident, rules, items, max);
    var hs := ApplyGate(generated, m);
    var rc := AggregateRootCause(incident, hs);
    var recs := BuildRecommendations(rules, hs, rc);
    r := Result(incident, m, hs, rc, recs);
  }
}
