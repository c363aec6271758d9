/** The independent checker of a root-cause result, and what it accepts of what the pipeline emits. */
module RcaContract {
  import opened Options
  import opened RcaRules
  import opened RcaHypotheses
  import opened RcaCausality
  import opened RcaSurvivors
  import opened Digits
  import opened Sorting

  const ALLOWED_DOMAINS := {"oracle", "os", "rac", "asm", "dataguard", "multitenant", "rman", "network", "security",
                            "capacity", "performance"}

  /** The identifier check: is this text a safe id with one of the prefixes a field allows? */
  type IdCheck = (string, string) -> bool

  /** Whether a recommendation's text is free of executable content. */
  type TextCheck = string -> bool

  // ---- limits and grammar, which look at one field at a time ----

  predicate SafeList(safe: IdCheck, prefix: string, ids: seq<string>, max: nat) {
    |ids| <= max && forall id <- ids :: safe(prefix, id)
  }

  predicate SafeSet(safe: IdCheck, prefix: string, ids: set<string>, max: nat) {
    |ids| <= max && forall id <- ids :: safe(prefix, id)
  }

  predicate HypothesisWithin(safe: IdCheck, h: Hypothesis) {
    && SafeList(safe, "EVD", h.supporting, 200) && SafeList(safe, "EVD", h.contradicting, 200)
    && |h.missing| <= 30 && h.sources <= 1000
  }

  predicate WithinLimits(safe: IdCheck, inert: TextCheck, r: Result) {
    && safe("INC", r.incident) && safe("RCA", r.rootCause.id)
    && SafeList(safe, "EVD", r.manifest.declared, 500)
    && SafeSet(safe, "EVD", r.manifest.present, 500) && SafeSet(safe, "EVD", r.manifest.missing, 500)
    && |r.hypotheses| <= 100 && (forall h <- r.hypotheses :: HypothesisWithin(safe, h))
    && SafeList(safe, "HYP", r.rootCause.confirmed, 50) && SafeList(safe, "HYP", r.rootCause.competing, 50)
    && |r.recommendations| <= 100
    && (forall x <- r.recommendations :: safe("REC", x.id) && inert(x.action))
  }

  /** The sizes of a result, each with the most the adapter takes. */
  function Sizes(r: Result): seq<(nat, nat)> {
    [(|r.manifest.declared|, 500), (|r.manifest.present|, 500), (|r.manifest.missing|, 500), (|r.hypotheses|, 100),
     (|r.rootCause.confirmed|, 50), (|r.rootCause.competing|, 50), (|r.recommendations|, 100)]
  }

  function SizesOf(h: Hypothesis): seq<(nat, nat)> {
    [(|h.supporting|, 200), (|h.contradicting|, 200), (|h.missing|, 30), (h.sources, 1000)]
  }

  /** Every id is safe under the prefix of what it names. */
  predicate SafeIds(safe: IdCheck, r: Result) {
    && safe("INC", r.incident) && safe("RCA", r.rootCause.id)
    && (forall e <- r.manifest.declared :: safe("EVD", e)) && (forall e <- r.manifest.present + r.manifest.missing :: safe("EVD", e))
    && (forall h <- r.hypotheses, e <- h.supporting + h.contradicting :: safe("EVD", e))
    && (forall id <- r.rootCause.confirmed + r.rootCause.competing :: safe("HYP", id))
    && (forall x <- r.recommendations :: safe("REC", x.id))
  }

  /** The limits are these sizes, safe ids, and inert recommendations. */
  lemma LimitsAreSizes(safe: IdCheck, inert: TextCheck, r: Result)
    ensures WithinLimits(safe, inert, r) <==>
      && (forall s <- Sizes(r) :: s.0 <= s.1) && (forall h <- r.hypotheses, s <- SizesOf(h) :: s.0 <= s.1)
      && SafeIds(safe, r) && forall x <- r.recommendations :: inert(x.action)
  {
    assert (forall s <- Sizes(r) :: s.0 <= s.1) <==>
      && |r.manifest.declared| <= 500 && |r.manifest.present| <= 500 && |r.manifest.missing| <= 500 && |r.hypotheses| <= 100
      && |r.rootCause.confirmed| <= 50 && |r.rootCause.competing| <= 50 && |r.recommendations| <= 100 by {
      var s := Sizes(r);
      assert s[0] in s && s[1] in s && s[2] in s && s[3] in s && s[4] in s && s[5] in s && s[6] in s;
    }
    forall h | h in r.hypotheses
      ensures HypothesisWithin(safe, h) <==>
        (forall s <- SizesOf(h) :: s.0 <= s.1) && forall e <- h.supporting + h.contradicting :: safe("EVD", e)
    {
      WithinOne(safe, h);
    }
  }

  lemma WithinOne(safe: IdCheck, h: Hypothesis)
    ensures HypothesisWithin(safe, h) <==>
      (forall s <- SizesOf(h) :: s.0 <= s.1) && forall e <- h.supporting + h.contradicting :: safe("EVD", e)
  {
    var s := SizesOf(h);
    assert s[0] in s && s[1] in s && s[2] in s && s[3] in s;
    assert forall e :: e in h.supporting || e in h.contradicting ==> e in h.supporting + h.contradicting;
  }

  // ---- consistency, which looks across fields ----

  predicate ManifestConsistent(m: Manifest) {
    && NoRepeats(m.declared)
    && m.missing * m.present == {}
    && (m.complete ==> m.missing == {})
  }

  predicate HypothesisConsistent(rules: seq<Rule>, incident: string, known: set<string>, h: Hypothesis) {
    && RuleOf(rules, h.ruleId).Some?
    && h.id == HypothesisId(incident, h.ruleId)
    && h.domain == RuleOf(rules, h.ruleId).value.domain && h.domain in ALLOWED_DOMAINS
    && NoRepeats(h.supporting) && NoRepeats(h.contradicting)
    && (forall id <- h.supporting + h.contradicting :: id in known)
    && !(h.status == CONFIRMED && (h.critical || h.supporting == []))
  }

  predicate HypothesesConsistent(rules: seq<Rule>, incident: string, known: set<string>, hs: seq<Hypothesis>) {
    && DistinctIds(hs)
    && forall h <- hs :: HypothesisConsistent(rules, incident, known, h)
  }

  predicate RootCauseConsistent(r: Result) {
    var rc := r.rootCause;
    && rc.id == RcaId(r.incident)
    && NoRepeats(rc.confirmed) && NoRepeats(rc.competing)
    && (forall id <- rc.confirmed + rc.competing :: exists h :: h in r.hypotheses && h.id == id)
    && (rc.completeness == Confirmed ==>
          rc.confirmed != [] && r.manifest.complete
          && forall h <- r.hypotheses :: h.id in rc.confirmed ==> h.status == CONFIRMED)
    && (rc.completeness == Inconclusive || rc.completeness == Insufficient ==> rc.confirmed == [])
  }

  /** `REC-`, the id of the root cause, and exactly three digits. */
  predicate IsRecId(rcaId: string, id: string) {
    var prefix := "REC-" + rcaId + "-";
    |id| == |prefix| + 3 && prefix <= id && AllDigits(id[|prefix|..])
  }

  predicate RecommendationsConsistent(r: Result) {
    && (forall x <- r.recommendations :: IsRecId(r.rootCause.id, x.id) && x.linkedTo == r.rootCause.id && !x.executed)
    && forall i, j :: 0 <= i < j < |r.recommendations| ==> r.recommendations[i].id != r.recommendations[j].id
  }

  predicate Consistent(rules: seq<Rule>, timeline: set<string>, r: Result) {
    && ManifestConsistent(r.manifest)
    && HypothesesConsistent(rules, r.incident, r.manifest.present + timeline, r.hypotheses)
    && RootCauseConsistent(r)
    && RecommendationsConsistent(r)
  }

  /** The adapter takes a result, `timeline` being the evidence ids its timeline mentions. */
  predicate Accepts(safe: IdCheck, inert: TextCheck, rules: seq<Rule>, timeline: set<string>, r: Result) {
    WithinLimits(safe, inert, r) && Consistent(rules, timeline, r)
  }

  /** The adapter's loop over the hypotheses, with the ids seen so far. */
  method AdaptHypotheses(safe: IdCheck, rules: seq<Rule>, incident: string, known: set<string>, hs: seq<Hypothesis>) returns (ok: bool)
    ensures ok <==> |hs| <= 100 && HypothesesConsistent(rules, incident, known, hs) && forall h <- hs :: HypothesisWithin(safe, h)
  {
    hide HypothesisConsistent, HypothesisWithin;
    if |hs| > 100 {
      return false;
    }
    var seen := {};
    for i := 0 to |hs|
      invariant forall id :: id in seen <==> exists k :: 0 <= k < i && hs[k].id == id
      invariant DistinctIds(hs[..i])
      invariant forall k :: 0 <= k < i ==> HypothesisConsistent(rules, incident, known, hs[k]) && HypothesisWithin(safe, hs[k])
    {
      if hs[i].id in seen || !HypothesisConsistent(rules, incident, known, hs[i]) || !HypothesisWithin(safe, hs[i]) {
        assert hs[i] in hs;
        return false;
      }
      seen := seen + {hs[i].id};
    }
    assert hs[..|hs|] == hs;
    ok := true;
  }

  // ---- what the pipeline emits ----

  /** The evidence for a rule suffices for the adapter: a status of CONFIRMED never rests on temporal proof
      alone, nor on a rule that asks for no source at all. */
  predicate Backed(r: Rule, items: seq<Evidence>) {
    var v := Evaluate(r, items);
    v.supporting != [] || v.critical || (!v.temporal && r.minSources >= 1)
  }

  lemma IdsArePresent(items: seq<Evidence>, conditions: seq<Condition>)
    ensures NoRepeats(IdsFor(items, conditions))
    ensures forall id <- IdsFor(items, conditions) :: id in IdsPresent(items)
  {
    hide IdsFor, ConditionMatches, NoRepeats;
    IdsForHolds(items, conditions);
  }

  lemma HypothesisIsConsistent(incident: string, rules: seq<Rule>, items: seq<Evidence>, known: set<string>, k: nat, m: Manifest)
    requires k < |rules| && DistinctRules(rules) && IdsPresent(items) <= known
    ensures var h := Hypothesize(incident, rules[k], Evaluate(rules[k], items));
      HypothesisConsistent(rules, incident, known, if m.complete then h else Capped(h)) <==>
        rules[k].domain in ALLOWED_DOMAINS && (m.complete ==> Backed(rules[k], items))
  {
    hide IdsFor, SupportingSources, CriticalHit, Matched, SymptomIds, Missing, RuleOf, NoRepeats, IdsPresent, HypothesisId;
    RuleOfMember(rules, k);
    IdsArePresent(items, rules[k].supporting);
    IdsArePresent(items, rules[k].contradicting);
    IdsAndSources(items, rules[k].supporting);
    NoSources(SupportingSources(items, rules[k].supporting));
  }

  lemma NoSources(s: set<string>)
    ensures |s| == 0 <==> s == {}
  {
  }

  /** Every hypothesis kept belongs to a rule of an allowed domain and, when the evidence is complete, is
      backed by some evidence. */
  predicate Sound(rules: seq<Rule>, items: seq<Evidence>, m: Manifest, hs: seq<Hypothesis>) {
    forall h <- hs :: RuleOf(rules, h.ruleId).Some? &&
      var r := RuleOf(rules, h.ruleId).value;
      r.domain in ALLOWED_DOMAINS && (m.complete ==> Backed(r, items))
  }

  /** The same, said of the rules and the evidence: a rule that survives the ranking has an allowed domain and, when
      nothing declared is missing, is backed. */
  predicate RulesSound(rules: seq<Rule>, items: seq<Evidence>, max: nat, declared: seq<string>) {
    forall r <- rules :: Survives(rules, items, max, r) ==>
      r.domain in ALLOWED_DOMAINS && ((forall id <- declared :: id in IdsPresent(items)) ==> Backed(r, items))
  }

  lemma CompleteExactly(declared: seq<string>, items: seq<Evidence>)
    ensures BuildManifest(declared, items).complete <==> forall id <- declared :: id in IdsPresent(items)
  {
    hide IdsPresent;
    var missing := BuildManifest(declared, items).missing;
    assert forall id <- declared :: id in IdsPresent(items) || id in missing;
  }

  lemma SoundByRules(incident: string, rules: seq<Rule>, items: seq<Evidence>, max: nat, declared: seq<string>)
    requires DistinctRules(rules)
    ensures var m := BuildManifest(declared, items);
      Sound(rules, items, m, Gated(Generated(incident, rules, items, max), m)) <==> RulesSound(rules, items, max, declared)
  {
    hide Generated, Backed, Evaluate, IdsPresent, DistinctRules, RuleOf, BuildManifest, Survives, ComesFrom;
    var m, generated := BuildManifest(declared, items), Generated(incident, rules, items, max);
    var hs := Gated(generated, m);
    CompleteExactly(declared, items);
    if Sound(rules, items, m, hs) {
      forall r | r in rules && Survives(rules, items, max, r)
        ensures r.domain in ALLOWED_DOMAINS && (m.complete ==> Backed(r, items))
      {
        var k :| 0 <= k < |rules| && rules[k] == r;
        SurvivesExactly(incident, rules, items, max, k);
        RuleOfMember(rules, k);
        var i :| 0 <= i < |generated| && generated[i] == Hypothesize(incident, r, Evaluate(r, items));
        assert hs[i] in hs && hs[i].ruleId == r.id;
      }
    }
    if RulesSound(rules, items, max, declared) {
      GeneratedComeFrom(incident, rules, items, max);
      forall h | h in hs
        ensures RuleOf(rules, h.ruleId).Some?
        ensures var r := RuleOf(rules, h.ruleId).value; r.domain in ALLOWED_DOMAINS && (m.complete ==> Backed(r, items))
      {
        var i :| 0 <= i < |hs| && hs[i] == h;
        assert generated[i] in generated;
        var k := Origin(incident, rules, items, generated[i]);
        SurvivesExactly(incident, rules, items, max, k);
        RuleOfMember(rules, k);
        assert rules[k] in rules && h.ruleId == rules[k].id;
      }
    }
  }

  lemma GatedDistinct(hs: seq<Hypothesis>, m: Manifest)
    requires DistinctIds(hs)
    ensures DistinctIds(Gated(hs, m))
  {
  }

  lemma HypothesesAreConsistent(incident: string, rules: seq<Rule>, items: seq<Evidence>, known: set<string>, max: nat, m: Manifest)
    requires DistinctRules(rules) && IdsPresent(items) <= known
    ensures var hs := Gated(Generated(incident, rules, items, max), m);
      HypothesesConsistent(rules, incident, known, hs) <==> Sound(rules, items, m, hs)
  {
    hide Generated, Gated, HypothesisConsistent, Backed, RuleOf, Evaluate, IdsPresent, DistinctRules, DistinctIds;
    var generated := Generated(incident, rules, items, max);
    var hs := Gated(generated, m);
    GeneratedComeFrom(incident, rules, items, max);
    GatedDistinct(generated, m);
    forall h | h in hs
      ensures RuleOf(rules, h.ruleId).Some?
      ensures HypothesisConsistent(rules, incident, known, h) <==>
        RuleOf(rules, h.ruleId).value.domain in ALLOWED_DOMAINS && (m.complete ==> Backed(RuleOf(rules, h.ruleId).value, items))
    {
      var i :| 0 <= i < |hs| && hs[i] == h;
      assert generated[i] in generated;
      var k :| 0 <= k < |rules| && generated[i] == Hypothesize(incident, rules[k], Evaluate(rules[k], items));
      HypothesisIsConsistent(incident, rules, items, known, k, m);
      RuleOfMember(rules, k);
      assert h.ruleId == rules[k].id;
    }
  }

  // ---- root cause and recommendations ----

  lemma IdsNoRepeats(hs: seq<Hypothesis>)
    requires DistinctIds(hs)
    ensures NoRepeats(IdsOf(hs)) && forall id <- IdsOf(hs) :: exists h :: h in hs && h.id == id
  {
    IdsHold(hs);
  }

  /** With declared evidence missing, nothing is CONFIRMED. */
  lemma GateHolds(hs: seq<Hypothesis>, m: Manifest)
    ensures !m.complete ==> NoneIs(Gated(hs, m), CONFIRMED)
  {
  }

  lemma RootCauseIsConsistent(incident: string, m: Manifest, generated: seq<Hypothesis>, recs: seq<Recommendation>)
    requires DistinctIds(generated)
    ensures var hs := Gated(generated, m);
      RootCauseConsistent(Result(incident, m, hs, AggregateRootCause(incident, hs), recs))
  {
    hide WithStatus, WithSources, MostSources, Gated, DistinctIds, NoRepeats, RcaId;
    var hs := Gated(generated, m);
    var rc := AggregateRootCause(incident, hs);
    GatedDistinct(generated, m);
    GateHolds(generated, m);
    ConfirmedExactly(incident, hs);
    var confirmed, supported := WithStatus(hs, CONFIRMED), WithStatus(hs, SUPPORTED);
    FilterKeepsDistinct(hs, CONFIRMED, 0);
    FilterKeepsDistinct(hs, SUPPORTED, 0);
    IdsNoRepeats(confirmed);
    NothingRepeats();
    if supported != [] {
      var n := MostSources(supported);
      FilterKeepsDistinct(supported, SUPPORTED, n);
      IdsNoRepeats(WithSources(supported, n));
    }
    if rc.completeness == Confirmed {
      assert confirmed[0] in confirmed;
      forall h | h in hs && h.id in rc.confirmed
        ensures h.status == CONFIRMED
      {
        var g :| g in hs && g.status == CONFIRMED && g.id == h.id;
        SameIdSame(hs, g, h);
      }
    }
  }

  lemma Number3IsRead(n: nat)
    requires n < 1000
    ensures |Number3(n)| == 3 && AllDigits(Number3(n)) && ParseNat(Number3(n)) == n
  {
    assert Pow10(3) == 1000 by {
      assert Pow10(2) == 100 && Pow10(1) == 10;
    }
    ParsePad(n, 3);
  }

  lemma RecIdIsRead(rcaId: string, n: nat)
    requires n < 1000
    ensures IsRecId(rcaId, RecId(rcaId, n)) && RecId(rcaId, n)[|"REC-" + rcaId + "-"|..] == Number3(n)
  {
    hide Number3;
    Number3IsRead(n);
    var prefix := "REC-" + rcaId + "-";
    assert RecId(rcaId, n) == prefix + Number3(n);
  }

  lemma RecommendationsAreConsistent(r: Result, actions: seq<string>)
    requires r.recommendations == Numbered(r.rootCause.id, actions) && |actions| < 1000
    ensures RecommendationsConsistent(r)
  {
    hide RecId, IsRecId, Number3, ParseNat;
    var recs, rcaId := r.recommendations, r.rootCause.id;
    forall i | 0 <= i < |recs|
      ensures IsRecId(rcaId, recs[i].id)
    {
      RecIdIsRead(rcaId, i + 1);
    }
    forall i, j | 0 <= i < j < |recs|
      ensures recs[i].id != recs[j].id
    {
      RecIdIsRead(rcaId, i + 1);
      RecIdIsRead(rcaId, j + 1);
      Number3IsRead(i + 1);
      Number3IsRead(j + 1);
    }
  }

  /** The id names a confirmed, uncontradicted hypothesis that some known evidence supports. */
  ghost predicate ConfirmedFor(r: Result, timeline: set<string>, id: string) {
    exists h, e :: h in r.hypotheses && h.id == id && h.status == CONFIRMED && !h.critical && e in h.supporting && Known(r, timeline, e)
  }

  predicate Known(r: Result, timeline: set<string>, e: string) {
    e in r.manifest.present || e in timeline
  }

  /** The hypothesis has the id, the domain and the evidence it may have. */
  ghost predicate InOrder(rules: seq<Rule>, r: Result, timeline: set<string>, h: Hypothesis) {
    && h.id == "HYP-" + r.incident + "-" + h.ruleId
    && (exists rule :: rule in rules && rule.id == h.ruleId && rule.domain == h.domain)
    && h.domain in {"oracle", "os", "rac", "asm", "dataguard", "multitenant", "rman", "network", "security", "capacity", "performance"}
    && (forall e <- h.supporting :: Known(r, timeline, e)) && (forall e <- h.contradicting :: Known(r, timeline, e))
    && |h.supporting| <= 200 && |h.contradicting| <= 200 && |h.missing| <= 30 && h.sources <= 1000
  }

  /** What is asked of each hypothesis: its own id, a rule of the catalogue with its domain, an allowed one, no evidence
      named twice, all of it known, and if it is confirmed, support and no critical contradiction. */
  lemma ConsistentExactly(rules: seq<Rule>, incident: string, known: set<string>, h: Hypothesis)
    requires DistinctRules(rules)
    ensures HypothesisConsistent(rules, incident, known, h) <==>
      && h.id == "HYP-" + incident + "-" + h.ruleId
      && (exists rule :: rule in rules && rule.id == h.ruleId && rule.domain == h.domain)
      && h.domain in {"oracle", "os", "rac", "asm", "dataguard", "multitenant", "rman", "network", "security", "capacity", "performance"}
      && (forall i, j :: 0 <= i < j < |h.supporting| ==> h.supporting[i] != h.supporting[j])
      && (forall i, j :: 0 <= i < j < |h.contradicting| ==> h.contradicting[i] != h.contradicting[j])
      && (forall e <- h.supporting :: e in known) && (forall e <- h.contradicting :: e in known)
      && (h.status == CONFIRMED ==> !h.critical && |h.supporting| > 0)
  {
    hide RuleOf, DistinctRules;
    RuleIsListed(rules, h.ruleId);
    if rule :| rule in rules && rule.id == h.ruleId && rule.domain == h.domain {
      var k :| 0 <= k < |rules| && rules[k] == rule;
      RuleOfMember(rules, k);
    }
    assert forall e :: e in h.supporting + h.contradicting <==> e in h.supporting || e in h.contradicting;
  }

  lemma ConsistentIsInOrder(safe: IdCheck, rules: seq<Rule>, r: Result, timeline: set<string>, h: Hypothesis)
    requires HypothesisConsistent(rules, r.incident, r.manifest.present + timeline, h) && HypothesisWithin(safe, h)
    ensures InOrder(rules, r, timeline, h)
  {
    hide RuleOf;
    RuleIsListed(rules, h.ruleId);
    forall e | e in h.supporting || e in h.contradicting
      ensures Known(r, timeline, e)
    {
      assert e in h.supporting + h.contradicting;
    }
  }

  /** What a consumer can rely on in any accepted result, whoever composed it: a confirmed root cause names hypotheses that
      are confirmed, uncontradicted and supported by known evidence, with nothing declared missing; other outcomes that
      settle nothing name none; what is named is a hypothesis; every hypothesis has its own id, a rule of the catalogue and
      that rule's domain; and every recommendation is linked, unexecuted and has its own id. */
  lemma AcceptedIsBacked(safe: IdCheck, inert: TextCheck, rules: seq<Rule>, timeline: set<string>, r: Result)
    requires Accepts(safe, inert, rules, timeline, r)
    ensures r.rootCause.id == "RCA-" + r.incident + "-001"
    ensures r.rootCause.completeness == Confirmed ==>
      r.rootCause.confirmed != [] && r.manifest.missing == {} && forall id <- r.rootCause.confirmed :: ConfirmedFor(r, timeline, id)
    ensures r.rootCause.completeness in {Inconclusive, Insufficient} ==> r.rootCause.confirmed == []
    ensures forall id <- r.rootCause.confirmed + r.rootCause.competing :: exists h :: h in r.hypotheses && h.id == id
    ensures forall h <- r.hypotheses :: InOrder(rules, r, timeline, h)
    ensures forall i, j :: 0 <= i < j < |r.hypotheses| ==> r.hypotheses[i].id != r.hypotheses[j].id
    ensures forall x <- r.recommendations :: x.linkedTo == r.rootCause.id && !x.executed && inert(x.action) && safe("REC", x.id)
    ensures forall i, j :: 0 <= i < j < |r.recommendations| ==> r.recommendations[i].id != r.recommendations[j].id
    ensures |r.hypotheses| <= 100 && |r.recommendations| <= 100
    ensures forall i, j :: 0 <= i < j < |r.manifest.declared| ==> r.manifest.declared[i] != r.manifest.declared[j]
    ensures r.manifest.missing * r.manifest.present == {} && (r.manifest.complete ==> r.manifest.missing == {})
  {
    hide RuleOf, IsRecId, SafeList, SafeSet, InOrder;
    var rc := r.rootCause;
    forall h | h in r.hypotheses
      ensures InOrder(rules, r, timeline, h)
    {
      ConsistentIsInOrder(safe, rules, r, timeline, h);
    }
    if rc.completeness == Confirmed {
      forall id | id in rc.confirmed
        ensures ConfirmedFor(r, timeline, id)
      {
        assert id in rc.confirmed + rc.competing;
        var h :| h in r.hypotheses && h.id == id;
        assert h.supporting[0] in h.supporting + h.contradicting;
        assert h.supporting[0] in h.supporting && Known(r, timeline, h.supporting[0]);
      }
    }
  }

  lemma {:induction false} RuleIsListed(rules: seq<Rule>, id: string)
    ensures RuleOf(rules, id).Some? ==> RuleOf(rules, id).value in rules && RuleOf(rules, id).value.id == id
  {
    if rules != [] {
      var n := |rules| - 1;
      RuleIsListed(rules[..n], id);
      assert rules == rules[..n] + [rules[n]];
    }
  }

  lemma MissingIsNotPresent(declared: seq<string>, items: seq<Evidence>)
    ensures ManifestConsistent(BuildManifest(declared, items)) <==> NoRepeats(declared)
  {
  }

  /** Engine and checker agree: whatever the rules, the evidence and the declared references, a result the
      pipeline composes within the adapter's limits is accepted exactly when no reference is declared twice and
      every rule that survives the ranking has an allowed domain and, unless something declared is missing, is
      backed. All of this can be read from the rules and the evidence. */
  lemma PipelineIsAccepted(safe: IdCheck, inert: TextCheck, incident: string, declared: seq<string>, rules: seq<Rule>,
                           items: seq<Evidence>, max: nat, timeline: set<string>)
    requires DistinctRules(rules)
    requires WithinLimits(safe, inert, Pipeline(incident, declared, rules, items, max))
    ensures Accepts(safe, inert, rules, timeline, Pipeline(incident, declared, rules, items, max)) <==>
      NoRepeats(declared) && RulesSound(rules, items, max, declared)
  {
    hide WithinLimits, Generated, Gated, AggregateRootCause, RootCauseConsistent, RecommendationsConsistent,
      ManifestConsistent, HypothesesConsistent, Sound, RulesSound, NoRepeats, DistinctIds, DistinctRules, IdsPresent;
    var r := Pipeline(incident, declared, rules, items, max);
    var m, generated := BuildManifest(declared, items), Generated(incident, rules, items, max);
    MissingIsNotPresent(declared, items);
    HypothesesAreConsistent(incident, rules, items, m.present + timeline, max, m);
    SoundByRules(incident, rules, items, max, declared);
    GeneratedComeFrom(incident, rules, items, max);
    RootCauseIsConsistent(incident, m, generated, r.recommendations);
    AtMost100(safe, inert, r);
    if r.rootCause.completeness == Confirmed {
      RecommendationsAreConsistent(r, Actions(rules, r.hypotheses, r.rootCause.confirmed));
    } else {
      RecommendationsAreConsistent(r, []);
    }
  }

  /** With no more candidates than are kept, what counts is every rule with a symptom match. */
  lemma FewCandidatesAccepted(safe: IdCheck, inert: TextCheck, incident: string, declared: seq<string>, rules: seq<Rule>,
                              items: seq<Evidence>, max: nat, timeline: set<string>)
    requires DistinctRules(rules) && Symptomatic(rules, items) <= max
    requires WithinLimits(safe, inert, Pipeline(incident, declared, rules, items, max))
    ensures Accepts(safe, inert, rules, timeline, Pipeline(incident, declared, rules, items, max)) <==>
      && NoRepeats(declared)
      && forall r <- rules :: Evaluate(r, items).symptoms != [] ==>
           r.domain in ALLOWED_DOMAINS && ((forall id <- declared :: id in IdsPresent(items)) ==> Backed(r, items))
  {
    hide WithinLimits, Accepts, Pipeline, NoRepeats, DistinctRules, Evaluate, Backed, IdsPresent, Survives, Symptomatic;
    PipelineIsAccepted(safe, inert, incident, declared, rules, items, max, timeline);
    AllSurvive(rules, items, max);
  }

  lemma AtMost100(safe: IdCheck, inert: TextCheck, r: Result)
    requires WithinLimits(safe, inert, r)
    ensures |r.recommendations| <= 100
  {
  }

  // ---- the one way they disagree ----

  /** A rule with temporal proof and nothing that supports it, met by one piece of evidence. */
  const LONE_RULE := Rule("R1", "os", Symptom([], [SymptomObserved]), [], [],
                          Some(Condition(None, "x", EQ, Number(1.0), true, "")), 1, [])

  const LONE_EVIDENCE := Evidence("EVD-1", "os", "s", SymptomObserved, None, map["x" := 1.0])

  lemma LoneEvaluation()
    ensures Evaluate(LONE_RULE, [LONE_EVIDENCE]) == Evaluation(["EVD-1"], [], [], false, [], true, {})
  {
    var items := [LONE_EVIDENCE];
    assert items[..0] == [];
    assert SymptomObserved in [SymptomObserved] && SymptomMatches(LONE_EVIDENCE, LONE_RULE.symptom);
    assert SymptomIds(items, LONE_RULE.symptom) == SymptomIds(items[..0], LONE_RULE.symptom) + ["EVD-1"];
    assert ConditionMatches(LONE_EVIDENCE, LONE_RULE.temporal.value);
  }

  lemma RankedOne(h: Hypothesis)
    ensures Ranked([h]) == [h]
  {
    hide Before;
    var none: seq<Hypothesis> := [];
    assert [h][..0] == none;
    assert Sort(Before, none) == none;
    assert Insert(Before, h, none) == [h];
  }

  lemma OneCandidate(incident: string, r: Rule, items: seq<Evidence>, max: nat)
    requires Evaluate(r, items).symptoms != [] && max >= 1
    ensures Generated(incident, [r], items, max) == [Hypothesize(incident, r, Evaluate(r, items))]
  {
    hide Evaluate, Hypothesize, Ranked;
    assert [r][..0] == [];
    assert Candidates(incident, [r], items) == [Hypothesize(incident, r, Evaluate(r, items))];
    RankedOne(Hypothesize(incident, r, Evaluate(r, items)));
  }

  lemma LoneHypothesis() returns (h: Hypothesis)
    ensures Generated("I", [LONE_RULE], [LONE_EVIDENCE], 10) == [h]
    ensures h.status == CONFIRMED && h.supporting == []
  {
    hide Evaluate, HypothesisId, Generated;
    LoneEvaluation();
    OneCandidate("I", LONE_RULE, [LONE_EVIDENCE], 10);
    h := Hypothesize("I", LONE_RULE, Evaluate(LONE_RULE, [LONE_EVIDENCE]));
  }

  /** The hypothesis is confirmed by temporal proof alone, and no checker settings accept the result. */
  lemma TemporalProofAloneIsRejected(safe: IdCheck, inert: TextCheck, timeline: set<string>)
    ensures var r := Pipeline("I", [], [LONE_RULE], [LONE_EVIDENCE], 10);
      && r.rootCause.completeness == Confirmed
      && !Accepts(safe, inert, [LONE_RULE], timeline, r)
  {
    hide AggregateRootCause, Recommended, WithinLimits, ManifestConsistent, RootCauseConsistent, RecommendationsConsistent,
      Generated, RuleOf, Evaluate, BuildManifest;
    var r := Pipeline("I", [], [LONE_RULE], [LONE_EVIDENCE], 10);
    var h := LoneHypothesis();
    NothingDeclared([LONE_EVIDENCE]);
    assert r.hypotheses[0] == h && h in r.hypotheses;
    ConfirmedExactly("I", r.hypotheses);
  }

  lemma NothingDeclared(items: seq<Evidence>)
    ensures BuildManifest([], items).complete
  {
  }
}
