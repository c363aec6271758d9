/** Hypotheses from evaluated rules: their status, their ranking, and what more evidence does to them. */
module RcaHypotheses {
  import opened Options
  import opened RcaRules
  import opened Sorting
  import opened TextOrder

  datatype Status = INSUFFICIENT_EVIDENCE | SUPPORTED | CONFIRMED | WEAKENED | REJECTED

  datatype Confidence = HIGH | MEDIUM | LOW | INSUFFICIENT

  function StatusOf(v: Evaluation, minSources: int): (Status, Confidence) {
    if v.critical then if v.supporting != [] then (WEAKENED, LOW) else (REJECTED, INSUFFICIENT)
    else if v.temporal then (CONFIRMED, HIGH)
    else if |v.sources| >= minSources then (CONFIRMED, HIGH)
    else if |v.sources| >= 1 then (SUPPORTED, MEDIUM)
    else (INSUFFICIENT_EVIDENCE, INSUFFICIENT)
  }

  datatype Hypothesis = Hypothesis(id: string, ruleId: string, domain: string, status: Status, supporting: seq<string>,
                                   contradicting: seq<string>, critical: bool, missing: seq<string>, sources: nat,
                                   temporal: bool, confidence: Confidence)

  function HypothesisId(incident: string, ruleId: string): string {
    "HYP-" + incident + "-" + ruleId
  }

  function Hypothesize(incident: string, r: Rule, v: Evaluation): Hypothesis {
    var (status, confidence) := StatusOf(v, r.minSources);
    Hypothesis(HypothesisId(incident, r.id), r.id, r.domain, status, v.supporting, v.contradicting, v.critical,
               v.missing, |v.sources|, v.temporal, confidence)
  }

  // ---- candidates and their ranking ----

  function Candidates(incident: string, rules: seq<Rule>, items: seq<Evidence>): seq<Hypothesis> {
    if rules == [] then []
    else
      var r := rules[|rules| - 1];
      var v := Evaluate(r, items);
      Candidates(incident, rules[..|rules| - 1], items) + if v.symptoms == [] then [] else [Hypothesize(incident, r, v)]
  }

  /** More independent sources first, then the rule id. */
  predicate Before(a: Hypothesis, b: Hypothesis) {
    a.sources > b.sources || (a.sources == b.sources && Less(a.ruleId, b.ruleId))
  }

  function Ranked(hs: seq<Hypothesis>): seq<Hypothesis> {
    Sort(Before, hs)
  }

  function Kept<T>(xs: seq<T>, max: nat): seq<T> {
    if |xs| <= max then xs else xs[..max]
  }

  function Generated(incident: string, rules: seq<Rule>, items: seq<Evidence>, max: nat): seq<Hypothesis> {
    Kept(Ranked(Candidates(incident, rules, items)), max)
  }

  method GenerateHypotheses(incident: string, rules: seq<Rule>, items: seq<Evidence>, max: nat)
    returns (kept: seq<Hypothesis>, truncated: seq<Hypothesis>)
    ensures kept == Generated(incident, rules, items, max)
    ensures kept + truncated == Ranked(Candidates(incident, rules, items))
  {
    hide Evaluate;
    var candidates: seq<Hypothesis> := [];
    for i := 0 to |rules|
      invariant candidates == Candidates(incident, rules[..i], items)
    {
      assert rules[..i + 1][..i] == rules[..i];
      var v := EvaluateRule(rules[i], items);
      if v.symptoms != [] {
        candidates := candidates + [Hypothesize(incident, rules[i], v)];
      }
    }
    assert rules[..|rules|] == rules;
    var ranked := Ranked(candidates);
    kept := Kept(ranked, max);
    truncated := ranked[|kept|..];
  }

  // ---- the ranking is a ranking ----

  lemma BeforeIsAnOrder(a: Hypothesis, b: Hypothesis, c: Hypothesis)
    ensures !Before(a, a)
    ensures Before(a, b) && Before(b, c) ==> Before(a, c)
    ensures Before(a, b) || Before(b, a) || (a.sources == b.sources && a.ruleId == b.ruleId)
  {
    hide Less;
    LessIrreflexive(a.ruleId);
    LessTotal(a.ruleId, b.ruleId);
    if Less(a.ruleId, b.ruleId) && Less(b.ruleId, c.ruleId) {
      LessTransitive(a.ruleId, b.ruleId, c.ruleId);
    }
  }

  lemma RankingIsAnOrder()
    ensures IsOrder(Before)
  {
    hide Before;
    forall a: Hypothesis, b: Hypothesis | Before(a, b)
      ensures !Before(b, a)
    {
      BeforeIsAnOrder(a, b, a);
    }
    forall a: Hypothesis, b: Hypothesis, c: Hypothesis | !Before(b, a) && !Before(c, b)
      ensures !Before(c, a)
    {
      NotAfterTransitive(a, b, c);
    }
  }

  lemma NotAfterTransitive(a: Hypothesis, b: Hypothesis, c: Hypothesis)
    requires !Before(b, a) && !Before(c, b)
    ensures !Before(c, a)
  {
    BeforeIsAnOrder(a, b, c);
    BeforeIsAnOrder(b, c, a);
    BeforeIsAnOrder(c, a, b);
  }

  /** Ranking permutes the candidates, and no one stands behind a weaker one. */
  lemma RankedIsOrdered(hs: seq<Hypothesis>)
    ensures multiset(Ranked(hs)) == multiset(hs)
    ensures forall i, j :: 0 <= i < j < |Ranked(hs)| ==> !Before(Ranked(hs)[j], Ranked(hs)[i])
  {
    hide Before, Sort;
    RankingIsAnOrder();
    SortSorts(Before, hs);
  }

  // ---- more evidence ----

  /** Without contradictions a status only rises along these. */
  function Rank(s: Status): nat {
    match s
    case INSUFFICIENT_EVIDENCE => 0
    case SUPPORTED => 1
    case CONFIRMED => 2
    case _ => 3
  }

  lemma SubsetSize(a: set<string>, b: set<string>)
    requires a <= b
    ensures |a| <= |b|
  {
    assert b == a + (b - a);
  }

  /** Adding evidence never takes back a critical contradiction, so what is WEAKENED or REJECTED never
      becomes CONFIRMED; and as long as none appears, the status only rises. */
  lemma MoreEvidence(r: Rule, items: seq<Evidence>, more: seq<Evidence>)
    requires Extends(more, items)
    ensures var s, t := StatusOf(Evaluate(r, items), r.minSources).0, StatusOf(Evaluate(r, more), r.minSources).0;
      && (s == WEAKENED || s == REJECTED <==> Evaluate(r, items).critical)
      && (s == WEAKENED ==> t == WEAKENED)
      && (s == REJECTED ==> t == REJECTED || t == WEAKENED)
      && (!Evaluate(r, more).critical ==> Rank(s) <= Rank(t) <= Rank(CONFIRMED))
  {
    hide IdsFor, SupportingSources, CriticalHit, Matched, SymptomIds, Missing, Extends;
    SupportGrows(items, more, r.supporting);
    SupportGrows(items, more, r.contradicting);
    SubsetSize(SupportingSources(items, r.supporting), SupportingSources(more, r.supporting));
    if r.temporal.Some? {
      MatchedGrows(items, more, r.temporal.value);
    }
  }

  // ---- the order of the evidence ----

  /** The same hypothesis but for the order in which its evidence is listed. */
  ghost predicate Alike(a: Hypothesis, b: Hypothesis) {
    && a == b.(supporting := a.supporting, contradicting := a.contradicting)
    && (forall id :: id in a.supporting <==> id in b.supporting)
    && (forall id :: id in a.contradicting <==> id in b.contradicting)
  }

  ghost predicate AllAlike(a: seq<Hypothesis>, b: seq<Hypothesis>) {
    |a| == |b| && forall i :: 0 <= i < |a| ==> Alike(a[i], b[i])
  }

  predicate SameEvidence(a: seq<Evidence>, b: seq<Evidence>) {
    Extends(a, b) && Extends(b, a)
  }

  lemma {:induction false} MissingSame(a: seq<Evidence>, b: seq<Evidence>, conditions: seq<Condition>)
    requires SameEvidence(a, b)
    ensures Missing(a, conditions) == Missing(b, conditions)
  {
    hide Matched, Extends;
    if conditions != [] {
      MissingSame(a, b, conditions[..|conditions| - 1]);
      MatchedGrows(a, b, conditions[|conditions| - 1]);
      MatchedGrows(b, a, conditions[|conditions| - 1]);
    }
  }

  lemma IdsSame(a: seq<Evidence>, b: seq<Evidence>, conditions: seq<Condition>, id: string)
    requires SameEvidence(a, b)
    ensures id in IdsFor(a, conditions) <==> id in IdsFor(b, conditions)
  {
    hide IdsFor, ConditionMatches, NoRepeats;
    IdsForHolds(a, conditions);
    IdsForHolds(b, conditions);
    HitsGrow(a, b, conditions, id);
    HitsGrow(b, a, conditions, id);
  }

  lemma HitsGrow(items: seq<Evidence>, more: seq<Evidence>, conditions: seq<Condition>, id: string)
    requires Extends(more, items)
    ensures Hits(items, conditions, id) ==> Hits(more, conditions, id)
  {
    hide ConditionMatches;
    if Hits(items, conditions, id) {
      var e, i :| e in items && e.id == id && 0 <= i < |conditions| && ConditionMatches(e, conditions[i]);
      assert e in more;
    }
  }

  lemma {:induction false} SymptomsHold(items: seq<Evidence>, s: Symptom)
    ensures SymptomIds(items, s) != [] <==> exists e :: e in items && SymptomMatches(e, s)
  {
    hide SymptomMatches;
    if items != [] {
      var n := |items| - 1;
      SymptomsHold(items[..n], s);
      assert items == items[..n] + [items[n]];
      if SymptomMatches(items[n], s) {
        assert items[n] in items;
      }
    }
  }

  lemma HypothesisSame(incident: string, r: Rule, a: seq<Evidence>, b: seq<Evidence>)
    requires SameEvidence(a, b)
    ensures Alike(Hypothesize(incident, r, Evaluate(r, a)), Hypothesize(incident, r, Evaluate(r, b)))
    ensures Evaluate(r, a).symptoms == [] <==> Evaluate(r, b).symptoms == []
  {
    hide IdsFor, SupportingSources, CriticalHit, Matched, SymptomIds, Missing, SymptomMatches, HypothesisId;
    SupportGrows(a, b, r.supporting);
    SupportGrows(b, a, r.supporting);
    SupportGrows(a, b, r.contradicting);
    SupportGrows(b, a, r.contradicting);
    MissingSame(a, b, r.supporting);
    SymptomsHold(a, r.symptom);
    SymptomsHold(b, r.symptom);
    if r.temporal.Some? {
      MatchedGrows(a, b, r.temporal.value);
      MatchedGrows(b, a, r.temporal.value);
    }
    forall id
      ensures id in IdsFor(a, r.supporting) <==> id in IdsFor(b, r.supporting)
      ensures id in IdsFor(a, r.contradicting) <==> id in IdsFor(b, r.contradicting)
    {
      IdsSame(a, b, r.supporting, id);
      IdsSame(a, b, r.contradicting, id);
    }
    assert SupportingSources(a, r.supporting) == SupportingSources(b, r.supporting);
    EmptyAlike(IdsFor(a, r.supporting), IdsFor(b, r.supporting));
  }

  lemma EmptyAlike(a: seq<string>, b: seq<string>)
    requires forall id :: id in a <==> id in b
    ensures a == [] <==> b == []
  {
    if a != [] {
      assert a[0] in a;
    }
    if b != [] {
      assert b[0] in b;
    }
  }

  lemma {:induction false} CandidatesSame(incident: string, rules: seq<Rule>, a: seq<Evidence>, b: seq<Evidence>)
    requires SameEvidence(a, b)
    ensures AllAlike(Candidates(incident, rules, a), Candidates(incident, rules, b))
  {
    hide Evaluate, Hypothesize, SameEvidence, Alike;
    if rules != [] {
      CandidatesSame(incident, rules[..|rules| - 1], a, b);
      HypothesisSame(incident, rules[|rules| - 1], a, b);
    }
  }

  lemma {:induction false} InsertSame(g: Hypothesis, h: Hypothesis, a: seq<Hypothesis>, b: seq<Hypothesis>)
    requires Alike(g, h) && AllAlike(a, b)
    ensures AllAlike(Insert(Before, g, a), Insert(Before, h, b))
  {
    hide Less;
    if a != [] {
      assert Alike(a[0], b[0]);
      assert Before(g, a[0]) == Before(h, b[0]);
      if !Before(g, a[0]) {
        InsertSame(g, h, a[1..], b[1..]);
      }
    }
  }

  lemma {:induction false} RankedSame(a: seq<Hypothesis>, b: seq<Hypothesis>)
    requires AllAlike(a, b)
    ensures AllAlike(Ranked(a), Ranked(b))
  {
    hide Alike, Insert, Before;
    if a != [] {
      RankedSame(a[..|a| - 1], b[..|b| - 1]);
      InsertSame(a[|a| - 1], b[|b| - 1], Ranked(a[..|a| - 1]), Ranked(b[..|b| - 1]));
    }
  }

  /** In whatever order the same evidence is given, the same hypotheses come out in the same order, with the
      same status, sources and missing evidence. */
  lemma EvidenceOrderDoesNotMatter(incident: string, rules: seq<Rule>, a: seq<Evidence>, b: seq<Evidence>, max: nat)
    requires SameEvidence(a, b)
    ensures AllAlike(Generated(incident, rules, a, max), Generated(incident, rules, b, max))
  {
    hide Candidates, Ranked, Alike;
    CandidatesSame(incident, rules, a, b);
    RankedSame(Candidates(incident, rules, a), Candidates(incident, rules, b));
  }

  lemma {:induction false} CandidatesEligible(incident: string, rules: seq<Rule>, items: seq<Evidence>)
    ensures Candidates(incident, rules, items) == Candidates(incident, rules, Eligible(items))
  {
    hide Evaluate, Eligible;
    if rules != [] {
      CandidatesEligible(incident, rules[..|rules| - 1], items);
      RecoveryIsIrrelevant(rules[|rules| - 1], items);
    }
  }

  /** Recovery evidence changes no generated hypothesis. */
  lemma RecoveryChangesNoHypothesis(incident: string, rules: seq<Rule>, items: seq<Evidence>, max: nat)
    ensures Generated(incident, rules, items, max) == Generated(incident, rules, Eligible(items), max)
  {
    hide Candidates, Ranked, Eligible;
    CandidatesEligible(incident, rules, items);
  }
}
