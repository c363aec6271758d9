/** Matching causal rules against evidence. */
module RcaRules {
  import opened Options

  datatype EventType = SymptomObserved | AlertTriggered | ConfigChange | CapacityEvent | InvestigationStep | Recovery

  predicate CausalEligible(t: EventType) {
    t != Recovery
  }

  /** Evidence after intake: attributes are numbers, a boolean counting as 0 or 1, and `certified` is the
      canonical signature of a certified one. */
  datatype Evidence = Evidence(id: string, domain: string, source: string, eventType: EventType,
                               certified: Option<string>, attributes: map<string, real>)

  datatype Op = EQ | NE | GT | GE | LT | LE | IN

  /** What an attribute is compared with: a number, a list, or something no number compares with. */
  datatype Operand = Number(n: real) | Members(of: seq<real>) | Foreign

  datatype Condition = Condition(domain: Option<string>, attribute: string, op: Op, operand: Operand, critical: bool, description: string)

  datatype Symptom = Symptom(signatureAny: seq<string>, eventTypeAny: seq<EventType>)

  datatype Rule = Rule(id: string, domain: string, symptom: Symptom, supporting: seq<Condition>, contradicting: seq<Condition>,
                       temporal: Option<Condition>, minSources: int, actions: seq<string>)

  predicate Compare(op: Op, a: real, b: Operand) {
    match op
    case EQ => b == Number(a)
    case NE => b != Number(a)
    case GT => b.Number? && a > b.n
    case GE => b.Number? && a >= b.n
    case LT => b.Number? && a < b.n
    case LE => b.Number? && a <= b.n
    case IN => b.Members? && a in b.of
  }

  predicate ConditionMatches(e: Evidence, c: Condition) {
    && CausalEligible(e.eventType)
    && (c.domain.Some? ==> e.domain == c.domain.value)
    && c.attribute in e.attributes
    && Compare(c.op, e.attributes[c.attribute], c.operand)
  }

  predicate SymptomMatches(e: Evidence, s: Symptom) {
    && CausalEligible(e.eventType)
    && ((s.signatureAny != [] && e.certified.Some? && e.certified.value in s.signatureAny)
        || (s.eventTypeAny != [] && e.eventType in s.eventTypeAny && s.signatureAny == []))
  }

  datatype Evaluation = Evaluation(symptoms: seq<string>, supporting: seq<string>, contradicting: seq<string>,
                                   critical: bool, missing: seq<string>, temporal: bool, sources: set<string>)

  // ---- the lists a rule's evaluation collects ----

  function Matched(items: seq<Evidence>, c: Condition): seq<Evidence> {
    if items == [] then []
    else
      var e := items[|items| - 1];
      Matched(items[..|items| - 1], c) + if ConditionMatches(e, c) then [e] else []
  }

  function SymptomIds(items: seq<Evidence>, s: Symptom): seq<string> {
    if items == [] then []
    else
      var e := items[|items| - 1];
      SymptomIds(items[..|items| - 1], s) + if SymptomMatches(e, s) then [e.id] else []
  }

  function AddId(ids: seq<string>, id: string): seq<string> {
    if id in ids then ids else ids + [id]
  }

  function AddAll(ids: seq<string>, es: seq<Evidence>): seq<string> {
    if es == [] then ids else AddId(AddAll(ids, es[..|es| - 1]), es[|es| - 1].id)
  }

  /** The ids that match some condition, in the order in which they are first met. */
  function IdsFor(items: seq<Evidence>, conditions: seq<Condition>): seq<string> {
    if conditions == [] then []
    else AddAll(IdsFor(items, conditions[..|conditions| - 1]), Matched(items, conditions[|conditions| - 1]))
  }

  function Missing(items: seq<Evidence>, conditions: seq<Condition>): seq<string> {
    if conditions == [] then []
    else
      var c := conditions[|conditions| - 1];
      Missing(items, conditions[..|conditions| - 1]) + if Matched(items, c) == [] then [c.description] else []
  }

  function SourcesOf(es: seq<Evidence>): set<string> {
    if es == [] then {} else SourcesOf(es[..|es| - 1]) + {es[|es| - 1].source}
  }

  function SupportingSources(items: seq<Evidence>, conditions: seq<Condition>): set<string> {
    if conditions == [] then {}
    else SupportingSources(items, conditions[..|conditions| - 1]) + SourcesOf(Matched(items, conditions[|conditions| - 1]))
  }

  predicate CriticalHit(items: seq<Evidence>, conditions: seq<Condition>) {
    conditions != [] &&
    (CriticalHit(items, conditions[..|conditions| - 1])
     || (conditions[|conditions| - 1].critical && Matched(items, conditions[|conditions| - 1]) != []))
  }

  function Evaluate(r: Rule, items: seq<Evidence>): Evaluation {
    Evaluation(SymptomIds(items, r.symptom), IdsFor(items, r.supporting), IdsFor(items, r.contradicting),
               CriticalHit(items, r.contradicting), Missing(items, r.supporting),
               r.temporal.Some? && Matched(items, r.temporal.value) != [], SupportingSources(items, r.supporting))
  }

  // ---- the loops ----

  method MatchItems(items: seq<Evidence>, c: Condition) returns (matched: seq<Evidence>)
    ensures matched == Matched(items, c)
  {
    matched := [];
    for i := 0 to |items|
      invariant matched == Matched(items[..i], c)
    {
      assert items[..i + 1][..i] == items[..i];
      if ConditionMatches(items[i], c) {
        matched := matched + [items[i]];
      }
    }
    assert items[..|items|] == items;
  }

  method CollectIds(ids: seq<string>, sources: set<string>, matched: seq<Evidence>) returns (allIds: seq<string>, allSources: set<string>)
    ensures allIds == AddAll(ids, matched) && allSources == sources + SourcesOf(matched)
  {
    allIds, allSources := ids, sources;
    for k := 0 to |matched|
      invariant allIds == AddAll(ids, matched[..k]) && allSources == sources + SourcesOf(matched[..k])
    {
      assert matched[..k + 1][..k] == matched[..k];
      if matched[k].id !in allIds {
        allIds := allIds + [matched[k].id];
      }
      allSources := allSources + {matched[k].source};
    }
    assert matched[..|matched|] == matched;
  }

  method CollectSymptoms(items: seq<Evidence>, s: Symptom) returns (ids: seq<string>)
    ensures ids == SymptomIds(items, s)
  {
    hide SymptomMatches;
    ids := [];
    for i := 0 to |items|
      invariant ids == SymptomIds(items[..i], s)
    {
      assert items[..i + 1][..i] == items[..i];
      if SymptomMatches(items[i], s) {
        ids := ids + [items[i].id];
      }
    }
    assert items[..|items|] == items;
  }

  method CollectSupport(items: seq<Evidence>, conditions: seq<Condition>)
    returns (ids: seq<string>, sources: set<string>, missing: seq<string>)
    ensures ids == IdsFor(items, conditions) && sources == SupportingSources(items, conditions) && missing == Missing(items, conditions)
  {
    hide Matched;
    ids, sources, missing := [], {}, [];
    for i := 0 to |conditions|
      invariant ids == IdsFor(items, conditions[..i])
      invariant sources == SupportingSources(items, conditions[..i]) && missing == Missing(items, conditions[..i])
    {
      assert conditions[..i + 1][..i] == conditions[..i];
      var matched := MatchItems(items, conditions[i]);
      if matched != [] {
        ids, sources := CollectIds(ids, sources, matched);
      } else {
        missing := missing + [conditions[i].description];
      }
    }
    assert conditions[..|conditions|] == conditions;
  }

  method CollectContradictions(items: seq<Evidence>, conditions: seq<Condition>) returns (ids: seq<string>, critical: bool)
    ensures ids == IdsFor(items, conditions) && critical == CriticalHit(items, conditions)
  {
    hide Matched;
    ids, critical := [], false;
    for i := 0 to |conditions|
      invariant ids == IdsFor(items, conditions[..i]) && critical == CriticalHit(items, conditions[..i])
    {
      assert conditions[..i + 1][..i] == conditions[..i];
      var matched := MatchItems(items, conditions[i]);
      var all, _ := CollectIds(ids, {}, matched);
      ids := all;
      if matched != [] && conditions[i].critical {
        critical := true;
      }
    }
    assert conditions[..|conditions|] == conditions;
  }

  method EvaluateRule(r: Rule, items: seq<Evidence>) returns (v: Evaluation)
    ensures v == Evaluate(r, items)
  {
    var symptoms := CollectSymptoms(items, r.symptom);
    var supporting, sources, missing := CollectSupport(items, r.supporting);
    var contradicting, critical := CollectContradictions(items, r.contradicting);
    var temporal := false;
    if r.temporal.Some? {
      var matched := MatchItems(items, r.temporal.value);
      temporal := matched != [];
    }
    v := Evaluation(symptoms, supporting, contradicting, critical, missing, temporal, sources);
  }

  // ---- what the lists hold ----

  lemma {:induction false} MatchedHolds(items: seq<Evidence>, c: Condition)
    ensures forall e :: e in Matched(items, c) <==> e in items && ConditionMatches(e, c)
  {
    hide ConditionMatches;
    if items != [] {
      var n := |items| - 1;
      MatchedHolds(items[..n], c);
      assert items == items[..n] + [items[n]];
    }
  }

  lemma NoneMatched(items: seq<Evidence>, c: Condition)
    ensures Matched(items, c) != [] <==> exists e :: e in items && ConditionMatches(e, c)
  {
    hide ConditionMatches, Matched;
    MatchedHolds(items, c);
    var m := Matched(items, c);
    if m != [] {
      assert m[0] in m;
    }
  }

  lemma {:induction false} AddAllHolds(ids: seq<string>, es: seq<Evidence>)
    ensures forall id :: id in AddAll(ids, es) <==> id in ids || exists e :: e in es && e.id == id
    ensures NoRepeats(ids) ==> NoRepeats(AddAll(ids, es))
  {
    if es != [] {
      var n := |es| - 1;
      AddAllHolds(ids, es[..n]);
      var before, last := AddAll(ids, es[..n]), es[n];
      assert es == es[..n] + [last];
      forall id
        ensures id in AddAll(ids, es) <==> id in ids || exists e :: e in es && e.id == id
      {
        if e :| e in es && e.id == id {
          assert e in es[..n] || e == last;
        }
        assert last in es && forall e <- es[..n] :: e in es;
      }
    }
  }

  predicate NoRepeats(xs: seq<string>) {
    forall i, j :: 0 <= i < j < |xs| ==> xs[i] != xs[j]
  }

  ghost predicate Hits(items: seq<Evidence>, conditions: seq<Condition>, id: string) {
    exists e, i :: e in items && e.id == id && 0 <= i < |conditions| && ConditionMatches(e, conditions[i])
  }

  lemma {:induction false} IdsForHolds(items: seq<Evidence>, conditions: seq<Condition>)
    ensures forall id :: id in IdsFor(items, conditions) <==> Hits(items, conditions, id)
    ensures NoRepeats(IdsFor(items, conditions))
  {
    hide ConditionMatches, AddAll, Matched, NoRepeats;
    if conditions == [] {
      NothingRepeats();
    } else {
      var n := |conditions| - 1;
      var init, c := conditions[..n], conditions[n];
      IdsForHolds(items, init);
      AddAllHolds(IdsFor(items, init), Matched(items, c));
      MatchedHolds(items, c);
      forall id
        ensures id in IdsFor(items, conditions) <==> Hits(items, conditions, id)
      {
        HitsSnoc(items, conditions, id);
      }
    }
  }

  lemma NothingRepeats()
    ensures NoRepeats([])
  {
  }

  lemma HitsSnoc(items: seq<Evidence>, conditions: seq<Condition>, id: string)
    requires conditions != []
    ensures var n := |conditions| - 1;
      Hits(items, conditions, id) <==>
        Hits(items, conditions[..n], id) || exists e :: e in items && e.id == id && ConditionMatches(e, conditions[n])
  {
    hide ConditionMatches;
    var n := |conditions| - 1;
    if Hits(items, conditions, id) {
      var e, i :| e in items && e.id == id && 0 <= i < |conditions| && ConditionMatches(e, conditions[i]);
      if i < n {
        assert ConditionMatches(e, conditions[..n][i]);
      }
    }
    if Hits(items, conditions[..n], id) {
      var e, i :| e in items && e.id == id && 0 <= i < n && ConditionMatches(e, conditions[..n][i]);
      assert ConditionMatches(e, conditions[i]);
    }
    if e :| e in items && e.id == id && ConditionMatches(e, conditions[n]) {
      assert ConditionMatches(e, conditions[n]);
    }
  }

  // ---- only what is in the evidence counts, in whatever order ----

  /** The second evidence holds everything the first does. */
  predicate Extends(more: seq<Evidence>, items: seq<Evidence>) {
    forall e <- items :: e in more
  }

  lemma MatchedGrows(items: seq<Evidence>, more: seq<Evidence>, c: Condition)
    requires Extends(more, items)
    ensures Matched(items, c) != [] ==> Matched(more, c) != []
    ensures SourcesOf(Matched(items, c)) <= SourcesOf(Matched(more, c))
  {
    hide ConditionMatches, Matched, SourcesOf;
    NoneMatched(items, c);
    NoneMatched(more, c);
    MatchedHolds(items, c);
    MatchedHolds(more, c);
    SourcesHold(Matched(items, c));
    SourcesHold(Matched(more, c));
  }

  lemma {:induction false} SourcesHold(es: seq<Evidence>)
    ensures forall s :: s in SourcesOf(es) <==> exists e :: e in es && e.source == s
  {
    if es != [] {
      var n := |es| - 1;
      SourcesHold(es[..n]);
      assert es == es[..n] + [es[n]];
      assert es[n] in es;
      assert forall e :: e in es <==> e in es[..n] || e == es[n];
    }
  }

  lemma {:induction false} SupportGrows(items: seq<Evidence>, more: seq<Evidence>, conditions: seq<Condition>)
    requires Extends(more, items)
    ensures SupportingSources(items, conditions) <= SupportingSources(more, conditions)
    ensures CriticalHit(items, conditions) ==> CriticalHit(more, conditions)
    ensures IdsFor(items, conditions) != [] ==> IdsFor(more, conditions) != []
  {
    hide ConditionMatches, Matched, AddAll, Extends;
    if conditions != [] {
      var n := |conditions| - 1;
      SupportGrows(items, more, conditions[..n]);
      MatchedGrows(items, more, conditions[n]);
      NotEmptyAfter(IdsFor(items, conditions[..n]), Matched(items, conditions[n]));
      NotEmptyAfter(IdsFor(more, conditions[..n]), Matched(more, conditions[n]));
    }
  }

  lemma {:induction false} NotEmptyAfter(ids: seq<string>, es: seq<Evidence>)
    ensures AddAll(ids, es) != [] <==> ids != [] || es != []
  {
    if es != [] {
      NotEmptyAfter(ids, es[..|es| - 1]);
    }
  }

  /** Supporting ids and supporting sources come together. */
  lemma {:induction false} IdsAndSources(items: seq<Evidence>, conditions: seq<Condition>)
    ensures IdsFor(items, conditions) != [] <==> SupportingSources(items, conditions) != {}
  {
    hide Matched, AddAll;
    if conditions != [] {
      var n := |conditions| - 1;
      IdsAndSources(items, conditions[..n]);
      NotEmptyAfter(IdsFor(items, conditions[..n]), Matched(items, conditions[n]));
      SomeSource(Matched(items, conditions[n]));
    }
  }

  lemma SomeSource(es: seq<Evidence>)
    ensures SourcesOf(es) != {} <==> es != []
  {
  }

  // ---- recovery evidence ----

  function Eligible(items: seq<Evidence>): seq<Evidence> {
    if items == [] then []
    else
      var e := items[|items| - 1];
      Eligible(items[..|items| - 1]) + if CausalEligible(e.eventType) then [e] else []
  }

  lemma MatchedSnoc(items: seq<Evidence>, e: Evidence, c: Condition)
    ensures Matched(items + [e], c) == Matched(items, c) + if ConditionMatches(e, c) then [e] else []
  {
    assert (items + [e])[..|items|] == items;
  }

  lemma SymptomIdsSnoc(items: seq<Evidence>, e: Evidence, s: Symptom)
    ensures SymptomIds(items + [e], s) == SymptomIds(items, s) + if SymptomMatches(e, s) then [e.id] else []
  {
    assert (items + [e])[..|items|] == items;
  }

  lemma {:induction false} MatchedEligible(items: seq<Evidence>, c: Condition)
    ensures Matched(items, c) == Matched(Eligible(items), c)
  {
    hide Compare;
    if items != [] {
      var n := |items| - 1;
      MatchedEligible(items[..n], c);
      MatchedSnoc(Eligible(items[..n]), items[n], c);
      assert Eligible(items[..n]) + [] == Eligible(items[..n]);
    }
  }

  lemma {:induction false} SymptomsEligible(items: seq<Evidence>, s: Symptom)
    ensures SymptomIds(items, s) == SymptomIds(Eligible(items), s)
  {
    if items != [] {
      var n := |items| - 1;
      SymptomsEligible(items[..n], s);
      SymptomIdsSnoc(Eligible(items[..n]), items[n], s);
      assert Eligible(items[..n]) + [] == Eligible(items[..n]);
    }
  }

  lemma {:induction false} ListsEligible(items: seq<Evidence>, conditions: seq<Condition>)
    ensures IdsFor(items, conditions) == IdsFor(Eligible(items), conditions)
    ensures Missing(items, conditions) == Missing(Eligible(items), conditions)
    ensures SupportingSources(items, conditions) == SupportingSources(Eligible(items), conditions)
    ensures CriticalHit(items, conditions) == CriticalHit(Eligible(items), conditions)
  {
    hide Matched, AddAll, SourcesOf, Eligible;
    if conditions != [] {
      ListsEligible(items, conditions[..|conditions| - 1]);
      MatchedEligible(items, conditions[|conditions| - 1]);
    }
  }

  /** Recovery evidence, wherever it stands, changes nothing at all in a rule's evaluation. */
  lemma RecoveryIsIrrelevant(r: Rule, items: seq<Evidence>)
    ensures Evaluate(r, items) == Evaluate(r, Eligible(items))
  {
    hide Matched, SymptomIds, IdsFor, Missing, SupportingSources, CriticalHit, Eligible;
    SymptomsEligible(items, r.symptom);
    ListsEligible(items, r.supporting);
    ListsEligible(items, r.contradicting);
    if r.temporal.Some? {
      MatchedEligible(items, r.temporal.value);
    }
  }
}
