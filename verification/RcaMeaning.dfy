/** What an evaluation, a status and a root cause mean, in terms of the evidence. */
module RcaMeaning {
  import opened Options
  import opened RcaRules
  import opened RcaHypotheses
  import opened RcaCausality
  import opened Sorting

  // ---- comparisons ----

  /** Of two numbers one is less, or they are equal, or it is greater; "at least", "at most" and "other than" are what the
      others are not; and what is greater is ahead by something positive. */
  lemma ComparisonsOfNumbers(a: real, b: real)
    ensures Compare(GT, a, Number(b)) <==> a - b > 0.0
    ensures Compare(LT, a, Number(b)) <==> b - a > 0.0
    ensures Compare(GE, a, Number(b)) <==> !Compare(LT, a, Number(b))
    ensures Compare(LE, a, Number(b)) <==> !Compare(GT, a, Number(b))
    ensures Compare(EQ, a, Number(b)) <==> Compare(GE, a, Number(b)) && Compare(LE, a, Number(b))
    ensures Compare(NE, a, Number(b)) <==> !Compare(EQ, a, Number(b))
    ensures !Compare(IN, a, Number(b))
  {
  }

  /** A number compares with a list by being in it or other than it, and with anything else only by being other. */
  lemma ComparisonsOfOthers(op: Op, a: real, of: seq<real>)
    ensures Compare(op, a, Members(of)) <==> op == NE || (op == IN && exists i :: 0 <= i < |of| && of[i] == a)
    ensures Compare(op, a, Foreign) <==> op == NE
  {
  }

  // ---- evaluation ----

  /** The evidence speaks to the condition: it is no recovery, of the domain if one is named, and has the attribute with a
      value that compares. */
  predicate Speaks(e: Evidence, c: Condition) {
    && e.eventType in {SymptomObserved, AlertTriggered, ConfigChange, CapacityEvent, InvestigationStep}
    && (c.domain == None || c.domain == Some(e.domain))
    && c.attribute in e.attributes && Compare(c.op, e.attributes[c.attribute], c.operand)
  }

  /** The evidence shows the symptom: it is no recovery, and carries one of the certified signatures, or, where none are
      listed, is of one of the event types. */
  predicate Shows(e: Evidence, s: Symptom) {
    && e.eventType in {SymptomObserved, AlertTriggered, ConfigChange, CapacityEvent, InvestigationStep}
    && if s.signatureAny == [] then e.eventType in s.eventTypeAny
       else exists i :: 0 <= i < |s.signatureAny| && e.certified == Some(s.signatureAny[i])
  }

  ghost predicate SomeSpeaks(items: seq<Evidence>, c: Condition) {
    exists e :: e in items && Speaks(e, c)
  }

  lemma SpeaksIs(e: Evidence, c: Condition)
    ensures ConditionMatches(e, c) <==> Speaks(e, c)
  {
    hide Compare;
  }

  lemma ShowsIs(e: Evidence, s: Symptom)
    ensures SymptomMatches(e, s) <==> Shows(e, s)
  {
    if SymptomMatches(e, s) && s.signatureAny != [] {
      var i :| 0 <= i < |s.signatureAny| && s.signatureAny[i] == e.certified.value;
    }
  }

  lemma MatchedSpeaks(items: seq<Evidence>, c: Condition)
    ensures Matched(items, c) != [] <==> SomeSpeaks(items, c)
  {
    hide ConditionMatches, Matched, Speaks;
    NoneMatched(items, c);
    forall e: Evidence
      ensures ConditionMatches(e, c) <==> Speaks(e, c)
    {
      SpeaksIs(e, c);
    }
  }

  lemma {:induction false} SymptomsShown(items: seq<Evidence>, s: Symptom)
    ensures forall id :: id in SymptomIds(items, s) <==> exists e :: e in items && Shows(e, s) && e.id == id
    ensures |SymptomIds(items, s)| == CountIf((e: Evidence) => Shows(e, s), items)
  {
    hide SymptomMatches, Shows;
    if items == [] {
      CountNone((e: Evidence) => Shows(e, s));
    } else {
      var n := |items| - 1;
      SymptomsShown(items[..n], s);
      ShowsIs(items[n], s);
      assert items == items[..n] + [items[n]];
      CountSnoc((e: Evidence) => Shows(e, s), items[..n], items[n]);
      assert forall e :: e in items <==> e in items[..n] || e == items[n];
    }
  }

  lemma {:induction false} CriticalSpoken(items: seq<Evidence>, conditions: seq<Condition>)
    ensures CriticalHit(items, conditions) <==> exists c :: c in conditions && c.critical && SomeSpeaks(items, c)
  {
    hide Matched, SomeSpeaks;
    if conditions != [] {
      var n := |conditions| - 1;
      CriticalSpoken(items, conditions[..n]);
      MatchedSpeaks(items, conditions[n]);
      assert conditions == conditions[..n] + [conditions[n]];
      assert forall c :: c in conditions <==> c in conditions[..n] || c == conditions[n];
    }
  }

  lemma {:induction false} MissingUnspoken(items: seq<Evidence>, conditions: seq<Condition>)
    ensures forall d :: d in Missing(items, conditions) <==> exists c :: c in conditions && !SomeSpeaks(items, c) && c.description == d
    ensures |Missing(items, conditions)| == CountIf((c: Condition) => !SomeSpeaks(items, c), conditions)
  {
    hide Matched, SomeSpeaks;
    if conditions == [] {
      CountNone((c: Condition) => !SomeSpeaks(items, c));
    } else {
      var n := |conditions| - 1;
      MissingUnspoken(items, conditions[..n]);
      MatchedSpeaks(items, conditions[n]);
      assert conditions == conditions[..n] + [conditions[n]];
      CountSnoc((c: Condition) => !SomeSpeaks(items, c), conditions[..n], conditions[n]);
      assert forall c :: c in conditions <==> c in conditions[..n] || c == conditions[n];
    }
  }

  /** Evidence that speaks to one of the conditions. */
  ghost predicate SpeaksToSome(e: Evidence, conditions: seq<Condition>) {
    exists c :: c in conditions && Speaks(e, c)
  }

  lemma {:induction false} SourcesSpoken(items: seq<Evidence>, conditions: seq<Condition>)
    ensures SupportingSources(items, conditions) == set e | e in items && SpeaksToSome(e, conditions) :: e.source
  {
    hide Matched, ConditionMatches, Speaks, SourcesOf;
    if conditions != [] {
      var n := |conditions| - 1;
      var c := conditions[n];
      SourcesSpoken(items, conditions[..n]);
      MatchedHolds(items, c);
      SourcesHold(Matched(items, c));
      assert conditions == conditions[..n] + [c];
      forall e: Evidence
        ensures ConditionMatches(e, c) <==> Speaks(e, c)
        ensures SpeaksToSome(e, conditions) <==> SpeaksToSome(e, conditions[..n]) || Speaks(e, c)
      {
        SpeaksIs(e, c);
        assert forall d :: d in conditions <==> d in conditions[..n] || d == c;
      }
    }
  }

  lemma IdsSpoken(items: seq<Evidence>, conditions: seq<Condition>)
    ensures forall id :: id in IdsFor(items, conditions) <==> exists e :: e in items && e.id == id && SpeaksToSome(e, conditions)
  {
    hide ConditionMatches, Speaks, IdsFor;
    IdsForHolds(items, conditions);
    forall id: string
      ensures Hits(items, conditions, id) <==> exists e :: e in items && e.id == id && SpeaksToSome(e, conditions)
    {
      if Hits(items, conditions, id) {
        var e, i :| e in items && e.id == id && 0 <= i < |conditions| && ConditionMatches(e, conditions[i]);
        SpeaksIs(e, conditions[i]);
        assert conditions[i] in conditions;
      }
      if e :| e in items && e.id == id && SpeaksToSome(e, conditions) {
        var c :| c in conditions && Speaks(e, c);
        SpeaksIs(e, c);
        var i :| 0 <= i < |conditions| && conditions[i] == c;
        assert ConditionMatches(e, conditions[i]);
      }
    }
  }

  // ---- the order of what is listed ----

  /** Condition `i` is met by item `k`, whose id this is. */
  predicate HitAt(items: seq<Evidence>, conditions: seq<Condition>, i: nat, k: nat, id: string) {
    i < |conditions| && k < |items| && ConditionMatches(items[k], conditions[i]) && items[k].id == id
  }

  /** The id is met by condition `i` and item `k`, and the other one nowhere before, going through the conditions and for
      each through the items. */
  ghost predicate MetFirst(items: seq<Evidence>, conditions: seq<Condition>, i: nat, k: nat, id: string, other: string) {
    && HitAt(items, conditions, i, k, id)
    && forall j: nat, l: nat :: HitAt(items, conditions, j, l, other) ==> i < j || (i == j && k < l)
  }

  /** The ids one condition adds stand in the order of the items. */
  lemma {:induction false} AddedInOrder(items: seq<Evidence>, c: Condition, before: seq<string>, p: nat, q: nat) returns (k: nat)
    requires |before| <= p < q < |AddAll(before, Matched(items, c))| && NoRepeats(before)
    ensures var ids := AddAll(before, Matched(items, c));
      && k < |items| && ConditionMatches(items[k], c) && items[k].id == ids[p]
      && forall l :: 0 <= l < |items| && ConditionMatches(items[l], c) && items[l].id == ids[q] ==> k < l
  {
    hide ConditionMatches, NoRepeats, Matched, AddAll;
    NoneAdded(before, c);
    var n := |items| - 1;
    var ids := AddAll(before, Matched(items[..n], c));
    AddedSnoc(items, c, before);
    if q < |ids| {
      k := AddedInOrder(items[..n], c, before, p, q);
      assert forall l :: 0 <= l < n ==> items[..n][l] == items[l];
    } else {
      k := AddedFrom(items[..n], c, before, p);
      AddAllHolds(before, Matched(items[..n], c));
      MatchedHolds(items[..n], c);
      forall l | 0 <= l < n
        ensures !(ConditionMatches(items[l], c) && items[l].id == items[n].id)
      {
        assert items[..n][l] == items[l] && items[l] in items[..n];
      }
    }
  }

  lemma NoneAdded(before: seq<string>, c: Condition)
    ensures AddAll(before, Matched([], c)) == before
  {
  }

  lemma AddedSnoc(items: seq<Evidence>, c: Condition, before: seq<string>)
    requires items != []
    ensures var n := |items| - 1;
      var ids := AddAll(before, Matched(items[..n], c));
      AddAll(before, Matched(items, c)) ==
        if ConditionMatches(items[n], c) && items[n].id !in ids then ids + [items[n].id] else ids
  {
    hide ConditionMatches;
    var n := |items| - 1;
    var m := Matched(items[..n], c);
    if ConditionMatches(items[n], c) {
      assert (m + [items[n]])[..|m|] == m;
    } else {
      assert m + [] == m;
    }
  }

  /** What is added comes from some item. */
  lemma {:induction false} AddedFrom(items: seq<Evidence>, c: Condition, before: seq<string>, p: nat) returns (k: nat)
    requires |before| <= p < |AddAll(before, Matched(items, c))|
    ensures k < |items| && ConditionMatches(items[k], c) && items[k].id == AddAll(before, Matched(items, c))[p]
  {
    hide ConditionMatches, Matched, AddAll;
    NoneAdded(before, c);
    var n := |items| - 1;
    AddedSnoc(items, c, before);
    if p < |AddAll(before, Matched(items[..n], c))| {
      k := AddedFrom(items[..n], c, before, p);
    } else {
      k := n;
    }
  }

  lemma AddAllKeeps(ids: seq<string>, es: seq<Evidence>)
    ensures ids <= AddAll(ids, es)
    decreases |es|
  {
    if es != [] {
      AddAllKeeps(ids, es[..|es| - 1]);
    }
  }

  /** The ids of a rule's conditions stand in the order in which they are first met. */
  lemma {:induction false} IdsInFirstMetOrder(items: seq<Evidence>, conditions: seq<Condition>, p: nat, q: nat) returns (i: nat, k: nat)
    requires p < q < |IdsFor(items, conditions)|
    ensures MetFirst(items, conditions, i, k, IdsFor(items, conditions)[p], IdsFor(items, conditions)[q])
  {
    hide ConditionMatches, NoRepeats, Matched, AddAll;
    var n := |conditions| - 1;
    var init, c := conditions[..n], conditions[n];
    var before, ids := IdsFor(items, init), IdsFor(items, conditions);
    assert ids == AddAll(before, Matched(items, c));
    AddAllKeeps(before, Matched(items, c));
    IdsForHolds(items, init);
    if q < |before| {
      i, k := IdsInFirstMetOrder(items, init, p, q);
      assert forall j: nat, l: nat :: j < n ==> (HitAt(items, init, j, l, ids[q]) <==> HitAt(items, conditions, j, l, ids[q]));
    } else if p < |before| {
      i, k := SomeHit(items, init, before[p]);
      NoHit(items, conditions, ids[q], q);
    } else {
      i := n;
      k := AddedInOrder(items, c, before, p, q);
      NoHit(items, conditions, ids[q], q);
    }
  }

  lemma SomeHit(items: seq<Evidence>, conditions: seq<Condition>, id: string) returns (i: nat, k: nat)
    requires id in IdsFor(items, conditions)
    ensures HitAt(items, conditions, i, k, id)
  {
    hide ConditionMatches, IdsFor;
    IdsForHolds(items, conditions);
    var e, j :| e in items && e.id == id && 0 <= j < |conditions| && ConditionMatches(e, conditions[j]);
    i := j;
    k :| 0 <= k < |items| && items[k] == e;
  }

  /** What the last condition adds, no condition before it meets. */
  lemma NoHit(items: seq<Evidence>, conditions: seq<Condition>, id: string, q: nat)
    requires conditions != [] && |IdsFor(items, conditions[..|conditions| - 1])| <= q < |IdsFor(items, conditions)|
    requires id == IdsFor(items, conditions)[q]
    ensures forall j: nat, l: nat :: HitAt(items, conditions, j, l, id) ==> j == |conditions| - 1
  {
    hide ConditionMatches, Matched, AddAll, NoRepeats, HitAt;
    var n := |conditions| - 1;
    var before, ids := IdsFor(items, conditions[..n]), IdsFor(items, conditions);
    AddAllKeeps(before, Matched(items, conditions[n]));
    IdsForHolds(items, conditions);
    IdsForHolds(items, conditions[..n]);
    Apart(ids, before, q);
    forall j: nat, l: nat | HitAt(items, conditions, j, l, id)
      ensures j == n
    {
      HitBefore(items, conditions, j, l, id);
    }
  }

  lemma HitBefore(items: seq<Evidence>, conditions: seq<Condition>, j: nat, l: nat, id: string)
    requires HitAt(items, conditions, j, l, id)
    ensures j < |conditions| && (j < |conditions| - 1 ==> Hits(items, conditions[..|conditions| - 1], id))
  {
    hide ConditionMatches;
    if j < |conditions| - 1 {
      assert items[l] in items && ConditionMatches(items[l], conditions[..|conditions| - 1][j]);
    }
  }

  lemma Apart(ids: seq<string>, before: seq<string>, q: nat)
    requires NoRepeats(ids) && before <= ids && |before| <= q < |ids|
    ensures ids[q] !in before
  {
  }

  /** Symptoms are listed in the order of the items and what is missing in the order of the conditions: of two parts, one
      after the other. */
  lemma {:induction false} SymptomsInParts(a: seq<Evidence>, b: seq<Evidence>, s: Symptom)
    ensures SymptomIds(a + b, s) == SymptomIds(a, s) + SymptomIds(b, s)
  {
    hide SymptomMatches;
    if b == [] {
      assert a + b == a;
    } else {
      var n := |b| - 1;
      SymptomsInParts(a, b[..n], s);
      assert (a + b)[..|a + b| - 1] == a + b[..n];
    }
  }

  lemma {:induction false} MissingInParts(items: seq<Evidence>, a: seq<Condition>, b: seq<Condition>)
    ensures Missing(items, a + b) == Missing(items, a) + Missing(items, b)
  {
    hide Matched;
    if b == [] {
      assert a + b == a;
    } else {
      var n := |b| - 1;
      MissingInParts(items, a, b[..n]);
      assert (a + b)[..|a + b| - 1] == a + b[..n];
    }
  }

  // ---- hypotheses ----

  ghost predicate Contradicted(r: Rule, items: seq<Evidence>) {
    exists c :: c in r.contradicting && c.critical && SomeSpeaks(items, c)
  }

  ghost predicate Supported(r: Rule, items: seq<Evidence>) {
    exists e :: e in items && SpeaksToSome(e, r.supporting)
  }

  ghost predicate ProvedInTime(r: Rule, items: seq<Evidence>) {
    r.temporal.Some? && SomeSpeaks(items, r.temporal.value)
  }

  /** The independent sources of what speaks for the rule. */
  ghost function Sources(r: Rule, items: seq<Evidence>): set<string> {
    set e | e in items && SpeaksToSome(e, r.supporting) :: e.source
  }

  /** The status of a rule's hypothesis, told by the evidence: a critical contradiction leaves it weakened or rejected as
      something speaks for it or not; without one proof in time or enough sources confirm it, some source supports it, and
      otherwise the evidence is insufficient. */
  lemma StatusByEvidence(incident: string, r: Rule, items: seq<Evidence>)
    ensures var h, n := Hypothesize(incident, r, Evaluate(r, items)), |Sources(r, items)|;
      && h.id == "HYP-" + incident + "-" + r.id && h.ruleId == r.id && h.domain == r.domain
      && h.sources == n && (h.temporal <==> ProvedInTime(r, items)) && (h.critical <==> Contradicted(r, items))
      && (h.status == WEAKENED <==> Contradicted(r, items) && Supported(r, items))
      && (h.status == REJECTED <==> Contradicted(r, items) && !Supported(r, items))
      && (h.status == CONFIRMED <==> !Contradicted(r, items) && (ProvedInTime(r, items) || n >= r.minSources))
      && (h.status == RcaHypotheses.SUPPORTED <==> !Contradicted(r, items) && !ProvedInTime(r, items) && 1 <= n < r.minSources)
      && h.confidence == (match h.status case CONFIRMED => HIGH case SUPPORTED => MEDIUM case WEAKENED => LOW case _ => INSUFFICIENT)
      && (forall id :: id in h.supporting <==> exists e :: e in items && e.id == id && SpeaksToSome(e, r.supporting))
      && (forall id :: id in h.contradicting <==> exists e :: e in items && e.id == id && SpeaksToSome(e, r.contradicting))
      && (forall d :: d in h.missing <==> exists c :: c in r.supporting && !SomeSpeaks(items, c) && c.description == d)
  {
    hide SymptomIds, IdsFor, CriticalHit, Missing, SupportingSources, Matched, SpeaksToSome, SomeSpeaks;
    IdsSpoken(items, r.supporting);
    IdsSpoken(items, r.contradicting);
    CriticalSpoken(items, r.contradicting);
    MissingUnspoken(items, r.supporting);
    SourcesSpoken(items, r.supporting);
    SupportedById(r, items);
    if r.temporal.Some? {
      MatchedSpeaks(items, r.temporal.value);
    }
  }

  lemma SupportedById(r: Rule, items: seq<Evidence>)
    ensures IdsFor(items, r.supporting) != [] <==> Supported(r, items)
  {
    hide IdsFor, SpeaksToSome;
    IdsSpoken(items, r.supporting);
    var ids := IdsFor(items, r.supporting);
    if ids != [] {
      assert ids[0] in ids;
    }
    if Supported(r, items) {
      var e :| e in items && SpeaksToSome(e, r.supporting);
      assert e.id in ids;
    }
  }

  /** A rule is a candidate exactly when some evidence shows its symptom. */
  lemma CandidateByEvidence(r: Rule, items: seq<Evidence>)
    ensures Evaluate(r, items).symptoms != [] <==> exists e :: e in items && Shows(e, r.symptom)
  {
    hide Shows, SymptomIds;
    SymptomsShown(items, r.symptom);
    var ids := SymptomIds(items, r.symptom);
    if ids != [] {
      assert ids[0] in ids;
    }
    if e :| e in items && Shows(e, r.symptom) {
      assert e.id in ids;
    }
  }

  // ---- the gate and the root cause ----

  /** With some declared evidence missing, what was confirmed is only supported, with the reason noted; all else, and
      everything when nothing is missing, stays as it was. */
  lemma GateByEvidence(hs: seq<Hypothesis>, declared: seq<string>, items: seq<Evidence>, i: nat)
    requires i < |hs|
    ensures var m := BuildManifest(declared, items);
      var h, g := hs[i], Gated(hs, m)[i];
      && m.declared == declared && m.present == (set e | e in items :: e.id)
      && m.missing == (set d | d in declared && forall e <- items :: e.id != d)
      && (m.complete <==> forall d <- declared :: exists e :: e in items && e.id == d)
      && |Gated(hs, m)| == |hs|
      && if !m.complete && h.status == CONFIRMED then
           g == Hypothesis(h.id, h.ruleId, h.domain, SUPPORTED, h.supporting, h.contradicting, h.critical,
                           h.missing + ["declared evidence reference(s) missing \U{2014} capped below CONFIRMED"],
                           h.sources, h.temporal, MEDIUM)
         else g == h
  {
    var m := BuildManifest(declared, items);
    forall d | d in declared
      ensures d in m.present <==> exists e :: e in items && e.id == d
    {
    }
    assert m.complete <==> forall d <- declared :: d in m.present by {
      assert forall d <- declared :: d in m.present || d in m.missing;
    }
  }

  /** The ids of the confirmed hypotheses stand in the order of the hypotheses. */
  lemma {:induction false} NamedInOrder(hs: seq<Hypothesis>, s: Status, p: nat, q: nat) returns (i: nat, j: nat)
    requires p < q < |WithStatus(hs, s)|
    ensures i < j < |hs| && hs[i] == WithStatus(hs, s)[p] && hs[j] == WithStatus(hs, s)[q]
  {
    hide WithStatus;
    var n := |hs| - 1;
    WithStatusSnoc(hs, s);
    var init := WithStatus(hs[..n], s);
    if q < |init| {
      i, j := NamedInOrder(hs[..n], s, p, q);
    } else {
      j := n;
      assert init[p] in init;
      i :| 0 <= i < n && hs[..n][i] == init[p];
    }
  }

  lemma WithStatusSnoc(hs: seq<Hypothesis>, s: Status)
    ensures hs == [] ==> WithStatus(hs, s) == []
    ensures hs != [] ==>
      var n := |hs| - 1;
      WithStatus(hs, s) == WithStatus(hs[..n], s) + if hs[n].status == s then [hs[n]] else []
  {
  }

  /** An unconfirmed root cause names no confirmed hypothesis, and competitors only where it is inconclusive; a confirmed one
      names no competitors. */
  lemma NamesOnly(incident: string, hs: seq<Hypothesis>)
    ensures var rc := AggregateRootCause(incident, hs);
      && rc.id == "RCA-" + incident + "-001"
      && (rc.completeness != Confirmed ==> rc.confirmed == [])
      && (rc.completeness != RcaCausality.Inconclusive ==> rc.competing == [])
      && (rc.completeness == Confirmed ==> rc.confirmed == IdsOf(WithStatus(hs, CONFIRMED)))
  {
    hide WithStatus, WithSources, MostSources;
  }
}
