/** The hypotheses that survive the ranking, and the rules they belong to. */
module RcaSurvivors {
  import opened Options
  import opened RcaRules
  import opened RcaHypotheses
  import opened RcaCausality
  import opened Sorting
  import opened TextOrder

  predicate DistinctRules(rules: seq<Rule>) {
    forall i, j :: 0 <= i < j < |rules| ==> rules[i].id != rules[j].id
  }

  lemma {:induction false} RuleOfMember(rules: seq<Rule>, k: nat)
    requires k < |rules| && DistinctRules(rules)
    ensures RuleOf(rules, rules[k].id) == Some(rules[k])
  {
    var n := |rules| - 1;
    if k < n {
      assert forall i :: 0 <= i < n ==> rules[..n][i] == rules[i];
      RuleOfMember(rules[..n], k);
    }
  }

  /** Where a generated hypothesis comes from. */
  ghost predicate ComesFrom(incident: string, rules: seq<Rule>, items: seq<Evidence>, h: Hypothesis) {
    exists k :: 0 <= k < |rules| && h == Hypothesize(incident, rules[k], Evaluate(rules[k], items))
  }

  lemma {:induction false} CandidatesComeFrom(incident: string, rules: seq<Rule>, items: seq<Evidence>)
    ensures forall h <- Candidates(incident, rules, items) :: ComesFrom(incident, rules, items, h)
    ensures DistinctRules(rules) ==> DistinctIds(Candidates(incident, rules, items))
  {
    hide Evaluate, HypothesisId, Hypothesize, ComesFrom, DistinctRules, DistinctIds;
    if rules == [] {
      NoneDistinct();
    } else {
      var n := |rules| - 1;
      var init, r := rules[..n], rules[n];
      CandidatesComeFrom(incident, init, items);
      forall h | h in Candidates(incident, init, items)
        ensures ComesFrom(incident, rules, items, h)
        ensures DistinctRules(rules) ==> h.id != HypothesisId(incident, r.id)
      {
        ComesFromMore(incident, rules, items, h);
      }
      FrontIsDistinct(rules);
      LastComesFrom(incident, rules, items);
      DistinctSnocId(Candidates(incident, init, items), Hypothesize(incident, r, Evaluate(r, items)));
    }
  }

  lemma ComesFromMore(incident: string, rules: seq<Rule>, items: seq<Evidence>, h: Hypothesis)
    requires rules != [] && ComesFrom(incident, rules[..|rules| - 1], items, h)
    ensures ComesFrom(incident, rules, items, h)
    ensures DistinctRules(rules) ==> h.id != HypothesisId(incident, rules[|rules| - 1].id)
  {
    hide Evaluate, HypothesisId;
    var n := |rules| - 1;
    var k :| 0 <= k < n && h == Hypothesize(incident, rules[..n][k], Evaluate(rules[..n][k], items));
    assert h == Hypothesize(incident, rules[k], Evaluate(rules[k], items));
    IdsDiffer(incident, rules[k].id, rules[n].id);
  }

  lemma LastComesFrom(incident: string, rules: seq<Rule>, items: seq<Evidence>)
    requires rules != []
    ensures var r := rules[|rules| - 1]; var h := Hypothesize(incident, r, Evaluate(r, items));
      ComesFrom(incident, rules, items, h) && h.id == HypothesisId(incident, r.id)
  {
    hide Evaluate, HypothesisId;
  }

  lemma FrontIsDistinct(rules: seq<Rule>)
    requires rules != []
    ensures DistinctRules(rules) ==> DistinctRules(rules[..|rules| - 1])
  {
  }

  lemma NoneDistinct()
    ensures DistinctIds([])
  {
  }

  lemma DistinctSnocId(hs: seq<Hypothesis>, h: Hypothesis)
    ensures DistinctIds(hs) && (forall g <- hs :: g.id != h.id) ==> DistinctIds(hs + [h])
    ensures DistinctIds(hs) ==> DistinctIds(hs + [])
  {
    assert hs + [] == hs;
    assert forall i :: 0 <= i < |hs| ==> hs[i] in hs;
  }

  lemma IdsDiffer(incident: string, a: string, b: string)
    ensures HypothesisId(incident, a) == HypothesisId(incident, b) ==> a == b
  {
    var p := "HYP-" + incident + "-";
    assert HypothesisId(incident, a)[|p|..] == a && HypothesisId(incident, b)[|p|..] == b;
  }

  /** No id occurs twice, said without positions. */
  lemma DistinctByCount(hs: seq<Hypothesis>, gs: seq<Hypothesis>)
    requires DistinctIds(hs) && multiset(gs) == multiset(hs)
    ensures DistinctIds(gs)
  {
    CountsAtMostOnce(hs);
    forall i, j | 0 <= i < j < |gs|
      ensures gs[i].id != gs[j].id
    {
      assert gs[i] in multiset(gs) && gs[j] in multiset(gs);
      assert gs[i] in hs && gs[j] in hs;
      SameIdSame(hs, gs[i], gs[j]);
      TwiceCounts(gs, i, j);
    }
  }

  lemma SameIdSame(hs: seq<Hypothesis>, a: Hypothesis, b: Hypothesis)
    requires DistinctIds(hs) && a in hs && b in hs
    ensures a.id == b.id ==> a == b
  {
    var i :| 0 <= i < |hs| && hs[i] == a;
    var j :| 0 <= j < |hs| && hs[j] == b;
  }

  lemma {:induction false} CountsAtMostOnce(hs: seq<Hypothesis>)
    requires DistinctIds(hs)
    ensures forall h :: multiset(hs)[h] <= 1
  {
    if hs != [] {
      var n := |hs| - 1;
      assert forall i :: 0 <= i < n ==> hs[..n][i] == hs[i];
      CountsAtMostOnce(hs[..n]);
      assert hs == hs[..n] + [hs[n]];
      assert hs[n] !in hs[..n];
    }
  }

  lemma TwiceCounts(gs: seq<Hypothesis>, i: nat, j: nat)
    requires i < j < |gs|
    ensures gs[i] == gs[j] ==> multiset(gs)[gs[i]] >= 2
  {
    assert gs == gs[..j] + gs[j..];
    assert gs[..j][i] == gs[i] && gs[j..][0] == gs[j];
    assert gs[i] in multiset(gs[..j]) && gs[j] in multiset(gs[j..]);
  }

  lemma GeneratedComeFrom(incident: string, rules: seq<Rule>, items: seq<Evidence>, max: nat)
    requires DistinctRules(rules)
    ensures forall h <- Generated(incident, rules, items, max) :: ComesFrom(incident, rules, items, h)
    ensures DistinctIds(Generated(incident, rules, items, max))
  {
    hide Candidates, Ranked, ComesFrom, DistinctRules;
    var candidates := Candidates(incident, rules, items);
    CandidatesComeFrom(incident, rules, items);
    RankedIsOrdered(candidates);
    DistinctByCount(candidates, Ranked(candidates));
    forall h | h in Generated(incident, rules, items, max)
      ensures ComesFrom(incident, rules, items, h)
    {
      assert h in multiset(Ranked(candidates));
    }
  }


  lemma Origin(incident: string, rules: seq<Rule>, items: seq<Evidence>, h: Hypothesis) returns (k: nat)
    requires ComesFrom(incident, rules, items, h)
    ensures k < |rules| && h == Hypothesize(incident, rules[k], Evaluate(rules[k], items))
  {
    hide Evaluate, Hypothesize;
    k :| 0 <= k < |rules| && h == Hypothesize(incident, rules[k], Evaluate(rules[k], items));
  }

  // ---- which rules survive ----

  /** The evidence shows a symptom of the rule. */
  predicate ShowsSymptom(items: seq<Evidence>, r: Rule) {
    Evaluate(r, items).symptoms != []
  }

  /** More independent sources, or as many and the lesser id. */
  predicate RanksAhead(items: seq<Evidence>, a: Rule, b: Rule) {
    var m, n := |Evaluate(a, items).sources|, |Evaluate(b, items).sources|;
    m > n || (m == n && Less(a.id, b.id))
  }

  /** How many rules have a symptom match. */
  function Symptomatic(rules: seq<Rule>, items: seq<Evidence>): nat {
    CountIf((r: Rule) => ShowsSymptom(items, r), rules)
  }

  /** How many of them rank ahead of `r`. */
  function Ahead(rules: seq<Rule>, items: seq<Evidence>, r: Rule): nat {
    CountIf((s: Rule) => ShowsSymptom(items, s) && RanksAhead(items, s, r), rules)
  }

  /** The rule has a symptom match and fewer than `max` such rules rank ahead of it. */
  predicate Survives(rules: seq<Rule>, items: seq<Evidence>, max: nat, r: Rule) {
    ShowsSymptom(items, r) && Ahead(rules, items, r) < max
  }

  lemma {:induction false} CandidatesAhead(incident: string, rules: seq<Rule>, items: seq<Evidence>, r: Rule)
    ensures var h := Hypothesize(incident, r, Evaluate(r, items));
      CountIf((x: Hypothesis) => Before(x, h), Candidates(incident, rules, items)) == Ahead(rules, items, r)
  {
    hide Evaluate, CountIf;
    var h := Hypothesize(incident, r, Evaluate(r, items));
    var (p, q) := ((x: Hypothesis) => Before(x, h), (s: Rule) => ShowsSymptom(items, s) && RanksAhead(items, s, r));
    if rules == [] {
      CountNone(p);
      CountNone(q);
    } else {
      var n := |rules| - 1;
      CandidatesAhead(incident, rules[..n], items, r);
      assert rules == rules[..n] + [rules[n]];
      CountSnoc(q, rules[..n], rules[n]);
      var last := Hypothesize(incident, rules[n], Evaluate(rules[n], items));
      CountSnoc(p, Candidates(incident, rules[..n], items), last);
      assert Before(last, h) <==> RanksAhead(items, rules[n], r);
      assert Candidates(incident, rules[..n], items) + [] == Candidates(incident, rules[..n], items);
      assert Ahead(rules, items, r) == CountIf(q, rules) && Ahead(rules[..n], items, r) == CountIf(q, rules[..n]);
    }
  }

  /** In a ranking without repeated ids a hypothesis stands behind as many as rank before it. */
  lemma PlaceInRanking(ranked: seq<Hypothesis>, i: nat)
    requires i < |ranked| && Sorted(Before, ranked)
    requires forall a, b :: 0 <= a < b < |ranked| ==> ranked[a].ruleId != ranked[b].ruleId
    ensures CountIf((x: Hypothesis) => Before(x, ranked[i]), ranked) == i
  {
    hide Before;
    var p := (x: Hypothesis) => Before(x, ranked[i]);
    forall j | 0 <= j < |ranked|
      ensures p(ranked[j]) <==> j < i
    {
      BeforeIsAnOrder(ranked[j], ranked[i], ranked[i]);
    }
    CountFront(p, ranked, i);
  }

  lemma {:induction false} CandidateOf(incident: string, rules: seq<Rule>, items: seq<Evidence>, k: nat)
    requires k < |rules| && DistinctRules(rules)
    ensures Hypothesize(incident, rules[k], Evaluate(rules[k], items)) in Candidates(incident, rules, items)
      <==> ShowsSymptom(items, rules[k])
  {
    hide Evaluate, HypothesisId;
    var n := |rules| - 1;
    var h := Hypothesize(incident, rules[k], Evaluate(rules[k], items));
    if k < n {
      CandidateOf(incident, rules[..n], items, k);
    } else if h in Candidates(incident, rules[..n], items) {
      CandidatesComeFrom(incident, rules[..n], items);
      ComesFromMore(incident, rules, items, h);
    }
  }

  lemma RuleIdsDiffer(incident: string, rules: seq<Rule>, items: seq<Evidence>, hs: seq<Hypothesis>)
    requires DistinctIds(hs) && forall h <- hs :: ComesFrom(incident, rules, items, h)
    ensures forall a, b :: 0 <= a < b < |hs| ==> hs[a].ruleId != hs[b].ruleId
  {
    hide Evaluate, HypothesisId, ComesFrom;
    forall a, b | 0 <= a < b < |hs|
      ensures hs[a].ruleId != hs[b].ruleId
    {
      assert hs[a] in hs && hs[b] in hs;
      var j := Origin(incident, rules, items, hs[a]);
      var k := Origin(incident, rules, items, hs[b]);
    }
  }

  /** A rule's hypothesis is kept exactly when the rule survives. */
  lemma SurvivesExactly(incident: string, rules: seq<Rule>, items: seq<Evidence>, max: nat, k: nat)
    requires k < |rules| && DistinctRules(rules)
    ensures Hypothesize(incident, rules[k], Evaluate(rules[k], items)) in Generated(incident, rules, items, max)
      <==> Survives(rules, items, max, rules[k])
  {
    hide Evaluate, Hypothesize, Candidates, Ranked, ComesFrom, DistinctRules, Ahead, ShowsSymptom, CountIf;
    var h := Hypothesize(incident, rules[k], Evaluate(rules[k], items));
    var candidates := Candidates(incident, rules, items);
    var ranked := Ranked(candidates);
    CandidateOf(incident, rules, items, k);
    RankedIsOrdered(candidates);
    assert h in multiset(ranked) <==> h in multiset(candidates);
    if h in ranked {
      var i :| 0 <= i < |ranked| && ranked[i] == h;
      RankedRuleIds(incident, rules, items);
      PlaceInRanking(ranked, i);
      CandidatesAhead(incident, rules, items, rules[k]);
      SortKeepsCount((x: Hypothesis) => Before(x, h), candidates);
      assert h in Generated(incident, rules, items, max) <==> i < max by {
        forall j | 0 <= j < |ranked| && ranked[j] == h
          ensures j == i
        {
        }
      }
    }
  }

  lemma SortKeepsCount(p: Hypothesis -> bool, hs: seq<Hypothesis>)
    ensures CountIf(p, Ranked(hs)) == CountIf(p, hs)
  {
    CountSorted(p, Before, hs);
  }

  lemma RankedRuleIds(incident: string, rules: seq<Rule>, items: seq<Evidence>)
    requires DistinctRules(rules)
    ensures var ranked := Ranked(Candidates(incident, rules, items));
      Sorted(Before, ranked) && forall a, b :: 0 <= a < b < |ranked| ==> ranked[a].ruleId != ranked[b].ruleId
  {
    hide Candidates, Ranked, ComesFrom, DistinctRules, Before;
    var candidates := Candidates(incident, rules, items);
    CandidatesComeFrom(incident, rules, items);
    RankedIsOrdered(candidates);
    DistinctByCount(candidates, Ranked(candidates));
    forall h | h in Ranked(candidates)
      ensures ComesFrom(incident, rules, items, h)
    {
      assert h in multiset(Ranked(candidates));
    }
    RuleIdsDiffer(incident, rules, items, Ranked(candidates));
  }

  /** With no more symptomatic rules than are kept, all of them survive. */
  lemma AllSurvive(rules: seq<Rule>, items: seq<Evidence>, max: nat)
    requires Symptomatic(rules, items) <= max
    ensures forall r <- rules :: Survives(rules, items, max, r) <==> Evaluate(r, items).symptoms != []
  {
    hide Evaluate, CountIf, Less;
    forall r | r in rules && ShowsSymptom(items, r)
      ensures Ahead(rules, items, r) < max
    {
      var k :| 0 <= k < |rules| && rules[k] == r;
      LessIrreflexive(r.id);
      CountFewer((s: Rule) => ShowsSymptom(items, s) && RanksAhead(items, s, r), (s: Rule) => ShowsSymptom(items, s), rules, k);
    }
  }
}
