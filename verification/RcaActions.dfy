/** Which actions are recommended: those of the rules of the confirmed hypotheses, rule by rule. */
module RcaActions {
  import opened Options
  import opened RcaRules
  import opened RcaHypotheses
  import opened RcaCausality
  import opened RcaSurvivors
  import opened Digits

  /** The rule behind each hypothesis, at the same place. */
  predicate Behind(rules: seq<Rule>, hs: seq<Hypothesis>, of: seq<Rule>) {
    |of| == |hs| && forall i :: 0 <= i < |hs| ==> of[i] in rules && of[i].id == hs[i].ruleId
  }

  /** How many actions the rules of the confirmed ones among the first `i` hypotheses have. */
  function Offset(hs: seq<Hypothesis>, of: seq<Rule>, i: nat): nat
    requires i <= |hs| == |of|
  {
    if i == 0 then 0 else Offset(hs, of, i - 1) + if hs[i - 1].status == CONFIRMED then |of[i - 1].actions| else 0
  }

  /** The actions of the rule of the `i`-th hypothesis, if that is confirmed, stand in one block in their order. */
  predicate BlockAt(actions: seq<string>, hs: seq<Hypothesis>, of: seq<Rule>, i: nat)
    requires i < |hs| == |of|
  {
    hs[i].status == CONFIRMED ==>
      var start := Offset(hs, of, i);
      start + |of[i].actions| <= |actions| && actions[start..start + |of[i].actions|] == of[i].actions
  }

  /** So for each confirmed hypothesis, the blocks following one another in the order of the hypotheses, and there is
      nothing else. */
  ghost predicate InBlocks(actions: seq<string>, hs: seq<Hypothesis>, of: seq<Rule>)
    requires |hs| == |of|
  {
    |actions| == Offset(hs, of, |hs|) && forall i: nat :: i < |hs| ==> BlockAt(actions, hs, of, i)
  }

  function ActionsIn(recs: seq<Recommendation>): (actions: seq<string>)
    ensures |actions| == |recs|
  {
    seq(|recs|, i requires 0 <= i < |recs| => recs[i].action)
  }

  lemma {:induction false} RuleFound(rules: seq<Rule>, r: Rule)
    requires DistinctRules(rules) && r in rules
    ensures RuleOf(rules, r.id) == Some(r)
  {
    var k :| 0 <= k < |rules| && rules[k] == r;
    RuleOfMember(rules, k);
  }

  lemma {:induction false} OffsetOfFront(hs: seq<Hypothesis>, of: seq<Rule>, n: nat, i: nat)
    requires i <= n <= |hs| == |of|
    ensures Offset(hs[..n], of[..n], i) == Offset(hs, of, i)
  {
    if i > 0 {
      OffsetOfFront(hs, of, n, i - 1);
    }
  }

  lemma {:induction false} OffsetGrows(hs: seq<Hypothesis>, of: seq<Rule>, i: nat, n: nat)
    requires i <= n <= |hs| == |of|
    ensures Offset(hs, of, i) <= Offset(hs, of, n)
  {
    if i < n {
      OffsetGrows(hs, of, i, n - 1);
    }
  }

  lemma {:induction false} ActionsInBlocks(rules: seq<Rule>, hs: seq<Hypothesis>, of: seq<Rule>, confirmed: seq<string>)
    requires DistinctRules(rules) && Behind(rules, hs, of)
    requires forall h <- hs :: h.id in confirmed <==> h.status == CONFIRMED
    ensures InBlocks(Actions(rules, hs, confirmed), hs, of)
  {
    hide RuleOf, DistinctRules, InBlocks, Offset, Actions;
    NoBlocks(rules, confirmed);
    if hs != [] {
      var n := |hs| - 1;
      assert hs[n] in hs && forall h <- hs[..n] :: h in hs;
      ActionsInBlocks(rules, hs[..n], of[..n], confirmed);
      RuleFound(rules, of[n]);
      ActionsSnoc(rules, hs, confirmed);
      BlocksSnoc(Actions(rules, hs[..n], confirmed), ActionsFor(rules, hs[n], confirmed), hs, of);
    }
  }

  lemma BlocksSnoc(before: seq<string>, last: seq<string>, hs: seq<Hypothesis>, of: seq<Rule>)
    requires |hs| == |of| > 0 && InBlocks(before, hs[..|hs| - 1], of[..|hs| - 1])
    requires last == if hs[|hs| - 1].status == CONFIRMED then of[|hs| - 1].actions else []
    ensures InBlocks(before + last, hs, of)
  {
    hide Offset, BlockAt;
    var n := |hs| - 1;
    OffsetOfFront(hs, of, n, n);
    OffsetStep(hs, of);
    forall i: nat | i < |hs|
      ensures BlockAt(before + last, hs, of, i)
    {
      if i < n {
        OffsetOfFront(hs, of, n, i);
        assert BlockAt(before, hs[..n], of[..n], i);
        BlockStays(before, last, hs, of, i);
      } else {
        LastBlock(before, last, hs, of);
      }
    }
  }

  lemma BlockStays(before: seq<string>, last: seq<string>, hs: seq<Hypothesis>, of: seq<Rule>, i: nat)
    requires |hs| == |of| > 0 && i < |hs| - 1 && BlockAt(before, hs[..|hs| - 1], of[..|hs| - 1], i)
    ensures BlockAt(before + last, hs, of, i)
  {
    hide Offset;
    OffsetOfFront(hs, of, |hs| - 1, i);
    if hs[i].status == CONFIRMED {
      var start, end := Offset(hs, of, i), Offset(hs, of, i) + |of[i].actions|;
      assert (before + last)[start..end] == before[start..end];
    }
  }

  lemma LastBlock(before: seq<string>, last: seq<string>, hs: seq<Hypothesis>, of: seq<Rule>)
    requires |hs| == |of| > 0 && |before| == Offset(hs, of, |hs| - 1)
    requires last == if hs[|hs| - 1].status == CONFIRMED then of[|hs| - 1].actions else []
    ensures BlockAt(before + last, hs, of, |hs| - 1)
  {
    hide Offset;
    assert (before + last)[|before|..] == last;
  }

  lemma NoBlocks(rules: seq<Rule>, confirmed: seq<string>)
    ensures InBlocks(Actions(rules, [], confirmed), [], [])
  {
  }

  lemma ActionsSnoc(rules: seq<Rule>, hs: seq<Hypothesis>, confirmed: seq<string>)
    requires hs != []
    ensures var n := |hs| - 1;
      Actions(rules, hs, confirmed) == Actions(rules, hs[..n], confirmed) + ActionsFor(rules, hs[n], confirmed)
  {
  }

  lemma OffsetStep(hs: seq<Hypothesis>, of: seq<Rule>)
    requires |hs| == |of| > 0
    ensures var n := |hs| - 1;
      Offset(hs, of, n + 1) == Offset(hs, of, n) + if hs[n].status == CONFIRMED then |of[n].actions| else 0
  {
  }

  /** What is confirmed is named by the root cause, and nothing else is. */
  lemma NamedIsConfirmed(incident: string, hs: seq<Hypothesis>)
    requires DistinctIds(hs)
    ensures var rc := AggregateRootCause(incident, hs);
      && (forall h <- hs :: h.id in rc.confirmed <==> h.status == CONFIRMED)
      && (rc.completeness == Confirmed <==> exists h <- hs :: h.status == CONFIRMED)
  {
    hide AggregateRootCause, DistinctIds;
    var rc := AggregateRootCause(incident, hs);
    ConfirmedExactly(incident, hs);
    forall h | h in hs && h.id in rc.confirmed
      ensures h.status == CONFIRMED
    {
      var g :| g in hs && g.status == CONFIRMED && g.id == h.id;
      SameIdSame(hs, g, h);
    }
  }

  lemma {:induction false} NoOffset(hs: seq<Hypothesis>, of: seq<Rule>, i: nat)
    requires i <= |hs| == |of| && forall h <- hs :: h.status != CONFIRMED
    ensures Offset(hs, of, i) == 0
  {
    if i > 0 {
      assert hs[i - 1] in hs;
      NoOffset(hs, of, i - 1);
    }
  }

  /** Whatever the hypotheses: the recommendations are the actions of the confirmed ones' rules, block after block. */
  lemma RecommendedInBlocks(incident: string, rules: seq<Rule>, hs: seq<Hypothesis>, of: seq<Rule>)
    requires DistinctRules(rules) && DistinctIds(hs) && Behind(rules, hs, of)
    ensures InBlocks(ActionsIn(Recommended(rules, hs, AggregateRootCause(incident, hs))), hs, of)
  {
    hide AggregateRootCause, RuleOf, DistinctRules, DistinctIds, RecId, Offset, Actions, BlockAt;
    var rc := AggregateRootCause(incident, hs);
    NamedIsConfirmed(incident, hs);
    if rc.completeness == Confirmed {
      assert ActionsIn(Recommended(rules, hs, rc)) == Actions(rules, hs, rc.confirmed);
      ActionsInBlocks(rules, hs, of, rc.confirmed);
    } else {
      NoOffset(hs, of, |hs|);
      forall i: nat | i < |hs|
        ensures BlockAt([], hs, of, i)
      {
        assert hs[i] in hs;
        NotConfirmedBlock(hs, of, i);
      }
    }
  }

  lemma NotConfirmedBlock(hs: seq<Hypothesis>, of: seq<Rule>, i: nat)
    requires i < |hs| == |of| && hs[i].status != CONFIRMED
    ensures BlockAt([], hs, of, i)
  {
  }

  // ---- of a whole run ----

  lemma RulesBehind(incident: string, declared: seq<string>, rules: seq<Rule>, items: seq<Evidence>, max: nat) returns (of: seq<Rule>)
    requires DistinctRules(rules)
    ensures Behind(rules, Pipeline(incident, declared, rules, items, max).hypotheses, of)
  {
    hide Generated, Evaluate, ComesFrom, DistinctRules, BuildManifest, AggregateRootCause, Recommended;
    var generated := Generated(incident, rules, items, max);
    var hs := Pipeline(incident, declared, rules, items, max).hypotheses;
    GeneratedComeFrom(incident, rules, items, max);
    of := [];
    for i := 0 to |hs|
      invariant |of| == i && forall j :: 0 <= j < i ==> of[j] in rules && of[j].id == hs[j].ruleId
    {
      assert generated[i] in generated;
      var k := Origin(incident, rules, items, generated[i]);
      of := of + [rules[k]];
    }
  }

  /** Of every run: the recommendations are, for each hypothesis of the result with status CONFIRMED in order, the actions
      of its rule in order, and nothing else. */
  lemma RunRecommends(incident: string, declared: seq<string>, rules: seq<Rule>, items: seq<Evidence>, max: nat) returns (of: seq<Rule>)
    requires DistinctRules(rules)
    ensures var r := Pipeline(incident, declared, rules, items, max);
      Behind(rules, r.hypotheses, of) && InBlocks(ActionsIn(r.recommendations), r.hypotheses, of)
  {
    hide Generated, AggregateRootCause, Recommended, DistinctRules, DistinctIds, Behind, InBlocks, BuildManifest, ComesFrom;
    of := RulesBehind(incident, declared, rules, items, max);
    GeneratedComeFrom(incident, rules, items, max);
    GatedKeepsDistinct(Generated(incident, rules, items, max), BuildManifest(declared, items));
    RecommendedInBlocks(incident, rules, Pipeline(incident, declared, rules, items, max).hypotheses, of);
  }

  lemma GatedKeepsDistinct(hs: seq<Hypothesis>, m: Manifest)
    requires DistinctIds(hs)
    ensures DistinctIds(Gated(hs, m))
  {
  }

  /** Position `p` of the recommendations lies in some block. */
  lemma {:induction false} BlockOf(hs: seq<Hypothesis>, of: seq<Rule>, n: nat, p: nat) returns (i: nat)
    requires n <= |hs| == |of| && p < Offset(hs, of, n)
    ensures i < n && hs[i].status == CONFIRMED && Offset(hs, of, i) <= p < Offset(hs, of, i) + |of[i].actions|
  {
    if p < Offset(hs, of, n - 1) {
      i := BlockOf(hs, of, n - 1, p);
    } else {
      i := n - 1;
    }
  }

  /** An action is recommended if and only if the rule of some confirmed hypothesis of the result lists it; with nothing
      confirmed none is. */
  lemma RecommendedExactly(incident: string, declared: seq<string>, rules: seq<Rule>, items: seq<Evidence>, max: nat, action: string)
    requires DistinctRules(rules)
    ensures var r := Pipeline(incident, declared, rules, items, max);
      (exists rec :: rec in r.recommendations && rec.action == action) <==>
        exists h, rule :: h in r.hypotheses && h.status == CONFIRMED && rule in rules && rule.id == h.ruleId && action in rule.actions
  {
    hide Pipeline, Offset, DistinctRules, InBlocks;
    var r := Pipeline(incident, declared, rules, items, max);
    var of := RunRecommends(incident, declared, rules, items, max);
    if rec :| rec in r.recommendations && rec.action == action {
      var p :| 0 <= p < |r.recommendations| && r.recommendations[p] == rec;
      FromSomeBlock(ActionsIn(r.recommendations), r.hypotheses, of, p);
    }
    if h, rule :| h in r.hypotheses && h.status == CONFIRMED && rule in rules && rule.id == h.ruleId && action in rule.actions {
      var i :| 0 <= i < |r.hypotheses| && r.hypotheses[i] == h;
      RuleFound(rules, rule);
      RuleFound(rules, of[i]);
      var p := IntoItsBlock(ActionsIn(r.recommendations), r.hypotheses, of, i, action);
      assert r.recommendations[p] in r.recommendations;
    }
  }

  lemma FromSomeBlock(actions: seq<string>, hs: seq<Hypothesis>, of: seq<Rule>, p: nat)
    requires |hs| == |of| && InBlocks(actions, hs, of) && p < |actions|
    ensures exists i :: 0 <= i < |hs| && hs[i] in hs && hs[i].status == CONFIRMED && actions[p] in of[i].actions
  {
    hide Offset;
    var i := BlockOf(hs, of, |hs|, p);
    var start := Offset(hs, of, i);
    assert BlockAt(actions, hs, of, i);
    assert of[i].actions[p - start] == actions[start..start + |of[i].actions|][p - start] == actions[p];
  }

  lemma IntoItsBlock(actions: seq<string>, hs: seq<Hypothesis>, of: seq<Rule>, i: nat, action: string) returns (p: nat)
    requires |hs| == |of| && InBlocks(actions, hs, of) && i < |hs| && hs[i].status == CONFIRMED && action in of[i].actions
    ensures p < |actions| && actions[p] == action
  {
    hide Offset;
    var k :| 0 <= k < |of[i].actions| && of[i].actions[k] == action;
    var start := Offset(hs, of, i);
    assert BlockAt(actions, hs, of, i);
    assert actions[start..start + |of[i].actions|][k] == action;
    p := start + k;
  }

  lemma {:induction false} EnoughDigits(n: nat, w: nat)
    requires n >= Pow10(w)
    ensures |Decimal(n)| > w
  {
    if w > 0 {
      EnoughDigits(n / 10, w - 1);
    }
  }

  /** A number is written in three digits, or in as many as it needs. */
  lemma NumberIsRead(n: nat)
    ensures var s := Number3(n);
      |s| >= 3 && AllDigits(s) && ParseNat(s) == n && (|s| > 3 ==> s[0] != '0')
  {
    assert Pow10(3) == 1000 && Pow10(2) == 100;
    if n < 1000 {
      ParsePad(n, 3);
    } else {
      ParseDecimal(n);
      NoLeadingZero(n);
      EnoughDigits(n, 3);
    }
  }

  /** Recommendations are numbered from one, under the id of the root cause; none is executed. */
  lemma RecommendationsNumbered(incident: string, declared: seq<string>, rules: seq<Rule>, items: seq<Evidence>, max: nat, i: nat)
    requires i < |Pipeline(incident, declared, rules, items, max).recommendations|
    ensures var x, cause := Pipeline(incident, declared, rules, items, max).recommendations[i], "RCA-" + incident + "-001";
      && x.linkedTo == cause && !x.executed
      && exists s :: x.id == "REC-" + cause + "-" + s && |s| >= 3 && (|s| > 3 ==> s[0] != '0') && AllDigits(s) && ParseNat(s) == i + 1
  {
    hide Generated, Gated, Actions, BuildManifest, WithStatus, WithSources, MostSources, Number3;
    NumberIsRead(i + 1);
  }
}
