/** Runs that file the versions of one entry and take them to publication, call by call. */
module KbEpisodes {
  import opened KbModel
  import opened KbReview
  import opened KbStore
  import opened KbRecords
  import TextOrder
  import UtcText
  import opened Options

  /** The versions of one entry, each with the time of the decisions on it. */
  datatype Plan = Plan(kb: KbId, versions: seq<Planning>, now: string, reviewer: string)

  datatype Planning = Planning(content: Content, decided: string)

  /** No text is too large and no field is missing. */
  ghost predicate Roomy(x: Texts) {
    && (forall art, at :: x.json(art, at) <= MAX_OUTPUT_BYTES)
    && (forall art :: x.page(art).Some? && x.page(art).value <= MAX_OUTPUT_BYTES)
    && (forall art :: x.recordable(art))
    && (forall m :: x.manifest(m) <= MAX_OUTPUT_BYTES)
  }

  predicate Fit(p: Plan, c: Content) {
    && c.kbId == p.kb && QualityGate(c) && p.reviewer !in c.proposers
    && c.body.supersedes in {None, Some(p.kb)}
  }

  predicate Repeats(a: Content, b: Content) {
    SameFamily(a.dedupKey, b.dedupKey) && RecommendationDigest(a.body) == RecommendationDigest(b.body)
  }

  ghost predicate Planned(p: Plan) {
    && |p.versions| < MAX_VERSION
    && (forall w <- p.versions :: Fit(p, w.content))
    && (forall i, j :: 0 <= i < j < |p.versions| ==> !Repeats(p.versions[i].content, p.versions[j].content))
    && UtcText.IsUtcTimestamp(p.now)
  }

  function CandidateOf(p: Plan, v: nat): KbCandidate
    requires 1 <= v <= |p.versions|
  {
    KbCandidate(true, p.versions[v - 1].content, Draft, p.versions[v - 1].content)
  }

  function ArticleOf(p: Plan, v: nat): Article
    requires 1 <= v <= |p.versions|
  {
    Article(p.versions[v - 1].content, v)
  }

  function Approval(p: Plan, v: nat, id: string): AuthInput
    requires 1 <= v <= |p.versions|
  {
    Record(AuthRecord(id, KbArtifact(p.kb), true, p.reviewer, p.versions[v - 1].decided, ContentDigest(ArticleOf(p, v)), v))
  }

  predicate OnlyUses(h: seq<Event>, ids: set<string>, time: string) {
    forall e <- h :: e.decision.Some? ==> e.decision.value.authorizationId in ids && e.decision.value.decidedAt == time
  }

  predicate Filed(p: Plan, r: Version, v: nat, state: KbState, ids: set<string>)
    requires 1 <= v <= |p.versions|
  {
    var c := p.versions[v - 1].content;
    && r.state == state
    && r.digest == ContentDigest(ArticleOf(p, v))
    && r.dedupKey == c.dedupKey
    && r.recDigest == RecommendationDigest(c.body)
    && r.proposers == c.proposers
    && OnlyUses(r.history, ids, p.versions[v - 1].decided)
  }

  predicate VersionHolds(p: Plan, s: Store, i: nat, state: KbState, ids: set<string>)
    requires i < |p.versions|
  {
    && i < |VersionsOf(s, p.kb)| && Filed(p, VersionsOf(s, p.kb)[i], i + 1, state, ids)
    && (p.kb, i + 1) in s.articles && s.articles[(p.kb, i + 1)] == ArticleOf(p, i + 1)
  }

  /** The store holds just this entry, its versions so far in these states, and no file beyond them. */
  ghost predicate Holds(p: Plan, s: Store, states: seq<KbState>, ids: set<string>) {
    && |states| <= |p.versions|
    && s.entries.Keys <= {p.kb}
    && |VersionsOf(s, p.kb)| == |states|
    && (forall i: nat :: i < |states| ==> VersionHolds(p, s, i, states[i], ids))
    && (forall key <- s.articles :: key.0 == p.kb ==> key.1 <= |states|)
    && (forall key <- s.pages :: key.0 == p.kb ==> key.1 <= |states|)
  }

  lemma Small(p: Plan, s: Store)
    requires s.entries.Keys <= {p.kb} && |VersionsOf(s, p.kb)| <= MAX_VERSION
    ensures Loadable(s) && (p.kb !in s.entries ==> |s.entries| == 0)
  {
    assert |s.entries.Keys| + |{p.kb} - s.entries.Keys| == 1 by {
      assert s.entries.Keys + ({p.kb} - s.entries.Keys) == {p.kb};
    }
    assert p.kb !in s.entries ==> s.entries.Keys == {};
  }

  // ---- filing the next version ----

  lemma NothingRepeated(p: Plan, s: Store, states: seq<KbState>, ids: set<string>, v: nat)
    requires Planned(p) && Holds(p, s, states, ids) && v == |states| + 1 <= |p.versions|
    ensures VerdictOf(p.versions[v - 1].content, RowsOf(s)) != Duplicate
  {
    forall row | row in RowsOf(s)
      ensures !Duplicates(p.versions[v - 1].content, row)
    {
      var k, i :| k in s.entries && 0 <= i < |s.entries[k]| && row == RowOf(k, i + 1, s.entries[k][i]);
      assert k == p.kb && VersionHolds(p, s, i, states[i], ids);
      assert !Repeats(p.versions[i].content, p.versions[v - 1].content);
    }
  }

  lemma NextIsAdded(x: Texts, p: Plan, s: Store, states: seq<KbState>, ids: set<string>)
    requires Roomy(x) && Planned(p) && Holds(p, s, states, ids) && |states| < |p.versions|
    ensures AddResult(x, s, CandidateOf(p, |states| + 1), p.now) == Insert(s, CandidateOf(p, |states| + 1), p.now)
  {
    hide UtcText.IsUtcTimestamp, QualityGate, Filed, VerdictOf, Loadable;
    NothingRepeated(p, s, states, ids, |states| + 1);
    Small(p, s);
    FitsAll(p, |states| + 1);
  }

  lemma Files(x: Texts, p: Plan, s: Store, states: seq<KbState>, ids: set<string>)
    requires Roomy(x) && Planned(p) && Holds(p, s, states, ids) && |states| < |p.versions|
    ensures Holds(p, AddResult(x, s, CandidateOf(p, |states| + 1), p.now), states + [Draft], ids)
  {
    hide AddResult, Planned, Roomy;
    NextIsAdded(x, p, s, states, ids);
    var v := |states| + 1;
    var t := Insert(s, CandidateOf(p, v), p.now);
    assert VersionsOf(t, p.kb) == VersionsOf(s, p.kb) + [NewVersion(CandidateOf(p, v), v, p.now)] by {
      FitsAll(p, v);
    }
    FitsAll(p, v);
    forall i: nat | i < v
      ensures VersionHolds(p, t, i, (states + [Draft])[i], ids)
    {
      assert i < v - 1 ==> VersionHolds(p, s, i, states[i], ids);
    }
  }

  lemma FitsAll(p: Plan, v: nat)
    requires Planned(p) && 1 <= v <= |p.versions|
    ensures Fit(p, p.versions[v - 1].content)
  {
  }

  // ---- moving a version ----

  /** No other open version recommends something else, unless version `v` supersedes the entry. */
  predicate Clear(p: Plan, states: seq<KbState>, v: nat)
    requires 1 <= v <= |states| <= |p.versions|
  {
    forall i :: 0 <= i < |states| && i != v - 1 && Open(states[i]) ==>
      || RecommendationDigest(p.versions[i].content.body) == RecommendationDigest(p.versions[v - 1].content.body)
      || p.versions[v - 1].content.body.supersedes == Some(p.kb)
  }

  lemma NotRefused(p: Plan, s: Store, v: nat, to: KbState, states: seq<KbState>, ids: set<string>)
    requires Planned(p) && Holds(p, s, states, ids) && 1 <= v <= |states| <= |p.versions| && Clear(p, states, v)
    requires to in Targets(states[v - 1])
    ensures Refusal(s, p.kb, v, to, p.now).None?
    ensures HasVersion(s, p.kb, v) && ArticleIntact(s, p.kb, v) && s.articles[(p.kb, v)] == ArticleOf(p, v)
  {
    hide UtcText.IsUtcTimestamp, QualityGate, Loadable, OnlyUses;
    Small(p, s);
    FitsAll(p, v);
    assert VersionHolds(p, s, v - 1, states[v - 1], ids);
    var body := p.versions[v - 1].content.body;
    forall i: nat | i < |s.entries[p.kb]|
      ensures !OpenConflict(s.entries[p.kb], v, i, p.kb, body)
    {
      assert VersionHolds(p, s, i, states[i], ids);
    }
  }

  lemma Unused(p: Plan, s: Store, id: string, states: seq<KbState>, ids: set<string>)
    requires Holds(p, s, states, ids) && id !in ids
    ensures !AuthorizationUsed(VersionsOf(s, p.kb), id)
  {
    var versions := VersionsOf(s, p.kb);
    forall i, k | 0 <= i < |versions| && 0 <= k < |versions[i].history|
      ensures !UsesId(versions[i].history[k], id)
    {
      assert VersionHolds(p, s, i, states[i], ids);
      assert versions[i].history[k] in versions[i].history;
    }
  }

  predicate Gives(r: Result<Option<Decision>>, needed: bool, id: string, time: string) {
    && r.Ok? && (r.value.Some? <==> needed)
    && (r.value.Some? ==> r.value.value.authorizationId == id && r.value.value.decidedAt == time)
  }

  lemma Authorized(p: Plan, s: Store, v: nat, to: KbState, id: string, states: seq<KbState>, ids: set<string>)
    requires Planned(p) && Holds(p, s, states, ids) && 1 <= v <= |states| && id !in ids
    ensures Gives(Authorize(VersionsOf(s, p.kb), p.kb, v, to, Approval(p, v, id)),
                  HumanDecision(states[v - 1], to), id, p.versions[v - 1].decided)
  {
    hide UtcText.IsUtcTimestamp, QualityGate, AuthorizationUsed;
    TextOrder.LessIrreflexive(p.versions[v - 1].decided);
    FitsAll(p, v);
    Unused(p, s, id, states, ids);
    assert VersionHolds(p, s, v - 1, states[v - 1], ids);
  }

  lemma Accepts(x: Texts, p: Plan, s: Store, v: nat, to: KbState, id: string, states: seq<KbState>, ids: set<string>)
    returns (d: Option<Decision>)
    requires Roomy(x) && Planned(p) && Holds(p, s, states, ids) && 1 <= v <= |states| <= |p.versions| && Clear(p, states, v)
    requires to in Targets(states[v - 1]) && id !in ids
    ensures HasVersion(s, p.kb, v) && ArticleIntact(s, p.kb, v) && s.articles[(p.kb, v)] == ArticleOf(p, v)
    ensures Gives(Ok(d), HumanDecision(states[v - 1], to), id, p.versions[v - 1].decided)
    ensures Supersedes(s, p.kb, v, to) ==> d.Some?
    ensures TransitionResult(x, s, p.kb, v, to, p.now, Approval(p, v, id)) == MoveStore(s, p.kb, v, to, p.now, d)
  {
    hide Refusal, Authorize, Planned, Holds, Clear;
    NotRefused(p, s, v, to, states, ids);
    Authorized(p, s, v, to, id, states, ids);
    d := Authorize(VersionsOf(s, p.kb), p.kb, v, to, Approval(p, v, id)).value;
  }

  lemma StillFiled(p: Plan, r: Version, v: nat, state: KbState, ids: set<string>, id: string)
    requires 1 <= v <= |p.versions| && Filed(p, r, v, state, ids)
    ensures Filed(p, r, v, state, ids + {id})
  {
  }

  lemma Moves(x: Texts, p: Plan, s: Store, v: nat, to: KbState, id: string, states: seq<KbState>, ids: set<string>)
    requires Roomy(x) && Planned(p) && Holds(p, s, states, ids) && 1 <= v <= |states| <= |p.versions| && Clear(p, states, v)
    requires to in Targets(states[v - 1]) && id !in ids
    requires !(to == Published && p.versions[v - 1].content.body.supersedes == Some(p.kb))
    ensures Holds(p, TransitionResult(x, s, p.kb, v, to, p.now, Approval(p, v, id)), states[v - 1 := to], ids + {id})
  {
    hide TransitionResult, Planned, Roomy, Clear, Targets;
    var d := Accepts(x, p, s, v, to, id, states, ids);
    assert !Supersedes(s, p.kb, v, to);
    var t := MoveStore(s, p.kb, v, to, p.now, d);
    assert VersionsOf(t, p.kb) == VersionsOf(s, p.kb)[v - 1 := Moved(VersionsOf(s, p.kb)[v - 1], to, p.now, d)];
    assert t.entries.Keys == s.entries.Keys && t.articles == s.articles && t.pages == s.pages;
    var moved := states[v - 1 := to];
    forall i: nat | i < |states|
      ensures VersionHolds(p, t, i, moved[i], ids + {id})
    {
      assert VersionHolds(p, s, i, states[i], ids);
      StillFiled(p, VersionsOf(s, p.kb)[i], i + 1, states[i], ids, id);
    }
  }

  // ---- runs ----

  function Moving(p: Plan, v: nat, to: KbState, id: string): Step
    requires 1 <= v <= |p.versions|
  {
    Move(p.kb, v, to, p.now, Approval(p, v, id))
  }

  lemma NextMove(x: Texts, p: Plan, steps: seq<Step>, v: nat, to: KbState, id: string, states: seq<KbState>, ids: set<string>)
    requires Roomy(x) && Planned(p) && Holds(p, Run(x, steps), states, ids) && 1 <= v <= |states| <= |p.versions| && Clear(p, states, v)
    requires to in Targets(states[v - 1]) && id !in ids
    requires !(to == Published && p.versions[v - 1].content.body.supersedes == Some(p.kb))
    ensures Holds(p, Run(x, steps + [Moving(p, v, to, id)]), states[v - 1 := to], ids + {id})
  {
    hide Holds, Run, Planned, Roomy, Clear, TransitionResult;
    RunSnoc(x, steps, Moving(p, v, to, id));
    Moves(x, p, Run(x, steps), v, to, id, states, ids);
  }

  /** File version `v`, submit it and have it approved. */
  function Approving(p: Plan, v: nat, a: string, b: string): seq<Step>
    requires 1 <= v <= |p.versions|
  {
    [Add(CandidateOf(p, v), p.now), Moving(p, v, PendingHumanReview, a), Moving(p, v, ApprovedByHuman, b)]
  }

  lemma Approves(x: Texts, p: Plan, steps: seq<Step>, a: string, b: string, states: seq<KbState>, ids: set<string>)
    requires Roomy(x) && Planned(p) && Holds(p, Run(x, steps), states, ids) && |states| < |p.versions|
    requires Clear(p, states + [Draft], |states| + 1) && a != b && a !in ids && b !in ids
    ensures Holds(p, Run(x, steps + Approving(p, |states| + 1, a, b)), states + [ApprovedByHuman], ids + {a} + {b})
  {
    hide Holds, Run, Planned, Roomy, AddResult;
    var v := |states| + 1;
    var one := steps + [Add(CandidateOf(p, v), p.now)];
    RunSnoc(x, steps, Add(CandidateOf(p, v), p.now));
    Files(x, p, Run(x, steps), states, ids);
    NextMove(x, p, one, v, PendingHumanReview, a, states + [Draft], ids);
    assert (states + [Draft])[v - 1 := PendingHumanReview] == states + [PendingHumanReview];
    NextMove(x, p, one + [Moving(p, v, PendingHumanReview, a)], v, ApprovedByHuman, b, states + [PendingHumanReview], ids + {a});
    assert (states + [PendingHumanReview])[v - 1 := ApprovedByHuman] == states + [ApprovedByHuman];
    assert one + [Moving(p, v, PendingHumanReview, a)] + [Moving(p, v, ApprovedByHuman, b)] == steps + Approving(p, v, a, b);
  }

  /** The same, and publish it. */
  function Publishing(p: Plan, v: nat, a: string, b: string, c: string): seq<Step>
    requires 1 <= v <= |p.versions|
  {
    Approving(p, v, a, b) + [Moving(p, v, Published, c)]
  }

  lemma Publishes(x: Texts, p: Plan, steps: seq<Step>, a: string, b: string, c: string, states: seq<KbState>, ids: set<string>)
    requires Roomy(x) && Planned(p) && Holds(p, Run(x, steps), states, ids) && |states| < |p.versions|
    requires Clear(p, states + [Draft], |states| + 1) && a != b && b != c && a != c && a !in ids && b !in ids && c !in ids
    requires p.versions[|states|].content.body.supersedes == None
    ensures Holds(p, Run(x, steps + Publishing(p, |states| + 1, a, b, c)), states + [Published], ids + {a} + {b} + {c})
  {
    hide Holds, Run, Planned, Roomy, Approving;
    var v := |states| + 1;
    Approves(x, p, steps, a, b, states, ids);
    NextMove(x, p, steps + Approving(p, v, a, b), v, Published, c, states + [ApprovedByHuman], ids + {a} + {b});
    assert (states + [ApprovedByHuman])[v - 1 := Published] == states + [Published];
    assert steps + Approving(p, v, a, b) + [Moving(p, v, Published, c)] == steps + Publishing(p, v, a, b, c);
  }

  lemma NothingYet(x: Texts, p: Plan)
    requires Planned(p)
    ensures Holds(p, Run(x, []), [], {})
  {
  }

  // ---- examples ----

  const PLAIN := DedupKey("FAMILY", "RULE", [], [], "", "", map[], false)

  /** An article that passes the gate. */
  function Sample(kb: KbId, key: DedupKey, cause: string, supersedes: Option<KbId>): Content {
    Content(kb, key, ["author"], Some("INC"),
            ArticleBody(cause, true, RcaConfirmed, ["E"], [Recommendation("act", false, true)], true, supersedes, ""))
  }

  /** Texts of no size. */
  const SHORT := Texts((art, at) => 0, art => Some(0), art => true, m => 0)

  lemma ShortIsRoomy()
    ensures Roomy(SHORT)
  {
  }

  lemma PairPlanned(p: Plan)
    requires |p.versions| == 2 && UtcText.IsUtcTimestamp(p.now)
    requires Fit(p, p.versions[0].content) && Fit(p, p.versions[1].content)
    requires !Repeats(p.versions[0].content, p.versions[1].content)
    ensures Planned(p)
  {
    hide Fit, Repeats, UtcText.IsUtcTimestamp;
  }

  lemma SampleFits(kb: KbId, key: DedupKey, cause: string, supersedes: Option<KbId>, p: Plan)
    requires p.kb == kb && p.reviewer == "reviewer" && supersedes in {None, Some(kb)}
    ensures Fit(p, Sample(kb, key, cause, supersedes))
  {
    assert "author"[0] != "reviewer"[0];
  }
}
