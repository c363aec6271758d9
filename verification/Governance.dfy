/** The lifecycle of a governed artifact: a record's history is the proof of its state. */
module Governance {
  import opened Options

  datatype State = PROPOSED | REVIEWED | APPROVED | RELEASED | DEPRECATED | RETIRED

  function Next(s: State): set<State> {
    match s
    case PROPOSED => {REVIEWED}
    case REVIEWED => {APPROVED, PROPOSED}
    case APPROVED => {RELEASED}
    case RELEASED => {DEPRECATED}
    case DEPRECATED => {RETIRED}
    case RETIRED => {}
  }

  predicate PostApproval(s: State) {
    s in {APPROVED, RELEASED, DEPRECATED, RETIRED}
  }

  predicate PostRelease(s: State) {
    s in {RELEASED, DEPRECATED, RETIRED}
  }

  /** An entry of a history; `Garbled` stands for one of the wrong shape, with an unknown state or with a
      timestamp that cannot be read. */
  datatype Entry = Garbled | Step(state: State, at: int, actor: string)

  /** A review decision; `Unusable` stands for one of the wrong shape, not approving, or without a time. */
  datatype Review = Unusable | Approval(reviewer: string, structuralOnly: bool)

  /** The part of a record that the lifecycle rules look at. `releaseRef` tells whether a release reference
      is there and well formed, `evidenced` whether there is any evidence. */
  datatype Record = Record(state: State, proposer: string, history: seq<Entry>, review: Option<Review>,
                           releaseRef: Option<bool>, evidenced: bool)

  const MAX_STEPS := 20

  predicate IsPerson(s: string) {
    && 7 <= |s| <= 44 && s[..4] == "REV-"
    && forall i :: 4 <= i < |s| ==> 'A' <= s[i] <= 'Z' || 'a' <= s[i] <= 'z' || '0' <= s[i] <= '9' || s[i] == '-'
  }

  datatype Code =
    | TransitionIllegal | HistoryStateMismatch | History | SelfApproval | ReviewMissing | VerificationOverstated
    | ReviewerNotInHistory | ReviewPremature | ReleaseGateRefMissing | EvidenceMissing | ReleaseRefPremature

  // ---- the history ----

  datatype Scan = Good | Bad | Illegal

  predicate WellFormed(e: Entry) {
    e.Step? && IsPerson(e.actor)
  }

  /** Where reading a history entry by entry ends up. */
  function Scanned(h: seq<Entry>, proposer: string): Scan {
    if h == [] then Good
    else
      var n := |h| - 1;
      var before, e := Scanned(h[..n], proposer), h[n];
      if before != Good then before
      else if !WellFormed(e) then Bad
      else if n == 0 then if e.state == PROPOSED && e.actor == proposer then Good else Bad
      else if h[n - 1].Step? && e.state in Next(h[n - 1].state) && e.at >= h[n - 1].at then Good
      else Illegal
  }

  function HistoryFindings(r: Record): seq<Code> {
    if !(1 <= |r.history| <= MAX_STEPS) then [History]
    else
      match Scanned(r.history, r.proposer)
      case Bad => [History]
      case Illegal => [TransitionIllegal]
      case Good => if r.history[|r.history| - 1].Step? && r.history[|r.history| - 1].state == r.state then [] else [HistoryStateMismatch, History]
  }

  /** Who took the first step into a state. */
  function Actor(h: seq<Entry>, s: State): Option<string> {
    if h == [] then None
    else if h[0].Step? && h[0].state == s then Some(h[0].actor)
    else Actor(h[1..], s)
  }

  function SelfApprovals(r: Record, ok: bool): seq<Code> {
    (if ok && Actor(r.history, REVIEWED) == Some(r.proposer) then [SelfApproval] else [])
    + (if ok && Actor(r.history, APPROVED) == Some(r.proposer) then [SelfApproval] else [])
  }

  function ReviewFindings(r: Record, ok: bool): seq<Code> {
    if PostApproval(r.state) then
      if r.review.None? || r.review.value.Unusable? || !IsPerson(r.review.value.reviewer) then [ReviewMissing]
      else
        var v := r.review.value;
        (if v.structuralOnly then [] else [VerificationOverstated])
        + (if v.reviewer == r.proposer then [SelfApproval] else [])
        + (if ok && Actor(r.history, APPROVED) != Some(v.reviewer) then [ReviewerNotInHistory] else [])
    else if r.review.Some? then [ReviewPremature]
    else []
  }

  function ReleaseFindings(r: Record): seq<Code> {
    if PostRelease(r.state) then
      (if r.releaseRef == Some(true) then [] else [ReleaseGateRefMissing])
      + (if r.evidenced then [] else [EvidenceMissing])
    else if r.releaseRef.Some? then [ReleaseRefPremature]
    else []
  }

  function Findings(r: Record): seq<Code> {
    var history := HistoryFindings(r);
    history + SelfApprovals(r, history == []) + ReviewFindings(r, history == []) + ReleaseFindings(r)
  }

  /** The validator: the loop over the history stops at the first entry that is wrong. */
  method Validate(r: Record) returns (findings: seq<Code>)
    ensures findings == Findings(r)
  {
    hide IsPerson;
    findings := [];
    var ok := 1 <= |r.history| <= MAX_STEPS;
    if ok {
      var i, last := 0, Garbled;
      while i < |r.history|
        invariant 0 <= i <= |r.history|
        invariant i > 0 ==> last == r.history[i - 1] && last.Step?
        invariant ok && findings == [] && Scanned(r.history[..i], r.proposer) == Good
      {
        var h := r.history[i];
        ExtendScan(r.history, r.proposer, i);
        if !WellFormed(h) {
          ok := false;
          break;
        }
        if i == 0 {
          if h.state != PROPOSED || h.actor != r.proposer {
            ok := false;
            break;
          }
        } else if h.state !in Next(last.state) || h.at < last.at {
          findings, ok := findings + [TransitionIllegal], false;
          break;
        }
        last, i := h, i + 1;
      }
      assert r.history[..|r.history|] == r.history;
      if ok && last.state != r.state {
        findings, ok := findings + [HistoryStateMismatch], false;
      }
    }
    if !ok && TransitionIllegal !in findings {
      findings := findings + [History];
    }
    assert findings == HistoryFindings(r) && (ok <==> findings == []);
    findings := findings + SelfApprovals(r, ok) + ReviewFindings(r, ok) + ReleaseFindings(r);
  }

  /** A scan that has failed stays failed; otherwise the next entry decides. */
  lemma {:induction false} ExtendScan(h: seq<Entry>, proposer: string, i: nat)
    requires i < |h|
    ensures Scanned(h[..i + 1], proposer) != Good ==> Scanned(h, proposer) == Scanned(h[..i + 1], proposer)
    ensures h[..i + 1][..i] == h[..i]
    decreases |h|
  {
    hide IsPerson;
    assert h[..i + 1][..i] == h[..i];
    if i + 1 == |h| {
      assert h[..i + 1] == h;
    } else {
      var n := |h| - 1;
      ExtendScan(h[..n], proposer, i);
      assert h[..n][..i + 1] == h[..i + 1];
    }
  }

  // ---- what an accepted history is ----

  /** A walk of the lifecycle from its proposal by the proposer, in order of time. */
  predicate Walk(h: seq<Entry>, proposer: string) {
    && h != []
    && (forall i :: 0 <= i < |h| ==> WellFormed(h[i]))
    && h[0].state == PROPOSED && h[0].actor == proposer
    && (forall i :: 0 < i < |h| ==> h[i].state in Next(h[i - 1].state) && h[i - 1].at <= h[i].at)
  }

  lemma {:induction false} ScanIsWalk(h: seq<Entry>, proposer: string)
    requires h != []
    ensures Scanned(h, proposer) == Good <==> Walk(h, proposer)
  {
    hide WellFormed;
    var n := |h| - 1;
    var init := h[..n];
    assert forall i :: 0 <= i < n ==> init[i] == h[i];
    GoodIsStep(h[n]);
    if n > 0 {
      ScanIsWalk(init, proposer);
      GoodIsStep(h[n - 1]);
      if Walk(init, proposer) {
        assert WellFormed(h[n]) && h[n].state in Next(h[n - 1].state) && h[n].at >= h[n - 1].at ==> Walk(h, proposer);
      }
      if Walk(h, proposer) {
        assert Walk(init, proposer);
      }
    } else {
      assert init == [];
    }
  }

  lemma GoodIsStep(e: Entry)
    ensures WellFormed(e) ==> e.Step?
  {
  }

  /** The history findings are empty exactly for a history of at most 20 entries that is a walk ending in
      the record's state. */
  lemma AcceptedHistory(r: Record)
    ensures HistoryFindings(r) == [] <==>
      |r.history| <= MAX_STEPS && Walk(r.history, r.proposer) && r.history[|r.history| - 1].state == r.state
  {
    hide Walk, Scanned, WellFormed;
    if r.history != [] {
      ScanIsWalk(r.history, r.proposer);
      WalkLast(r.history, r.proposer);
    } else {
      NoEmptyWalk(r.proposer);
    }
  }

  lemma WalkLast(h: seq<Entry>, proposer: string)
    requires h != []
    ensures Walk(h, proposer) ==> h[|h| - 1].Step?
  {
  }

  lemma NoEmptyWalk(proposer: string)
    ensures !Walk([], proposer)
  {
  }

  // ---- approval happens once ----

  function Count(h: seq<Entry>, s: State): nat {
    if h == [] then 0
    else
      var e := h[|h| - 1];
      Count(h[..|h| - 1], s) + if e.Step? && e.state == s then 1 else 0
  }

  lemma {:induction false} ApprovedOnce(h: seq<Entry>, proposer: string)
    requires Walk(h, proposer)
    ensures Count(h, APPROVED) == if PostApproval(h[|h| - 1].state) then 1 else 0
  {
    hide WellFormed;
    var n := |h| - 1;
    GoodIsStep(h[n]);
    if n > 0 {
      var init := h[..n];
      assert forall i :: 0 <= i < n ==> init[i] == h[i];
      GoodIsStep(h[n - 1]);
      assert h[n].state in Next(h[n - 1].state);
      ApprovedOnce(init, proposer);
    } else {
      assert h[..0] == [];
    }
  }

  lemma {:induction false} ActorFirst(h: seq<Entry>, s: State)
    ensures Actor(h, s).None? <==> forall i :: 0 <= i < |h| ==> !(h[i].Step? && h[i].state == s)
    ensures Actor(h, s).Some? ==>
      exists i :: 0 <= i < |h| && h[i].Step? && h[i].state == s && h[i].actor == Actor(h, s).value
                  && forall j :: 0 <= j < i ==> !(h[j].Step? && h[j].state == s)
  {
    if h != [] {
      ActorFirst(h[1..], s);
      assert forall j :: 0 < j < |h| ==> h[j] == h[1..][j - 1];
      if h[0].Step? && h[0].state == s {
        assert h[0].actor == Actor(h, s).value;
      } else if Actor(h, s).Some? {
        var i :| 0 <= i < |h[1..]| && h[1..][i].Step? && h[1..][i].state == s && h[1..][i].actor == Actor(h, s).value
                 && forall j :: 0 <= j < i ==> !(h[1..][j].Step? && h[1..][j].state == s);
        assert h[i + 1].actor == Actor(h, s).value;
        assert forall j :: 0 <= j < i + 1 ==> !(h[j].Step? && h[j].state == s);
      }
    }
  }

  lemma {:induction false} CountsOne(h: seq<Entry>, s: State)
    requires Count(h, s) <= 1
    ensures forall i, j :: 0 <= i < |h| && 0 <= j < |h| && h[i].Step? && h[j].Step? && h[i].state == s && h[j].state == s ==> i == j
    ensures Count(h, s) == 0 ==> forall i :: 0 <= i < |h| ==> !(h[i].Step? && h[i].state == s)
  {
    if h != [] {
      var n := |h| - 1;
      CountsOne(h[..n], s);
      assert forall i :: 0 <= i < n ==> h[..n][i] == h[i];
    }
  }

  /** A record without findings that is past approval holds exactly one APPROVED step, taken by the reviewer
      it records, who is not its proposer; one that is not past approval holds none and no review. */
  lemma ApprovalIsIndependent(r: Record) returns (k: int)
    requires Findings(r) == []
    ensures Walk(r.history, r.proposer) && r.history[|r.history| - 1].state == r.state
    ensures Count(r.history, APPROVED) == if PostApproval(r.state) then 1 else 0
    ensures r.review.Some? <==> PostApproval(r.state)
    ensures PostApproval(r.state) ==>
      && 0 <= k < |r.history| && r.history[k].state == APPROVED
      && r.review.value.Approval? && r.review.value.structuralOnly
      && r.history[k].actor == r.review.value.reviewer != r.proposer
  {
    hide Walk, Count, WellFormed, HistoryFindings;
    assert HistoryFindings(r) == [];
    AcceptedHistory(r);
    ApprovedOnce(r.history, r.proposer);
    ActorFirst(r.history, APPROVED);
    k := 0;
    if PostApproval(r.state) {
      k :| 0 <= k < |r.history| && r.history[k].Step? && r.history[k].state == APPROVED
           && r.history[k].actor == Actor(r.history, APPROVED).value;
    }
  }

  /** The first review is never by the proposer. */
  lemma FirstReviewIsIndependent(r: Record, k: nat)
    requires Findings(r) == [] && k < |r.history| && r.history[k].Step? && r.history[k].state == REVIEWED
    requires forall j :: 0 <= j < k ==> !(r.history[j].Step? && r.history[j].state == REVIEWED)
    ensures r.history[k].actor != r.proposer
  {
    hide HistoryFindings;
    ActorFirst(r.history, REVIEWED);
  }

  // ---- later reviews are not checked ----

  lemma {:induction false} ActorUnchanged(h: seq<Entry>, k: nat, e: Entry, s: State)
    requires k < |h| && h[k].Step? && e.Step? && e.state == h[k].state
    requires s != h[k].state || exists j :: 0 <= j < k && h[j].Step? && h[j].state == s
    ensures Actor(h[k := e], s) == Actor(h, s)
  {
    var g := h[k := e];
    if k > 0 && !(h[0].Step? && h[0].state == s) {
      assert g[1..] == h[1..][k - 1 := e];
      assert forall j :: 0 < j < |h| ==> h[j] == h[1..][j - 1];
      if j :| 0 <= j < k && h[j].Step? && h[j].state == s {
        assert h[1..][j - 1].state == s;
      }
      ActorUnchanged(h[1..], k - 1, e, s);
    } else if k == 0 {
      assert g[1..] == h[1..];
    }
  }

  /** A review after the first one escapes the check: in any record without findings it may as well have
      been done by the proposer, and the record still has no findings. */
  lemma LaterReviewIsUnchecked(r: Record, i: nat, k: nat)
    requires Findings(r) == [] && IsPerson(r.proposer)
    requires i < k < |r.history| && r.history[i].Step? && r.history[k].Step?
    requires r.history[i].state == REVIEWED && r.history[k].state == REVIEWED
    ensures Findings(r.(history := r.history[k := r.history[k].(actor := r.proposer)])) == []
  {
    hide HistoryFindings, IsPerson;
    var e := r.history[k].(actor := r.proposer);
    var q := r.(history := r.history[k := e]);
    AcceptedHistory(r);
    AcceptedHistory(q);
    SameWalk(r.history, r.proposer, k);
    ActorUnchanged(r.history, k, e, REVIEWED);
    ActorUnchanged(r.history, k, e, APPROVED);
  }

  lemma SameWalk(h: seq<Entry>, proposer: string, k: nat)
    requires Walk(h, proposer) && IsPerson(proposer) && 0 < k < |h|
    ensures Walk(h[k := h[k].(actor := proposer)], proposer)
  {
    hide IsPerson;
    var g := h[k := h[k].(actor := proposer)];
    assert forall i :: 0 <= i < |h| && i != k ==> g[i] == h[i];
  }

  /** So a record with two reviews, the second by its own proposer, is accepted. */
  lemma SelfReviewAccepted() returns (r: Record)
    ensures Findings(r) == []
    ensures exists k :: 0 <= k < |r.history| && r.history[k].Step? && r.history[k].state == REVIEWED && r.history[k].actor == r.proposer
  {
    var p, q := "REV-alice", "REV-bob";
    var h := [Step(PROPOSED, 0, p), Step(REVIEWED, 1, q), Step(PROPOSED, 2, p), Step(REVIEWED, 3, q)];
    var r0 := Record(REVIEWED, p, h, None, None, true);
    assert Walk(h, p);
    AcceptedHistory(r0);
    SelfReviewSetup(h, p, q);
    LaterReviewIsUnchecked(r0, 1, 3);
    r := r0.(history := h[3 := h[3].(actor := p)]);
    assert r.history[3].actor == r.proposer;
  }

  lemma SelfReviewSetup(h: seq<Entry>, p: string, q: string)
    requires |h| == 4 && h[0] == Step(PROPOSED, 0, p) && h[1] == Step(REVIEWED, 1, q) && h[2] == Step(PROPOSED, 2, p) && h[3] == Step(REVIEWED, 3, q)
    ensures Actor(h, REVIEWED) == Some(q) && Actor(h, APPROVED) == None
  {
    assert h[1..][0] == h[1];
    ActorFirst(h, APPROVED);
  }

  /** The same artifact taken through the same states at the same times, by whomever. */
  predicate SameCourse(r: Record, q: Record) {
    && q.proposer == r.proposer && |q.history| == |r.history|
    && forall i :: 0 <= i < |r.history| ==> SameStep(r.history[i], q.history[i])
  }

  predicate SameStep(a: Entry, b: Entry) {
    a.Step? && b.Step? && a.state == b.state && a.at == b.at
  }

  predicate Reviewed(e: Entry) {
    e.Step? && e.state == REVIEWED
  }

  predicate ReviewsIndependent(r: Record) {
    forall e <- r.history :: Reviewed(e) ==> e.actor != r.proposer
  }

  ghost predicate AlwaysIndependent(r: Record) {
    forall q :: SameCourse(r, q) && Findings(q) == [] ==> ReviewsIndependent(q)
  }

  lemma {:induction false} CountReviews(h: seq<Entry>)
    ensures Count(h, REVIEWED) <= 1 <==> forall i, k :: 0 <= i < k < |h| ==> !(Reviewed(h[i]) && Reviewed(h[k]))
    ensures Count(h, REVIEWED) == 0 <==> forall i :: 0 <= i < |h| ==> !Reviewed(h[i])
  {
    if h != [] {
      var n := |h| - 1;
      CountReviews(h[..n]);
      assert forall i :: 0 <= i < n ==> h[..n][i] == h[i];
    }
  }

  /** What the findings guarantee of an accepted course: every review is independent of the proposer, whoever the
      others were, if and only if the course holds at most one. */
  lemma IndependentIffOneReview(r: Record)
    requires Findings(r) == []
    ensures AlwaysIndependent(r) <==> Count(r.history, REVIEWED) <= 1
  {
    hide Findings, Count;
    CountReviews(r.history);
    if Count(r.history, REVIEWED) <= 1 {
      forall q | SameCourse(r, q) && Findings(q) == []
        ensures ReviewsIndependent(q)
      {
        forall e | e in q.history && Reviewed(e)
          ensures e.actor != q.proposer
        {
          var k :| 0 <= k < |q.history| && q.history[k] == e;
          assert SameStep(r.history[k], q.history[k]) && Reviewed(r.history[k]);
          forall j | 0 <= j < k
            ensures !Reviewed(q.history[j])
          {
            assert SameStep(r.history[j], q.history[j]) && !Reviewed(r.history[j]);
          }
          FirstReviewIsIndependent(q, k);
        }
      }
    } else {
      var i, k :| 0 <= i < k < |r.history| && Reviewed(r.history[i]) && Reviewed(r.history[k]);
      ProposerIsPerson(r);
      LaterReviewIsUnchecked(r, i, k);
      var q := r.(history := r.history[k := r.history[k].(actor := r.proposer)]);
      AllSteps(r);
      assert SameCourse(r, q);
      assert q.history[k] in q.history && !ReviewsIndependent(q);
    }
  }

  lemma AllSteps(r: Record)
    requires Findings(r) == []
    ensures forall i :: 0 <= i < |r.history| ==> r.history[i].Step?
  {
    hide IsPerson;
    AcceptedHistory(r);
  }

  lemma ProposerIsPerson(r: Record)
    requires Findings(r) == []
    ensures IsPerson(r.proposer)
  {
    hide IsPerson;
    AcceptedHistory(r);
  }

  // ---- transitions ----

  function ApplyTransition(r: Record, to: State, actor: string, at: int, review: Option<Review>, releaseRef: Option<bool>): (Record, seq<Code>) {
    var next := r.(history := r.history + [Step(to, at, actor)], state := to,
                   review := if review.Some? then review else r.review,
                   releaseRef := if releaseRef.Some? then releaseRef else r.releaseRef);
    (next, Findings(next))
  }

  /** Applied to a record whose history has no findings, a transition leaves it without any exactly when the
      step is legal, not earlier than the last, by a well-formed actor, and not past the 20th entry. */
  lemma TransitionKeepsHistory(r: Record, to: State, actor: string, at: int, review: Option<Review>, releaseRef: Option<bool>)
    requires HistoryFindings(r) == []
    ensures HistoryFindings(ApplyTransition(r, to, actor, at, review, releaseRef).0) == [] <==>
      && to in Next(r.state) && IsPerson(actor) && |r.history| < MAX_STEPS
      && at >= r.history[|r.history| - 1].at
  {
    hide HistoryFindings, Findings, IsPerson;
    var next := ApplyTransition(r, to, actor, at, review, releaseRef).0;
    var n := |r.history|;
    AcceptedHistory(r);
    AcceptedHistory(next);
    assert forall i :: 0 <= i < n ==> next.history[i] == r.history[i];
    assert next.history[n] == Step(to, at, actor);
    if Walk(next.history, r.proposer) {
      assert WellFormed(next.history[n]);
    }
  }
}
