/** Which findings a governed record gets, each with its condition, and what a record without any has. */
module GovernanceRules {
  import opened Governance
  import opened Options

  /** The lifecycle read backwards. */
  function EnteredFrom(to: State): set<State> {
    match to
    case PROPOSED => {REVIEWED}
    case REVIEWED => {PROPOSED}
    case APPROVED => {REVIEWED}
    case RELEASED => {APPROVED}
    case DEPRECATED => {RELEASED}
    case RETIRED => {DEPRECATED}
  }

  lemma Edges(from: State, to: State)
    ensures to in Next(from) <==> from in EnteredFrom(to)
  {
  }

  /** Three letters and a dash, then three to forty letters, digits and dashes. */
  predicate IsReviewer(s: string) {
    && |s| >= 4 && s[0] == 'R' && s[1] == 'E' && s[2] == 'V' && s[3] == '-' && 3 <= |s| - 4 <= 40
    && forall i :: 4 <= i < |s| ==> 'A' <= s[i] <= 'Z' || 'a' <= s[i] <= 'z' || '0' <= s[i] <= '9' || s[i] == '-'
  }

  lemma ReviewerIs(s: string)
    ensures IsPerson(s) <==> IsReviewer(s)
  {
    if |s| >= 4 {
      assert s[..4] == [s[0], s[1], s[2], s[3]];
    }
  }

  /** The history proves the state: a walk along the edges, from the proposal by the proposer, in order of time, by known
      people, of at most twenty steps, ending in the state. */
  predicate Proves(h: seq<Entry>, proposer: string, state: State) {
    && 1 <= |h| <= 20
    && (forall i :: 0 <= i < |h| ==> h[i].Step? && IsReviewer(h[i].actor))
    && h[0].state == PROPOSED && h[0].actor == proposer
    && (forall i :: 0 < i < |h| ==> h[i - 1].state in EnteredFrom(h[i].state) && h[i - 1].at <= h[i].at)
    && h[|h| - 1].state == state
  }

  lemma HistoryProves(r: Record)
    ensures HistoryFindings(r) == [] <==> Proves(r.history, r.proposer, r.state)
  {
    hide IsPerson, IsReviewer, HistoryFindings;
    AcceptedHistory(r);
    forall s: string
      ensures IsPerson(s) <==> IsReviewer(s)
    {
      ReviewerIs(s);
    }
  }

  /** The first step into a state is the proposer's own. */
  ghost predicate FirstByProposer(r: Record, s: State) {
    exists k :: 0 <= k < |r.history| && FirstInto(r.history, s, k) && r.history[k].actor == r.proposer
  }

  predicate FirstInto(h: seq<Entry>, s: State, k: nat)
    requires k < |h|
  {
    h[k].Step? && h[k].state == s && forall j :: 0 <= j < k ==> !(h[j].Step? && h[j].state == s)
  }

  ghost predicate FirstBy(h: seq<Entry>, s: State, actor: string) {
    exists k :: 0 <= k < |h| && FirstInto(h, s, k) && h[k].actor == actor
  }

  lemma ActorIsFirst(h: seq<Entry>, s: State, actor: string)
    ensures Actor(h, s) == Some(actor) <==> FirstBy(h, s, actor)
  {
    hide Actor;
    ActorFirst(h, s);
    if Actor(h, s).Some? {
      var i :| 0 <= i < |h| && h[i].Step? && h[i].state == s && h[i].actor == Actor(h, s).value
               && forall j :: 0 <= j < i ==> !(h[j].Step? && h[j].state == s);
      assert FirstInto(h, s, i);
    }
  }

  predicate Late(s: State) {
    s == APPROVED || s == RELEASED || s == DEPRECATED || s == RETIRED
  }

  predicate Released(s: State) {
    s == RELEASED || s == DEPRECATED || s == RETIRED
  }

  predicate UsableReview(r: Record) {
    r.review.Some? && r.review.value.Approval? && IsReviewer(r.review.value.reviewer)
  }

  /** The findings beyond the history, each exactly when. */
  lemma FindingsNamed(r: Record)
    ensures var f, ok := Findings(r), Proves(r.history, r.proposer, r.state);
      && ((History in f || TransitionIllegal in f) <==> !ok)
      && (ReviewMissing in f <==> Late(r.state) && !UsableReview(r))
      && (VerificationOverstated in f <==> Late(r.state) && UsableReview(r) && !r.review.value.structuralOnly)
      && (ReviewerNotInHistory in f <==>
            Late(r.state) && UsableReview(r) && ok && !FirstBy(r.history, APPROVED, r.review.value.reviewer))
      && (ReviewPremature in f <==> !Late(r.state) && r.review.Some?)
      && (SelfApproval in f <==>
            || (ok && (FirstBy(r.history, REVIEWED, r.proposer) || FirstBy(r.history, APPROVED, r.proposer)))
            || (Late(r.state) && UsableReview(r) && r.review.value.reviewer == r.proposer))
      && (ReleaseGateRefMissing in f <==> Released(r.state) && r.releaseRef != Some(true))
      && (EvidenceMissing in f <==> Released(r.state) && !r.evidenced)
      && (ReleaseRefPremature in f <==> !Released(r.state) && r.releaseRef.Some?)
  {
    hide Findings, HistoryFindings, SelfApprovals, ReviewFindings, ReleaseFindings, Proves, FirstBy, UsableReview;
    HistoryProves(r);
    HistoryCodes(r);
    DutiesNamed(r, HistoryFindings(r) == []);
    ReviewNamed(r, HistoryFindings(r) == []);
    ReleaseNamed(r);
    PartsHold(r);
  }

  lemma DutiesNamed(r: Record, ok: bool)
    ensures forall c :: c in SelfApprovals(r, ok) <==>
      c == SelfApproval && ok && (FirstBy(r.history, REVIEWED, r.proposer) || FirstBy(r.history, APPROVED, r.proposer))
  {
    hide Actor, FirstBy;
    ActorIsFirst(r.history, REVIEWED, r.proposer);
    ActorIsFirst(r.history, APPROVED, r.proposer);
  }

  lemma ReviewNamed(r: Record, ok: bool)
    ensures var f := ReviewFindings(r, ok);
      && (ReviewMissing in f <==> Late(r.state) && !UsableReview(r))
      && (VerificationOverstated in f <==> Late(r.state) && UsableReview(r) && !r.review.value.structuralOnly)
      && (SelfApproval in f <==> Late(r.state) && UsableReview(r) && r.review.value.reviewer == r.proposer)
      && (ReviewerNotInHistory in f <==>
            Late(r.state) && UsableReview(r) && ok && !FirstBy(r.history, APPROVED, r.review.value.reviewer))
      && (ReviewPremature in f <==> !Late(r.state) && r.review.Some?)
      && forall c <- f :: c in {ReviewMissing, VerificationOverstated, SelfApproval, ReviewerNotInHistory, ReviewPremature}
  {
    hide Actor, FirstBy, IsPerson, IsReviewer;
    if r.review.Some? && r.review.value.Approval? {
      ReviewerIs(r.review.value.reviewer);
      ActorIsFirst(r.history, APPROVED, r.review.value.reviewer);
    }
  }

  lemma ReleaseNamed(r: Record)
    ensures var f := ReleaseFindings(r);
      && (ReleaseGateRefMissing in f <==> Released(r.state) && r.releaseRef != Some(true))
      && (EvidenceMissing in f <==> Released(r.state) && !r.evidenced)
      && (ReleaseRefPremature in f <==> !Released(r.state) && r.releaseRef.Some?)
      && forall c <- f :: c in {ReleaseGateRefMissing, EvidenceMissing, ReleaseRefPremature}
  {
  }

  lemma HistoryCodes(r: Record)
    ensures forall c <- HistoryFindings(r) :: c in {History, TransitionIllegal, HistoryStateMismatch}
    ensures History in HistoryFindings(r) || TransitionIllegal in HistoryFindings(r) <==> HistoryFindings(r) != []
  {
    hide Scanned;
    var f := HistoryFindings(r);
    if f != [] {
      assert f[0] in f;
      assert |f| == 2 ==> f[1] in f && f[1] == History;
      assert |f| == 1 ==> f[0] == History || f[0] == TransitionIllegal;
    }
  }

  lemma PartsHold(r: Record)
    ensures var ok := HistoryFindings(r) == [];
      forall c :: c in Findings(r) <==>
        c in HistoryFindings(r) || c in SelfApprovals(r, ok) || c in ReviewFindings(r, ok) || c in ReleaseFindings(r)
  {
    hide HistoryFindings, SelfApprovals, ReviewFindings, ReleaseFindings;
  }

  /** A record without findings: its history proves its state, no first review or approval is the proposer's, and a usable
      review by the approver who is not the proposer, a release reference and evidence are there exactly where the state
      demands them; before approval there is no review and before release no reference. */
  lemma AcceptedExactly(r: Record)
    ensures Findings(r) == [] <==>
      && Proves(r.history, r.proposer, r.state)
      && !FirstBy(r.history, REVIEWED, r.proposer) && !FirstBy(r.history, APPROVED, r.proposer)
      && (r.review.Some? <==> Late(r.state)) && (r.releaseRef.Some? <==> Released(r.state))
      && (Late(r.state) ==>
            && UsableReview(r) && r.review.value.structuralOnly
            && r.review.value.reviewer != r.proposer && FirstBy(r.history, APPROVED, r.review.value.reviewer))
      && (Released(r.state) ==> r.releaseRef == Some(true) && r.evidenced)
  {
    hide Findings, Proves, FirstBy, IsReviewer;
    FindingsNamed(r);
    NoCode(r);
    if Findings(r) != [] {
      OneOfThese(Findings(r)[0]);
      assert Findings(r)[0] in Findings(r);
    }
  }

  lemma OneOfThese(c: Code)
    ensures c in {
      TransitionIllegal, HistoryStateMismatch, History, SelfApproval, ReviewMissing, VerificationOverstated,
      ReviewerNotInHistory, ReviewPremature, ReleaseGateRefMissing, EvidenceMissing, ReleaseRefPremature}
  {
  }

  lemma NoCode(r: Record)
    ensures Findings(r) == [] <==> forall c :: c !in Findings(r)
    ensures HistoryStateMismatch in Findings(r) ==> History in Findings(r)
  {
    hide Scanned, SelfApprovals, ReviewFindings, ReleaseFindings;
    HistoryCodes(r);
    PartsHold(r);
    if Findings(r) != [] {
      assert Findings(r)[0] in Findings(r);
    }
    OtherCodes(r);
  }

  lemma OtherCodes(r: Record)
    ensures var ok := HistoryFindings(r) == [];
      HistoryStateMismatch !in SelfApprovals(r, ok) + ReviewFindings(r, ok) + ReleaseFindings(r)
    ensures HistoryStateMismatch in HistoryFindings(r) ==> History in HistoryFindings(r)
  {
    hide Scanned, Actor, IsPerson;
    var f := HistoryFindings(r);
    assert |f| == 2 ==> f[1] == History;
  }
}
