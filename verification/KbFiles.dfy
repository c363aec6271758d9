/** What an add that fails late leaves behind: files the manifest does not know, which block their entry. */
module KbFiles {
  import opened KbModel
  import opened KbReview
  import opened KbRecords
  import opened KbStore
  import opened KbEpisodes
  import opened Options

  /** The article file of the entry's next version is already there. */
  predicate Blocked(s: Store, kb: KbId) {
    (kb, NextVersion(s, kb)) in s.articles
  }

  /** An add of this entry that fails after it has written its article file. */
  ghost predicate FailsLate(x: Texts, s: Store, step: Step, kb: KbId) {
    && step.Add? && step.candidate.content.kbId == kb
    && AddRefusal(x, s, step.candidate, step.addedAt).None?
    && LateFailure(x, s, step.candidate, step.addedAt).Some?
  }

  /** To a blocked entry nothing is ever added, whatever the candidate. */
  lemma BlockedRefuses(x: Texts, s: Store, c: KbCandidate, at: string)
    requires Blocked(s, c.content.kbId)
    ensures !AddOutcomeOf(x, s, c, at).Added? && AddResult(x, s, c, at) == s
    ensures AddRefusal(x, s, c, at).Some?
  {
    hide Loadable, RowsOf, VerdictOf, LateFailure, PageFailure;
  }

  lemma AddBlocks(x: Texts, s: Store, c: KbCandidate, at: string, kb: KbId)
    requires StoreOk(s)
    ensures Blocked(AddResult(x, s, c, at), kb) <==> Blocked(s, kb) || FailsLate(x, s, Add(c, at), kb)
  {
    hide AddRefusal, LateFailure, PageFailure, VersionOk, SingleUse;
    if Blocked(s, c.content.kbId) {
      BlockedRefuses(x, s, c, at);
    }
    AddedIsFree(s, c, at);
    LeavingFilesBlocks(s, c, PageFailure(x, s, c).None?, kb);
  }

  /** A version that was added leaves the number after it free. */
  lemma AddedIsFree(s: Store, c: KbCandidate, at: string)
    requires StoreOk(s)
    ensures forall kb :: Blocked(Insert(s, c, at), kb) <==> kb != c.content.kbId && Blocked(s, kb)
  {
    hide VersionOk, SingleUse;
    var t, kb := Insert(s, c, at), c.content.kbId;
    assert NextVersion(t, kb) == NextVersion(s, kb) + 1;
    assert (kb, NextVersion(t, kb)) !in s.articles;
    assert forall k :: k != kb ==> NextVersion(t, k) == NextVersion(s, k);
  }

  lemma LeavingFilesBlocks(s: Store, c: KbCandidate, page: bool, kb: KbId)
    ensures Blocked(LeaveFiles(s, c, page), kb) <==> kb == c.content.kbId || Blocked(s, kb)
  {
  }

  lemma MoveBlocks(x: Texts, s: Store, step: Step, kb: KbId)
    requires step.Move?
    ensures Blocked(Apply(x, s, step), kb) <==> Blocked(s, kb)
  {
    hide Check, Moved, RetreatOther;
    var Move(k, v, to, at, raw) := step;
    if Check(s, k, v, to, at, raw).Ok? {
      Accepted(s, k, v, to, at, raw);
    }
  }

  ghost predicate FailedLate(x: Texts, steps: seq<Step>, kb: KbId) {
    exists i :: 0 <= i < |steps| && FailsLate(x, Run(x, steps[..i]), steps[i], kb)
  }

  lemma FailedLateSnoc(x: Texts, steps: seq<Step>, kb: KbId)
    requires steps != []
    ensures var n := |steps| - 1;
      FailedLate(x, steps, kb) <==> FailedLate(x, steps[..n], kb) || FailsLate(x, Run(x, steps[..n]), steps[n], kb)
  {
    hide FailsLate, Run;
    var n := |steps| - 1;
    assert forall i :: 0 <= i < n ==> steps[..n][..i] == steps[..i] && steps[..n][i] == steps[i];
    if FailedLate(x, steps, kb) {
      var i :| 0 <= i < |steps| && FailsLate(x, Run(x, steps[..i]), steps[i], kb);
      assert i < n ==> FailsLate(x, Run(x, steps[..n][..i]), steps[..n][i], kb);
    }
    if FailedLate(x, steps[..n], kb) {
      var i :| 0 <= i < n && FailsLate(x, Run(x, steps[..n][..i]), steps[..n][i], kb);
      assert FailsLate(x, Run(x, steps[..i]), steps[i], kb);
    }
  }

  /** Over every run: an entry is blocked if and only if an earlier add of it failed after writing its
      article file. */
  lemma {:induction false} BlockedExactly(x: Texts, steps: seq<Step>, kb: KbId)
    ensures Blocked(Run(x, steps), kb) <==> FailedLate(x, steps, kb)
  {
    hide FailsLate, FailedLate, Apply, Blocked;
    if steps == [] {
      NothingFailed(x, kb);
    } else {
      var n := |steps| - 1;
      BlockedExactly(x, steps[..n], kb);
      EveryRunKeepsRecords(x, steps[..n]);
      FailedLateSnoc(x, steps, kb);
      StepBlocks(x, Run(x, steps[..n]), steps[n], kb);
    }
  }

  lemma NothingFailed(x: Texts, kb: KbId)
    ensures !FailedLate(x, [], kb) && !Blocked(EMPTY, kb)
  {
  }

  lemma StepBlocks(x: Texts, s: Store, step: Step, kb: KbId)
    requires StoreOk(s)
    ensures Blocked(Apply(x, s, step), kb) <==> Blocked(s, kb) || FailsLate(x, s, step, kb)
  {
    hide AddResult, TransitionResult, Blocked, StoreOk, LateFailure, AddRefusal;
    match step
    case Add(c, at) => AddBlocks(x, s, c, at, kb);
    case Move(_, _, _, _, _) => MoveBlocks(x, s, step, kb);
  }

  /** And it stays so for ever: after a late failure no call of any kind adds to the entry again. */
  lemma BlockedForEver(x: Texts, earlier: seq<Step>, later: seq<Step>, c: KbCandidate, at: string)
    requires FailedLate(x, earlier, c.content.kbId)
    ensures !AddOutcomeOf(x, Run(x, earlier + later), c, at).Added?
  {
    hide FailsLate, Run, AddOutcomeOf, AddRefusal, Blocked;
    var all, kb := earlier + later, c.content.kbId;
    var i :| 0 <= i < |earlier| && FailsLate(x, Run(x, earlier[..i]), earlier[i], kb);
    assert all[..i] == earlier[..i] && all[i] == earlier[i];
    BlockedExactly(x, all, kb);
    BlockedRefuses(x, Run(x, all), c, at);
  }

  // ---- failing inputs ----

  /** A candidate that nothing refused before is refused because of the file another one left. */
  lemma LateFailureSpoilsNext(x: Texts, s: Store, c: KbCandidate, at: string, next: KbCandidate, later: string)
    requires FailsLate(x, s, Add(c, at), next.content.kbId)
    requires AddRefusal(x, s, next, later).None?
    ensures AddOutcomeOf(x, AddResult(x, s, c, at), next, later) == AddFailed(E_OUTPUT_EXISTS)
  {
    hide AddRefusal, LateFailure, PageFailure;
    var t := AddResult(x, s, c, at);
    RefusedByFile(x, s, t, next, later);
  }

  lemma RefusedByFile(x: Texts, s: Store, t: Store, c: KbCandidate, at: string)
    requires AddRefusal(x, s, c, at).None?
    requires t.entries == s.entries && Blocked(t, c.content.kbId)
    ensures AddRefusal(x, t, c, at) == Some(AddFailed(E_OUTPUT_EXISTS))
  {
    hide VerdictOf;
    assert RowsOf(t) == RowsOf(s);
  }

  function Fresh(kb: KbId, cause: string): KbCandidate {
    var c := Sample(kb, kb.material, cause, None);
    KbCandidate(true, c, Draft, c)
  }

  /** One page, that of an article without a cause, cannot be rendered. */
  const NO_CAUSE := SHORT.(page := (art: Article) => if art.content.body.cause == "" then None else Some(0))

  /** An entry of 300 kB. */
  const LARGE := SHORT.(manifest := (m: map<KbId, seq<Version>>) => 300_000 * |m|)

  lemma OutcomeOnEmpty(x: Texts, c: KbCandidate, at: string)
    requires c.schemaOk && c.contentDigest == c.content && c.lifecycle == Draft && c.content.body.supersedes == None
    requires x.json(Article(c.content, 1), at) <= MAX_OUTPUT_BYTES
    ensures AddRefusal(x, EMPTY, c, at).None? && VerdictOf(c.content, RowsOf(EMPTY)) == New
    ensures NextVersion(EMPTY, c.content.kbId) == 1
  {
    assert RowsOf(EMPTY) == {};
  }

  /** A candidate whose page cannot be rendered is refused, and takes its entry with it: the next one is
      refused too, which alone would have been added. */
  lemma UnrenderableBlocks(at: string)
    ensures var x, kb := NO_CAUSE, KeyId(PLAIN);
      && AddOutcomeOf(x, EMPTY, Fresh(kb, ""), at) == AddFailed(E_UNCAUGHT)
      && AddOutcomeOf(x, EMPTY, Fresh(kb, "x"), at) == Added(1, false)
      && AddOutcomeOf(x, Run(x, [Add(Fresh(kb, ""), at)]), Fresh(kb, "x"), at) == AddFailed(E_OUTPUT_EXISTS)
  {
    hide AddRefusal, VerdictOf, RowsOf, AddResult;
    var x, kb := NO_CAUSE, KeyId(PLAIN);
    OutcomeOnEmpty(x, Fresh(kb, ""), at);
    OutcomeOnEmpty(x, Fresh(kb, "x"), at);
    LateFailureSpoilsNext(x, EMPTY, Fresh(kb, ""), at, Fresh(kb, "x"), at);
    RunSnoc(x, [], Add(Fresh(kb, ""), at));
    assert [] + [Add(Fresh(kb, ""), at)] == [Add(Fresh(kb, ""), at)];
  }

  lemma OtherFamilyIsNew(x: Texts, s: Store, at: string)
    requires s == Insert(EMPTY, Fresh(KeyId(PLAIN), "x"), at) && x == LARGE
    ensures var two := Fresh(KeyId(PLAIN.(family := "OTHER")), "x");
      && AddRefusal(x, s, two, at).None?
      && LateFailure(x, s, two, at) == Some(E_OUTPUT_TOO_LARGE) && PageFailure(x, s, two).None?
  {
    var two := Fresh(KeyId(PLAIN.(family := "OTHER")), "x");
    assert "OTHER"[0] != "FAMILY"[0];
    assert s.entries.Keys == {KeyId(PLAIN)};
    assert forall row <- RowsOf(s) :: !Related(two.content, row);
    assert |s.entries| == 1;
    assert KeyId(PLAIN) != two.content.kbId;
    assert Insert(s, two, at).entries.Keys == {KeyId(PLAIN), two.content.kbId};
    assert |Insert(s, two, at).entries.Keys| == 2;
  }

  /** A manifest that grows too large fails the add after both files were written, and every retry. */
  lemma OversizeManifestBlocks(at: string)
    ensures var x, one, two := LARGE, Fresh(KeyId(PLAIN), "x"), Fresh(KeyId(PLAIN.(family := "OTHER")), "x");
      var s := Run(x, [Add(one, at)]);
      && AddOutcomeOf(x, EMPTY, one, at) == Added(1, false)
      && AddOutcomeOf(x, s, two, at) == AddFailed(E_OUTPUT_TOO_LARGE)
      && AddOutcomeOf(x, Run(x, [Add(one, at), Add(two, at)]), two, at) == AddFailed(E_OUTPUT_EXISTS)
      && (two.content.kbId, 1) in Run(x, [Add(one, at), Add(two, at)]).pages
  {
    hide AddRefusal, VerdictOf, RowsOf, Fresh, SaveFailure, PageFailure, Run;
    var x, one, two := LARGE, Fresh(KeyId(PLAIN), "x"), Fresh(KeyId(PLAIN.(family := "OTHER")), "x");
    FirstFits(at);
    var s := Insert(EMPTY, one, at);
    RunSnoc(x, [], Add(one, at));
    RunSnoc(x, [Add(one, at)], Add(two, at));
    assert [] + [Add(one, at)] == [Add(one, at)] && [Add(one, at)] + [Add(two, at)] == [Add(one, at), Add(two, at)];
    OtherFamilyIsNew(x, s, at);
    LateFailureSpoilsNext(x, s, two, at, two, at);
    SecondIsFirstVersion(at);
  }

  lemma FirstFits(at: string)
    ensures AddOutcomeOf(LARGE, Run(LARGE, []), Fresh(KeyId(PLAIN), "x"), at) == Added(1, false)
    ensures Run(LARGE, []) == EMPTY
    ensures AddResult(LARGE, EMPTY, Fresh(KeyId(PLAIN), "x"), at) == Insert(EMPTY, Fresh(KeyId(PLAIN), "x"), at)
  {
    hide AddRefusal, VerdictOf, RowsOf;
    var one := Fresh(KeyId(PLAIN), "x");
    OutcomeOnEmpty(LARGE, one, at);
    assert Insert(EMPTY, one, at).entries.Keys == {one.content.kbId};
    assert |Insert(EMPTY, one, at).entries.Keys| == 1;
  }

  lemma SecondIsFirstVersion(at: string)
    ensures var two := Fresh(KeyId(PLAIN.(family := "OTHER")), "x");
      NextVersion(Insert(EMPTY, Fresh(KeyId(PLAIN), "x"), at), two.content.kbId) == 1
  {
    assert "OTHER"[0] != "FAMILY"[0];
  }
}
