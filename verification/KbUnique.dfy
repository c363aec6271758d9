/** At most one version of an entry is current guidance. Neither the review on insert nor the
    conflict check on promotion gives this alone; together they do, for entries whose id is the id
    of their own key. */
module KbUnique {
  import opened KbModel
  import opened KbReview
  import opened KbStore
  import opened KbRecords
  import opened Options

  /** The entry id a candidate carries is the id of its dedup key. */
  predicate WellKeyed(step: Step) {
    step.Add? ==> step.candidate.content.kbId == KeyId(step.candidate.content.dedupKey)
  }

  predicate UnderOwnKey(kb: KbId, versions: seq<Version>) {
    forall r <- versions :: r.dedupKey == kb.material
  }

  /** No two versions that review still considers share cause and recommendations. */
  predicate LiveDistinct(versions: seq<Version>) {
    forall i, j :: 0 <= i < j < |versions| && Live(versions[i].state) && Live(versions[j].state) ==>
      versions[i].recDigest != versions[j].recDigest
  }

  predicate OneCurrent(versions: seq<Version>) {
    forall i, j :: 0 <= i < j < |versions| ==> !(Current(versions[i].state) && Current(versions[j].state))
  }

  predicate EntryOk(kb: KbId, versions: seq<Version>) {
    UnderOwnKey(kb, versions) && LiveDistinct(versions) && OneCurrent(versions)
  }

  ghost predicate AllEntriesOk(s: Store) {
    forall kb <- s.entries :: EntryOk(kb, s.entries[kb])
  }

  /** Review on insert: an added candidate repeats no live version of its entry that has its key. */
  lemma AddedIsNew(x: Texts, s: Store, c: KbCandidate, at: string, i: nat)
    requires AddRefusal(x, s, c, at).None?
    requires c.content.kbId in s.entries && i < |s.entries[c.content.kbId]|
    requires s.entries[c.content.kbId][i].dedupKey == c.content.dedupKey
    requires Live(s.entries[c.content.kbId][i].state)
    ensures s.entries[c.content.kbId][i].recDigest != RecommendationDigest(c.content.body)
  {
    var kb := c.content.kbId;
    var row := RowOf(kb, i + 1, s.entries[kb][i]);
    assert row in RowsOf(s);
    assert !Duplicates(c.content, row);
  }

  lemma AddKeepsEntries(x: Texts, s: Store, c: KbCandidate, at: string)
    requires AllEntriesOk(s) && WellKeyed(Add(c, at))
    ensures AllEntriesOk(AddResult(x, s, c, at))
  {
    hide RowsOf, Loadable, VerdictOf, LateFailure, PageFailure;
    if AddRefusal(x, s, c, at).None? && LateFailure(x, s, c, at).None? {
      var kb := c.content.kbId;
      var before := VersionsOf(s, kb);
      forall i: nat | i < |before| && Live(before[i].state)
        ensures before[i].recDigest != RecommendationDigest(c.content.body)
      {
        assert before[i] in before;
        AddedIsNew(x, s, c, at, i);
      }
      assert EntryOk(kb, Insert(s, c, at).entries[kb]);
    }
  }

  /** Promotion, exactly: publishing keeps at most one current version if and only if it supersedes
      its own entry, or no other current version says the same thing. */
  lemma PublishKeepsOneCurrent(s: Store, kb: KbId, v: nat, at: string, d: Option<Decision>)
    requires StoreOk(s) && MayMove(s, kb, v, Published, d)
    requires OneCurrent(s.entries[kb])
    ensures var r := s.entries[kb][v - 1];
      OneCurrent(MoveStore(s, kb, v, Published, at, d).entries[kb]) <==>
        || r.supersedes == Some(kb)
        || forall i :: 0 <= i < |s.entries[kb]| && i != v - 1 && Current(s.entries[kb][i].state) ==>
             s.entries[kb][i].recDigest != r.recDigest
  {
    var before := s.entries[kb];
    assert VersionOk(s, kb, v);
    var supersede := Supersedes(s, kb, v, Published);
    forall i: nat | i < |before| {
      Shape(before, v, Published, at, d, supersede, i);
    }
    var after := After(before, v, Published, at, d, supersede);
    forall i: nat | i < |before| && i != v - 1 && Current(before[i].state) && before[v - 1].supersedes != Some(kb)
      ensures before[i].recDigest == before[v - 1].recDigest && Current(after[i].state) && Current(after[v - 1].state)
    {
      assert !OpenConflict(before, v, i, kb, s.articles[(kb, v)].content.body);
    }
  }

  /** What a transition can do to the versions of its entry, as far as duplicates matter. */
  predicate OnlyAges(before: seq<Version>, after: seq<Version>, v: nat, to: KbState) {
    |after| == |before| && forall i :: 0 <= i < |before| ==>
      && after[i].dedupKey == before[i].dedupKey && after[i].recDigest == before[i].recDigest
      && (Live(after[i].state) ==> Live(before[i].state))
      && (Current(after[i].state) ==> Current(before[i].state) || (i == v - 1 && to == Published))
  }

  lemma MoveOnlyAges(versions: seq<Version>, v: nat, to: KbState, at: string, d: Option<Decision>, supersede: bool)
    requires 1 <= v <= |versions| && (supersede ==> d.Some?)
    requires to in Targets(versions[v - 1].state)
    ensures OnlyAges(versions, After(versions, v, to, at, d, supersede), v, to)
  {
    forall i: nat | i < |versions| {
      Shape(versions, v, to, at, d, supersede, i);
    }
  }

  lemma AgingKeepsEntry(kb: KbId, before: seq<Version>, after: seq<Version>, v: nat, to: KbState)
    requires EntryOk(kb, before) && OnlyAges(before, after, v, to)
    requires to == Published ==> OneCurrent(after)
    ensures EntryOk(kb, after)
  {
    assert forall i :: 0 <= i < |before| ==> before[i] in before;
  }

  lemma MoveKeepsEntry(s: Store, kb: KbId, v: nat, to: KbState, at: string, d: Option<Decision>)
    requires StoreOk(s) && MayMove(s, kb, v, to, d) && EntryOk(kb, s.entries[kb])
    ensures EntryOk(kb, After(s.entries[kb], v, to, at, d, Supersedes(s, kb, v, to)))
  {
    MoveOnlyAges(s.entries[kb], v, to, at, d, Supersedes(s, kb, v, to));
    if to == Published {
      PublishKeepsOneCurrent(s, kb, v, at, d);
      assert VersionOk(s, kb, v);
      assert Live(s.entries[kb][v - 1].state);
    }
    AgingKeepsEntry(kb, s.entries[kb], After(s.entries[kb], v, to, at, d, Supersedes(s, kb, v, to)), v, to);
  }

  lemma MoveKeepsEntries(s: Store, kb: KbId, v: nat, to: KbState, at: string, d: Option<Decision>)
    requires StoreOk(s) && AllEntriesOk(s) && MayMove(s, kb, v, to, d)
    ensures AllEntriesOk(MoveStore(s, kb, v, to, at, d))
  {
    MoveKeepsEntry(s, kb, v, to, at, d);
  }

  lemma TransitionKeepsEntries(x: Texts, s: Store, kb: KbId, v: nat, to: KbState, at: string, raw: AuthInput)
    requires StoreOk(s) && AllEntriesOk(s)
    ensures AllEntriesOk(TransitionResult(x, s, kb, v, to, at, raw))
  {
    if Check(s, kb, v, to, at, raw).Ok? {
      Accepted(s, kb, v, to, at, raw);
      MoveKeepsEntries(s, kb, v, to, at, Check(s, kb, v, to, at, raw).value);
    }
  }

  /** In every store that well-keyed candidates and any transitions can reach, each entry has at most
      one version in Published or ReviewDue, and no two live versions say the same thing. */
  lemma {:induction false} EveryRunHasOneCurrent(x: Texts, steps: seq<Step>)
    requires forall step <- steps :: WellKeyed(step)
    ensures AllEntriesOk(Run(x, steps))
  {
    if steps != [] {
      var init, last := steps[..|steps| - 1], steps[|steps| - 1];
      assert forall step <- init :: step in steps;
      EveryRunHasOneCurrent(x, init);
      EveryRunKeepsRecords(x, init);
      assert last in steps;
      match last
      case Add(c, at) => AddKeepsEntries(x, Run(x, init), c, at);
      case Move(kb, v, to, at, raw) => TransitionKeepsEntries(x, Run(x, init), kb, v, to, at, raw);
    }
  }
}
