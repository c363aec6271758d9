/** What every version record keeps over every run of the store: integrity against its immutable
    article, a history that walks the transition table, and single-use bound authorizations. */
module KbRecords {
  import opened KbModel
  import opened KbReview
  import opened KbStore
  import TextOrder
  import opened Options

  datatype Step =
    | Add(candidate: KbCandidate, addedAt: string)
    | Move(kb: KbId, version: nat, to: KbState, at: string, auth: AuthInput)

  ghost function Apply(x: Texts, s: Store, step: Step): Store {
    match step
    case Add(c, at) => AddResult(x, s, c, at)
    case Move(kb, v, to, at, raw) => TransitionResult(x, s, kb, v, to, at, raw)
  }

  /** The store after any sequence of calls, failed ones included, on an empty knowledge base. */
  ghost function Run(x: Texts, steps: seq<Step>): Store {
    if steps == [] then EMPTY else Apply(x, Run(x, steps[..|steps| - 1]), steps[|steps| - 1])
  }

  lemma RunSnoc(x: Texts, steps: seq<Step>, step: Step)
    ensures Run(x, steps + [step]) == Apply(x, Run(x, steps), step)
  {
    hide Apply;
    assert (steps + [step])[..|steps|] == steps;
  }

  // ---- one record ----

  /** Consecutive events follow the table; a decision is recorded exactly on human edges; and
      `from` is the previous state, except that a supersession by publication always says Published. */
  predicate Follows(a: Event, b: Event) {
    && b.to in Targets(a.to)
    && (b.decision.Some? <==> HumanDecision(a.to, b.to))
    && b.from == Some(if b.automatic then Published else a.to)
    && (b.automatic ==> b.to == Superseded && Current(a.to))
  }

  ghost predicate Walk(h: seq<Event>, state: KbState) {
    && h != []
    && h[0].from.None? && h[0].decision.None? && h[0].to in {Candidate, Draft}
    && h[|h| - 1].to == state
    && (forall k :: 0 <= k < |h| ==> h[k].seqNo == k + 1)
    && (forall k :: 0 < k < |h| ==> Follows(h[k - 1], h[k]))
  }

  predicate Bound(e: Event, r: Version) {
    e.decision.Some? ==>
      && e.decision.value.digest == r.digest
      && (!e.automatic ==> e.decision.value.reviewer !in r.proposers)
  }

  predicate SameId(a: Event, b: Event) {
    a.decision.Some? && b.decision.Some? && a.decision.value.authorizationId == b.decision.value.authorizationId
  }

  ghost predicate IdsDistinct(h: seq<Event>) {
    forall k, l :: 0 <= k < l < |h| ==> !SameId(h[k], h[l])
  }

  /** A decision given to `transition` is never earlier, as text, than one already in the history. */
  ghost predicate DecisionsInOrder(h: seq<Event>) {
    forall k, l :: 0 <= l < k < |h| && h[k].decision.Some? && !h[k].automatic && h[l].decision.Some? ==>
      !TextOrder.Less(h[k].decision.value.decidedAt, h[l].decision.value.decidedAt)
  }

  ghost predicate RecordOk(r: Version, c: Content) {
    && Walk(r.history, r.state)
    && (forall e <- r.history :: Bound(e, r))
    && (forall e <- r.history :: Gated(e.to) ==> QualityGate(c))
    && IdsDistinct(r.history)
    && DecisionsInOrder(r.history)
  }

  ghost predicate VersionOk(s: Store, kb: KbId, v: nat)
    requires HasVersion(s, kb, v)
  {
    var r := s.entries[kb][v - 1];
    && ArticleIntact(s, kb, v)
    && var c := s.articles[(kb, v)].content;
    && r.recDigest == RecommendationDigest(c.body)
    && r.dedupKey == c.dedupKey
    && r.proposers == c.proposers
    && r.supersedes == c.body.supersedes
    && r.supersedes in {None, Some(kb)}
    && RecordOk(r, c)
  }

  /** Two versions of an entry share an authorization only where one publication superseded the other. */
  ghost predicate NoSharedIds(a: seq<Event>, b: seq<Event>) {
    forall k, l :: 0 <= k < |a| && 0 <= l < |b| && SameId(a[k], b[l]) ==> a[k].automatic || b[l].automatic
  }

  ghost predicate SingleUse(versions: seq<Version>) {
    forall i, j :: 0 <= i < j < |versions| ==> NoSharedIds(versions[i].history, versions[j].history)
  }

  ghost predicate StoreOk(s: Store) {
    && (forall kb, v :: HasVersion(s, kb, v) ==> VersionOk(s, kb, v))
    && (forall kb, v :: (kb, v) in s.articles ==> HasVersion(s, kb, v) || v == NextVersion(s, kb))
    && (forall key <- s.pages :: key in s.articles)
    && (forall kb <- s.entries :: SingleUse(s.entries[kb]))
  }

  // ---- adding ----

  lemma NewRecordOk(c: KbCandidate, v: nat, at: string)
    requires c.lifecycle in {Candidate, Draft}
    ensures RecordOk(NewVersion(c, v, at), c.content)
  {
  }

  lemma AddKeepsVersion(x: Texts, s: Store, c: KbCandidate, at: string, k: KbId, w: nat)
    requires StoreOk(s) && AddRefusal(x, s, c, at).None? && HasVersion(Insert(s, c, at), k, w)
    ensures VersionOk(Insert(s, c, at), k, w)
  {
    hide RecordOk, RowsOf, Loadable, SingleUse, VerdictOf;
    var kb, v := c.content.kbId, NextVersion(s, c.content.kbId);
    NewRecordOk(c, v, at);
    if (k, w) != (kb, v) {
      assert HasVersion(s, k, w) && VersionOk(s, k, w);
      assert Insert(s, c, at).entries[k][w - 1] == s.entries[k][w - 1];
    }
  }

  lemma LeavingFilesKeepsVersion(x: Texts, s: Store, c: KbCandidate, at: string, page: bool, k: KbId, w: nat)
    requires StoreOk(s) && AddRefusal(x, s, c, at).None? && HasVersion(s, k, w)
    ensures VersionOk(LeaveFiles(s, c, page), k, w)
  {
    hide RecordOk, RowsOf, Loadable, SingleUse, VerdictOf;
    assert VersionOk(s, k, w);
  }

  lemma AddKeeps(x: Texts, s: Store, c: KbCandidate, at: string)
    requires StoreOk(s)
    ensures StoreOk(AddResult(x, s, c, at))
  {
    hide VersionOk, AddRefusal, SingleUse, PageFailure, LateFailure;
    var t := AddResult(x, s, c, at);
    if AddRefusal(x, s, c, at).None? {
      forall k, w: nat | HasVersion(t, k, w)
        ensures VersionOk(t, k, w)
      {
        if LateFailure(x, s, c, at).Some? {
          LeavingFilesKeepsVersion(x, s, c, at, PageFailure(x, s, c).None?, k, w);
        } else {
          AddKeepsVersion(x, s, c, at, k, w);
        }
      }
      AloneIsSingleUse(c, at, NextVersion(s, c.content.kbId), VersionsOf(s, c.content.kbId));
    }
  }

  lemma AloneIsSingleUse(c: KbCandidate, at: string, v: nat, versions: seq<Version>)
    requires versions == [] || SingleUse(versions)
    ensures SingleUse(versions + [NewVersion(c, v, at)])
  {
  }

  // ---- moving ----

  lemma AppendWalk(h: seq<Event>, state: KbState, e: Event)
    requires Walk(h, state) && e.seqNo == |h| + 1 && Follows(h[|h| - 1], e)
    ensures Walk(h + [e], e.to)
  {
  }

  lemma AppendIds(h: seq<Event>, e: Event)
    requires IdsDistinct(h) && forall f <- h :: !SameId(f, e)
    ensures IdsDistinct(h + [e])
  {
  }

  lemma AppendOrder(h: seq<Event>, e: Event)
    requires DecisionsInOrder(h)
    requires e.decision.Some? && !e.automatic ==> InOrder(h, e.decision.value.decidedAt)
    ensures DecisionsInOrder(h + [e])
  {
    assert forall k :: 0 <= k < |h| ==> h[k] in h;
  }

  lemma MovedOk(r: Version, c: Content, to: KbState, at: string, d: Option<Decision>)
    requires RecordOk(r, c)
    requires to in Targets(r.state)
    requires d.Some? <==> HumanDecision(r.state, to)
    requires Gated(to) ==> QualityGate(c)
    requires d.Some? ==> d.value.digest == r.digest && d.value.reviewer !in r.proposers
    requires d.Some? ==> forall e <- r.history :: !UsesId(e, d.value.authorizationId)
    requires d.Some? ==> InOrder(r.history, d.value.decidedAt)
    ensures RecordOk(Moved(r, to, at, d), c)
  {
    var e := Event(|r.history| + 1, Some(r.state), to, at, d, false);
    AppendWalk(r.history, r.state, e);
    AppendIds(r.history, e);
    AppendOrder(r.history, e);
  }

  lemma RetreatOk(r: Version, c: Content, v: nat, at: string, d: Decision)
    requires RecordOk(r, c) && Current(r.state)
    requires forall e <- r.history :: !UsesId(e, d.authorizationId)
    ensures RecordOk(Retreat(r, v, at, d), c)
  {
    var e := Event(|r.history| + 1, Some(Published), Superseded, at, Some(d.(digest := r.digest)), true);
    AppendWalk(r.history, r.state, e);
    AppendIds(r.history, e);
    AppendOrder(r.history, e);
  }

  /** The facts an accepted transition establishes; everything after rests on these alone. */
  ghost predicate MayMove(s: Store, kb: KbId, v: nat, to: KbState, d: Option<Decision>) {
    && HasVersion(s, kb, v) && ArticleIntact(s, kb, v)
    && var r := s.entries[kb][v - 1];
    && to in Targets(r.state)
    && (d.Some? <==> HumanDecision(r.state, to))
    && (Gated(to) ==>
          && QualityGate(s.articles[(kb, v)].content)
          && !HasOpenConflict(s.entries[kb], v, kb, s.articles[(kb, v)].content.body))
    && (d.Some? ==>
          && d.value.digest == r.digest && d.value.reviewer !in r.proposers
          && InOrder(r.history, d.value.decidedAt)
          && !AuthorizationUsed(s.entries[kb], d.value.authorizationId))
  }

  lemma Accepted(s: Store, kb: KbId, v: nat, to: KbState, at: string, raw: AuthInput)
    requires Check(s, kb, v, to, at, raw).Ok?
    ensures MayMove(s, kb, v, to, Check(s, kb, v, to, at, raw).value)
  {
  }

  lemma UnusedIn(versions: seq<Version>, id: string, i: nat)
    requires i < |versions| && !AuthorizationUsed(versions, id)
    ensures forall e <- versions[i].history :: !UsesId(e, id)
  {
    forall e | e in versions[i].history
      ensures !UsesId(e, id)
    {
      var k :| 0 <= k < |versions[i].history| && versions[i].history[k] == e;
    }
  }

  lemma Shape(versions: seq<Version>, v: nat, to: KbState, at: string, d: Option<Decision>, supersede: bool, i: nat)
    requires 1 <= v <= |versions| && (supersede ==> d.Some?) && i < |versions|
    ensures var after := After(versions, v, to, at, d, supersede);
      && |after| == |versions|
      && after[i] ==
         if i == v - 1 then Moved(versions[i], to, at, d)
         else if supersede && Current(versions[i].state) then Retreat(versions[i], v, at, d.value)
         else versions[i]
  {
  }

  /** A transition leaves what a record was created with alone. */
  predicate SameOrigin(a: Version, b: Version) {
    && a.digest == b.digest && a.recDigest == b.recDigest && a.dedupKey == b.dedupKey
    && a.proposers == b.proposers && a.supersedes == b.supersedes
  }

  lemma MoveKeepsRecord(s: Store, kb: KbId, v: nat, to: KbState, at: string, d: Option<Decision>, w: nat, c: Content)
    requires MayMove(s, kb, v, to, d)
    requires HasVersion(s, kb, w) && RecordOk(s.entries[kb][w - 1], c)
    requires w == v ==> c == s.articles[(kb, v)].content
    ensures var r := After(s.entries[kb], v, to, at, d, Supersedes(s, kb, v, to))[w - 1];
      RecordOk(r, c) && SameOrigin(s.entries[kb][w - 1], r)
  {
    hide RecordOk, AuthorizationUsed, InOrder, After;
    Shape(s.entries[kb], v, to, at, d, Supersedes(s, kb, v, to), w - 1);
    var r := s.entries[kb][w - 1];
    if d.Some? {
      UnusedIn(s.entries[kb], d.value.authorizationId, w - 1);
    }
    if w == v {
      MovedOk(r, c, to, at, d);
    } else if Supersedes(s, kb, v, to) && Current(r.state) {
      RetreatOk(r, c, v, at, d.value);
    }
  }

  lemma MoveKeepsVersion(s: Store, kb: KbId, v: nat, to: KbState, at: string, d: Option<Decision>, k: KbId, w: nat)
    requires MayMove(s, kb, v, to, d) && HasVersion(s, k, w) && VersionOk(s, k, w)
    ensures HasVersion(MoveStore(s, kb, v, to, at, d), k, w)
    ensures VersionOk(MoveStore(s, kb, v, to, at, d), k, w)
  {
    if k == kb {
      MoveKeepsRecord(s, kb, v, to, at, d, w, s.articles[(kb, w)].content);
    }
  }

  lemma MoveKeepsVersions(s: Store, kb: KbId, v: nat, to: KbState, at: string, d: Option<Decision>)
    requires StoreOk(s) && MayMove(s, kb, v, to, d)
    ensures var t := MoveStore(s, kb, v, to, at, d);
      forall k, w :: HasVersion(t, k, w) ==> VersionOk(t, k, w)
  {
    var t := MoveStore(s, kb, v, to, at, d);
    forall k, w: nat | HasVersion(t, k, w)
      ensures VersionOk(t, k, w)
    {
      assert HasVersion(s, k, w);
      MoveKeepsVersion(s, kb, v, to, at, d, k, w);
    }
  }

  /** The new events of one transition share an id only where one of them is automatic. */
  lemma MoveKeepsSingleUse(versions: seq<Version>, v: nat, to: KbState, at: string, d: Option<Decision>, supersede: bool)
    requires 1 <= v <= |versions| && (supersede ==> d.Some?)
    requires SingleUse(versions)
    requires d.Some? ==> !AuthorizationUsed(versions, d.value.authorizationId)
    ensures SingleUse(After(versions, v, to, at, d, supersede))
  {
    var after := After(versions, v, to, at, d, supersede);
    forall i, j | 0 <= i < j < |after|
      ensures NoSharedIds(after[i].history, after[j].history)
    {
      Shape(versions, v, to, at, d, supersede, i);
      Shape(versions, v, to, at, d, supersede, j);
      if d.Some? {
        UnusedIn(versions, d.value.authorizationId, i);
        UnusedIn(versions, d.value.authorizationId, j);
      }
      assert NoSharedIds(versions[i].history, versions[j].history);
    }
  }

  lemma MoveKeeps(s: Store, kb: KbId, v: nat, to: KbState, at: string, d: Option<Decision>)
    requires StoreOk(s) && MayMove(s, kb, v, to, d)
    ensures StoreOk(MoveStore(s, kb, v, to, at, d))
  {
    hide VersionOk, SingleUse, AuthorizationUsed, InOrder;
    MoveKeepsVersions(s, kb, v, to, at, d);
    MoveKeepsSingleUse(s.entries[kb], v, to, at, d, Supersedes(s, kb, v, to));
    var t := MoveStore(s, kb, v, to, at, d);
    forall k, w | (k, w) in s.articles
      ensures HasVersion(t, k, w) || w == NextVersion(t, k)
    {
      assert HasVersion(s, k, w) || w == NextVersion(s, k);
    }
  }

  lemma TransitionKeeps(x: Texts, s: Store, kb: KbId, v: nat, to: KbState, at: string, raw: AuthInput)
    requires StoreOk(s)
    ensures StoreOk(TransitionResult(x, s, kb, v, to, at, raw))
  {
    if Check(s, kb, v, to, at, raw).Ok? {
      Accepted(s, kb, v, to, at, raw);
      MoveKeeps(s, kb, v, to, at, Check(s, kb, v, to, at, raw).value);
    }
  }

  // ---- every run ----

  /** After any calls at all: every record matches its article, walks the table, and every
      authorization in it is bound to it and used once. */
  lemma {:induction false} EveryRunKeepsRecords(x: Texts, steps: seq<Step>)
    ensures StoreOk(Run(x, steps))
  {
    hide AddResult, TransitionResult;
    if steps == [] {
      EmptyIsOk();
    } else {
      EveryRunKeepsRecords(x, steps[..|steps| - 1]);
      var s := Run(x, steps[..|steps| - 1]);
      match steps[|steps| - 1]
      case Add(c, at) => AddKeeps(x, s, c, at);
      case Move(kb, v, to, at, raw) => TransitionKeeps(x, s, kb, v, to, at, raw);
    }
  }

  lemma EmptyIsOk()
    ensures StoreOk(EMPTY)
  {
  }

  /** Every article the manifest knows stays intact over every run. */
  lemma ArticlesStayIntact(x: Texts, steps: seq<Step>, kb: KbId, v: nat)
    requires HasVersion(Run(x, steps), kb, v)
    ensures ArticleIntact(Run(x, steps), kb, v)
  {
    EveryRunKeepsRecords(x, steps);
    assert VersionOk(Run(x, steps), kb, v);
  }

  // ---- provenance of what was published ----

  predicate PastApproval(s: KbState) {
    s in {ApprovedByHuman, Published, ReviewDue, Deprecated, Superseded, Retired}
  }

  lemma {:induction false} ApprovalBefore(h: seq<Event>, state: KbState, j: nat) returns (i: nat)
    requires Walk(h, state) && j < |h| && PastApproval(h[j].to)
    ensures i <= j && h[i].to == ApprovedByHuman && h[i].decision.Some?
  {
    assert j > 0;
    assert Follows(h[j - 1], h[j]);
    if h[j].to == ApprovedByHuman {
      i := j;
    } else {
      i := ApprovalBefore(h, state, j - 1);
    }
  }

  /** Event `i` approved what event `j` published. */
  ghost predicate Backs(r: Version, c: Content, i: nat, j: nat)
    requires i < |r.history| && j < |r.history|
  {
    && i < j
    && r.history[i].to == ApprovedByHuman && r.history[i].decision.Some? && r.history[j].decision.Some?
    && var a, p := r.history[i].decision.value, r.history[j].decision.value;
    && a.authorizationId != p.authorizationId
    && a.digest == p.digest == r.digest
    && a.reviewer !in r.proposers && p.reviewer !in r.proposers
    && QualityGate(c) && c.body.rcaState == RcaConfirmed
  }

  lemma PublicationIsBacked(r: Version, c: Content, j: nat) returns (i: nat)
    requires RecordOk(r, c) && j < |r.history| && r.history[j].to == Published
    ensures i < |r.history| && Backs(r, c, i, j)
  {
    assert j > 0 && Follows(r.history[j - 1], r.history[j]);
    i := ApprovalBefore(r.history, r.state, j - 1);
    assert i > 0 && Follows(r.history[i - 1], r.history[i]);
    assert r.history[i] in r.history && r.history[j] in r.history;
    assert !SameId(r.history[i], r.history[j]);
  }

  /** Whatever was ever published was approved before, by a different authorization; both were bound
      to its unchanging digest, given by non-proposers, on an article that passes the gate. */
  lemma EveryPublicationIsBacked(x: Texts, steps: seq<Step>, kb: KbId, v: nat, j: nat) returns (i: nat)
    requires HasVersion(Run(x, steps), kb, v)
    requires j < |Run(x, steps).entries[kb][v - 1].history|
    requires Run(x, steps).entries[kb][v - 1].history[j].to == Published
    ensures (kb, v) in Run(x, steps).articles
    ensures i < |Run(x, steps).entries[kb][v - 1].history|
    ensures Backs(Run(x, steps).entries[kb][v - 1], Run(x, steps).articles[(kb, v)].content, i, j)
  {
    EveryRunKeepsRecords(x, steps);
    assert VersionOk(Run(x, steps), kb, v);
    i := PublicationIsBacked(Run(x, steps).entries[kb][v - 1], Run(x, steps).articles[(kb, v)].content, j);
  }

  // ---- append-only ----

  predicate Grew(a: Version, b: Version) {
    a.history <= b.history && a.digest == b.digest && a.proposers == b.proposers && a.recDigest == b.recDigest
  }

  /** Nothing a version was created with ever changes, and its history only grows. */
  ghost predicate Extends(s: Store, t: Store) {
    && (forall kb, v :: HasVersion(s, kb, v) ==>
          HasVersion(t, kb, v) && Grew(s.entries[kb][v - 1], t.entries[kb][v - 1]))
    && (forall key :: key in s.articles ==> key in t.articles && s.articles[key] == t.articles[key])
  }

  lemma MoveExtends(s: Store, kb: KbId, v: nat, to: KbState, at: string, d: Option<Decision>)
    requires MayMove(s, kb, v, to, d)
    ensures Extends(s, MoveStore(s, kb, v, to, at, d))
  {
    forall w: nat | HasVersion(s, kb, w)
      ensures Grew(s.entries[kb][w - 1], After(s.entries[kb], v, to, at, d, Supersedes(s, kb, v, to))[w - 1])
    {
      Shape(s.entries[kb], v, to, at, d, Supersedes(s, kb, v, to), w - 1);
    }
  }

  lemma StepExtends(x: Texts, s: Store, step: Step)
    requires StoreOk(s)
    ensures Extends(s, Apply(x, s, step))
  {
    hide Check, AddRefusal, LateFailure, PageFailure, VersionOk, SingleUse;
    match step
    case Move(kb, v, to, at, raw) =>
      if Check(s, kb, v, to, at, raw).Ok? {
        Accepted(s, kb, v, to, at, raw);
        MoveExtends(s, kb, v, to, at, Check(s, kb, v, to, at, raw).value);
      }
    case Add(c, at) => AddExtends(x, s, c, at);
  }

  lemma AddExtends(x: Texts, s: Store, c: KbCandidate, at: string)
    ensures Extends(s, AddResult(x, s, c, at))
  {
    hide Loadable, RowsOf, VerdictOf, LateFailure, PageFailure;
  }

  lemma ExtendsTwice(s: Store, t: Store, u: Store)
    requires Extends(s, t) && Extends(t, u)
    ensures Extends(s, u)
  {
    forall kb, v: nat | HasVersion(s, kb, v)
      ensures HasVersion(u, kb, v) && Grew(s.entries[kb][v - 1], u.entries[kb][v - 1])
    {
      assert HasVersion(t, kb, v) && Grew(s.entries[kb][v - 1], t.entries[kb][v - 1]);
      assert HasVersion(u, kb, v) && Grew(t.entries[kb][v - 1], u.entries[kb][v - 1]);
    }
  }

  lemma {:induction false} RunsOnlyExtend(x: Texts, earlier: seq<Step>, later: seq<Step>)
    ensures Extends(Run(x, earlier), Run(x, earlier + later))
  {
    hide Apply, StoreOk;
    if later == [] {
      assert earlier + later == earlier;
      assert Extends(Run(x, earlier), Run(x, earlier));
    } else {
      var init := later[..|later| - 1];
      RunsOnlyExtend(x, earlier, init);
      assert (earlier + later)[..|earlier + later| - 1] == earlier + init;
      EveryRunKeepsRecords(x, earlier + init);
      StepExtends(x, Run(x, earlier + init), later[|later| - 1]);
      assert Run(x, earlier + later) == Apply(x, Run(x, earlier + init), later[|later| - 1]);
      ExtendsTwice(Run(x, earlier), Run(x, earlier + init), Run(x, earlier + later));
    }
  }

  // ---- where the supersession event departs from the rules ----

  /** A supersession event names the wrong previous state exactly for a version that was due for review. */
  lemma SupersessionFrom(r: Version, c: Content, v: nat, at: string, d: Decision)
    requires RecordOk(r, c) && Current(r.state)
    ensures var h := Retreat(r, v, at, d).history;
      h[|h| - 1].from != Some(h[|h| - 2].to) <==> r.state == ReviewDue
  {
  }

  /** Full chronology, automatic events included. */
  ghost predicate AllDecisionsInOrder(h: seq<Event>) {
    forall k, l :: 0 <= l < k < |h| && h[k].decision.Some? && h[l].decision.Some? ==>
      !TextOrder.Less(h[k].decision.value.decidedAt, h[l].decision.value.decidedAt)
  }

  /** The supersession event keeps the older version's decisions in order exactly when the
      publishing decision is not earlier than any of them: nothing checks this. */
  lemma SupersessionChronology(r: Version, v: nat, at: string, d: Decision)
    requires AllDecisionsInOrder(r.history)
    ensures AllDecisionsInOrder(Retreat(r, v, at, d).history) <==> InOrder(r.history, d.decidedAt)
  {
    var h := Retreat(r, v, at, d).history;
    assert forall k :: 0 <= k < |r.history| ==> h[k] == r.history[k];
    if InOrder(r.history, d.decidedAt) {
      assert forall k :: 0 <= k < |r.history| ==> r.history[k] in r.history;
    } else {
      var e :| e in r.history && e.decision.Some? && TextOrder.Less(d.decidedAt, e.decision.value.decidedAt);
      var l :| 0 <= l < |r.history| && r.history[l] == e;
      assert h[l] == e && h[|r.history|].decision.Some?;
    }
  }
}
