/** What reviewing, adding and moving answer, written out state by state and field by field. */
module KbAnswers {
  import opened KbModel
  import opened KbReview
  import opened KbStore
  import opened KbRecords
  import TextOrder
  import UtcText
  import opened Options

  // ---- the transition table ----

  /** The table read backwards: where each state can be entered from. */
  function EnteredFrom(to: KbState): set<KbState> {
    match to
    case Candidate => {}
    case Draft => {Candidate, PendingHumanReview}
    case PendingHumanReview => {Draft}
    case ApprovedByHuman => {PendingHumanReview}
    case Published => {ApprovedByHuman, ReviewDue}
    case Rejected => {Candidate, Draft, PendingHumanReview, ApprovedByHuman}
    case ReviewDue => {Published}
    case Deprecated => {Published, ReviewDue}
    case Superseded => {Published, ReviewDue}
    case Retired => {Deprecated, Superseded}
  }

  /** An edge takes an authorization exactly when it leads to one of five states. */
  predicate Decided(to: KbState) {
    to in {ApprovedByHuman, Published, Deprecated, Superseded, Retired}
  }

  lemma EdgesAndDecisions(from: KbState, to: KbState)
    ensures to in Targets(from) <==> from in EnteredFrom(to)
    ensures to in Targets(from) ==> (HumanDecision(from, to) <==> Decided(to))
  {
  }

  // ---- review ----

  predicate SameFamilyFields(a: DedupKey, b: DedupKey) {
    a.family == b.family && a.ruleId == b.ruleId && a.errorCodes == b.errorCodes
  }

  /** Review takes the row into account: of the family, and neither retired nor rejected. */
  predicate Counts(c: Content, r: Row) {
    r.state != Retired && r.state != Rejected && SameFamilyFields(r.dedupKey, c.dedupKey)
  }

  predicate SameWords(c: Content, d: RecDigest) {
    d.cause == c.body.cause && d.recommendations == c.body.recommendations
  }

  lemma RowRelations(c: Content, r: Row)
    ensures Related(c, r) <==> Counts(c, r)
    ensures Duplicates(c, r) <==> Counts(c, r) && r.dedupKey == c.dedupKey && SameWords(c, r.recDigest)
    ensures Replaces(c, r) <==>
      Counts(c, r) && r.dedupKey == c.dedupKey && !SameWords(c, r.recDigest) && c.body.supersedes == Some(r.kbId)
    ensures Conflicts(c, r) <==>
      Counts(c, r) && r.dedupKey == c.dedupKey && !SameWords(c, r.recDigest) && c.body.supersedes != Some(r.kbId)
  {
    SameKey(c.dedupKey, r.dedupKey);
  }

  /** The verdicts, by the fields of the key: another family, rule or error code makes a row count for nothing;
      with these three equal any other difference in the key makes it a difference of scope; and on equal keys cause
      and recommendations decide. */
  lemma VerdictByFields(c: Content, rows: set<Row>)
    ensures VerdictOf(c, rows) == Duplicate <==>
      exists r <- rows :: Counts(c, r) && r.dedupKey == c.dedupKey && SameWords(c, r.recDigest)
    ensures VerdictOf(c, rows) == Conflict <==>
      && (forall r <- rows :: Counts(c, r) && r.dedupKey == c.dedupKey ==> !SameWords(c, r.recDigest))
      && exists r <- rows :: Counts(c, r) && r.dedupKey == c.dedupKey && c.body.supersedes != Some(r.kbId)
    ensures VerdictOf(c, rows) == SupersessionProposed <==>
      && (forall r <- rows :: Counts(c, r) && r.dedupKey == c.dedupKey ==>
            !SameWords(c, r.recDigest) && c.body.supersedes == Some(r.kbId))
      && exists r <- rows :: Counts(c, r) && r.dedupKey == c.dedupKey
    ensures VerdictOf(c, rows) == ScopeDifference <==>
      && (forall r <- rows :: Counts(c, r) ==> r.dedupKey != c.dedupKey)
      && exists r <- rows :: Counts(c, r)
    ensures VerdictOf(c, rows) == New <==> forall r <- rows :: !Counts(c, r)
  {
    hide Related, Duplicates, Replaces, Conflicts, Counts, SameWords;
    forall r | r in rows {
      RowRelations(c, r);
    }
  }

  // ---- moving ----

  predicate Usable(v: nat, at: string) {
    1 <= v <= 9999 && UtcText.IsUtcTimestamp(at)
  }

  predicate Readable(s: Store) {
    |s.entries| <= 2000 && forall kb <- s.entries :: |s.entries[kb]| <= 9999
  }

  predicate Found(s: Store, kb: KbId, v: nat) {
    kb in s.entries && 1 <= v <= |s.entries[kb]|
  }

  /** The article file is there, says what the manifest recorded, and names its own place. */
  predicate Sane(s: Store, kb: KbId, v: nat)
    requires Found(s, kb, v)
  {
    && (kb, v) in s.articles
    && var a := s.articles[(kb, v)];
    && s.entries[kb][v - 1].digest == ContentDigest(a) && a.version == v && a.content.kbId == kb
  }

  /** A version that can be moved along an edge of the table. */
  predicate OnEdge(s: Store, kb: KbId, v: nat, to: KbState, at: string) {
    Usable(v, at) && Readable(s) && Found(s, kb, v) && Sane(s, kb, v) && s.entries[kb][v - 1].state in EnteredFrom(to)
  }

  predicate Promotes(to: KbState) {
    to == PendingHumanReview || to == ApprovedByHuman || to == Published
  }

  predicate FailsGate(c: Content) {
    || c.incident == None || |c.body.evidenceIds| == 0
    || c.body.rcaState == RcaNotConfirmed || !c.body.publishableAsFact
    || |c.body.recommendations| == 0 || !c.body.appliesOnlyWithinScope
    || exists m <- c.body.recommendations :: m.universalSolution || !m.notExecuted
  }

  /** Version `w` of the entry is another one, open, and says something else. */
  predicate Opposes(c: Content, versions: seq<Version>, v: nat, w: nat) {
    && 1 <= w <= |versions| && w != v && !SameWords(c, versions[w - 1].recDigest)
    && versions[w - 1].state in {Candidate, Draft, PendingHumanReview, ApprovedByHuman, Published, ReviewDue}
  }

  /** There is one, and the article does not supersede the entry. */
  ghost predicate MeetsConflict(s: Store, kb: KbId, v: nat)
    requires Found(s, kb, v) && Sane(s, kb, v)
  {
    var c := s.articles[(kb, v)].content;
    c.body.supersedes != Some(kb) && exists w: nat :: Opposes(c, s.entries[kb], v, w)
  }

  ghost predicate PassesChecks(s: Store, kb: KbId, v: nat, to: KbState, at: string) {
    OnEdge(s, kb, v, to, at) && (Promotes(to) ==> !FailsGate(s.articles[(kb, v)].content) && !MeetsConflict(s, kb, v))
  }

  lemma GateMeans(c: Content)
    ensures QualityGate(c) <==> !FailsGate(c)
  {
  }

  lemma ConflictMeans(s: Store, kb: KbId, v: nat)
    requires Found(s, kb, v) && Sane(s, kb, v)
    ensures HasOpenConflict(s.entries[kb], v, kb, s.articles[(kb, v)].content.body) <==> MeetsConflict(s, kb, v)
  {
    var versions, c := s.entries[kb], s.articles[(kb, v)].content;
    if HasOpenConflict(versions, v, kb, c.body) {
      var i: nat :| i < |versions| && OpenConflict(versions, v, i, kb, c.body);
      assert Opposes(c, versions, v, i + 1);
    }
    if MeetsConflict(s, kb, v) {
      var w: nat :| Opposes(c, versions, v, w);
      assert OpenConflict(versions, v, w - 1, kb, c.body);
    }
  }

  /** The checks before the authorization, each refusal with its exact condition. */
  lemma CheckAnswers(s: Store, kb: KbId, v: nat, to: KbState, at: string)
    ensures var r := Refusal(s, kb, v, to, at);
      && (r == Some(E_USAGE) <==> !Usable(v, at))
      && (r == Some(E_KB_NOT_FOUND) <==> Usable(v, at) && Readable(s) && !Found(s, kb, v))
      && (r == Some(E_KB_INTEGRITY) <==> Usable(v, at) && (!Readable(s) || (Found(s, kb, v) && !Sane(s, kb, v))))
      && (r == Some(E_TRANSITION_DENIED) <==>
            Usable(v, at) && Readable(s) && Found(s, kb, v) && Sane(s, kb, v) && s.entries[kb][v - 1].state !in EnteredFrom(to))
      && (r == Some(E_QUALITY_GATE) <==> OnEdge(s, kb, v, to, at) && Promotes(to) && FailsGate(s.articles[(kb, v)].content))
      && (r == Some(E_CONFLICT) <==>
            OnEdge(s, kb, v, to, at) && Promotes(to) && !FailsGate(s.articles[(kb, v)].content) && MeetsConflict(s, kb, v))
      && (r == None <==> PassesChecks(s, kb, v, to, at))
  {
    hide UtcText.IsUtcTimestamp, QualityGate, FailsGate, HasOpenConflict, MeetsConflict, Targets, EnteredFrom;
    if HasVersion(s, kb, v) && ArticleIntact(s, kb, v) {
      EdgesAndDecisions(s.entries[kb][v - 1].state, to);
      GateMeans(s.articles[(kb, v)].content);
      ConflictMeans(s, kb, v);
    }
  }

  /** The record names this artifact, its digest and its version. */
  predicate BoundTo(a: AuthRecord, kb: KbId, v: nat, digest: Digest) {
    a.artifactId == KbArtifact(kb) && a.digest == digest && a.version == v
  }

  /** Some event of some version of the entry already carries the id. */
  ghost predicate Spent(versions: seq<Version>, id: string) {
    exists w, k :: 0 <= w < |versions| && 0 <= k < |versions[w].history| && versions[w].history[k].decision.Some? &&
      versions[w].history[k].decision.value.authorizationId == id
  }

  /** The history holds a decision with a greater time text. */
  ghost predicate TooEarly(h: seq<Event>, at: string) {
    exists e <- h :: e.decision.Some? && TextOrder.Less(at, e.decision.value.decidedAt)
  }

  /** An authorization that carries a decision of this version. */
  ghost predicate Authorizes(versions: seq<Version>, kb: KbId, v: nat, raw: AuthInput)
    requires 1 <= v <= |versions|
  {
    var r := versions[v - 1];
    && raw.Record? && raw.record.approved && BoundTo(raw.record, kb, v, r.digest) && raw.record.reviewer !in r.proposers
    && !Spent(versions, raw.record.authorizationId) && !TooEarly(r.history, raw.record.decidedAt)
  }

  lemma AuthorizationAnswers(versions: seq<Version>, kb: KbId, v: nat, to: KbState, raw: AuthInput)
    requires 1 <= v <= |versions| && versions[v - 1].state in EnteredFrom(to)
    ensures var out, r := Authorize(versions, kb, v, to, raw), versions[v - 1];
      && (!Decided(to) ==> out == Ok(None))
      && (Decided(to) ==>
            && (out == Err(E_AUTH_MISSING) <==> raw.MissingRecord?)
            && (out == Err(E_AUTH_DIGEST_MISMATCH) <==> raw.Record? && raw.record.approved && !BoundTo(raw.record, kb, v, r.digest))
            && (out == Err(E_AUTH_SELF_APPROVAL) <==>
                  && raw.Record? && raw.record.approved && BoundTo(raw.record, kb, v, r.digest)
                  && raw.record.reviewer in r.proposers)
            && (out.Ok? <==> Authorizes(versions, kb, v, raw))
            && (out.Ok? ==> out.value == Some(Decision(raw.record.authorizationId, raw.record.reviewer, raw.record.decidedAt, r.digest)))
            && (out.Ok? || out.error in {E_AUTH_MISSING, E_AUTH_INVALID, E_AUTH_DIGEST_MISMATCH, E_AUTH_SELF_APPROVAL}))
  {
    hide Targets, EnteredFrom;
    var r := versions[v - 1];
    EdgesAndDecisions(r.state, to);
    if raw.Record? {
      SpentMeans(versions, raw.record.authorizationId);
      assert InOrder(r.history, raw.record.decidedAt) <==> !TooEarly(r.history, raw.record.decidedAt);
    }
  }

  lemma SpentMeans(versions: seq<Version>, id: string)
    ensures AuthorizationUsed(versions, id) <==> Spent(versions, id)
  {
    if AuthorizationUsed(versions, id) {
      var i, k :| 0 <= i < |versions| && 0 <= k < |versions[i].history| && UsesId(versions[i].history[k], id);
    }
    if Spent(versions, id) {
      var w, k :| 0 <= w < |versions| && 0 <= k < |versions[w].history| && versions[w].history[k].decision.Some? &&
        versions[w].history[k].decision.value.authorizationId == id;
      assert UsesId(versions[w].history[k], id);
    }
  }

  /** A move is refused for a conflict exactly when the checks before say so, and it is accepted exactly when all of
      them pass, a human decision is authorized and the new manifest is not too large. */
  lemma TransitionAnswers(x: Texts, s: Store, kb: KbId, v: nat, to: KbState, at: string, raw: AuthInput)
    ensures var out := TransitionOutcome(x, s, kb, v, to, at, raw);
      && (out == Err(E_USAGE) <==> !Usable(v, at))
      && (out == Err(E_KB_NOT_FOUND) <==> Usable(v, at) && Readable(s) && !Found(s, kb, v))
      && (out == Err(E_TRANSITION_DENIED) <==>
            Usable(v, at) && Readable(s) && Found(s, kb, v) && Sane(s, kb, v) && s.entries[kb][v - 1].state !in EnteredFrom(to))
      && (out == Err(E_QUALITY_GATE) <==> OnEdge(s, kb, v, to, at) && Promotes(to) && FailsGate(s.articles[(kb, v)].content))
      && (out == Err(E_CONFLICT) <==>
            OnEdge(s, kb, v, to, at) && Promotes(to) && !FailsGate(s.articles[(kb, v)].content) && MeetsConflict(s, kb, v))
      && (out.Ok? || out == Err(E_OUTPUT_TOO_LARGE) <==>
            PassesChecks(s, kb, v, to, at) && (Decided(to) ==> Authorizes(s.entries[kb], kb, v, raw)))
      && (out == Err(E_AUTH_MISSING) <==> PassesChecks(s, kb, v, to, at) && Decided(to) && raw.MissingRecord?)
  {
    hide Refusal, Authorize, Usable, Readable, Sane, PassesChecks, FailsGate, MeetsConflict, Authorizes, Decided, EnteredFrom;
    CheckAnswers(s, kb, v, to, at);
    if Refusal(s, kb, v, to, at).None? {
      PassedIsOnEdge(s, kb, v, to, at);
      AuthorizationAnswers(s.entries[kb], kb, v, to, raw);
      ChecksAreNoAuthorization(s.entries[kb], kb, v, to, raw);
    } else {
      ChecksAnswerThemselves(s, kb, v, to, at);
    }
  }

  lemma PassedIsOnEdge(s: Store, kb: KbId, v: nat, to: KbState, at: string)
    requires PassesChecks(s, kb, v, to, at)
    ensures Found(s, kb, v) && s.entries[kb][v - 1].state in EnteredFrom(to)
  {
  }

  lemma ChecksAreNoAuthorization(versions: seq<Version>, kb: KbId, v: nat, to: KbState, raw: AuthInput)
    requires 1 <= v <= |versions|
    ensures var out := Authorize(versions, kb, v, to, raw);
      out.Ok? || out.error in {E_AUTH_MISSING, E_AUTH_INVALID, E_AUTH_DIGEST_MISMATCH, E_AUTH_SELF_APPROVAL}
  {
  }

  lemma ChecksAnswerThemselves(s: Store, kb: KbId, v: nat, to: KbState, at: string)
    requires Refusal(s, kb, v, to, at).Some?
    ensures Refusal(s, kb, v, to, at).value in
      {E_USAGE, E_KB_INTEGRITY, E_KB_NOT_FOUND, E_TRANSITION_DENIED, E_QUALITY_GATE, E_CONFLICT}
  {
    hide UtcText.IsUtcTimestamp, QualityGate, HasOpenConflict, Targets;
  }

  /** The decision an accepted move records. */
  function DecisionOf(to: KbState, raw: AuthInput): Option<Decision> {
    if Decided(to) && raw.Record? then
      Some(Decision(raw.record.authorizationId, raw.record.reviewer, raw.record.decidedAt, raw.record.digest))
    else None
  }

  /** What an accepted move leaves of each version of its entry, fields and event written out. */
  predicate MovedTo(was: Version, now: Version, to: KbState, at: string, d: Option<Decision>) {
    && now.state == to
    && now.history == was.history + [Event(|was.history| + 1, Some(was.state), to, at, d, false)]
    && now.digest == was.digest && now.recDigest == was.recDigest && now.dedupKey == was.dedupKey
    && now.proposers == was.proposers && now.supersedes == was.supersedes && now.supersededBy == was.supersededBy
  }

  predicate RetiredBy(was: Version, now: Version, v: nat, at: string, d: Decision) {
    && now.state == Superseded && now.supersededBy == Some(v)
    && now.history == was.history + [Event(|was.history| + 1, Some(Published), Superseded, at,
                                           Some(Decision(d.authorizationId, d.reviewer, d.decidedAt, was.digest)), true)]
    && now.digest == was.digest && now.recDigest == was.recDigest && now.dedupKey == was.dedupKey
    && now.proposers == was.proposers && now.supersedes == was.supersedes
  }

  /** A move that passes is refused only for the size of the manifest it would leave. */
  lemma PassedMove(x: Texts, s: Store, kb: KbId, v: nat, to: KbState, at: string, raw: AuthInput)
    requires PassesChecks(s, kb, v, to, at) && (Decided(to) ==> Authorizes(s.entries[kb], kb, v, raw))
    ensures HasVersion(s, kb, v) && ArticleIntact(s, kb, v)
    ensures Supersedes(s, kb, v, to) ==> DecisionOf(to, raw).Some?
    ensures var t := MoveStore(s, kb, v, to, at, DecisionOf(to, raw));
      && TransitionOutcome(x, s, kb, v, to, at, raw) ==
         (if x.manifest(t.entries) > 512_000 then Err(E_OUTPUT_TOO_LARGE) else Ok(DecisionOf(to, raw)))
      && TransitionResult(x, s, kb, v, to, at, raw) == (if x.manifest(t.entries) > 512_000 then s else t)
  {
    hide Refusal, Authorize, Decided, EnteredFrom, UtcText.IsUtcTimestamp, MoveStore;
    CheckAnswers(s, kb, v, to, at);
    PassedIsOnEdge(s, kb, v, to, at);
    AuthorizationAnswers(s.entries[kb], kb, v, to, raw);
    PublishingIsDecided(s, kb, v, to, at, raw);
  }

  lemma Passed(x: Texts, s: Store, kb: KbId, v: nat, to: KbState, at: string, raw: AuthInput)
    requires TransitionOutcome(x, s, kb, v, to, at, raw).Ok?
    ensures PassesChecks(s, kb, v, to, at) && (Decided(to) ==> Authorizes(s.entries[kb], kb, v, raw))
  {
    hide PassesChecks, Authorizes, Decided, TransitionOutcome;
    TransitionAnswers(x, s, kb, v, to, at, raw);
  }

  /** After an accepted move: the version has moved, every other version that was published or due is superseded if the
      move publishes an article that supersedes its entry, and nothing else has changed. */
  lemma MoveLeaves(x: Texts, s: Store, kb: KbId, v: nat, to: KbState, at: string, raw: AuthInput, w: nat)
    requires TransitionOutcome(x, s, kb, v, to, at, raw).Ok?
    ensures Found(s, kb, v) && Sane(s, kb, v)
    ensures var t := TransitionResult(x, s, kb, v, to, at, raw);
      && t.articles == s.articles && t.pages == s.pages && t.entries.Keys == s.entries.Keys
      && (forall k <- s.entries :: k != kb ==> t.entries[k] == s.entries[k])
      && |t.entries[kb]| == |s.entries[kb]|
      && MovedTo(s.entries[kb][v - 1], t.entries[kb][v - 1], to, at, DecisionOf(to, raw))
    ensures 1 <= w <= |s.entries[kb]| && w != v ==>
      var was, now := s.entries[kb][w - 1], TransitionResult(x, s, kb, v, to, at, raw).entries[kb][w - 1];
      if to == Published && s.articles[(kb, v)].content.body.supersedes == Some(kb) && (was.state == Published || was.state == ReviewDue)
      then DecisionOf(to, raw).Some? && RetiredBy(was, now, v, at, DecisionOf(to, raw).value)
      else now == was
  {
    hide TransitionOutcome, TransitionResult, DecisionOf, PassesChecks, Authorizes, After;
    Passed(x, s, kb, v, to, at, raw);
    PassedMove(x, s, kb, v, to, at, raw);
    assert Found(s, kb, v) && Sane(s, kb, v);
    Shape(s.entries[kb], v, to, at, DecisionOf(to, raw), Supersedes(s, kb, v, to), v - 1);
    if 1 <= w <= |s.entries[kb]| {
      Shape(s.entries[kb], v, to, at, DecisionOf(to, raw), Supersedes(s, kb, v, to), w - 1);
    }
  }

  lemma RefusedMoveLeaves(x: Texts, s: Store, kb: KbId, v: nat, to: KbState, at: string, raw: AuthInput)
    requires TransitionOutcome(x, s, kb, v, to, at, raw).Err?
    ensures TransitionResult(x, s, kb, v, to, at, raw) == s
  {
  }

  // ---- adding ----

  predicate Acceptable(c: KbCandidate) {
    c.schemaOk && c.contentDigest == c.content && (c.lifecycle == Candidate || c.lifecycle == Draft)
  }

  /** A stored version that says the same under the same key. */
  ghost predicate Repeated(s: Store, c: Content) {
    exists k, i :: k in s.entries && 0 <= i < |s.entries[k]| && SaysTheSame(c, s.entries[k][i])
  }

  predicate SaysTheSame(c: Content, r: Version) {
    r.state != Retired && r.state != Rejected && r.dedupKey == c.dedupKey && SameWords(c, r.recDigest)
  }

  /** A stored version under the same key that the candidate does not supersede. */
  ghost predicate Opposed(s: Store, c: Content) {
    exists k, i :: k in s.entries && 0 <= i < |s.entries[k]| && SaysOtherwise(c, k, s.entries[k][i])
  }

  predicate SaysOtherwise(c: Content, k: KbId, r: Version) {
    r.state != Retired && r.state != Rejected && r.dedupKey == c.dedupKey && !SameWords(c, r.recDigest) && c.body.supersedes != Some(k)
  }

  lemma ReviewOfStore(s: Store, c: Content)
    ensures VerdictOf(c, RowsOf(s)) == Duplicate <==> Repeated(s, c)
    ensures VerdictOf(c, RowsOf(s)) == Conflict <==> !Repeated(s, c) && Opposed(s, c)
  {
    hide VerdictOf;
    VerdictByFields(c, RowsOf(s));
    if Repeated(s, c) {
      var k, i :| k in s.entries && 0 <= i < |s.entries[k]| && SaysTheSame(c, s.entries[k][i]);
      assert RowOf(k, i + 1, s.entries[k][i]) in RowsOf(s);
    }
    if Opposed(s, c) {
      var k, i :| k in s.entries && 0 <= i < |s.entries[k]| && SaysOtherwise(c, k, s.entries[k][i]);
      assert RowOf(k, i + 1, s.entries[k][i]) in RowsOf(s);
    }
  }

  function VersionNumber(s: Store, kb: KbId): nat {
    if kb in s.entries then |s.entries[kb]| + 1 else 1
  }

  ghost predicate Reviewed(s: Store, c: KbCandidate) {
    Acceptable(c) && Readable(s) && !Repeated(s, c.content)
  }

  /** Superseding, if anything, its own entry, and with room for the entry. */
  predicate Fits(s: Store, c: KbCandidate) {
    var kb := c.content.kbId;
    && (c.content.body.supersedes == None || c.content.body.supersedes == Some(kb))
    && (kb in s.entries || |s.entries| < 2000)
  }

  /** The article file can be written: it is not too large and not there. */
  predicate ArticleWritable(x: Texts, s: Store, c: KbCandidate, at: string) {
    var kb, v := c.content.kbId, VersionNumber(s, c.content.kbId);
    x.json(Article(c.content, v), at) <= 512_000 && (kb, v) !in s.articles
  }

  /** The same for its page, which must also have all it shows. */
  predicate PageWritable(x: Texts, s: Store, c: KbCandidate) {
    var kb, v := c.content.kbId, VersionNumber(s, c.content.kbId);
    var page := x.page(Article(c.content, v));
    page.Some? && page.value <= 512_000 && (kb, v) !in s.pages
  }

  /** The answers to a candidate, each with its exact condition. */
  lemma AddAnswers(x: Texts, s: Store, c: KbCandidate, at: string)
    ensures var out, kb := AddOutcomeOf(x, s, c, at), c.content.kbId;
      var v := VersionNumber(s, kb);
      && (out == AddFailed(E_INPUT_INVALID) <==>
            || !c.schemaOk || c.contentDigest != c.content
            || (Reviewed(s, c) && c.content.body.supersedes.Some? && c.content.body.supersedes.value != kb))
      && (out == AddFailed(E_QUALITY_GATE) <==>
            c.schemaOk && c.contentDigest == c.content && c.lifecycle != Candidate && c.lifecycle != Draft)
      && (out == DuplicateNotAdded <==> Acceptable(c) && Readable(s) && Repeated(s, c.content))
      && (out == AddFailed(E_KB_INTEGRITY) <==>
            || (Acceptable(c) && !Readable(s))
            || (Reviewed(s, c) && (c.content.body.supersedes in {None, Some(kb)}) && kb !in s.entries && |s.entries| == 2000))
      && (out == AddFailed(E_OUTPUT_EXISTS) <==>
            && Reviewed(s, c) && Fits(s, c) && x.json(Article(c.content, v), at) <= 512_000
            && ((kb, v) in s.articles ||
                (x.page(Article(c.content, v)).Some? && x.page(Article(c.content, v)).value <= 512_000 && (kb, v) in s.pages)))
      && (out == AddFailed(E_UNCAUGHT) <==>
            && Reviewed(s, c) && Fits(s, c) && ArticleWritable(x, s, c, at)
            && (x.page(Article(c.content, v)) == None || (PageWritable(x, s, c) && !x.recordable(Article(c.content, v)))))
      && (out == AddFailed(E_OUTPUT_TOO_LARGE) <==>
            && Reviewed(s, c) && Fits(s, c)
            && (|| x.json(Article(c.content, v), at) > 512_000
                || (ArticleWritable(x, s, c, at) && x.page(Article(c.content, v)).Some? && x.page(Article(c.content, v)).value > 512_000)
                || (ArticleWritable(x, s, c, at) && PageWritable(x, s, c) && x.recordable(Article(c.content, v))
                    && x.manifest(Insert(s, c, at).entries) > 512_000)))
      && (out.Added? <==>
            && Reviewed(s, c) && Fits(s, c) && ArticleWritable(x, s, c, at) && PageWritable(x, s, c)
            && x.recordable(Article(c.content, v)) && x.manifest(Insert(s, c, at).entries) <= 512_000)
      && (out.Added? ==> out.version == v && (out.conflictOpen <==> Opposed(s, c.content)))
  {
    hide VerdictOf, RowsOf, Repeated, Opposed, Insert;
    ReviewOfStore(s, c.content);
    assert VersionNumber(s, c.content.kbId) == NextVersion(s, c.content.kbId);
  }

  /** What a successful add puts into the store, field by field. */
  lemma AddLeaves(x: Texts, s: Store, c: KbCandidate, at: string)
    requires AddOutcomeOf(x, s, c, at).Added?
    ensures var t, kb := AddResult(x, s, c, at), c.content.kbId;
      var v, before := VersionNumber(s, kb), if kb in s.entries then s.entries[kb] else [];
      && t.entries.Keys == s.entries.Keys + {kb} && (forall k <- s.entries :: k != kb ==> t.entries[k] == s.entries[k])
      && t.entries[kb] == before + [Version(
           c.lifecycle, ContentDigest(Article(c.content, v)), RecDigest(c.content.body.cause, c.content.body.recommendations),
           c.content.dedupKey, c.content.proposers, c.content.body.supersedes, None,
           [Event(1, None, c.lifecycle, at, None, false)])]
      && t.articles == s.articles[(kb, v) := Article(c.content, v)] && t.pages == s.pages + {(kb, v)}
  {
    hide LateFailure, PageFailure, RowsOf, VerdictOf, Loadable;
  }

  lemma Tried(x: Texts, s: Store, c: KbCandidate, at: string)
    ensures AddRefusal(x, s, c, at).None? <==> Reviewed(s, c) && Fits(s, c) && ArticleWritable(x, s, c, at)
    ensures PageFailure(x, s, c).None? <==> PageWritable(x, s, c)
  {
    hide VerdictOf, RowsOf, Repeated, Opposed, Insert;
    ReviewOfStore(s, c.content);
    assert VersionNumber(s, c.content.kbId) == NextVersion(s, c.content.kbId);
  }

  /** What any other add leaves: the manifest as it was, and the files it had come to write. */
  lemma FailedAddLeaves(x: Texts, s: Store, c: KbCandidate, at: string)
    requires !AddOutcomeOf(x, s, c, at).Added?
    ensures var t, kb := AddResult(x, s, c, at), c.content.kbId;
      var v, tried := VersionNumber(s, kb), Reviewed(s, c) && Fits(s, c) && ArticleWritable(x, s, c, at);
      && t.entries == s.entries
      && t.articles == (if tried then s.articles[(kb, v) := Article(c.content, v)] else s.articles)
      && t.pages == (if tried && PageWritable(x, s, c) then s.pages + {(kb, v)} else s.pages)
  {
    hide AddRefusal, PageFailure, SaveFailure, Reviewed, Fits, ArticleWritable, PageWritable;
    Tried(x, s, c, at);
    assert VersionNumber(s, c.content.kbId) == NextVersion(s, c.content.kbId);
  }
}
