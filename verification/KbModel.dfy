/** The entities of the knowledge base: lifecycle states, articles, version records,
    authorization records. Hashes are constructors, so equal digests mean equal content. */
module KbModel {
  import opened Options

  datatype Result<+T> = Ok(value: T) | Err(error: ErrorCode)

  /** `E_UNCAUGHT` stands for an exception that is none of the system's own errors. */
  datatype ErrorCode =
    | E_USAGE | E_INPUT_INVALID | E_QUALITY_GATE | E_CONFLICT | E_KB_NOT_FOUND | E_KB_INTEGRITY
    | E_OUTPUT_EXISTS | E_OUTPUT_TOO_LARGE | E_UNCAUGHT | E_TRANSITION_DENIED | E_AUTH_MISSING | E_AUTH_INVALID
    | E_AUTH_DIGEST_MISMATCH | E_AUTH_SELF_APPROVAL

  datatype KbState =
    | Candidate | Draft | PendingHumanReview | ApprovedByHuman | Published
    | Rejected | ReviewDue | Deprecated | Retired | Superseded

  /** The transition table. */
  function Targets(s: KbState): set<KbState> {
    match s
    case Candidate => {Draft, Rejected}
    case Draft => {PendingHumanReview, Rejected}
    case PendingHumanReview => {ApprovedByHuman, Rejected, Draft}
    case ApprovedByHuman => {Published, Rejected}
    case Published => {ReviewDue, Deprecated, Superseded}
    case ReviewDue => {Published, Deprecated, Superseded}
    case Deprecated => {Retired}
    case Superseded => {Retired}
    case Retired => {}
    case Rejected => {}
  }

  /** The edges that need an external authorization record. */
  predicate HumanDecision(from: KbState, to: KbState) {
    (from, to) in {
      (PendingHumanReview, ApprovedByHuman), (ApprovedByHuman, Published), (ReviewDue, Published),
      (Published, Deprecated), (ReviewDue, Deprecated), (Published, Superseded), (ReviewDue, Superseded),
      (Deprecated, Retired), (Superseded, Retired)
    }
  }

  predicate Gated(s: KbState) {
    s in {PendingHumanReview, ApprovedByHuman, Published}
  }

  predicate Open(s: KbState) {
    s in {Candidate, Draft, PendingHumanReview, ApprovedByHuman, Published, ReviewDue}
  }

  /** The states retrieval shows as current guidance. */
  predicate Current(s: KbState) {
    s in {Published, ReviewDue}
  }

  /** Everything but the two states duplicate review skips. */
  predicate Live(s: KbState) {
    s !in {Retired, Rejected}
  }

  datatype DedupKey = DedupKey(
    family: string, ruleId: string, errorCodes: seq<string>,
    oracleVersions: seq<string>, releaseUpdate: string, platform: string,
    architecture: map<string, string>, licenseDependent: bool)

  /** An entry id is a hash of a key; a candidate may still carry the id of another key. */
  datatype KbId = KeyId(material: DedupKey)

  datatype RcaState = RcaConfirmed | RcaNotConfirmed

  datatype Recommendation = Recommendation(action: string, universalSolution: bool, notExecuted: bool)

  datatype RecDigest = RecDigest(cause: string, recommendations: seq<Recommendation>)

  datatype ArticleBody = ArticleBody(
    cause: string, publishableAsFact: bool, rcaState: RcaState, evidenceIds: seq<string>,
    recommendations: seq<Recommendation>, appliesOnlyWithinScope: bool,
    supersedes: Option<KbId>, text: string)

  datatype Content = Content(
    kbId: KbId, dedupKey: DedupKey, proposers: seq<string>, incident: Option<string>, body: ArticleBody)

  /** `schemaOk` says that artifact type and schema version are right: nothing more of the schema is
      checked. `contentDigest` is the digest the candidate carries; the lifecycle state is outside it. */
  datatype KbCandidate = KbCandidate(
    schemaOk: bool, content: Content, lifecycle: KbState, contentDigest: Content)

  datatype Article = Article(content: Content, version: nat)

  datatype Digest = ContentDigest(article: Article) | OtherDigest(hex: string)

  function RecommendationDigest(b: ArticleBody): RecDigest {
    RecDigest(b.cause, b.recommendations)
  }

  /** The gate, evaluated on the immutable article only. */
  predicate QualityGate(c: Content) {
    && c.incident.Some?
    && c.body.evidenceIds != []
    && c.body.rcaState == RcaConfirmed
    && c.body.publishableAsFact
    && c.body.recommendations != []
    && (forall m <- c.body.recommendations :: !m.universalSolution && m.notExecuted)
    && c.body.appliesOnlyWithinScope
  }

  // ---- authorization ----

  datatype ArtifactId = KbArtifact(id: KbId) | OtherArtifact(text: string)

  /** `version` is 0 for a text that is not the decimal of a version number. */
  datatype AuthRecord = AuthRecord(
    authorizationId: string, artifactId: ArtifactId, approved: bool, reviewer: string,
    decidedAt: string, digest: Digest, version: nat)

  datatype AuthInput = MissingRecord | MalformedRecord | Record(record: AuthRecord)

  /** The declaration a verified record leaves in an event. */
  datatype Decision = Decision(authorizationId: string, reviewer: string, decidedAt: string, digest: Digest)

  /** Structural verification: an approval, bound to this artifact, digest and version,
      by somebody who did not propose it. */
  function VerifyAuthorization(raw: AuthInput, id: KbId, digest: Digest, version: nat, proposers: seq<string>)
    : (r: Result<Decision>)
    ensures r.Ok? <==>
      && raw.Record?
      && raw.record.approved
      && raw.record.artifactId == KbArtifact(id)
      && raw.record.digest == digest
      && raw.record.version == version
      && raw.record.reviewer !in proposers
    ensures r.Ok? ==> r.value.digest == digest && r.value.reviewer !in proposers
  {
    match raw
    case MissingRecord => Err(E_AUTH_MISSING)
    case MalformedRecord => Err(E_AUTH_INVALID)
    case Record(a) =>
      if !a.approved then Err(E_AUTH_INVALID)
      else if a.artifactId != KbArtifact(id) || a.digest != digest || a.version != version then Err(E_AUTH_DIGEST_MISMATCH)
      else if a.reviewer in proposers then Err(E_AUTH_SELF_APPROVAL)
      else Ok(Decision(a.authorizationId, a.reviewer, a.decidedAt, a.digest))
  }

  // ---- the manifest ----

  /** `automatic` marks the event that publishing a newer version writes into an older one. */
  datatype Event = Event(
    seqNo: nat, from: Option<KbState>, to: KbState, atUtc: string, decision: Option<Decision>, automatic: bool)

  datatype Version = Version(
    state: KbState, digest: Digest, recDigest: RecDigest, dedupKey: DedupKey,
    proposers: seq<string>, supersedes: Option<KbId>, supersededBy: Option<nat>, history: seq<Event>)

  /** What is on disk. `entries` is the saved manifest, version `v` of an entry being element `v - 1` of its
      sequence; `articles` are the article files and `pages` the rendered files beside them. */
  datatype Store = Store(entries: map<KbId, seq<Version>>, articles: map<(KbId, nat), Article>, pages: set<(KbId, nat)>)

  const EMPTY := Store(map[], map[], {})

  /** The texts the store writes, as far as they decide what happens: the size of an article file, that of
      its page, `None` where a field the page shows is missing, whether the fields the manifest records are
      there, and the size of the manifest. */
  datatype Texts = Texts(
    json: (Article, string) -> nat, page: Article -> Option<nat>, recordable: Article -> bool,
    manifest: map<KbId, seq<Version>> -> nat)

  const MAX_OUTPUT_BYTES := 512_000

  const MAX_ENTRIES := 2000
  const MAX_VERSION := 9999

  /** What `load_manifest` accepts: bounded entry count, version numbers of at most four digits. */
  predicate Loadable(s: Store) {
    && |s.entries| <= MAX_ENTRIES
    && forall k <- s.entries :: |s.entries[k]| <= MAX_VERSION
  }

  predicate HasVersion(s: Store, kb: KbId, v: nat) {
    kb in s.entries && 1 <= v <= |s.entries[kb]|
  }
}
