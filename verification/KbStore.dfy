/** The knowledge-base store: adding a candidate and moving a version through its lifecycle.
    `AddResult` and `TransitionResult` say what one call does to the whole store; the class
    does it in place. */
module KbStore {
  import opened KbModel
  import opened KbReview
  import TextOrder
  import UtcText
  import opened Options

  // ---- adding a candidate ----

  datatype AddOutcome = Added(version: nat, conflictOpen: bool) | DuplicateNotAdded | AddFailed(error: ErrorCode)

  /** What stops an add before it writes anything. */
  ghost function AddRefusal(x: Texts, s: Store, c: KbCandidate, at: string): Option<AddOutcome> {
    var kb := c.content.kbId;
    var v := NextVersion(s, kb);
    if !c.schemaOk || c.contentDigest != c.content then Some(AddFailed(E_INPUT_INVALID))
    else if c.lifecycle != Candidate && c.lifecycle != Draft then Some(AddFailed(E_QUALITY_GATE))
    else if !Loadable(s) then Some(AddFailed(E_KB_INTEGRITY))
    else if VerdictOf(c.content, RowsOf(s)) == Duplicate then Some(DuplicateNotAdded)
    else if c.content.body.supersedes != None && c.content.body.supersedes != Some(kb) then Some(AddFailed(E_INPUT_INVALID))
    else if kb !in s.entries && |s.entries| == MAX_ENTRIES then Some(AddFailed(E_KB_INTEGRITY))
    else if x.json(Article(c.content, v), at) > MAX_OUTPUT_BYTES then Some(AddFailed(E_OUTPUT_TOO_LARGE))
    else if (kb, v) in s.articles then Some(AddFailed(E_OUTPUT_EXISTS))
    else None
  }

  /** Why the page of an article is not written. */
  function PageError(x: Texts, art: Article, there: bool): Option<ErrorCode> {
    if x.page(art).None? then Some(E_UNCAUGHT)
    else if x.page(art).value > MAX_OUTPUT_BYTES then Some(E_OUTPUT_TOO_LARGE)
    else if there then Some(E_OUTPUT_EXISTS)
    else None
  }

  /** What stops an add between its article file and its page. */
  function PageFailure(x: Texts, s: Store, c: KbCandidate): Option<ErrorCode> {
    var kb, v := c.content.kbId, NextVersion(s, c.content.kbId);
    PageError(x, Article(c.content, v), (kb, v) in s.pages)
  }

  /** What stops an add after both files, when it records the version and saves the manifest. */
  function SaveFailure(x: Texts, s: Store, c: KbCandidate, at: string): Option<ErrorCode> {
    if !x.recordable(Article(c.content, NextVersion(s, c.content.kbId))) then Some(E_UNCAUGHT)
    else if x.manifest(Insert(s, c, at).entries) > MAX_OUTPUT_BYTES then Some(E_OUTPUT_TOO_LARGE)
    else None
  }

  /** An add that has written its article and then fails. */
  function LateFailure(x: Texts, s: Store, c: KbCandidate, at: string): Option<ErrorCode> {
    if PageFailure(x, s, c).Some? then PageFailure(x, s, c) else SaveFailure(x, s, c, at)
  }

  ghost function AddOutcomeOf(x: Texts, s: Store, c: KbCandidate, at: string): AddOutcome {
    if AddRefusal(x, s, c, at).Some? then AddRefusal(x, s, c, at).value
    else if LateFailure(x, s, c, at).Some? then AddFailed(LateFailure(x, s, c, at).value)
    else Added(NextVersion(s, c.content.kbId), VerdictOf(c.content, RowsOf(s)) == Conflict)
  }

  function VersionsOf(s: Store, kb: KbId): seq<Version> {
    if kb in s.entries then s.entries[kb] else []
  }

  function NextVersion(s: Store, kb: KbId): nat {
    |VersionsOf(s, kb)| + 1
  }

  function FirstEvent(c: KbCandidate, at: string): Event {
    Event(1, None, c.lifecycle, at, None, false)
  }

  function NewVersion(c: KbCandidate, v: nat, at: string): Version {
    Version(c.lifecycle, ContentDigest(Article(c.content, v)), RecommendationDigest(c.content.body),
            c.content.dedupKey, c.content.proposers, c.content.body.supersedes, None, [FirstEvent(c, at)])
  }

  function Insert(s: Store, c: KbCandidate, at: string): Store {
    var kb := c.content.kbId;
    var v := NextVersion(s, kb);
    Store(s.entries[kb := VersionsOf(s, kb) + [NewVersion(c, v, at)]],
          s.articles[(kb, v) := Article(c.content, v)], s.pages + {(kb, v)})
  }

  /** The files of a version the manifest does not know. */
  function LeaveFiles(s: Store, c: KbCandidate, page: bool): Store {
    var kb := c.content.kbId;
    var v := NextVersion(s, kb);
    s.(articles := s.articles[(kb, v) := Article(c.content, v)], pages := s.pages + if page then {(kb, v)} else {})
  }

  ghost function AddResult(x: Texts, s: Store, c: KbCandidate, at: string): Store {
    if AddRefusal(x, s, c, at).Some? then s
    else if LateFailure(x, s, c, at).Some? then LeaveFiles(s, c, PageFailure(x, s, c).None?)
    else Insert(s, c, at)
  }

  // ---- lifecycle transitions ----

  /** `load_article`: present, with the digest the manifest recorded, under its own id and version. */
  predicate ArticleIntact(s: Store, kb: KbId, v: nat)
    requires HasVersion(s, kb, v)
  {
    && (kb, v) in s.articles
    && ContentDigest(s.articles[(kb, v)]) == s.entries[kb][v - 1].digest
    && s.articles[(kb, v)].content.kbId == kb
    && s.articles[(kb, v)].version == v
  }

  predicate OpenConflict(versions: seq<Version>, v: nat, i: nat, kb: KbId, body: ArticleBody)
    requires i < |versions|
  {
    && i != v - 1
    && Open(versions[i].state)
    && versions[i].recDigest != RecommendationDigest(body)
    && body.supersedes != Some(kb)
  }

  ghost predicate AuthorizationUsed(versions: seq<Version>, id: string) {
    exists i, k :: 0 <= i < |versions| && 0 <= k < |versions[i].history| && UsesId(versions[i].history[k], id)
  }

  predicate UsesId(e: Event, id: string) {
    e.decision.Some? && e.decision.value.authorizationId == id
  }

  /** No decision already in this history has a later text. */
  predicate InOrder(history: seq<Event>, at: string) {
    forall e <- history :: e.decision.Some? ==> !TextOrder.Less(at, e.decision.value.decidedAt)
  }

  /** The authorization part of a transition: nothing when no human decision is needed. */
  ghost function Authorize(versions: seq<Version>, kb: KbId, v: nat, to: KbState, raw: AuthInput): Result<Option<Decision>>
    requires 1 <= v <= |versions|
  {
    var r := versions[v - 1];
    if !HumanDecision(r.state, to) then Ok(None)
    else
      var d := VerifyAuthorization(raw, kb, r.digest, v, r.proposers);
      if d.Err? then Err(d.error)
      else if AuthorizationUsed(versions, d.value.authorizationId) then Err(E_AUTH_INVALID)
      else if !InOrder(r.history, d.value.decidedAt) then Err(E_AUTH_INVALID)
      else Ok(Some(d.value))
  }

  /** Everything a transition checks before it looks at the authorization. */
  ghost function Refusal(s: Store, kb: KbId, v: nat, to: KbState, at: string): (r: Option<ErrorCode>)
    ensures r.None? ==> HasVersion(s, kb, v) && ArticleIntact(s, kb, v)
  {
    if !(1 <= v <= MAX_VERSION) || !UtcText.IsUtcTimestamp(at) then Some(E_USAGE)
    else if !Loadable(s) then Some(E_KB_INTEGRITY)
    else if !HasVersion(s, kb, v) then Some(E_KB_NOT_FOUND)
    else if !ArticleIntact(s, kb, v) then Some(E_KB_INTEGRITY)
    else if to !in Targets(s.entries[kb][v - 1].state) then Some(E_TRANSITION_DENIED)
    else if Gated(to) && !QualityGate(s.articles[(kb, v)].content) then Some(E_QUALITY_GATE)
    else if Gated(to) && HasOpenConflict(s.entries[kb], v, kb, s.articles[(kb, v)].content.body) then Some(E_CONFLICT)
    else None
  }

  ghost predicate HasOpenConflict(versions: seq<Version>, v: nat, kb: KbId, body: ArticleBody) {
    exists i: nat :: i < |versions| && OpenConflict(versions, v, i, kb, body)
  }

  ghost function Check(s: Store, kb: KbId, v: nat, to: KbState, at: string, raw: AuthInput): Result<Option<Decision>> {
    var refusal := Refusal(s, kb, v, to, at);
    if refusal.Some? then Err(refusal.value) else Authorize(s.entries[kb], kb, v, to, raw)
  }

  function Moved(r: Version, to: KbState, at: string, d: Option<Decision>): Version {
    r.(state := to, history := r.history + [Event(|r.history| + 1, Some(r.state), to, at, d, false)])
  }

  /** The event a newer publication writes always says it came from Published. */
  function Retreat(r: Version, v: nat, at: string, d: Decision): Version {
    r.(state := Superseded, supersededBy := Some(v),
       history := r.history + [Event(|r.history| + 1, Some(Published), Superseded, at, Some(d.(digest := r.digest)), true)])
  }

  /** Publishing version `v` as a successor retires every other current version of the entry. */
  function RetreatOthers(versions: seq<Version>, v: nat, at: string, d: Decision): seq<Version> {
    seq(|versions|, i requires 0 <= i < |versions| => RetreatOther(versions[i], i, v, at, d))
  }

  function RetreatOther(r: Version, i: nat, v: nat, at: string, d: Decision): Version {
    if i != v - 1 && Current(r.state) then Retreat(r, v, at, d) else r
  }

  function After(versions: seq<Version>, v: nat, to: KbState, at: string, d: Option<Decision>, supersede: bool): (r: seq<Version>)
    requires 1 <= v <= |versions|
    requires supersede ==> d.Some?
  {
    var moved := versions[v - 1 := Moved(versions[v - 1], to, at, d)];
    if supersede then RetreatOthers(moved, v, at, d.value) else moved
  }

  /** The store once a transition with this decision is accepted. */
  function MoveStore(s: Store, kb: KbId, v: nat, to: KbState, at: string, d: Option<Decision>): Store
    requires HasVersion(s, kb, v) && ArticleIntact(s, kb, v)
    requires Supersedes(s, kb, v, to) ==> d.Some?
  {
    s.(entries := s.entries[kb := After(s.entries[kb], v, to, at, d, Supersedes(s, kb, v, to))])
  }

  /** The checks, and then the size of the manifest to be saved. */
  ghost function TransitionOutcome(x: Texts, s: Store, kb: KbId, v: nat, to: KbState, at: string, raw: AuthInput): Result<Option<Decision>> {
    var c := Check(s, kb, v, to, at, raw);
    if c.Ok? && x.manifest(MoveStore(s, kb, v, to, at, c.value).entries) > MAX_OUTPUT_BYTES then Err(E_OUTPUT_TOO_LARGE) else c
  }

  ghost function TransitionResult(x: Texts, s: Store, kb: KbId, v: nat, to: KbState, at: string, raw: AuthInput): Store {
    var c := TransitionOutcome(x, s, kb, v, to, at, raw);
    if c.Err? then s else MoveStore(s, kb, v, to, at, c.value)
  }

  /** Both edges into Published need a decision. */
  lemma PublishingIsDecided(s: Store, kb: KbId, v: nat, to: KbState, at: string, raw: AuthInput)
    requires Check(s, kb, v, to, at, raw).Ok?
    ensures HasVersion(s, kb, v) && ArticleIntact(s, kb, v)
    ensures to == Published ==> Check(s, kb, v, to, at, raw).value.Some?
  {
    hide AuthorizationUsed, HasOpenConflict, QualityGate, InOrder, Loadable, UtcText.IsUtcTimestamp;
  }

  predicate Supersedes(s: Store, kb: KbId, v: nat, to: KbState)
    requires HasVersion(s, kb, v) && ArticleIntact(s, kb, v)
  {
    to == Published && s.articles[(kb, v)].content.body.supersedes == Some(kb)
  }

  // ---- the store in place ----

  class KbStore {
    const texts: Texts
    var entries: map<KbId, seq<Version>>
    var articles: map<(KbId, nat), Article>
    var pages: set<(KbId, nat)>

    constructor (texts: Texts)
      ensures Contents() == EMPTY && this.texts == texts
    {
      this.texts := texts;
      entries, articles, pages := map[], map[], {};
    }

    function Contents(): Store
      reads this
    {
      Store(entries, articles, pages)
    }

    /** Saves the manifest, unless its text is too large. */
    method SaveManifest(manifest: map<KbId, seq<Version>>) returns (error: Option<ErrorCode>)
      modifies this`entries
      ensures error == if texts.manifest(manifest) > MAX_OUTPUT_BYTES then Some(E_OUTPUT_TOO_LARGE) else None
      ensures entries == if error.None? then manifest else old(entries)
    {
      if texts.manifest(manifest) > MAX_OUTPUT_BYTES {
        return Some(E_OUTPUT_TOO_LARGE);
      }
      entries := manifest;
      error := None;
    }

    method ExistingForReview() returns (rows: seq<Row>)
      ensures Elements(rows) == RowsOf(Contents())
    {
      rows := [];
      var left := entries.Keys;
      while left != {}
        invariant left <= entries.Keys
        invariant forall r :: r in rows <==>
          exists k, i :: k in entries.Keys - left && 0 <= i < |entries[k]| && r == RowOf(k, i + 1, entries[k][i])
        decreases left
      {
        var k :| k in left;
        ghost var seen := rows;
        for i := 0 to |entries[k]|
          invariant forall r :: r in rows <==>
            r in seen || exists j :: 0 <= j < i && r == RowOf(k, j + 1, entries[k][j])
        {
          rows := rows + [RowOf(k, i + 1, entries[k][i])];
        }
        left := left - {k};
      }
    }

    /** The article file, then the page: neither overwrites, and the first is there when the second fails. */
    method WriteFiles(kb: KbId, v: nat, art: Article, at: string) returns (error: Option<ErrorCode>)
      modifies this`articles, this`pages
      ensures texts.json(art, at) > MAX_OUTPUT_BYTES ==> error == Some(E_OUTPUT_TOO_LARGE)
      ensures texts.json(art, at) <= MAX_OUTPUT_BYTES && (kb, v) in old(articles) ==> error == Some(E_OUTPUT_EXISTS)
      ensures var written := texts.json(art, at) <= MAX_OUTPUT_BYTES && (kb, v) !in old(articles);
        && articles == (if written then old(articles)[(kb, v) := art] else old(articles))
        && pages == (if written && error.None? then old(pages) + {(kb, v)} else old(pages))
        && (written ==> error == PageError(texts, art, (kb, v) in old(pages)))
    {
      if texts.json(art, at) > MAX_OUTPUT_BYTES {
        return Some(E_OUTPUT_TOO_LARGE);
      }
      if (kb, v) in articles {
        return Some(E_OUTPUT_EXISTS);
      }
      articles := articles[(kb, v) := art];
      var page := texts.page(art);
      if page.None? {
        return Some(E_UNCAUGHT);
      }
      if page.value > MAX_OUTPUT_BYTES {
        return Some(E_OUTPUT_TOO_LARGE);
      }
      if (kb, v) in pages {
        return Some(E_OUTPUT_EXISTS);
      }
      pages := pages + {(kb, v)};
      error := None;
    }

    method AddCandidate(c: KbCandidate, at: string) returns (outcome: AddOutcome)
      modifies this
      ensures outcome == AddOutcomeOf(texts, old(Contents()), c, at)
      ensures Contents() == AddResult(texts, old(Contents()), c, at)
    {
      if !c.schemaOk || c.contentDigest != c.content {
        return AddFailed(E_INPUT_INVALID);
      }
      if c.lifecycle != Candidate && c.lifecycle != Draft {
        return AddFailed(E_QUALITY_GATE);
      }
      if !Loadable(Contents()) {
        return AddFailed(E_KB_INTEGRITY);
      }
      var rows := ExistingForReview();
      var verdict, _ := ReviewDuplicates(c.content, rows);
      if verdict == Duplicate {
        return DuplicateNotAdded;
      }
      var kb := c.content.kbId;
      if c.content.body.supersedes != None && c.content.body.supersedes != Some(kb) {
        return AddFailed(E_INPUT_INVALID);
      }
      var entry := if kb in entries then entries[kb] else [];
      if kb !in entries && |entries| == MAX_ENTRIES {
        return AddFailed(E_KB_INTEGRITY);
      }
      var v := |entry| + 1;
      var art := Article(c.content, v);
      var error := WriteFiles(kb, v, art, at);
      if error.Some? {
        return AddFailed(error.value);
      }
      if !texts.recordable(art) {
        return AddFailed(E_UNCAUGHT);
      }
      error := SaveManifest(entries[kb := entry + [NewVersion(c, v, at)]]);
      if error.Some? {
        return AddFailed(error.value);
      }
      outcome := Added(v, verdict == Conflict);
    }

    /** The versions whose open state and different recommendations block a promotion. */
    method OpenConflicts(kb: KbId, v: nat, body: ArticleBody) returns (out: seq<nat>)
      requires kb in entries
      ensures forall w: nat :: w in out <==> 1 <= w <= |entries[kb]| && OpenConflict(entries[kb], v, w - 1, kb, body)
    {
      out := [];
      for i := 0 to |entries[kb]|
        invariant forall w: nat :: w in out <==> 1 <= w <= i && OpenConflict(entries[kb], v, w - 1, kb, body)
      {
        if OpenConflict(entries[kb], v, i, kb, body) {
          out := out + [i + 1];
        }
      }
    }

    method IsUsed(kb: KbId, id: string) returns (used: bool)
      requires kb in entries
      ensures used == AuthorizationUsed(entries[kb], id)
    {
      used := false;
      for i := 0 to |entries[kb]|
        invariant used <==> AuthorizationUsed(entries[kb][..i], id)
      {
        var h := entries[kb][i].history;
        if exists k | 0 <= k < |h| :: UsesId(h[k], id) {
          used := true;
        }
      }
      assert entries[kb][..|entries[kb]|] == entries[kb];
    }

    method AuthorizeStep(kb: KbId, v: nat, to: KbState, raw: AuthInput) returns (r: Result<Option<Decision>>)
      requires HasVersion(Contents(), kb, v)
      ensures r == Authorize(entries[kb], kb, v, to, raw)
    {
      var rec := entries[kb][v - 1];
      if !HumanDecision(rec.state, to) {
        return Ok(None);
      }
      var d := VerifyAuthorization(raw, kb, rec.digest, v, rec.proposers);
      if d.Err? {
        return Err(d.error);
      }
      var used := IsUsed(kb, d.value.authorizationId);
      if used {
        return Err(E_AUTH_INVALID);
      }
      if !InOrder(rec.history, d.value.decidedAt) {
        return Err(E_AUTH_INVALID);
      }
      r := Ok(Some(d.value));
    }

    method SupersedeOlder(versions: seq<Version>, v: nat, at: string, d: Decision) returns (changed: seq<Version>)
      ensures changed == RetreatOthers(versions, v, at, d)
    {
      changed := versions;
      for i := 0 to |versions|
        invariant |changed| == |versions|
        invariant forall j :: 0 <= j < i ==> changed[j] == RetreatOther(versions[j], j, v, at, d)
        invariant forall j :: i <= j < |versions| ==> changed[j] == versions[j]
      {
        var other := changed[i];
        if i != v - 1 && Current(other.state) {
          changed := changed[i := Retreat(other, v, at, d)];
        }
      }
    }

    method Precheck(kb: KbId, v: nat, to: KbState, at: string) returns (r: Option<ErrorCode>)
      ensures r == Refusal(Contents(), kb, v, to, at)
    {
      if !(1 <= v <= MAX_VERSION) || !UtcText.IsUtcTimestamp(at) {
        return Some(E_USAGE);
      }
      if !Loadable(Contents()) {
        return Some(E_KB_INTEGRITY);
      }
      if !HasVersion(Contents(), kb, v) {
        return Some(E_KB_NOT_FOUND);
      }
      if !ArticleIntact(Contents(), kb, v) {
        return Some(E_KB_INTEGRITY);
      }
      if to !in Targets(entries[kb][v - 1].state) {
        return Some(E_TRANSITION_DENIED);
      }
      if Gated(to) {
        var article := articles[(kb, v)];
        if !QualityGate(article.content) {
          return Some(E_QUALITY_GATE);
        }
        var conflicts := OpenConflicts(kb, v, article.content.body);
        assert forall i: nat | i < |entries[kb]| && OpenConflict(entries[kb], v, i, kb, article.content.body) :: i + 1 in conflicts;
        if conflicts != [] {
          assert conflicts[0] in conflicts;
          return Some(E_CONFLICT);
        }
      }
      r := None;
    }

    method Transition(kb: KbId, v: nat, to: KbState, at: string, raw: AuthInput) returns (r: Result<Option<Decision>>)
      modifies this
      ensures r == TransitionOutcome(texts, old(Contents()), kb, v, to, at, raw)
      ensures Contents() == TransitionResult(texts, old(Contents()), kb, v, to, at, raw)
    {
      hide Refusal, Authorize, RetreatOthers, Moved;
      var refusal := Precheck(kb, v, to, at);
      if refusal.Some? {
        return Err(refusal.value);
      }
      r := AuthorizeStep(kb, v, to, raw);
      if r.Err? {
        return;
      }
      PublishingIsDecided(Contents(), kb, v, to, at, raw);
      var versions := entries[kb][v - 1 := Moved(entries[kb][v - 1], to, at, r.value)];
      if to == Published && articles[(kb, v)].content.body.supersedes == Some(kb) {
        versions := SupersedeOlder(versions, v, at, r.value.value);
      }
      var error := SaveManifest(entries[kb := versions]);
      if error.Some? {
        r := Err(error.value);
      }
    }
  }
}
