/** Duplicate and conflict review of a candidate against the stored versions. */
module KbReview {
  import opened KbModel
  import opened Options

  datatype Row = Row(kbId: KbId, version: nat, state: KbState, dedupKey: DedupKey, recDigest: RecDigest)

  datatype Verdict = New | ScopeDifference | SupersessionProposed | Conflict | Duplicate

  predicate SameFamily(a: DedupKey, b: DedupKey) {
    (a.family, a.ruleId, a.errorCodes) == (b.family, b.ruleId, b.errorCodes)
  }

  predicate SameScope(a: DedupKey, b: DedupKey) {
    (a.oracleVersions, a.releaseUpdate, a.platform, a.architecture, a.licenseDependent)
    == (b.oracleVersions, b.releaseUpdate, b.platform, b.architecture, b.licenseDependent)
  }

  /** Family and scope together are the whole key. */
  lemma SameKey(a: DedupKey, b: DedupKey)
    ensures SameFamily(a, b) && SameScope(a, b) <==> a == b
  {
  }

  predicate Related(c: Content, r: Row) {
    Live(r.state) && SameFamily(r.dedupKey, c.dedupKey)
  }

  predicate Duplicates(c: Content, r: Row) {
    Related(c, r) && SameScope(r.dedupKey, c.dedupKey) && r.recDigest == RecommendationDigest(c.body)
  }

  predicate Replaces(c: Content, r: Row) {
    && Related(c, r) && SameScope(r.dedupKey, c.dedupKey)
    && r.recDigest != RecommendationDigest(c.body) && c.body.supersedes == Some(r.kbId)
  }

  predicate Conflicts(c: Content, r: Row) {
    && Related(c, r) && SameScope(r.dedupKey, c.dedupKey)
    && r.recDigest != RecommendationDigest(c.body) && c.body.supersedes != Some(r.kbId)
  }

  ghost function Elements(rows: seq<Row>): set<Row> {
    set r | r in rows
  }

  /** The decision as a statement about the set of rows: the most severe relation wins. */
  ghost function VerdictOf(c: Content, rows: set<Row>): Verdict {
    if exists r <- rows :: Duplicates(c, r) then Duplicate
    else if exists r <- rows :: Conflicts(c, r) then Conflict
    else if exists r <- rows :: Replaces(c, r) then SupersessionProposed
    else if exists r <- rows :: Related(c, r) then ScopeDifference
    else New
  }

  /** The review loop. Whatever the order of the rows, its verdict is `VerdictOf` their set. */
  method ReviewDuplicates(c: Content, rows: seq<Row>) returns (verdict: Verdict, matched: set<KbId>)
    ensures verdict == VerdictOf(c, Elements(rows))
    ensures matched == set r | r in rows && Related(c, r) :: r.kbId
  {
    verdict, matched := New, {};
    for i := 0 to |rows|
      invariant verdict == VerdictOf(c, Elements(rows[..i]))
      invariant matched == set r | r in rows[..i] && Related(c, r) :: r.kbId
    {
      var e := rows[i];
      assert rows[..i + 1] == rows[..i] + [e];
      assert Elements(rows[..i + 1]) == Elements(rows[..i]) + {e};
      if !Live(e.state) || !SameFamily(e.dedupKey, c.dedupKey) {
        continue;
      }
      matched := matched + {e.kbId};
      if !SameScope(e.dedupKey, c.dedupKey) {
        if verdict == New {
          verdict := ScopeDifference;
        }
      } else if e.recDigest == RecommendationDigest(c.body) {
        verdict := Duplicate;
      } else if c.body.supersedes == Some(e.kbId) {
        if verdict != Duplicate && verdict != Conflict {
          verdict := SupersessionProposed;
        }
      } else if verdict != Duplicate {
        verdict := Conflict;
      }
    }
    assert rows[..|rows|] == rows;
  }

  /** Every stored version, as review sees it. */
  ghost function RowsOf(s: Store): set<Row> {
    set k, i | k in s.entries && 0 <= i < |s.entries[k]| :: RowOf(k, i + 1, s.entries[k][i])
  }

  function RowOf(k: KbId, v: nat, r: Version): Row {
    Row(k, v, r.state, r.dedupKey, r.recDigest)
  }
}
