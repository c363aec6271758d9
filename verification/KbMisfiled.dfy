/** Why the entry id must be the id of the key: `add_candidate` does not check it, so a candidate
    filed under another key's entry can end up current next to a version that says the same thing. */
module KbMisfiled {
  import opened KbModel
  import opened KbStore
  import opened KbRecords
  import opened KbUnique
  import opened KbEpisodes
  import UtcText
  import opened Options

  /** Two versions of one entry that say the same thing under keys of different families. */
  ghost predicate Misfiled(p: Plan) {
    && Planned(p) && |p.versions| == 2
    && RecommendationDigest(p.versions[0].content.body) == RecommendationDigest(p.versions[1].content.body)
    && p.versions[0].content.body.supersedes == None && p.versions[1].content.body.supersedes == None
  }

  function MisfiledRun(p: Plan): seq<Step>
    requires |p.versions| == 2
  {
    Publishing(p, 1, "A", "B", "C") + Publishing(p, 2, "D", "E", "F")
  }

  /** For every such pair, a run of eight calls, all accepted, ends with both versions published. */
  lemma BothCurrent(x: Texts, p: Plan)
    requires Roomy(x) && Misfiled(p)
    ensures var s := Run(x, MisfiledRun(p));
      p.kb in s.entries && !OneCurrent(s.entries[p.kb])
  {
    hide Run, Planned, Roomy, Publishing;
    NothingYet(x, p);
    Publishes(x, p, [], "A", "B", "C", [], {});
    assert [] + Publishing(p, 1, "A", "B", "C") == Publishing(p, 1, "A", "B", "C");
    assert [] + [Published] == [Published];
    Publishes(x, p, Publishing(p, 1, "A", "B", "C"), "D", "E", "F", [Published], {} + {"A"} + {"B"} + {"C"});
    EndsCurrent(p, Run(x, MisfiledRun(p)), {} + {"A"} + {"B"} + {"C"} + {"D"} + {"E"} + {"F"});
  }

  lemma EndsCurrent(p: Plan, s: Store, ids: set<string>)
    requires Holds(p, s, [Published] + [Published], ids)
    ensures p.kb in s.entries && !OneCurrent(s.entries[p.kb])
  {
    var versions := VersionsOf(s, p.kb);
    var states := [Published] + [Published];
    assert VersionHolds(p, s, 0, states[0], ids) && VersionHolds(p, s, 1, states[1], ids);
    assert Current(versions[0].state) && Current(versions[1].state);
  }

  /** And there is such a pair. */
  lemma MisfiledExists() returns (p: Plan)
    ensures Misfiled(p)
  {
    hide UtcText.IsUtcTimestamp, UtcText.NewYear, Planned, Fit;
    var kb, now := KeyId(PLAIN), UtcText.NewYear("Z");
    var first, second := Sample(kb, PLAIN, "x", None), Sample(kb, PLAIN.(family := "OTHER"), "x", None);
    p := Plan(kb, [Planning(first, now), Planning(second, now)], now, "reviewer");
    UtcText.NewYearInstant("", true);
    SampleFits(kb, PLAIN, "x", None, p);
    SampleFits(kb, PLAIN.(family := "OTHER"), "x", None, p);
    assert "OTHER"[0] != "FAMILY"[0];
    PairPlanned(p);
  }
}
