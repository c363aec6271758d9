/** A run that ends in a supersession event which names the wrong previous state and stands out of
    order of time: version 1 is published and comes due, then version 2 replaces it. */
module KbSuperseded {
  import opened KbModel
  import opened KbStore
  import opened KbRecords
  import opened KbEpisodes
  import TextOrder
  import UtcText
  import opened Options

  /** Version 2 supersedes version 1 with other recommendations, on a decision that is earlier as text. */
  ghost predicate Succession(p: Plan) {
    && Planned(p) && |p.versions| == 2
    && p.versions[0].content.body.supersedes == None
    && p.versions[1].content.body.supersedes == Some(p.kb)
    && TextOrder.Less(p.versions[1].decided, p.versions[0].decided)
  }

  /** Publish version 1, let it come due, have version 2 approved. */
  function BeforeSuccession(p: Plan): seq<Step>
    requires |p.versions| == 2
  {
    Publishing(p, 1, "A", "B", "C") + [Moving(p, 1, ReviewDue, "D")] + Approving(p, 2, "E", "F")
  }

  function SuccessionRun(p: Plan): seq<Step>
    requires |p.versions| == 2
  {
    BeforeSuccession(p) + [Moving(p, 2, Published, "G")]
  }

  lemma Due(x: Texts, p: Plan)
    requires Roomy(x) && Succession(p)
    ensures Holds(p, Run(x, Publishing(p, 1, "A", "B", "C") + [Moving(p, 1, ReviewDue, "D")]), [ReviewDue],
                  {"A", "B", "C", "D"})
  {
    hide Run, Planned, Roomy, Publishing, Holds;
    NothingYet(x, p);
    Publishes(x, p, [], "A", "B", "C", [], {});
    assert [] + Publishing(p, 1, "A", "B", "C") == Publishing(p, 1, "A", "B", "C");
    assert [] + [Published] == [Published] && {} + {"A"} + {"B"} + {"C"} == {"A", "B", "C"};
    NextMove(x, p, Publishing(p, 1, "A", "B", "C"), 1, ReviewDue, "D", [Published], {"A", "B", "C"});
    assert [Published][0 := ReviewDue] == [ReviewDue] && {"A", "B", "C"} + {"D"} == {"A", "B", "C", "D"};
  }

  lemma Ready(x: Texts, p: Plan)
    requires Roomy(x) && Succession(p)
    ensures Holds(p, Run(x, BeforeSuccession(p)), [ReviewDue, ApprovedByHuman], {"A", "B", "C", "D", "E", "F"})
  {
    hide Run, Planned, Roomy, Publishing, Holds, Approving;
    Due(x, p);
    Approves(x, p, Publishing(p, 1, "A", "B", "C") + [Moving(p, 1, ReviewDue, "D")], "E", "F", [ReviewDue], {"A", "B", "C", "D"});
    assert [ReviewDue] + [ApprovedByHuman] == [ReviewDue, ApprovedByHuman];
    assert {"A", "B", "C", "D"} + {"E"} + {"F"} == {"A", "B", "C", "D", "E", "F"};
  }

  /** The history of version 1 after the run. */
  ghost function Superseded1(x: Texts, p: Plan): seq<Event>
    requires |p.versions| == 2
  {
    var versions := VersionsOf(Run(x, SuccessionRun(p)), p.kb);
    if versions == [] then [] else versions[0].history
  }

  lemma EndsWithRetreat(x: Texts, p: Plan) returns (r: Version, d: Decision)
    requires Roomy(x) && Succession(p)
    ensures HasVersion(Run(x, BeforeSuccession(p)), p.kb, 1) && r == Run(x, BeforeSuccession(p)).entries[p.kb][0]
    ensures Filed(p, r, 1, ReviewDue, {"A", "B", "C", "D", "E", "F"})
    ensures d.decidedAt == p.versions[1].decided
    ensures Superseded1(x, p) == Retreat(r, 2, p.now, d).history
  {
    hide Run, Planned, Roomy, TransitionResult, BeforeSuccession;
    Ready(x, p);
    var ids, states := {"A", "B", "C", "D", "E", "F"}, [ReviewDue, ApprovedByHuman];
    var s := Run(x, BeforeSuccession(p));
    assert VersionHolds(p, s, 0, states[0], ids);
    r := s.entries[p.kb][0];
    RunSnoc(x, BeforeSuccession(p), Moving(p, 2, Published, "G"));
    var decision := Accepts(x, p, s, 2, Published, "G", states, ids);
    d := decision.value;
    Shape(s.entries[p.kb], 2, Published, p.now, decision, true, 0);
  }

  lemma DueWasPublished(r: Version, c: Content)
    requires RecordOk(r, c) && r.state == ReviewDue
    ensures var n := |r.history| - 2;
      n >= 0 && r.history[n].to == Published && r.history[n].decision.Some? && r.history[n] in r.history
  {
    assert Follows(r.history[|r.history| - 2], r.history[|r.history| - 1]);
    assert Follows(r.history[|r.history| - 3], r.history[|r.history| - 2]);
  }

  /** After nine accepted calls the last event of version 1 says it came from Published, though the event before
      it led to ReviewDue, and the decisions of the history are not in order. */
  lemma WrongOriginOutOfOrder(x: Texts, p: Plan)
    requires Roomy(x) && Succession(p)
    ensures var h := Superseded1(x, p);
      && |h| >= 2 && h[|h| - 1].to == Superseded
      && h[|h| - 1].from == Some(Published) && h[|h| - 2].to == ReviewDue
      && !AllDecisionsInOrder(h)
  {
    hide Run, Planned, Roomy, BeforeSuccession, Superseded1, RecordOk, AllDecisionsInOrder;
    var r, d := EndsWithRetreat(x, p);
    EveryRunKeepsRecords(x, BeforeSuccession(p));
    assert VersionOk(Run(x, BeforeSuccession(p)), p.kb, 1);
    var c := Run(x, BeforeSuccession(p)).articles[(p.kb, 1)].content;
    DueWasPublished(r, c);
    SupersessionFrom(r, c, 2, p.now, d);
    LateDecision(r, c, p.now, d, p.versions[0].decided);
  }

  lemma LateDecision(r: Version, c: Content, at: string, d: Decision, time: string)
    requires RecordOk(r, c) && r.state == ReviewDue && TextOrder.Less(d.decidedAt, time)
    requires forall e <- r.history :: e.decision.Some? ==> e.decision.value.decidedAt == time
    ensures !AllDecisionsInOrder(Retreat(r, 2, at, d).history)
    ensures var h := Retreat(r, 2, at, d).history; h[|h| - 2].to == ReviewDue
  {
    DueWasPublished(r, c);
    var h, n := Retreat(r, 2, at, d).history, |r.history|;
    assert h[n - 2] == r.history[n - 2] && h[n].decision.Some?;
  }

  /** And there is such a succession, its second decision earlier in time as well. */
  lemma SuccessionExists() returns (p: Plan)
    ensures Succession(p)
    ensures forall w <- p.versions :: UtcText.IsUtcTimestamp(w.decided)
    ensures UtcText.Instant(p.versions[1].decided) < UtcText.Instant(p.versions[0].decided)
  {
    hide UtcText.IsUtcTimestamp, UtcText.NewYear, UtcText.Instant, Planned, Fit;
    var kb, now := KeyId(PLAIN), UtcText.NewYear(".5Z");
    var first, second := Sample(kb, PLAIN, "x", None), Sample(kb, PLAIN, "y", Some(kb));
    p := Plan(kb, [Planning(first, now), Planning(second, UtcText.NewYear("+00:00"))], now, "reviewer");
    UtcText.EarlierSortsFirst();
    SampleFits(kb, PLAIN, "x", None, p);
    SampleFits(kb, PLAIN, "y", Some(kb), p);
    assert "x"[0] != "y"[0];
    PairPlanned(p);
  }
}
