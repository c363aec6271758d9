/** The test runner's log, and the independent judge that reads it. */
module RunLog {
  import opened LogText
  import opened Options

  /** What the parser collects from a log. */
  datatype Parsed = Parsed(headers: seq<string>, terminals: seq<(string, bool)>, summary: Option<Summary>, final: Option<bool>, skips: nat)

  const NOTHING := Parsed([], [], None, None, 0)

  function Absorb(p: Parsed, m: Mark): Parsed {
    match m
    case Header(name) => p.(headers := p.headers + [name])
    case Terminal(name, pass) => p.(terminals := p.terminals + [(name, pass)])
    case Totals(s) => p.(summary := Some(s))
    case Final(good) => p.(final := Some(good))
    case Skip => p.(skips := p.skips + 1)
    case Other => p
  }

  function Collected(marks: seq<Mark>): Parsed {
    if marks == [] then NOTHING else Absorb(Collected(marks[..|marks| - 1]), marks[|marks| - 1])
  }

  lemma CollectLine(lines: seq<string>, i: nat)
    requires i < |lines|
    ensures Collected(MarksOf(lines[..i + 1])) == Absorb(Collected(MarksOf(lines[..i])), Classify(lines[i]))
  {
    hide Classify;
    var marks, m := MarksOf(lines[..i]), Classify(lines[i]);
    assert lines[..i + 1][..i] == lines[..i];
    assert (marks + [m])[..|marks|] == marks;
    assert MarksOf(lines[..i + 1]) == if m.Other? then marks else marks + [m];
  }

  /** The line loop of the parser. */
  method Parse(text: string) returns (p: Parsed)
    ensures p == Collected(Marks(text))
  {
    hide Classify;
    var lines := LinesOf(text);
    p := NOTHING;
    for i := 0 to |lines|
      invariant p == Collected(MarksOf(lines[..i]))
    {
      var m := Classify(lines[i]);
      CollectLine(lines, i);
      p := Absorb(p, m);
    }
    assert lines[..|lines|] == lines;
  }

  // ---- what is derived from it ----

  function Names(terminals: seq<(string, bool)>): set<string> {
    if terminals == [] then {} else Names(terminals[..|terminals| - 1]) + {terminals[|terminals| - 1].0}
  }

  /** The results recorded for one script, in order. */
  function Statuses(terminals: seq<(string, bool)>, name: string): seq<bool> {
    if terminals == [] then []
    else
      var t := terminals[|terminals| - 1];
      Statuses(terminals[..|terminals| - 1], name) + if t.0 == name then [t.1] else []
  }

  function Scripts(p: Parsed): set<string> {
    set h | h in p.headers
  }

  function DuplicateHeaders(p: Parsed): set<string> {
    set h | h in p.headers && multiset(p.headers)[h] > 1
  }

  function PassedScripts(p: Parsed): set<string> {
    set s | s in Names(p.terminals) && Statuses(p.terminals, s) == [true]
  }

  function FailedScripts(p: Parsed): set<string> {
    set s | s in Names(p.terminals) && false in Statuses(p.terminals, s)
  }

  function WithoutTerminal(p: Parsed): set<string> {
    Scripts(p) - Names(p.terminals)
  }

  function Orphans(p: Parsed): set<string> {
    Names(p.terminals) - Scripts(p)
  }

  function DuplicateTerminals(p: Parsed): set<string> {
    set s | s in Names(p.terminals) && |Statuses(p.terminals, s)| > 1
  }

  // ---- the judge ----

  datatype Verdict = PASS | FAIL | INCONCLUSIVE

  datatype Reason =
    | Timeout | ExitCodeMissing | LogEmpty | LogTruncated | ScriptsWithoutTerminalLine | LogStructureInconsistent
    | SummaryMismatch
    | TestsOmitted | TestsFailed | ExitCodeNonzero | ExitCodeInconsistent | SkippedTestsPresent

  predicate Mismatch(p: Parsed) {
    p.summary.Some? && p.summary.value != Summary(|PassedScripts(p)|, |Scripts(p)|, |FailedScripts(p)|)
  }

  predicate Inconclusive(p: Parsed, exit: Option<int>, timedOut: bool) {
    || timedOut || exit.None? || p.headers == [] || p.summary.None? || p.final.None?
    || WithoutTerminal(p) != {} || Orphans(p) != {} || DuplicateTerminals(p) != {} || DuplicateHeaders(p) != {}
    || Mismatch(p)
  }

  predicate Failing(p: Parsed, exit: Option<int>, expected: Option<set<string>>) {
    || (expected.Some? && expected.value - Scripts(p) != {})
    || FailedScripts(p) != {} || exit != Some(0) || p.skips > 0
  }

  function VerdictOf(p: Parsed, exit: Option<int>, expected: Option<set<string>>, timedOut: bool): Verdict {
    if Inconclusive(p, exit, timedOut) then INCONCLUSIVE
    else if Failing(p, exit, expected) then FAIL
    else PASS
  }

  function Given(c: bool, r: Reason): seq<Reason> {
    if c then [r] else []
  }

  /** What makes a log inconclusive. */
  function DoubtsAbout(p: Parsed, exit: Option<int>, timedOut: bool): seq<Reason> {
    Given(timedOut, Timeout) + Given(exit.None? && !timedOut, ExitCodeMissing) + Given(p.headers == [], LogEmpty)
    + Given(p.summary.None? || p.final.None?, LogTruncated)
    + Given(WithoutTerminal(p) != {}, ScriptsWithoutTerminalLine)
    + Given(Orphans(p) != {} || DuplicateTerminals(p) != {} || DuplicateHeaders(p) != {}, LogStructureInconsistent)
    + Given(Mismatch(p), SummaryMismatch)
  }

  /** What makes a conclusive log a failure. */
  function Faults(p: Parsed, exit: Option<int>, expected: Option<set<string>>): seq<Reason> {
    Given(expected.Some? && expected.value - Scripts(p) != {}, TestsOmitted) + Given(FailedScripts(p) != {}, TestsFailed)
    + Given(exit != Some(0), ExitCodeNonzero) + Given(exit == Some(0) && FailedScripts(p) != {}, ExitCodeInconsistent)
    + Given(p.skips > 0, SkippedTestsPresent)
  }

  function ReasonsFor(p: Parsed, exit: Option<int>, expected: Option<set<string>>, timedOut: bool): seq<Reason> {
    if DoubtsAbout(p, exit, timedOut) != [] then DoubtsAbout(p, exit, timedOut) else Faults(p, exit, expected)
  }

  method Judge(p: Parsed, exit: Option<int>, expected: Option<set<string>>, timedOut: bool)
    returns (verdict: Verdict, reasons: seq<Reason>)
    ensures verdict == VerdictOf(p, exit, expected, timedOut)
    ensures verdict == PASS <==> reasons == []
    ensures reasons == ReasonsFor(p, exit, expected, timedOut)
  {
    hide DoubtsAbout, Faults;
    NoDoubts(p, exit, timedOut);
    NoFaults(p, exit, expected);
    reasons := Doubts(p, exit, timedOut);
    if reasons != [] {
      return INCONCLUSIVE, reasons;
    }
    reasons := Failings(p, exit, expected);
    verdict := if reasons != [] then FAIL else PASS;
  }

  method Doubts(p: Parsed, exit: Option<int>, timedOut: bool) returns (reasons: seq<Reason>)
    ensures reasons == DoubtsAbout(p, exit, timedOut)
  {
    hide WithoutTerminal, Orphans, DuplicateTerminals, DuplicateHeaders, Mismatch, Given;
    reasons := Given(timedOut, Timeout);
    reasons := reasons + Given(exit.None? && !timedOut, ExitCodeMissing);
    reasons := reasons + Given(p.headers == [], LogEmpty);
    reasons := reasons + Given(p.summary.None? || p.final.None?, LogTruncated);
    reasons := reasons + Given(WithoutTerminal(p) != {}, ScriptsWithoutTerminalLine);
    reasons := reasons + Given(Orphans(p) != {} || DuplicateTerminals(p) != {} || DuplicateHeaders(p) != {}, LogStructureInconsistent);
    reasons := reasons + Given(Mismatch(p), SummaryMismatch);
  }

  method Failings(p: Parsed, exit: Option<int>, expected: Option<set<string>>) returns (reasons: seq<Reason>)
    ensures reasons == Faults(p, exit, expected)
  {
    hide FailedScripts, Scripts, Given;
    reasons := Given(expected.Some? && expected.value - Scripts(p) != {}, TestsOmitted);
    reasons := reasons + Given(FailedScripts(p) != {}, TestsFailed);
    reasons := reasons + Given(exit != Some(0), ExitCodeNonzero);
    reasons := reasons + Given(exit == Some(0) && FailedScripts(p) != {}, ExitCodeInconsistent);
    reasons := reasons + Given(p.skips > 0, SkippedTestsPresent);
  }

  lemma NoDoubts(p: Parsed, exit: Option<int>, timedOut: bool)
    ensures DoubtsAbout(p, exit, timedOut) == [] <==> !Inconclusive(p, exit, timedOut)
  {
    hide WithoutTerminal, Orphans, DuplicateTerminals, DuplicateHeaders, Mismatch;
  }

  lemma NoFaults(p: Parsed, exit: Option<int>, expected: Option<set<string>>)
    ensures Faults(p, exit, expected) == [] <==> !Failing(p, exit, expected)
  {
    hide FailedScripts, Scripts;
  }

  // ---- what a PASS means, for any log ----

  /** Everything a complete and fully green log shows. */
  predicate Green(p: Parsed, exit: Option<int>, expected: Option<set<string>>, timedOut: bool) {
    && !timedOut && exit == Some(0) && p.skips == 0 && p.final.Some?
    && p.headers != [] && (forall i, j :: 0 <= i < j < |p.headers| ==> p.headers[i] != p.headers[j])
    && (forall h <- p.headers :: Statuses(p.terminals, h) == [true])
    && (forall t <- p.terminals :: t.0 in p.headers)
    && p.summary == Some(Summary(|p.headers|, |p.headers|, 0))
    && (expected.Some? ==> forall s <- expected.value :: s in p.headers)
  }

  predicate Distinct(xs: seq<string>) {
    forall i, j :: 0 <= i < j < |xs| ==> xs[i] != xs[j]
  }

  predicate OnceEach(xs: seq<string>) {
    forall x <- xs :: multiset(xs)[x] <= 1
  }

  function Members(xs: seq<string>): set<string> {
    set x | x in xs
  }

  lemma {:induction false} CountOnce(xs: seq<string>)
    ensures Distinct(xs) <==> OnceEach(xs)
    ensures Distinct(xs) ==> |Members(xs)| == |xs|
  {
    hide Distinct, OnceEach, Members;
    if xs == [] {
      NothingTwice();
    } else {
      var n := |xs| - 1;
      CountOnce(xs[..n]);
      assert xs == xs[..n] + [xs[n]];
      DistinctLast(xs[..n], xs[n]);
      OnceLast(xs[..n], xs[n]);
      MembersLast(xs[..n], xs[n]);
    }
  }

  lemma NothingTwice()
    ensures Distinct([]) && OnceEach([]) && Members([]) == {}
  {
  }

  lemma DistinctLast(init: seq<string>, last: string)
    ensures Distinct(init + [last]) <==> Distinct(init) && last !in init
  {
    var xs := init + [last];
    assert forall i :: 0 <= i < |init| ==> xs[i] == init[i];
    if Distinct(xs) {
      assert forall i :: 0 <= i < |init| ==> xs[i] != xs[|init|];
    }
  }

  lemma OnceLast(init: seq<string>, last: string)
    ensures OnceEach(init + [last]) <==> OnceEach(init) && last !in init
  {
    var xs := init + [last];
    assert multiset(xs) == multiset(init) + multiset{last};
    assert last in init <==> multiset(init)[last] > 0;
    assert last in xs && forall x <- init :: x in xs;
    if OnceEach(xs) {
      assert multiset(xs)[last] <= 1;
    }
  }

  lemma MembersLast(init: seq<string>, last: string)
    ensures Members(init + [last]) == Members(init) + {last}
    ensures last in Members(init) <==> last in init
  {
  }

  lemma {:induction false} NamesHold(terminals: seq<(string, bool)>, s: string)
    ensures s in Names(terminals) <==> exists i :: 0 <= i < |terminals| && terminals[i].0 == s
    ensures s in Names(terminals) <==> Statuses(terminals, s) != []
  {
    if terminals != [] {
      var n := |terminals| - 1;
      NamesHold(terminals[..n], s);
      assert forall i :: 0 <= i < n ==> terminals[..n][i] == terminals[i];
      if terminals[n].0 != s && s in Names(terminals[..n]) {
        var i :| 0 <= i < n && terminals[..n][i].0 == s;
        assert terminals[i].0 == s;
      }
    }
  }

  lemma EveryName(terminals: seq<(string, bool)>)
    ensures forall s :: s in Names(terminals) <==> Statuses(terminals, s) != []
    ensures forall t <- terminals :: t.0 in Names(terminals)
    ensures forall s <- Names(terminals) :: exists i :: 0 <= i < |terminals| && terminals[i].0 == s
  {
    hide Names, Statuses;
    forall s
      ensures s in Names(terminals) <==> Statuses(terminals, s) != []
      ensures s in Names(terminals) <==> exists i :: 0 <= i < |terminals| && terminals[i].0 == s
    {
      NamesHold(terminals, s);
    }
  }

  lemma GreenPasses(p: Parsed, exit: Option<int>, expected: Option<set<string>>, timedOut: bool)
    requires Green(p, exit, expected, timedOut)
    ensures VerdictOf(p, exit, expected, timedOut) == PASS
  {
    hide Names, Statuses;
    EveryName(p.terminals);
    CountOnce(p.headers);
    assert Distinct(p.headers);
    assert Scripts(p) == Members(p.headers);
    assert Names(p.terminals) == Scripts(p);
    assert PassedScripts(p) == Scripts(p);
    assert FailedScripts(p) == {} && DuplicateTerminals(p) == {} && DuplicateHeaders(p) == {};
  }

  lemma OnePass(p: Parsed, h: string)
    requires h in p.headers && WithoutTerminal(p) == {} && FailedScripts(p) == {} && DuplicateTerminals(p) == {}
    ensures Statuses(p.terminals, h) == [true]
  {
    hide Names, Statuses;
    var statuses := Statuses(p.terminals, h);
    NamesHold(p.terminals, h);
    assert h in Scripts(p) && h !in WithoutTerminal(p);
    assert h !in FailedScripts(p) && h !in DuplicateTerminals(p);
    assert false !in statuses && |statuses| == 1;
    var first := statuses[0];
    assert first in statuses;
    assert first == true && statuses == [first];
  }

  lemma NoDuplicateHeaders(p: Parsed)
    requires DuplicateHeaders(p) == {}
    ensures Distinct(p.headers) && |Scripts(p)| == |p.headers|
  {
    CountOnce(p.headers);
    assert forall h <- p.headers :: h !in DuplicateHeaders(p);
    assert Scripts(p) == Members(p.headers);
  }

  lemma NoOrphans(p: Parsed)
    requires Orphans(p) == {}
    ensures forall t <- p.terminals :: t.0 in p.headers
  {
    hide Names;
    EveryName(p.terminals);
    forall t | t in p.terminals
      ensures t.0 in p.headers
    {
      assert t.0 !in Orphans(p);
    }
  }

  lemma AllPassed(p: Parsed)
    requires (forall h <- p.headers :: Statuses(p.terminals, h) == [true]) && Orphans(p) == {}
    ensures PassedScripts(p) == Scripts(p)
  {
    hide Names, Statuses;
    EveryName(p.terminals);
    assert forall s <- Names(p.terminals) :: s !in Orphans(p);
    assert forall s <- p.headers :: s in Names(p.terminals);
  }

  lemma PassIsGreen(p: Parsed, exit: Option<int>, expected: Option<set<string>>, timedOut: bool)
    requires VerdictOf(p, exit, expected, timedOut) == PASS
    ensures Green(p, exit, expected, timedOut)
  {
    hide Names, Statuses, WithoutTerminal, FailedScripts, DuplicateTerminals, Orphans, PassedScripts, DuplicateHeaders;
    NoDuplicateHeaders(p);
    NoOrphans(p);
    forall h | h in p.headers
      ensures Statuses(p.terminals, h) == [true]
    {
      OnePass(p, h);
    }
    AllPassed(p);
    assert |FailedScripts(p)| == 0;
    forall s | expected.Some? && s in expected.value
      ensures s in p.headers
    {
      assert s !in expected.value - Scripts(p);
    }
  }

  /** For any text at all: the verdict is PASS exactly when the run ended in time with exit code 0, every
      script appears once, each with exactly one terminal line that says PASS, no terminal line is without
      its header, nothing was skipped, no expected script is missing, and the totals agree. */
  lemma PassExactlyWhenGreen(text: string, exit: Option<int>, expected: Option<set<string>>, timedOut: bool)
    ensures var p := Collected(Marks(text));
      VerdictOf(p, exit, expected, timedOut) == PASS <==> Green(p, exit, expected, timedOut)
  {
    hide Green, VerdictOf, Collected, Marks;
    var p := Collected(Marks(text));
    if Green(p, exit, expected, timedOut) {
      GreenPasses(p, exit, expected, timedOut);
    }
    if VerdictOf(p, exit, expected, timedOut) == PASS {
      PassIsGreen(p, exit, expected, timedOut);
    }
  }

  /** The last line is required but what it says is not: a log that is green in every count passes even
      when it ends in the line that announces a failure. */
  lemma FinalLineIsNotCompared(p: Parsed, exit: Option<int>, expected: Option<set<string>>, timedOut: bool)
    requires p.final.Some?
    ensures VerdictOf(p.(final := Some(false)), exit, expected, timedOut) == VerdictOf(p, exit, expected, timedOut)
  {
    var q := p.(final := Some(false));
    assert Scripts(q) == Scripts(p) && DuplicateHeaders(q) == DuplicateHeaders(p);
    assert PassedScripts(q) == PassedScripts(p) && FailedScripts(q) == FailedScripts(p);
    assert DuplicateTerminals(q) == DuplicateTerminals(p);
  }
}
