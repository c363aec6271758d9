/** The test runner as the printer of the log, and what the judge makes of what it prints. */
module TestRunner {
  import opened LogText
  import opened Options
  import opened RunLog

  /** A script, what it writes on the shared output, and the exit code it ends with. */
  datatype Script = Script(name: string, output: string, code: int)

  // ---- printing ----

  predicate Ok(s: Script) {
    s.code == 0
  }

  function Section(s: Script): string {
    HeaderLine(s.name) + "\n" + s.output + TerminalLine(s.name, Ok(s)) + "\n" + "\n"
  }

  function Sections(scripts: seq<Script>): string {
    if scripts == [] then "" else Sections(scripts[..|scripts| - 1]) + Section(scripts[|scripts| - 1])
  }

  function Failures(scripts: seq<Script>): seq<string> {
    if scripts == [] then []
    else
      var s := scripts[|scripts| - 1];
      Failures(scripts[..|scripts| - 1]) + if Ok(s) then [] else [s.name]
  }

  function Listed(names: seq<string>): string {
    if names == [] then "" else Listed(names[..|names| - 1]) + "  - " + names[|names| - 1] + "\n"
  }

  function Rule(): string {
    seq(64, _ => '=')
  }

  function LastLine(good: bool): string {
    if good then FINAL_OK else FINAL_BAD
  }

  function Totalled(total: nat, failures: seq<string>): Summary
    requires |failures| <= total
  {
    Summary(total - |failures|, total, |failures|)
  }

  function Caption(): string {
    "Tests fallidos:"
  }

  function Listing(failures: seq<string>): string {
    if failures == [] then "" else Caption() + "\n" + Listed(failures)
  }

  function Ending(total: nat, failures: seq<string>): string
    requires |failures| <= total
  {
    Rule() + "\n" + SummaryLine(Totalled(total, failures)) + "\n" + Listing(failures)
    + Rule() + "\n" + LastLine(failures == []) + "\n"
  }

  lemma {:induction false} FailuresAreSome(scripts: seq<Script>)
    ensures |Failures(scripts)| <= |scripts|
    ensures forall s :: s in Failures(scripts) <==> exists i :: 0 <= i < |scripts| && scripts[i].name == s && !Ok(scripts[i])
  {
    if scripts != [] {
      var n := |scripts| - 1;
      FailuresAreSome(scripts[..n]);
      forall s
        ensures s in Failures(scripts) <==> exists i :: 0 <= i < |scripts| && scripts[i].name == s && !Ok(scripts[i])
      {
        if i :| 0 <= i < |scripts| && scripts[i].name == s && !Ok(scripts[i]) {
          assert i < n ==> scripts[..n][i] == scripts[i];
        }
        if s in Failures(scripts[..n]) {
          var i :| 0 <= i < n && scripts[..n][i].name == s && !Ok(scripts[..n][i]);
          assert scripts[i].name == s;
        }
      }
    }
  }

  lemma AllOkMeansNoFailures(scripts: seq<Script>)
    ensures |Failures(scripts)| <= |scripts|
    ensures Failures(scripts) == [] <==> forall i :: 0 <= i < |scripts| ==> Ok(scripts[i])
  {
    hide Failures;
    FailuresAreSome(scripts);
    var failed := Failures(scripts);
    assert forall i :: 0 <= i < |scripts| && !Ok(scripts[i]) ==> scripts[i].name in failed;
    assert failed != [] ==> failed[0] in failed;
  }

  /** What is printed of some scripts and then of others is printed of all: sections, failures and their listing alike,
      and of one script its header, output and result, its name exactly if it failed. */
  lemma {:induction false} PrintedInParts(a: seq<Script>, b: seq<Script>)
    ensures Sections(a + b) == Sections(a) + Sections(b) && Failures(a + b) == Failures(a) + Failures(b)
  {
    hide Section;
    if b == [] {
      assert a + b == a;
    } else {
      var n := |b| - 1;
      PrintedInParts(a, b[..n]);
      assert (a + b)[..|a + b| - 1] == a + b[..n];
    }
  }

  lemma PrintedOfOne(s: Script)
    ensures Sections([s]) == "=== " + s.name + " ===" + "\n" + s.output + (if s.code == 0 then "--- PASS: " else "--- FAIL: ") + s.name + "\n" + "\n"
    ensures Failures([s]) == if s.code == 0 then [] else [s.name]
  {
    assert [s][..0] == [];
    var result := if s.code == 0 then "--- PASS: " else "--- FAIL: ";
    assert Section(s) == HeaderLine(s.name) + "\n" + s.output + (result + s.name) + "\n" + "\n";
  }

  lemma {:induction false} ListedInParts(a: seq<string>, b: seq<string>)
    ensures Listed(a + b) == Listed(a) + Listed(b)
  {
    hide Listed;
    ListedSnoc([], "");
    if b == [] {
      assert a + b == a;
    } else {
      var n := |b| - 1;
      ListedInParts(a, b[..n]);
      ListedSnoc(b[..n], b[n]);
      ListedSnoc(a + b[..n], b[n]);
      assert a + b[..n] + [b[n]] == a + b && b[..n] + [b[n]] == b;
    }
  }

  lemma ListedSnoc(names: seq<string>, name: string)
    ensures Listed(names + [name]) == Listed(names) + ("  - " + name + "\n")
    ensures Listed([]) == ""
  {
    var all := names + [name];
    assert all[..|names|] == names && all[|names|] == name;
    OneText(Listed(names), "  - ", name, "\n");
  }

  lemma OneText(a: string, b: string, c: string, d: string)
    ensures a + b + c + d == a + (b + c + d)
  {
  }

  /** The ending: the totals between two rules, the listing only if something failed, and the last line. */
  lemma EndingPrinted(total: nat, failures: seq<string>)
    requires |failures| <= total
    ensures |Rule()| == 64 && forall c <- Rule() :: c == '='
    ensures Ending(total, failures) ==
      Rule() + "\n" + SummaryLine(Summary(total - |failures|, total, |failures|)) + "\n"
      + (if failures == [] then "" else "Tests fallidos:" + "\n" + Listed(failures))
      + Rule() + "\n" + (if failures == [] then "TODOS LOS TESTS PASARON" else "AL MENOS UN TEST FALL\U{D3}") + "\n"
  {
    hide SummaryLine, Listed;
  }

  function Printed(dir: string, scripts: seq<Script>): string {
    FailuresAreSome(scripts);
    if scripts == [] then "[FAIL] no se encontraron test_*.sh en " + dir + "\n"
    else Sections(scripts) + Ending(|scripts|, Failures(scripts))
  }

  method PrintListing(failed: seq<string>) returns (text: string)
    ensures text == Listing(failed)
  {
    text := "";
    if failed != [] {
      text := Caption() + "\n";
      for i := 0 to |failed|
        invariant text == Caption() + "\n" + Listed(failed[..i])
      {
        assert failed[..i + 1][..i] == failed[..i];
        text := text + "  - " + failed[i] + "\n";
      }
      assert failed[..|failed|] == failed;
    }
  }

  /** The runner: one section a script, the totals kept as it goes, the listing and the last line. */
  method RunAll(dir: string, scripts: seq<Script>) returns (log: string, exit: int)
    ensures log == Printed(dir, scripts)
    ensures exit == 0 <==> scripts != [] && forall i :: 0 <= i < |scripts| ==> Ok(scripts[i])
    ensures exit == 0 || exit == 1
  {
    hide Section, SummaryLine, Rule, LastLine, Listing;
    AllOkMeansNoFailures(scripts);
    if scripts == [] {
      return "[FAIL] no se encontraron test_*.sh en " + dir + "\n", 1;
    }
    log := "";
    var total, passed, failed := 0, 0, [];
    for i := 0 to |scripts|
      invariant total == i && log == Sections(scripts[..i])
      invariant failed == Failures(scripts[..i]) && passed == i - |failed|
    {
      var s := scripts[i];
      assert scripts[..i + 1][..i] == scripts[..i];
      total := total + 1;
      log := log + Section(s);
      if s.code == 0 {
        passed := passed + 1;
      } else {
        failed := failed + [s.name];
      }
    }
    assert scripts[..|scripts|] == scripts;
    var listing := PrintListing(failed);
    log := log + (Rule() + "\n" + SummaryLine(Summary(passed, total, |failed|)) + "\n" + listing
                  + Rule() + "\n" + LastLine(failed == []) + "\n");
    exit := if failed == [] then 0 else 1;
  }

  // ---- what the parser sees of it ----

  /** A script with a recognizable name whose own output holds no line that means anything to the parser. */
  predicate Quiet(s: Script) {
    IsName(s.name) && Marks(s.output) == []
  }

  predicate AllQuiet(scripts: seq<Script>) {
    forall i :: 0 <= i < |scripts| ==> Quiet(scripts[i])
  }

  function SectionMarks(s: Script): seq<Mark> {
    [Header(s.name)] + if Ended(s.output) then [Terminal(s.name, Ok(s))] else []
  }

  function SectionsMarks(scripts: seq<Script>): seq<Mark> {
    if scripts == [] then [] else SectionsMarks(scripts[..|scripts| - 1]) + SectionMarks(scripts[|scripts| - 1])
  }

  lemma MarksOfPrinted(line: string, rest: string)
    requires Without(line, '\n') && Without(line, '\r')
    ensures Marks(line + "\n" + rest) == MarksOf([line]) + Marks(rest)
  {
    hide Marks, MarksOf;
    MarksOfLine(line);
    MarksConcat(line + "\n", rest);
  }

  lemma OtherLine(line: string)
    requires Classify(line).Other?
    ensures MarksOf([line]) == []
  {
    MarksOfOne(line);
  }

  /** The terminal line printed after an unfinished line of output leaves no mark. */
  lemma GluedMarks(output: string, name: string, pass: bool)
    requires IsName(name) && !Ended(output) && Marks(output) == []
    ensures Marks(output + TerminalLine(name, pass) + "\n") == []
  {
    hide Split, Normalize, Classify, MarksOf, TerminalLine, IsName, GlueLast;
    var t, o := TerminalLine(name, pass), Normalize(output);
    TerminalLineIsTerminal(name, pass);
    TerminalStart(name, pass);
    NormalizeClean(t + "\n");
    assert output + t + "\n" == output + (t + "\n");
    NormalizeConcat(output, t + "\n");
    assert o + (t + "\n") == (o + t) + "\n" + "";
    SplitAtNewline(o + t, "");
    SplitOne("");
    SplitGlued(o, t);
    NormalizeEnd(output);
    LastLineNotEmpty(o);
    var lines := Split(o);
    var d := lines[|lines| - 1];
    assert lines == lines[..|lines| - 1] + [d];
    MarksOfConcat(lines[..|lines| - 1], [d]);
    MarksOfOne(d);
    NoSkip(d);
    GluedTerminalIsLost(d, name, pass);
    OtherLine(d + t);
    Glued(lines, t);
    MarksOfConcat(lines[..|lines| - 1], [d + t]);
    EmptyLine();
    MarksOfConcat(lines[..|lines| - 1] + [d + t], [""]);
  }

  lemma Glued(lines: seq<string>, t: string)
    requires lines != []
    ensures GlueLast(lines, t) == lines[..|lines| - 1] + [lines[|lines| - 1] + t]
  {
  }

  lemma TerminalStart(name: string, pass: bool)
    ensures TerminalLine(name, pass) != "" && TerminalLine(name, pass)[0] == '-'
  {
  }

  lemma NoSkip(d: string)
    requires Classify(d).Other?
    ensures !IsSkip(d)
  {
  }

  lemma SectionIsSeen(s: Script)
    requires Quiet(s)
    ensures Marks(Section(s)) == SectionMarks(s) && Ended(Section(s))
  {
    hide Marks, Classify, MarksOf, TerminalLine, HeaderLine, IsName, Split, Normalize;
    var h, t := HeaderLine(s.name), TerminalLine(s.name, Ok(s));
    HeaderLineIsHeader(s.name);
    TerminalLineIsTerminal(s.name, Ok(s));
    MarksOfOne(h);
    MarksOfOne(t);
    EmptyLine();
    assert Section(s) == h + "\n" + (s.output + t + "\n" + "\n");
    MarksOfPrinted(h, s.output + t + "\n" + "\n");
    MarksOfLine("");
    assert "" + "\n" == "\n";
    if Ended(s.output) {
      assert s.output + t + "\n" + "\n" == s.output + (t + "\n" + "\n");
      MarksConcat(s.output, t + "\n" + "\n");
      MarksOfPrinted(t, "\n");
    } else {
      GluedMarks(s.output, s.name, Ok(s));
      MarksConcat(s.output + t + "\n", "\n");
    }
  }

  lemma {:induction false} SectionsAreSeen(scripts: seq<Script>, rest: string)
    requires AllQuiet(scripts)
    ensures Marks(Sections(scripts) + rest) == SectionsMarks(scripts) + Marks(rest)
  {
    hide Marks, Section, SectionMarks, Quiet;
    if scripts == [] {
      assert "" + rest == rest;
    } else {
      var n := |scripts| - 1;
      SectionsAreSeen(scripts[..n], Section(scripts[n]) + rest);
      SectionIsSeen(scripts[n]);
      MarksConcat(Section(scripts[n]), rest);
      assert Sections(scripts) + rest == Sections(scripts[..n]) + (Section(scripts[n]) + rest);
    }
  }

  lemma {:induction false} ListedIsSilent(names: seq<string>, rest: string)
    requires forall i :: 0 <= i < |names| ==> IsName(names[i])
    ensures Marks(Listed(names) + rest) == Marks(rest)
  {
    hide Marks, IsName;
    if names == [] {
      assert "" + rest == rest;
    } else {
      var n := |names| - 1;
      var line := "  - " + names[n];
      ListedIsSilent(names[..n], line + "\n" + rest);
      assert Listed(names) + rest == Listed(names[..n]) + (line + "\n" + rest);
      ListLineIsOther(names[n]);
      MarksOfPrinted(line, rest);
    }
  }

  lemma ListLineIsOther(name: string)
    requires IsName(name)
    ensures var line := "  - " + name;
      Without(line, '\n') && Without(line, '\r') && Classify(line) == Other && MarksOf([line]) == []
  {
    hide IsName, Classify;
    var line := "  - " + name;
    LineStartDecides(line);
    assert line[0] == ' ';
    assert FINAL_OK[0] == 'T' && FINAL_BAD[0] == 'A';
    NameIsClean(name);
    MarksOfOne(line);
  }

  lemma NameIsClean(name: string)
    requires IsName(name)
    ensures Without(name, '\n') && Without(name, '\r')
  {
  }

  lemma RuleIsOther()
    ensures Without(Rule(), '\n') && Without(Rule(), '\r') && Classify(Rule()) == Other && MarksOf([Rule()]) == []
  {
    hide IsName;
    var line := Rule();
    assert line[3] == '=' && "=== "[3] == ' ';
    assert line[..4] != "=== ";
    assert line[0] == '=';
    assert FINAL_OK[0] == 'T' && FINAL_BAD[0] == 'A';
    MarksOfOne(line);
  }

  lemma CaptionIsOther()
    ensures var line := Caption();
      Without(line, '\n') && Without(line, '\r') && Classify(line) == Other && MarksOf([line]) == []
  {
    hide Classify;
    var line := Caption();
    LineStartDecides(line);
    assert line[0] == 'T' && line[1] == 'e' && FINAL_OK[1] == 'O' && FINAL_BAD[0] == 'A';
    MarksOfOne(line);
  }

  /** A line that starts like no marker can only be the last line of the log. */
  lemma LineStartDecides(line: string)
    requires line != "" && line[0] != '=' && line[0] != '-' && line[0] != 'R' && line[0] != '['
    ensures Classify(line) == if line == FINAL_OK || line == FINAL_BAD then Final(line == FINAL_OK) else Other
  {
    hide IsName;
  }

  lemma LastLineIsFinal(good: bool)
    ensures var line := LastLine(good);
      Without(line, '\n') && Without(line, '\r') && Classify(line) == Final(good) && MarksOf([line]) == [Final(good)]
  {
    hide Classify;
    var line := LastLine(good);
    assert FINAL_OK[0] == 'T' && FINAL_BAD[0] == 'A';
    LineStartDecides(line);
    MarksOfOne(line);
  }

  lemma ListingIsSilent(failures: seq<string>, rest: string)
    requires forall i :: 0 <= i < |failures| ==> IsName(failures[i])
    ensures Marks(Listing(failures) + rest) == Marks(rest)
  {
    hide Marks, MarksOf, Listed, IsName, Caption, Classify;
    if failures == [] {
      assert "" + rest == rest;
    } else {
      CaptionIsOther();
      assert Listing(failures) + rest == Caption() + "\n" + (Listed(failures) + rest);
      MarksOfPrinted(Caption(), Listed(failures) + rest);
      ListedIsSilent(failures, rest);
    }
  }

  lemma EndingIsSeen(total: nat, failures: seq<string>)
    requires |failures| <= total && forall i :: 0 <= i < |failures| ==> IsName(failures[i])
    ensures Marks(Ending(total, failures)) == [Totals(Totalled(total, failures)), Final(failures == [])]
  {
    hide Marks, MarksOf, SummaryLine, Rule, LastLine, Listing, IsName, Classify, Totalled;
    var last, sum := LastLine(failures == []), SummaryLine(Totalled(total, failures));
    RuleIsOther();
    LastLineIsFinal(failures == []);
    SummaryLineIsTotals(Totalled(total, failures));
    MarksOfOne(sum);
    MarksOfLine(last);
    MarksOfPrinted(Rule(), last + "\n");
    var tail := Listing(failures) + (Rule() + "\n" + (last + "\n"));
    ListingIsSilent(failures, Rule() + "\n" + (last + "\n"));
    MarksOfPrinted(sum, tail);
    MarksOfPrinted(Rule(), sum + "\n" + tail);
    assert Ending(total, failures) == Rule() + "\n" + (sum + "\n" + tail);
  }

  /** Printing then reading: the marks of the log are those of the sections and of the ending, in order. */
  lemma PrintedIsSeen(dir: string, scripts: seq<Script>)
    requires scripts != [] && AllQuiet(scripts)
    ensures |Failures(scripts)| <= |scripts|
    ensures Marks(Printed(dir, scripts)) ==
      SectionsMarks(scripts) + [Totals(Totalled(|scripts|, Failures(scripts))), Final(Failures(scripts) == [])]
  {
    hide Marks, Ending, Sections, SectionsMarks, Totalled;
    FailuresAreSome(scripts);
    var failures := Failures(scripts);
    forall i | 0 <= i < |failures|
      ensures IsName(failures[i])
    {
      assert failures[i] in failures;
    }
    EndingIsSeen(|scripts|, failures);
    SectionsAreSeen(scripts, Ending(|scripts|, failures));
  }

  // ---- what the judge makes of it ----

  function NamesOf(scripts: seq<Script>): seq<string> {
    seq(|scripts|, i requires 0 <= i < |scripts| => scripts[i].name)
  }

  /** The terminal lines that survive. */
  function Recorded(scripts: seq<Script>): seq<(string, bool)> {
    if scripts == [] then []
    else
      var s := scripts[|scripts| - 1];
      Recorded(scripts[..|scripts| - 1]) + if Ended(s.output) then [(s.name, Ok(s))] else []
  }

  lemma CollectMore(marks: seq<Mark>, m: Mark)
    ensures Collected(marks + [m]) == Absorb(Collected(marks), m)
  {
    assert (marks + [m])[..|marks|] == marks;
  }

  lemma {:induction false} SectionsCollected(scripts: seq<Script>)
    ensures Collected(SectionsMarks(scripts)) == Parsed(NamesOf(scripts), Recorded(scripts), None, None, 0)
  {
    hide Collected, Ended, Ok;
    if scripts == [] {
      NothingCollected();
    } else {
      var n := |scripts| - 1;
      var s, marks := scripts[n], SectionsMarks(scripts[..n]);
      SectionsCollected(scripts[..n]);
      CollectMore(marks, Header(s.name));
      CollectMore(marks + [Header(s.name)], Terminal(s.name, Ok(s)));
      assert marks + [Header(s.name)] + [Terminal(s.name, Ok(s))] == marks + ([Header(s.name)] + [Terminal(s.name, Ok(s))]);
      assert marks + ([Header(s.name)] + []) == marks + [Header(s.name)];
      assert NamesOf(scripts) == NamesOf(scripts[..n]) + [s.name];
    }
  }

  lemma NothingCollected()
    ensures Collected([]) == NOTHING
  {
  }

  /** What the parser collects from the log of a run. */
  function Seen(scripts: seq<Script>): Parsed
    requires |Failures(scripts)| <= |scripts|
  {
    Parsed(NamesOf(scripts), Recorded(scripts), Some(Totalled(|scripts|, Failures(scripts))), Some(Failures(scripts) == []), 0)
  }

  lemma LogIsSeen(dir: string, scripts: seq<Script>)
    requires scripts != [] && AllQuiet(scripts)
    ensures |Failures(scripts)| <= |scripts|
    ensures Collected(Marks(Printed(dir, scripts))) == Seen(scripts)
  {
    hide Collected, Marks, Printed, SectionsMarks, Failures, NamesOf, Recorded;
    PrintedIsSeen(dir, scripts);
    SectionsCollected(scripts);
    var marks, a, b := SectionsMarks(scripts), Totals(Totalled(|scripts|, Failures(scripts))), Final(Failures(scripts) == []);
    CollectMore(marks, a);
    CollectMore(marks + [a], b);
    assert marks + [a] + [b] == marks + [a, b];
  }

  predicate DistinctNames(scripts: seq<Script>) {
    forall i, j :: 0 <= i < j < |scripts| ==> scripts[i].name != scripts[j].name
  }

  lemma {:induction false} StatusesRecorded(scripts: seq<Script>, name: string)
    requires forall i :: 0 <= i < |scripts| ==> scripts[i].name != name
    ensures Statuses(Recorded(scripts), name) == []
  {
    if scripts != [] {
      var n := |scripts| - 1;
      var before, s := Recorded(scripts[..n]), scripts[n];
      StatusesRecorded(scripts[..n], name);
      assert (before + [(s.name, Ok(s))])[..|before|] == before;
      assert before + [] == before;
    }
  }

  lemma {:induction false} OneStatus(scripts: seq<Script>, k: nat)
    requires k < |scripts| && DistinctNames(scripts)
    ensures Statuses(Recorded(scripts), scripts[k].name) == if Ended(scripts[k].output) then [Ok(scripts[k])] else []
  {
    var n := |scripts| - 1;
    var before, s := Recorded(scripts[..n]), scripts[n];
    assert forall i :: 0 <= i < n ==> scripts[..n][i] == scripts[i];
    assert (before + [(s.name, Ok(s))])[..|before|] == before;
    assert before + [] == before;
    if k < n {
      OneStatus(scripts[..n], k);
    } else {
      StatusesRecorded(scripts[..n], s.name);
    }
  }

  /** An unfinished line of output loses a script's result, and the run becomes inconclusive. */
  lemma UnfinishedOutput(scripts: seq<Script>, k: nat, exit: Option<int>, expected: Option<set<string>>)
    requires k < |scripts| && DistinctNames(scripts) && !Ended(scripts[k].output) && |Failures(scripts)| <= |scripts|
    ensures VerdictOf(Seen(scripts), exit, expected, false) == INCONCLUSIVE
  {
    hide Statuses, Recorded, Failures, Names;
    var p := Seen(scripts);
    OneStatus(scripts, k);
    NamesHold(p.terminals, scripts[k].name);
    assert scripts[k].name == p.headers[k];
    assert scripts[k].name in WithoutTerminal(p);
  }

  predicate AllEnded(scripts: seq<Script>) {
    forall i :: 0 <= i < |scripts| ==> Ended(scripts[i].output)
  }

  predicate AllOk(scripts: seq<Script>) {
    forall i :: 0 <= i < |scripts| ==> Ok(scripts[i])
  }

  predicate Clear(scripts: seq<Script>, s: string) {
    s !in Failures(scripts)
  }

  /** With every output ended, each script has one recorded result, and it is the right one. */
  lemma ResultOf(scripts: seq<Script>, s: string)
    requires DistinctNames(scripts) && AllEnded(scripts)
    ensures s in Names(Recorded(scripts)) <==> s in NamesOf(scripts)
    ensures s in NamesOf(scripts) ==> Statuses(Recorded(scripts), s) == [Clear(scripts, s)]
  {
    hide Statuses, Recorded, Failures, Names;
    NamesHold(Recorded(scripts), s);
    if s in NamesOf(scripts) {
      var i :| 0 <= i < |scripts| && NamesOf(scripts)[i] == s;
      OneStatus(scripts, i);
      OnlyResult(scripts, i);
    } else {
      assert forall i :: 0 <= i < |scripts| ==> NamesOf(scripts)[i] == scripts[i].name;
      StatusesRecorded(scripts, s);
    }
  }

  lemma FailuresAreNames(scripts: seq<Script>)
    ensures forall s <- Failures(scripts) :: s in NamesOf(scripts)
  {
    hide Failures;
    FailuresAreSome(scripts);
    assert forall i :: 0 <= i < |scripts| ==> NamesOf(scripts)[i] == scripts[i].name;
  }

  /** With every output ended, the sets the parser derives are exactly the scripts that passed and failed. */
  lemma ResultsRecovered(scripts: seq<Script>)
    requires DistinctNames(scripts) && AllEnded(scripts) && |Failures(scripts)| <= |scripts|
    ensures var p := Seen(scripts);
      && Names(p.terminals) == Scripts(p) && DuplicateTerminals(p) == {}
      && FailedScripts(p) == (set s | s in Failures(scripts))
      && PassedScripts(p) == Scripts(p) - FailedScripts(p)
  {
    hide Statuses, Recorded, Failures, Names, NamesOf;
    var p := Seen(scripts);
    FailuresAreNames(scripts);
    forall s
      ensures s in Names(p.terminals) <==> s in p.headers
      ensures s in p.headers ==> Statuses(p.terminals, s) == [Clear(scripts, s)]
    {
      ResultOf(scripts, s);
    }
    assert Names(p.terminals) == Scripts(p);
    assert DuplicateTerminals(p) == {};
    assert FailedScripts(p) == (set s | s in Failures(scripts));
    assert forall s <- p.headers :: Statuses(p.terminals, s)[0] == Clear(scripts, s);
  }

  lemma OnlyResult(scripts: seq<Script>, i: nat)
    requires DistinctNames(scripts) && i < |scripts|
    ensures Ok(scripts[i]) <==> scripts[i].name !in Failures(scripts)
  {
    hide Failures;
    FailuresAreSome(scripts);
  }

  lemma {:induction false} FailuresDistinct(scripts: seq<Script>)
    requires DistinctNames(scripts)
    ensures Distinct(Failures(scripts))
  {
    if scripts != [] {
      var n := |scripts| - 1;
      assert forall i :: 0 <= i < n ==> scripts[..n][i] == scripts[i];
      FailuresDistinct(scripts[..n]);
      FailuresAreSome(scripts[..n]);
      assert scripts[n].name !in Failures(scripts[..n]);
    }
  }

  /** The totals the runner prints are the sizes of the sets the judge counts for itself. */
  lemma TotalsAgree(scripts: seq<Script>)
    requires DistinctNames(scripts) && AllEnded(scripts) && |Failures(scripts)| <= |scripts|
    ensures !Mismatch(Seen(scripts)) && DuplicateHeaders(Seen(scripts)) == {}
  {
    hide Failures, Recorded, FailedScripts, PassedScripts;
    var p := Seen(scripts);
    ResultsRecovered(scripts);
    FailuresAreSome(scripts);
    FailuresDistinct(scripts);
    CountOnce(Failures(scripts));
    CountOnce(p.headers);
    assert Distinct(p.headers);
    assert Scripts(p) == Members(p.headers);
    forall s | s in FailedScripts(p)
      ensures s in Scripts(p)
    {
      var i :| 0 <= i < |scripts| && scripts[i].name == s && !Ok(scripts[i]);
      assert p.headers[i] == s;
    }
    SizeOfRest(Scripts(p), FailedScripts(p));
  }

  lemma SizeOfRest(a: set<string>, b: set<string>)
    requires b <= a
    ensures |a - b| == |a| - |b|
  {
    assert a == (a - b) + b;
  }

  lemma NothingMissing(a: set<string>, b: set<string>)
    ensures a - b == {} <==> a <= b
  {
    if a - b == {} {
      assert forall x <- a :: x !in a - b;
    }
  }

  lemma EndedVerdict(scripts: seq<Script>, expected: Option<set<string>>)
    requires scripts != [] && DistinctNames(scripts) && AllEnded(scripts) && |Failures(scripts)| <= |scripts|
    ensures VerdictOf(Seen(scripts), Some(if AllOk(scripts) then 0 else 1), expected, false) ==
      if AllOk(scripts) && (expected.None? || expected.value <= (set s | s in NamesOf(scripts))) then PASS else FAIL
  {
    hide Failures, Recorded, FailedScripts, PassedScripts, DuplicateTerminals, DuplicateHeaders, Names, Mismatch, NamesOf;
    var p := Seen(scripts);
    ResultsRecovered(scripts);
    TotalsAgree(scripts);
    AllOkMeansNoFailures(scripts);
    NamesOfSize(scripts);
    assert Scripts(p) == (set s | s in NamesOf(scripts));
    var failures := Failures(scripts);
    assert failures == [] ==> FailedScripts(p) == {};
    if expected.Some? {
      NothingMissing(expected.value, Scripts(p));
    }
  }

  lemma NamesOfSize(scripts: seq<Script>)
    ensures |NamesOf(scripts)| == |scripts|
  {
  }

  /** The whole round trip, for any run of distinctly named scripts whose own output holds no marker line, the log
      being in program order:
      the judge's verdict is inconclusive exactly when some script left its last line of output unfinished;
      otherwise it is PASS exactly when every script passed and no expected one is missing. */
  lemma RunnerIsJudgedRightly(dir: string, scripts: seq<Script>, expected: Option<set<string>>)
    requires scripts != [] && AllQuiet(scripts) && DistinctNames(scripts)
    ensures VerdictOf(Collected(Marks(Printed(dir, scripts))), Some(if AllOk(scripts) then 0 else 1), expected, false) ==
      if !AllEnded(scripts) then INCONCLUSIVE
      else if AllOk(scripts) && (expected.None? || expected.value <= (set s | s in NamesOf(scripts))) then PASS
      else FAIL
  {
    hide VerdictOf, Collected, Marks, Printed, Seen, Failures, NamesOf, Quiet;
    LogIsSeen(dir, scripts);
    if AllEnded(scripts) {
      EndedVerdict(scripts, expected);
    } else {
      var k :| 0 <= k < |scripts| && !Ended(scripts[k].output);
      UnfinishedOutput(scripts, k, Some(if AllOk(scripts) then 0 else 1), expected);
    }
  }

  // ---- a last line that contradicts the rest ----

  /** The log of one script that passed, with the given last line. */
  function OneGreen(name: string, good: bool): string {
    HeaderLine(name) + "\n" + (TerminalLine(name, true) + "\n" + (SummaryLine(Summary(1, 1, 0)) + "\n" + (LastLine(good) + "\n")))
  }

  lemma OneGreenIsSeen(name: string, good: bool)
    requires IsName(name)
    ensures Collected(Marks(OneGreen(name, good))) == Parsed([name], [(name, true)], Some(Summary(1, 1, 0)), Some(good), 0)
  {
    hide Marks, MarksOf, Classify, HeaderLine, TerminalLine, SummaryLine, LastLine, IsName, Collected;
    var h, t, s, l := HeaderLine(name), TerminalLine(name, true), SummaryLine(Summary(1, 1, 0)), LastLine(good);
    HeaderLineIsHeader(name);
    TerminalLineIsTerminal(name, true);
    SummaryLineIsTotals(Summary(1, 1, 0));
    LastLineIsFinal(good);
    MarksOfOne(h);
    MarksOfOne(t);
    MarksOfOne(s);
    MarksOfLine(l);
    MarksOfPrinted(s, l + "\n");
    MarksOfPrinted(t, s + "\n" + (l + "\n"));
    MarksOfPrinted(h, t + "\n" + (s + "\n" + (l + "\n")));
    FourCollected(Header(name), Terminal(name, true), Totals(Summary(1, 1, 0)), Final(good));
  }

  lemma FourCollected(a: Mark, b: Mark, c: Mark, d: Mark)
    ensures Collected([a] + ([b] + ([c] + [d]))) == Absorb(Absorb(Absorb(Absorb(NOTHING, a), b), c), d)
  {
    hide Collected, Absorb;
    NothingCollected();
    CollectMore([], a);
    CollectMore([a], b);
    CollectMore([a] + [b], c);
    CollectMore([a] + [b] + [c], d);
    assert [] + [a] == [a] && [a] + [b] + [c] + [d] == [a] + ([b] + ([c] + [d]));
  }

  /** A log that announces in its last line that a test failed, and is judged PASS. */
  lemma ContradictionPasses()
    ensures VerdictOf(Collected(Marks(OneGreen("test_a.sh", false))), Some(0), Some({"test_a.sh"}), false) == PASS
  {
    hide Collected, Marks, VerdictOf;
    assert IsName("test_a.sh");
    OneGreenIsSeen("test_a.sh", false);
    var p := Parsed(["test_a.sh"], [("test_a.sh", true)], Some(Summary(1, 1, 0)), Some(false), 0);
    assert [("test_a.sh", true)][..0] == [];
    assert Statuses(p.terminals, "test_a.sh") == [true];
    GreenPasses(p, Some(0), Some({"test_a.sh"}), false);
  }
}
