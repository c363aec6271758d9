/** Which lines of a log mean what, and what each verdict and reason stands for, written out. */
module LogLines {
  import opened Digits
  import opened LogText
  import opened RunLog
  import opened Options

  // ---- lines ----

  /** `test_`, at least one letter, digit, underscore, dot, plus or dash, and `.sh`. */
  ghost predicate IsScript(name: string) {
    exists core :: name == "test_" + core + ".sh" && core != "" && Plain(core)
  }

  predicate Plain(core: string) {
    forall i :: 0 <= i < |core| ==>
      'A' <= core[i] <= 'Z' || 'a' <= core[i] <= 'z' || '0' <= core[i] <= '9' || core[i] in {'_', '.', '+', '-'}
  }

  lemma PlainIs(s: string)
    ensures Plain(s) <==> forall i :: 0 <= i < |s| ==> IsNameChar(s[i])
  {
  }

  lemma NameIsScript(name: string)
    ensures IsName(name) <==> IsScript(name)
  {
    hide IsNameChar, Plain;
    PlainIs(name);
    if IsName(name) {
      var core := name[5..|name| - 3];
      assert name == name[..5] + core + name[|name| - 3..];
      PlainIs(core);
      assert forall i :: 0 <= i < |core| ==> core[i] == name[i + 5];
    }
    if IsScript(name) {
      var core :| name == "test_" + core + ".sh" && core != "" && Plain(core);
      ScriptIsName(core);
    }
  }

  lemma ScriptIsName(core: string)
    requires core != "" && Plain(core)
    ensures IsName("test_" + core + ".sh")
  {
    var name := "test_" + core + ".sh";
    assert name[..5] == "test_" && name[|name| - 3..] == ".sh";
    PlainIs(core);
    assert forall i :: 5 <= i < |name| - 3 ==> name[i] == core[i - 5];
  }

  lemma HeaderMeans(line: string)
    ensures IsHeader(line) <==> exists name :: line == "=== " + name + " ===" && IsName(name)
    ensures IsHeader(line) ==> line == "=== " + line[4..|line| - 4] + " ==="
  {
    hide IsName;
    if IsHeader(line) {
      assert line == line[..4] + line[4..|line| - 4] + line[|line| - 4..];
    }
    if name :| line == "=== " + name + " ===" && IsName(name) {
      assert line[4..|line| - 4] == name;
    }
  }

  lemma TerminalMeans(line: string, pass: bool)
    ensures IsTerminal(line) && (line[..10] == "--- PASS: ") == pass <==>
      exists name :: line == (if pass then "--- PASS: " else "--- FAIL: ") + name && IsName(name)
    ensures IsTerminal(line) ==> line == line[..10] + line[10..]
  {
    hide IsName;
    if name :| line == (if pass then "--- PASS: " else "--- FAIL: ") + name && IsName(name) {
      assert line[..10] == (if pass then "--- PASS: " else "--- FAIL: ") && line[10..] == name;
      assert "--- PASS: "[4] != "--- FAIL: "[4];
    }
  }

  /** A number in digits, then the separator, then the rest. */
  predicate Counts(s: string, digits: string, separator: string, rest: string) {
    s == digits + (separator + rest) && digits != "" && AllDigits(digits)
  }

  lemma NumberMeans(s: string, separator: string, n: nat, rest: string)
    requires separator != "" && !IsDigit(separator[0])
    ensures Number(s, separator) == Some((n, rest)) <==> exists d :: Counts(s, d, separator, rest) && ParseNat(d) == n
  {
    hide SpanDigits, ParseNat;
    if Number(s, separator) == Some((n, rest)) {
      var k := SpanDigits(s);
      assert s == s[..k] + (separator + rest);
      assert Counts(s, s[..k], separator, rest);
    }
    if d :| Counts(s, d, separator, rest) && ParseNat(d) == n {
      SpanOfDigits(d, separator + rest);
      assert s[..|d|] == d && s[|d|..] == separator + rest;
      assert s[|d|..][|separator|..] == rest;
    }
  }

  lemma SpanOfDigits(d: string, rest: string)
    requires AllDigits(d) && rest != "" && !IsDigit(rest[0])
    ensures SpanDigits(d + rest) == |d|
  {
    hide SpanDigits;
    var s := d + rest;
    assert forall i :: 0 <= i < |d| ==> s[i] == d[i];
    assert s[|d|] == rest[0];
  }

  /** `RESUMEN: P/T tests OK, F fallaron`, in digits. */
  ghost predicate IsSummary(line: string, s: Summary) {
    exists p, t, f :: SummaryOf(line, p, t, f) && ParseNat(p) == s.passed && ParseNat(t) == s.total && ParseNat(f) == s.failed
  }

  predicate SummaryOf(line: string, p: string, t: string, f: string) {
    && p != "" && AllDigits(p) && t != "" && AllDigits(t) && f != "" && AllDigits(f)
    && line == "RESUMEN: " + (p + ("/" + (t + (" tests OK, " + (f + (" fallaron" + ""))))))
  }

  lemma SummaryMeans(line: string, s: Summary)
    ensures ReadSummary(line) == Some(s) <==> IsSummary(line, s)
  {
    hide Number, ParseNat;
    if ReadSummary(line) == Some(s) {
      var a := Number(line[9..], "/").value;
      var b := Number(a.1, " tests OK, ").value;
      NumberMeans(line[9..], "/", a.0, a.1);
      NumberMeans(a.1, " tests OK, ", b.0, b.1);
      NumberMeans(b.1, " fallaron", s.failed, "");
      var p :| Counts(line[9..], p, "/", a.1) && ParseNat(p) == a.0;
      var t :| Counts(a.1, t, " tests OK, ", b.1) && ParseNat(t) == b.0;
      var f :| Counts(b.1, f, " fallaron", "") && ParseNat(f) == s.failed;
      assert line == "RESUMEN: " + line[9..];
      assert SummaryOf(line, p, t, f);
    }
    if IsSummary(line, s) {
      var p, t, f :| SummaryOf(line, p, t, f) && ParseNat(p) == s.passed && ParseNat(t) == s.total && ParseNat(f) == s.failed;
      var c := f + (" fallaron" + "");
      var b := t + (" tests OK, " + c);
      var a := p + ("/" + b);
      assert line[9..] == a;
      assert Counts(a, p, "/", b) && Counts(b, t, " tests OK, ", c) && Counts(c, f, " fallaron", "");
      NumberMeans(a, "/", s.passed, b);
      NumberMeans(b, " tests OK, ", s.total, c);
      NumberMeans(c, " fallaron", s.failed, "");
    }
  }

  /** No line means two things, and each means what it spells: a header, a result, the totals, the last line, or a skip. */
  lemma LineMeans(line: string)
    ensures forall n :: Classify(line) == Header(n) <==> line == "=== " + n + " ===" && IsScript(n)
    ensures forall n :: Classify(line) == Terminal(n, true) <==> line == "--- PASS: " + n && IsScript(n)
    ensures forall n :: Classify(line) == Terminal(n, false) <==> line == "--- FAIL: " + n && IsScript(n)
    ensures forall s :: Classify(line) == Totals(s) <==> IsSummary(line, s)
    ensures Classify(line) == Final(true) <==> line == "TODOS LOS TESTS PASARON"
    ensures Classify(line) == Final(false) <==> line == "AL MENOS UN TEST FALL\U{D3}"
  {
    hide IsName, IsScript, ReadSummary, IsSummary, IsSkip, IsHeader, IsTerminal;
    HeaderMeans(line);
    TerminalMeans(line, true);
    TerminalMeans(line, false);
    forall s: Summary
      ensures ReadSummary(line) == Some(s) <==> IsSummary(line, s)
    {
      SummaryMeans(line, s);
    }
    forall n: string
      ensures IsName(n) <==> IsScript(n)
    {
      NameIsScript(n);
    }
    KindsDiffer(line);
  }

  lemma KindsDiffer(line: string)
    ensures IsHeader(line) ==> line[0] == '='
    ensures IsTerminal(line) ==> line[0] == '-'
    ensures ReadSummary(line).Some? ==> line != "" && line[0] == 'R'
    ensures FINAL_OK[0] == 'T' && FINAL_BAD[0] == 'A'
  {
    hide Number, IsName;
    if IsHeader(line) {
      assert line[0] == line[..4][0];
    }
    if IsTerminal(line) {
      assert line[0] == line[..10][0];
    }
  }

  // ---- skips ----

  /** The characters that match a letter of the two markers whatever its case. */
  function Matching(c: char): set<char> {
    match c
    case 'S' => {'S', 's', '\U{17F}'}
    case 'K' => {'K', 'k', '\U{212A}'}
    case 'I' => {'I', 'i', '\U{130}', '\U{131}'}
    case 'P' => {'P', 'p'}
    case _ => {c}
  }

  predicate Begins(line: string, marker: string) {
    |line| >= |marker| && forall i :: 0 <= i < |marker| ==> line[i] in Matching(marker[i])
  }

  lemma FoldMatches(c: char, m: char)
    requires m in {'[', 'S', 'K', 'I', 'P', ']', '-', ' '}
    ensures Fold(c) == m <==> c in Matching(m)
  {
  }

  lemma BeginsIs(line: string, marker: string)
    requires forall i :: 0 <= i < |marker| ==> marker[i] in {'[', 'S', 'K', 'I', 'P', ']', '-', ' '}
    ensures FoldsTo(line, marker) <==> Begins(line, marker)
  {
    hide Fold, Matching;
    forall i | 0 <= i < |marker| && i < |line|
      ensures Fold(line[i]) == marker[i] <==> line[i] in Matching(marker[i])
    {
      FoldMatches(line[i], marker[i]);
    }
  }

  /** A line counts as a skip when it means nothing else and begins with either marker. */
  lemma SkipMeans(line: string)
    ensures Classify(line) == Skip <==>
      && !IsHeader(line) && !IsTerminal(line) && ReadSummary(line).None? && line != FINAL_OK && line != FINAL_BAD
      && (Begins(line, "[SKIP]") || Begins(line, "--- SKIP"))
  {
    hide IsHeader, IsTerminal, ReadSummary, Begins, FoldsTo;
    BeginsIs(line, "[SKIP]");
    BeginsIs(line, "--- SKIP");
  }

  // ---- verdicts ----

  predicate Finished(p: Parsed, name: string, pass: bool) {
    exists i :: 0 <= i < |p.terminals| && p.terminals[i] == (name, pass)
  }

  /** Exactly one result line names the script, and it says it passed. */
  ghost predicate PassedOnce(p: Parsed, name: string) {
    exists i :: 0 <= i < |p.terminals| && p.terminals[i] == (name, true) &&
      forall j :: 0 <= j < |p.terminals| && j != i ==> p.terminals[j].0 != name
  }

  lemma {:induction false} StatusAt(terminals: seq<(string, bool)>, name: string, b: bool)
    ensures b in Statuses(terminals, name) <==> exists i :: 0 <= i < |terminals| && terminals[i] == (name, b)
  {
    if terminals != [] {
      var n := |terminals| - 1;
      StatusAt(terminals[..n], name, b);
      assert forall i :: 0 <= i < n ==> terminals[..n][i] == terminals[i];
      assert terminals[n] == (terminals[n].0, terminals[n].1);
    }
  }

  lemma {:induction false} NoStatus(terminals: seq<(string, bool)>, name: string)
    ensures Statuses(terminals, name) == [] <==> forall i :: 0 <= i < |terminals| ==> terminals[i].0 != name
  {
    if terminals != [] {
      var n := |terminals| - 1;
      NoStatus(terminals[..n], name);
      assert forall i :: 0 <= i < n ==> terminals[..n][i] == terminals[i];
    }
  }

  ghost predicate AtMostOne(terminals: seq<(string, bool)>, name: string) {
    forall i, j :: 0 <= i < j < |terminals| ==> !(terminals[i].0 == name && terminals[j].0 == name)
  }

  lemma {:induction false} OneStatusAtMost(terminals: seq<(string, bool)>, name: string)
    ensures |Statuses(terminals, name)| <= 1 <==> AtMostOne(terminals, name)
  {
    hide Statuses, AtMostOne;
    if terminals == [] {
      NoneAtAll(name);
    } else {
      var n := |terminals| - 1;
      OneStatusAtMost(terminals[..n], name);
      NoStatus(terminals[..n], name);
      OneMore(terminals, name);
    }
  }

  lemma NoneAtAll(name: string)
    ensures Statuses([], name) == [] && AtMostOne([], name)
  {
  }

  lemma OneMore(terminals: seq<(string, bool)>, name: string)
    requires terminals != []
    ensures var n := |terminals| - 1;
      var init, here := terminals[..n], terminals[n].0 == name;
      && |Statuses(terminals, name)| == |Statuses(init, name)| + (if here then 1 else 0)
      && (AtMostOne(terminals, name) <==> AtMostOne(init, name) && !(here && exists i :: 0 <= i < n && init[i].0 == name))
  {
    var n := |terminals| - 1;
    var init := terminals[..n];
    assert forall i :: 0 <= i < n ==> init[i] == terminals[i];
    LastMeetsNone(terminals, name);
  }

  lemma LastMeetsNone(terminals: seq<(string, bool)>, name: string)
    requires terminals != []
    ensures var n := |terminals| - 1;
      AtMostOne(terminals, name) ==> forall i :: 0 <= i < n && terminals[i].0 == name ==> terminals[n].0 != name
  {
  }

  lemma StatusesHold(terminals: seq<(string, bool)>, name: string)
    ensures forall b :: b in Statuses(terminals, name) <==> exists i :: 0 <= i < |terminals| && terminals[i] == (name, b)
    ensures |Statuses(terminals, name)| <= 1 <==> AtMostOne(terminals, name)
    ensures Statuses(terminals, name) == [] <==> forall i :: 0 <= i < |terminals| ==> terminals[i].0 != name
  {
    hide Statuses, AtMostOne;
    StatusAt(terminals, name, true);
    StatusAt(terminals, name, false);
    OneStatusAtMost(terminals, name);
    NoStatus(terminals, name);
  }

  lemma PassedMeans(p: Parsed, name: string)
    ensures name in PassedScripts(p) <==> PassedOnce(p, name)
    ensures name in FailedScripts(p) <==> Finished(p, name, false)
  {
    hide Names, Statuses;
    EveryName(p.terminals);
    StatusesHold(p.terminals, name);
    var ss := Statuses(p.terminals, name);
    if ss == [true] {
      assert ss[0] in ss;
      var i :| 0 <= i < |p.terminals| && p.terminals[i] == (name, true);
      assert PassedOnce(p, name);
    }
    if PassedOnce(p, name) {
      var i :| 0 <= i < |p.terminals| && p.terminals[i] == (name, true) &&
        forall j :: 0 <= j < |p.terminals| && j != i ==> p.terminals[j].0 != name;
      assert true in ss && |ss| <= 1;
      assert ss == [ss[0]];
    }
  }

  ghost predicate ArePassed(p: Parsed, names: set<string>) {
    forall n :: n in names <==> PassedOnce(p, n)
  }

  ghost predicate AreFailed(p: Parsed, names: set<string>) {
    forall n :: n in names <==> Finished(p, n, false)
  }

  /** The totals are those of the log: as many scripts as different headers, as many passed as have one result line and
      that a pass, as many failed as have a failing one. */
  ghost predicate TotalsAgree(p: Parsed, s: Summary) {
    exists passed: set<string>, failed: set<string> ::
      ArePassed(p, passed) && AreFailed(p, failed)
      && s.passed == |passed| && s.failed == |failed| && s.total == |set h | h in p.headers|
  }

  lemma MismatchMeans(p: Parsed)
    ensures Mismatch(p) <==> p.summary.Some? && !TotalsAgree(p, p.summary.value)
  {
    hide PassedScripts, FailedScripts, PassedOnce, Finished;
    forall n: string
      ensures n in PassedScripts(p) <==> PassedOnce(p, n)
      ensures n in FailedScripts(p) <==> Finished(p, n, false)
    {
      PassedMeans(p, n);
    }
    assert ArePassed(p, PassedScripts(p)) && AreFailed(p, FailedScripts(p));
    assert forall names :: ArePassed(p, names) ==> names == PassedScripts(p);
    assert forall names :: AreFailed(p, names) ==> names == FailedScripts(p);
  }

  /** A script is announced more than once. */
  ghost predicate HeaderTwice(p: Parsed) {
    exists i, j :: 0 <= i < j < |p.headers| && p.headers[i] == p.headers[j]
  }

  ghost predicate ResultTwice(p: Parsed) {
    exists i, j :: 0 <= i < j < |p.terminals| && p.terminals[i].0 == p.terminals[j].0
  }

  /** A script is announced and no result line names it. */
  ghost predicate ResultMissing(p: Parsed) {
    exists h <- p.headers :: forall i :: 0 <= i < |p.terminals| ==> p.terminals[i].0 != h
  }

  /** A result line names a script that was never announced. */
  ghost predicate ResultUnannounced(p: Parsed) {
    exists t <- p.terminals :: t.0 !in p.headers
  }

  lemma StructureMeans(p: Parsed)
    ensures WithoutTerminal(p) != {} <==> ResultMissing(p)
    ensures Orphans(p) != {} <==> ResultUnannounced(p)
    ensures DuplicateTerminals(p) != {} <==> ResultTwice(p)
    ensures DuplicateHeaders(p) != {} <==> HeaderTwice(p)
  {
    hide Names, Statuses;
    EveryName(p.terminals);
    forall n: string
      ensures |Statuses(p.terminals, n)| <= 1 <==> AtMostOne(p.terminals, n)
      ensures Statuses(p.terminals, n) == [] <==> forall i :: 0 <= i < |p.terminals| ==> p.terminals[i].0 != n
    {
      StatusesHold(p.terminals, n);
    }
    MissingMeans(p);
    UnannouncedMeans(p);
    TwiceMeans(p);
    CountOnce(p.headers);
    HeadersTwice(p);
  }

  lemma MissingMeans(p: Parsed)
    requires forall n :: Statuses(p.terminals, n) == [] <==> forall i :: 0 <= i < |p.terminals| ==> p.terminals[i].0 != n
    requires forall n :: n in Names(p.terminals) <==> Statuses(p.terminals, n) != []
    ensures WithoutTerminal(p) != {} <==> ResultMissing(p)
  {
    hide Names, Statuses;
    if WithoutTerminal(p) != {} {
      var h :| h in WithoutTerminal(p);
      assert h in p.headers;
    }
    if ResultMissing(p) {
      var h :| h in p.headers && forall i :: 0 <= i < |p.terminals| ==> p.terminals[i].0 != h;
      assert h in WithoutTerminal(p);
    }
  }

  lemma UnannouncedMeans(p: Parsed)
    requires forall t <- p.terminals :: t.0 in Names(p.terminals)
    requires forall s <- Names(p.terminals) :: exists i :: 0 <= i < |p.terminals| && p.terminals[i].0 == s
    ensures Orphans(p) != {} <==> ResultUnannounced(p)
  {
    hide Names;
    if Orphans(p) != {} {
      var s :| s in Orphans(p);
      var i :| 0 <= i < |p.terminals| && p.terminals[i].0 == s;
      assert p.terminals[i] in p.terminals;
    }
    if ResultUnannounced(p) {
      var t :| t in p.terminals && t.0 !in p.headers;
      assert t.0 in Orphans(p);
    }
  }

  lemma TwiceMeans(p: Parsed)
    requires forall n :: n in Names(p.terminals) <==> Statuses(p.terminals, n) != []
    requires forall n :: |Statuses(p.terminals, n)| <= 1 <==> AtMostOne(p.terminals, n)
    ensures DuplicateTerminals(p) != {} <==> ResultTwice(p)
  {
    hide Names, Statuses;
    if DuplicateTerminals(p) != {} {
      var n :| n in DuplicateTerminals(p);
    }
    if ResultTwice(p) {
      var i, j :| 0 <= i < j < |p.terminals| && p.terminals[i].0 == p.terminals[j].0;
      assert p.terminals[i].0 in DuplicateTerminals(p);
    }
  }

  lemma HeadersTwice(p: Parsed)
    requires Distinct(p.headers) <==> OnceEach(p.headers)
    ensures DuplicateHeaders(p) != {} <==> HeaderTwice(p)
  {
    if DuplicateHeaders(p) != {} {
      var h :| h in DuplicateHeaders(p);
      assert h in p.headers && multiset(p.headers)[h] > 1;
    }
    if HeaderTwice(p) {
      var h :| h in p.headers && multiset(p.headers)[h] > 1;
      assert h in DuplicateHeaders(p);
    }
  }

  /** When a log is inconclusive, a failure or a pass. */
  lemma VerdictMeans(p: Parsed, exit: Option<int>, expected: Option<set<string>>, timedOut: bool)
    ensures VerdictOf(p, exit, expected, timedOut) == INCONCLUSIVE <==>
      || timedOut || exit == None || p.headers == [] || p.summary == None || p.final == None
      || ResultMissing(p) || ResultUnannounced(p) || ResultTwice(p) || HeaderTwice(p)
      || !TotalsAgree(p, p.summary.value)
    ensures VerdictOf(p, exit, expected, timedOut) == FAIL <==>
      && VerdictOf(p, exit, expected, timedOut) != INCONCLUSIVE
      && (|| exit != Some(0) || p.skips > 0 || (exists n :: Finished(p, n, false))
          || (expected.Some? && exists s <- expected.value :: s !in p.headers))
  {
    hide WithoutTerminal, Orphans, DuplicateTerminals, DuplicateHeaders, FailedScripts, PassedScripts, Mismatch, TotalsAgree,
      ResultMissing, ResultUnannounced, ResultTwice, HeaderTwice, Finished;
    StructureMeans(p);
    MismatchMeans(p);
    FailedMeans(p);
    Omitted(p, expected);
  }

  lemma FailedMeans(p: Parsed)
    ensures FailedScripts(p) != {} <==> exists n :: Finished(p, n, false)
  {
    hide FailedScripts, Finished;
    if FailedScripts(p) != {} {
      var n :| n in FailedScripts(p);
      PassedMeans(p, n);
    }
    if n :| Finished(p, n, false) {
      PassedMeans(p, n);
    }
  }

  /** Each reason is given exactly for its cause; the causes of failure only when nothing is in doubt. */
  lemma ReasonsMean(p: Parsed, exit: Option<int>, expected: Option<set<string>>, timedOut: bool)
    ensures var rs, doubtful := ReasonsFor(p, exit, expected, timedOut), VerdictOf(p, exit, expected, timedOut) == INCONCLUSIVE;
      && (Timeout in rs <==> timedOut) && (ExitCodeMissing in rs <==> exit.None? && !timedOut)
      && (LogEmpty in rs <==> p.headers == []) && (LogTruncated in rs <==> p.summary.None? || p.final.None?)
      && (ScriptsWithoutTerminalLine in rs <==> ResultMissing(p))
      && (LogStructureInconsistent in rs <==> ResultUnannounced(p) || ResultTwice(p) || HeaderTwice(p))
      && (SummaryMismatch in rs <==> p.summary.Some? && !TotalsAgree(p, p.summary.value))
      && (TestsOmitted in rs <==> !doubtful && expected.Some? && exists s <- expected.value :: s !in p.headers)
      && (TestsFailed in rs <==> !doubtful && exists n :: Finished(p, n, false))
      && (ExitCodeNonzero in rs <==> !doubtful && exit != Some(0))
      && (ExitCodeInconsistent in rs <==> !doubtful && exit == Some(0) && exists n :: Finished(p, n, false))
      && (SkippedTestsPresent in rs <==> !doubtful && p.skips > 0)
  {
    hide WithoutTerminal, Orphans, DuplicateTerminals, DuplicateHeaders, FailedScripts, PassedScripts, Mismatch, TotalsAgree,
      ResultMissing, ResultUnannounced, ResultTwice, HeaderTwice, Finished, DoubtsAbout, Faults;
    StructureMeans(p);
    MismatchMeans(p);
    FailedMeans(p);
    DoubtsMean(p, exit, timedOut);
    FaultsMean(p, exit, expected);
    Omitted(p, expected);
  }

  lemma Omitted(p: Parsed, expected: Option<set<string>>)
    ensures expected.Some? && expected.value - Scripts(p) != {} <==> expected.Some? && exists s <- expected.value :: s !in p.headers
  {
    if expected.Some? && expected.value - Scripts(p) != {} {
      var s :| s in expected.value - Scripts(p);
      assert s !in p.headers;
    }
    if expected.Some? && exists s <- expected.value :: s !in p.headers {
      var s :| s in expected.value && s !in p.headers;
      assert s in expected.value - Scripts(p);
    }
  }

  lemma DoubtsMean(p: Parsed, exit: Option<int>, timedOut: bool)
    ensures forall r :: r in DoubtsAbout(p, exit, timedOut) <==>
      match r
      case Timeout => timedOut
      case ExitCodeMissing => exit.None? && !timedOut
      case LogEmpty => p.headers == []
      case LogTruncated => p.summary.None? || p.final.None?
      case ScriptsWithoutTerminalLine => WithoutTerminal(p) != {}
      case LogStructureInconsistent => Orphans(p) != {} || DuplicateTerminals(p) != {} || DuplicateHeaders(p) != {}
      case SummaryMismatch => Mismatch(p)
      case _ => false
    ensures DoubtsAbout(p, exit, timedOut) == [] <==> !Inconclusive(p, exit, timedOut)
  {
    hide WithoutTerminal, Orphans, DuplicateTerminals, DuplicateHeaders, Mismatch;
  }

  lemma FaultsMean(p: Parsed, exit: Option<int>, expected: Option<set<string>>)
    ensures forall r :: r in Faults(p, exit, expected) <==>
      match r
      case TestsOmitted => expected.Some? && expected.value - Scripts(p) != {}
      case TestsFailed => FailedScripts(p) != {}
      case ExitCodeNonzero => exit != Some(0)
      case ExitCodeInconsistent => exit == Some(0) && FailedScripts(p) != {}
      case SkippedTestsPresent => p.skips > 0
      case _ => false
  {
    hide FailedScripts, Scripts;
  }
}
