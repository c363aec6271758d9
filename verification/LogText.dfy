/** The lines of a test log, and what each of them means to the parser. */
module LogText {
  import opened Digits
  import opened Options

  datatype Summary = Summary(passed: nat, total: nat, failed: nat)

  datatype Mark =
    | Header(name: string)
    | Terminal(name: string, pass: bool)
    | Totals(summary: Summary)
    | Final(good: bool)
    | Skip
    | Other

  const FINAL_OK := "TODOS LOS TESTS PASARON"
  const FINAL_BAD := "AL MENOS UN TEST FALL\U{D3}"

  // ---- lines ----

  /** Replaces each `\r\n` by `\n`. */
  function Normalize(s: string): string {
    if s == "" then ""
    else if |s| >= 2 && s[0] == '\r' && s[1] == '\n' then "\n" + Normalize(s[2..])
    else [s[0]] + Normalize(s[1..])
  }

  /** Splits at each `\n`; the piece after the last one is a line as well. */
  function Split(s: string): (lines: seq<string>)
    ensures lines != []
  {
    if s == "" then [""]
    else if s[0] == '\n' then [""] + Split(s[1..])
    else [[s[0]] + Split(s[1..])[0]] + Split(s[1..])[1..]
  }

  function LinesOf(text: string): seq<string> {
    Split(Normalize(text))
  }

  predicate Ended(s: string) {
    s == "" || s[|s| - 1] == '\n'
  }

  predicate Without(s: string, c: char) {
    forall i :: 0 <= i < |s| ==> s[i] != c
  }

  lemma SplitStep(s: string)
    requires s != ""
    ensures var rest := Split(s[1..]);
      Split(s) == if s[0] == '\n' then [""] + rest else [[s[0]] + rest[0]] + rest[1..]
  {
  }

  lemma {:induction false} SplitAtNewline(a: string, b: string)
    ensures Split(a + "\n" + b) == Split(a) + Split(b)
  {
    hide Split;
    var s := a + "\n" + b;
    SplitStep(s);
    if a == "" {
      SplitOne("");
      assert s[1..] == b;
    } else {
      SplitStep(a);
      SplitAtNewline(a[1..], b);
      assert s[1..] == a[1..] + "\n" + b;
    }
  }

  function GlueLast(lines: seq<string>, b: string): seq<string>
    requires lines != []
  {
    lines[..|lines| - 1] + [lines[|lines| - 1] + b]
  }

  lemma GlueAfterFirst(c: char, rest: seq<string>, b: string)
    requires rest != []
    ensures GlueLast([""] + rest, b) == [""] + GlueLast(rest, b)
    ensures var g := GlueLast(rest, b);
      GlueLast([[c] + rest[0]] + rest[1..], b) == [[c] + g[0]] + g[1..]
  {
    if |rest| == 1 {
      assert [c] + rest[0] + b == [c] + (rest[0] + b);
    }
  }

  lemma {:induction false} SplitGlued(a: string, b: string)
    requires Without(b, '\n')
    ensures Split(a + b) == GlueLast(Split(a), b)
  {
    hide GlueLast;
    if a == "" {
      SplitOne(b);
      assert a + b == b;
      assert GlueLast([""], b) == [b] by {
        GlueOne(b);
      }
    } else {
      SplitGlued(a[1..], b);
      assert (a + b)[1..] == a[1..] + b;
      GlueAfterFirst(a[0], Split(a[1..]), b);
    }
  }

  lemma GlueOne(b: string)
    ensures GlueLast([""], b) == [b]
  {
    assert "" + b == b;
  }

  lemma {:induction false} SplitOne(s: string)
    requires Without(s, '\n')
    ensures Split(s) == [s]
  {
    if s != "" {
      SplitOne(s[1..]);
      assert [s[0]] + s[1..] == s;
    }
  }

  lemma {:induction false} LastLineNotEmpty(s: string)
    requires !Ended(s)
    ensures Split(s)[|Split(s)| - 1] != ""
  {
    if |s| == 1 {
      assert s[1..] == "";
    } else {
      LastLineNotEmpty(s[1..]);
      var rest := Split(s[1..]);
      assert s[0] != '\n' && |rest| > 1 ==> Split(s)[|rest| - 1] == rest[|rest| - 1];
    }
  }

  lemma NormalizeStep(s: string)
    requires s != ""
    ensures Normalize(s) ==
      if |s| >= 2 && s[0] == '\r' && s[1] == '\n' then "\n" + Normalize(s[2..]) else [s[0]] + Normalize(s[1..])
  {
  }

  lemma {:induction false} NormalizeConcat(a: string, b: string)
    requires a == "" || b == "" || a[|a| - 1] != '\r' || b[0] != '\n'
    ensures Normalize(a + b) == Normalize(a) + Normalize(b)
    decreases |a|
  {
    hide Normalize;
    var s := a + b;
    if a == "" {
      assert s == b;
      NormalizeClean("");
    } else {
      NormalizeStep(a);
      NormalizeStep(s);
    }
    if a == "" {
    } else if |a| >= 2 && a[0] == '\r' && a[1] == '\n' {
      NormalizeConcat(a[2..], b);
      assert s[2..] == a[2..] + b;
    } else {
      NormalizeConcat(a[1..], b);
      assert s[1..] == a[1..] + b;
    }
  }

  lemma {:induction false} NormalizeEnd(a: string)
    requires a != ""
    ensures Normalize(a) != "" && (a[|a| - 1] == '\n' <==> Normalize(a)[|Normalize(a)| - 1] == '\n')
    decreases |a|
  {
    if |a| >= 2 && a[0] == '\r' && a[1] == '\n' {
      if |a| > 2 {
        NormalizeEnd(a[2..]);
      }
    } else if |a| > 1 {
      NormalizeEnd(a[1..]);
    }
  }

  lemma {:induction false} NormalizeClean(a: string)
    requires Without(a, '\r')
    ensures Normalize(a) == a
  {
    if a != "" {
      NormalizeClean(a[1..]);
    }
  }

  // ---- the lines that mean something ----

  predicate IsNameChar(c: char) {
    'A' <= c <= 'Z' || 'a' <= c <= 'z' || '0' <= c <= '9' || c in "_.+-"
  }

  /** A script name the parser recognizes. */
  predicate IsName(s: string) {
    && |s| > 8 && s[..5] == "test_" && s[|s| - 3..] == ".sh"
    && forall i :: 0 <= i < |s| ==> IsNameChar(s[i])
  }

  predicate IsHeader(line: string) {
    |line| >= 8 && line[..4] == "=== " && line[|line| - 4..] == " ===" && IsName(line[4..|line| - 4])
  }

  predicate IsTerminal(line: string) {
    |line| >= 10 && (line[..10] == "--- PASS: " || line[..10] == "--- FAIL: ") && IsName(line[10..])
  }

  function SpanDigits(s: string): (k: nat)
    ensures k <= |s| && AllDigits(s[..k]) && (k < |s| ==> !IsDigit(s[k]))
    ensures forall i :: 0 <= i < k ==> IsDigit(s[i])
  {
    if s == "" || !IsDigit(s[0]) then 0
    else
      var k := SpanDigits(s[1..]);
      assert forall i :: 0 < i <= k ==> s[i] == s[1..][..k][i - 1];
      k + 1
  }

  /** The number at the start of a text, and what follows it and the given separator. */
  function Number(s: string, separator: string): Option<(nat, string)> {
    var k := SpanDigits(s);
    if k > 0 && separator <= s[k..] then Some((ParseNat(s[..k]), s[k..][|separator|..])) else None
  }

  function ReadSummary(line: string): Option<Summary> {
    if !("RESUMEN: " <= line) then None
    else
      var p := Number(line[9..], "/");
      if p.None? then None
      else
        var t := Number(p.value.1, " tests OK, ");
        if t.None? then None
        else
          var f := Number(t.value.1, " fallaron");
          if f.None? || f.value.1 != "" then None else Some(Summary(p.value.0, t.value.0, f.value.0))
  }

  /** Upper case as a case-insensitive match sees it, the four non-ASCII characters that fold to an ASCII
      letter of the patterns included. */
  function Fold(c: char): char {
    if 'a' <= c <= 'z' then c - 'a' + 'A'
    else if c == '\U{17F}' then 'S'
    else if c == '\U{212A}' then 'K'
    else if c == '\U{130}' || c == '\U{131}' then 'I'
    else c
  }

  predicate FoldsTo(line: string, pattern: string) {
    |line| >= |pattern| && forall i :: 0 <= i < |pattern| ==> Fold(line[i]) == pattern[i]
  }

  predicate IsSkip(line: string) {
    FoldsTo(line, "[SKIP]") || FoldsTo(line, "--- SKIP")
  }

  function Classify(line: string): Mark {
    if IsHeader(line) then Header(line[4..|line| - 4])
    else if IsTerminal(line) then Terminal(line[10..], line[..10] == "--- PASS: ")
    else if ReadSummary(line).Some? then Totals(ReadSummary(line).value)
    else if line == FINAL_OK || line == FINAL_BAD then Final(line == FINAL_OK)
    else if IsSkip(line) then Skip
    else Other
  }

  function MarksOf(lines: seq<string>): seq<Mark> {
    if lines == [] then []
    else
      var m, n := Classify(lines[|lines| - 1]), |lines| - 1;
      MarksOf(lines[..n]) + if m.Other? then [] else [m]
  }

  function Marks(text: string): seq<Mark> {
    MarksOf(LinesOf(text))
  }

  lemma {:induction false} MarksOfConcat(a: seq<string>, b: seq<string>)
    ensures MarksOf(a + b) == MarksOf(a) + MarksOf(b)
    decreases |b|
  {
    hide Classify;
    if b == [] {
      assert a + b == a;
    } else {
      var n := |b| - 1;
      MarksOfConcat(a, b[..n]);
      assert (a + b)[..|a + b| - 1] == a + b[..n];
    }
  }

  lemma MarksOfOne(line: string)
    ensures MarksOf([line]) == if Classify(line).Other? then [] else [Classify(line)]
  {
    hide Classify;
    assert [line][..0] == [];
  }

  lemma EmptyLine()
    ensures Classify("") == Other && MarksOf([""]) == [] && Marks("") == []
  {
    MarksOfOne("");
  }

  /** Complete lines can be read apart from what follows them. */
  lemma MarksConcat(a: string, b: string)
    requires Ended(a)
    ensures Marks(a + b) == Marks(a) + Marks(b)
  {
    hide Split, Normalize, Classify, MarksOf;
    EmptyLine();
    if a == "" {
      assert a + b == b;
    } else {
      NormalizeConcat(a, b);
      NormalizeEnd(a);
      var x := Normalize(a)[..|Normalize(a)| - 1];
      assert Normalize(a) == x + "\n" + "" && Normalize(a) + Normalize(b) == x + "\n" + Normalize(b);
      SplitAtNewline(x, Normalize(b));
      SplitAtNewline(x, "");
      SplitOne("");
      MarksOfConcat(Split(x), [""]);
      MarksOfConcat(Split(x), Split(Normalize(b)));
    }
  }

  lemma MarksOfLine(line: string)
    requires Without(line, '\n') && Without(line, '\r')
    ensures Marks(line + "\n") == MarksOf([line])
  {
    hide Split, Normalize, Classify, MarksOf;
    EmptyLine();
    NormalizeClean(line + "\n");
    assert line + "\n" == line + "\n" + "";
    SplitAtNewline(line, "");
    SplitOne(line);
    SplitOne("");
    MarksOfConcat([line], [""]);
  }

  // ---- the lines the runner prints ----

  function HeaderLine(name: string): string {
    "=== " + name + " ==="
  }

  function TerminalLine(name: string, pass: bool): string {
    (if pass then "--- PASS: " else "--- FAIL: ") + name
  }

  function SummaryLine(s: Summary): string {
    "RESUMEN: " + Decimal(s.passed) + "/" + Decimal(s.total) + " tests OK, " + Decimal(s.failed) + " fallaron"
  }

  lemma HeaderLineIsHeader(name: string)
    requires IsName(name)
    ensures Classify(HeaderLine(name)) == Header(name)
    ensures Without(HeaderLine(name), '\n') && Without(HeaderLine(name), '\r')
  {
    hide IsTerminal, ReadSummary, IsSkip;
    var line := HeaderLine(name);
    assert line[4..|line| - 4] == name;
  }

  lemma TerminalLineIsTerminal(name: string, pass: bool)
    requires IsName(name)
    ensures Classify(TerminalLine(name, pass)) == Terminal(name, pass)
    ensures Without(TerminalLine(name, pass), '\n') && Without(TerminalLine(name, pass), '\r')
  {
    hide ReadSummary, IsSkip;
    var line := TerminalLine(name, pass);
    assert line[..10] == (if pass then "--- PASS: " else "--- FAIL: ") && line[10..] == name;
    assert line[0] == '-';
    assert !IsHeader(line);
  }

  lemma SpanOfDecimal(n: nat, rest: string)
    requires rest == "" || !IsDigit(rest[0])
    ensures SpanDigits(Decimal(n) + rest) == |Decimal(n)|
  {
    hide SpanDigits, Decimal;
    var s, d := Decimal(n) + rest, Decimal(n);
    assert forall i :: 0 <= i < |d| ==> s[i] == d[i];
    assert forall i :: 0 <= i < |rest| ==> s[|d| + i] == rest[i];
  }

  lemma NumberOfDecimal(n: nat, separator: string, rest: string)
    requires separator != "" && !IsDigit(separator[0])
    ensures Number(Decimal(n) + (separator + rest), separator) == Some((n, rest))
  {
    hide SpanDigits, Decimal;
    var s := Decimal(n) + (separator + rest);
    SpanOfDecimal(n, separator + rest);
    ParseDecimal(n);
    assert s[..|Decimal(n)|] == Decimal(n) && s[|Decimal(n)|..] == separator + rest;
  }

  lemma SummaryLineIsRead(s: Summary)
    ensures ReadSummary(SummaryLine(s)) == Some(s)
  {
    hide Number, Decimal;
    var f := Decimal(s.failed) + (" fallaron" + "");
    var t := Decimal(s.total) + (" tests OK, " + f);
    var p := Decimal(s.passed) + ("/" + t);
    NumberOfDecimal(s.failed, " fallaron", "");
    NumberOfDecimal(s.total, " tests OK, ", f);
    NumberOfDecimal(s.passed, "/", t);
    var line := SummaryLine(s);
    assert line == "RESUMEN: " + p;
    assert line[9..] == p;
  }

  lemma SummaryLineIsTotals(s: Summary)
    ensures Classify(SummaryLine(s)) == Totals(s)
    ensures Without(SummaryLine(s), '\n') && Without(SummaryLine(s), '\r')
  {
    hide ReadSummary, Decimal, IsSkip, IsName;
    SummaryLineIsRead(s);
    var line := SummaryLine(s);
    assert line[0] == 'R';
    assert !IsHeader(line) && !IsTerminal(line);
  }

  /** Printed after output that does not end its last line, the terminal line is not seen: the two make one
      line that means nothing. */
  lemma GluedTerminalIsLost(d: string, name: string, pass: bool)
    requires d != "" && IsName(name) && !IsSkip(d)
    ensures Classify(d + TerminalLine(name, pass)) == Other
  {
    var line := d + TerminalLine(name, pass);
    NotHeaderNorTerminal(d, name, pass);
    NotSummaryNorFinal(d, name, pass);
    GluedIsNoSkip(d, name, pass);
  }

  lemma HeaderEnd(line: string)
    requires IsHeader(line)
    ensures line[|line| - 1] == '='
  {
    assert line[|line| - 1] == line[|line| - 4..][3];
  }

  lemma TerminalShape(line: string)
    requires IsTerminal(line)
    ensures line[9] == ' ' && forall i :: 10 <= i < |line| ==> IsNameChar(line[i])
  {
    assert line[9] == line[..10][9];
    assert forall i :: 10 <= i < |line| ==> line[i] == line[10..][i - 10];
  }

  lemma NameEnd(name: string)
    requires IsName(name)
    ensures name != "" && name[|name| - 1] == 'h'
  {
    assert name[|name| - 1] == name[|name| - 3..][2];
  }

  lemma NotHeaderNorTerminal(d: string, name: string, pass: bool)
    requires d != "" && IsName(name)
    ensures var line := d + TerminalLine(name, pass); !IsHeader(line) && !IsTerminal(line)
  {
    hide IsHeader, IsTerminal, IsName;
    var line := d + TerminalLine(name, pass);
    NameEnd(name);
    assert line[|line| - 1] == name[|name| - 1];
    assert line[|d| + 8] == TerminalLine(name, pass)[8] == ':';
    if IsTerminal(line) {
      TerminalShape(line);
    }
    if IsHeader(line) {
      HeaderEnd(line);
    }
  }

  lemma ReadSummaryEnd(line: string)
    requires ReadSummary(line).Some?
    ensures line != "" && line[|line| - 1] == 'n'
  {
    hide Number;
    var p := Number(line[9..], "/").value.1;
    var t := Number(p, " tests OK, ").value.1;
    NumberIsSuffix(line[9..], "/");
    NumberIsSuffix(p, " tests OK, ");
    NumberIsSuffix(t, " fallaron");
    assert " fallaron"[8] == 'n';
  }

  /** What follows a number ends as the text does; if nothing follows, the text ends as the separator. */
  lemma NumberIsSuffix(s: string, separator: string)
    requires separator != "" && Number(s, separator).Some?
    ensures var rest := Number(s, separator).value.1;
      s != "" && s[|s| - 1] == if rest == "" then separator[|separator| - 1] else rest[|rest| - 1]
  {
    hide SpanDigits, ParseNat;
    var k := SpanDigits(s);
    var tail := s[k..];
    assert tail == separator + tail[|separator|..];
    assert s[|s| - 1] == tail[|tail| - 1];
  }

  lemma NotSummaryNorFinal(d: string, name: string, pass: bool)
    requires IsName(name)
    ensures var line := d + TerminalLine(name, pass);
      ReadSummary(line).None? && line != FINAL_OK && line != FINAL_BAD
  {
    hide ReadSummary;
    var line := d + TerminalLine(name, pass);
    NameEnd(name);
    assert line[|line| - 1] == name[|name| - 1];
    if ReadSummary(line).Some? {
      ReadSummaryEnd(line);
    }
    assert FINAL_OK[|FINAL_OK| - 1] == 'N' && FINAL_BAD[|FINAL_BAD| - 1] == '\U{D3}';
  }

  lemma GluedIsNoSkip(d: string, name: string, pass: bool)
    requires d != "" && !IsSkip(d)
    ensures !IsSkip(d + TerminalLine(name, pass))
  {
    var line, t := d + TerminalLine(name, pass), TerminalLine(name, pass);
    assert t[0] == '-' && t[1] == '-' && t[2] == '-';
    assert line[|d|] == t[0] && line[|d| + 1] == t[1] && line[|d| + 2] == t[2];
    assert Fold('-') == '-';
    assert forall i :: 0 <= i < |d| ==> line[i] == d[i];
    assert FoldsTo(line, "[SKIP]") ==> |d| < 6;
    assert FoldsTo(line, "--- SKIP") ==> |d| < 8;
  }
}
