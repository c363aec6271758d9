/** The scanner itself: an index that moves through the text and a list of chunks. */
module SqlScan {
  import opened Options
  import opened SqlAtoms

  datatype Chunk = Sql(text: string) | Lit(text: string) | Bind(name: string)

  function LitClass(t: string): Class {
    if t != "" && t[0] == '\'' then Str else if t != "" && t[0] == '-' then Line else Block
  }

  function ChunkAtoms(c: Chunk): seq<Atom> {
    match c
    case Sql(t) => Mark(t, Code)
    case Lit(t) => Mark(t, LitClass(t))
    case Bind(n) => [Bound(n)]
  }

  function AtomsOf(chunks: seq<Chunk>): seq<Atom> {
    if chunks == [] then [] else AtomsOf(chunks[..|chunks| - 1]) + ChunkAtoms(chunks[|chunks| - 1])
  }

  /** The chunks written one after the other, a colon before each bind. */
  function Joined(chunks: seq<Chunk>): string {
    if chunks == [] then ""
    else
      Joined(chunks[..|chunks| - 1]) + Piece(chunks[|chunks| - 1])
  }

  function Piece(c: Chunk): string {
    match c
    case Sql(t) => t
    case Lit(t) => t
    case Bind(n) => ":" + n
  }

  lemma {:induction false} JoinedIsFill(chunks: seq<Chunk>)
    ensures Joined(chunks) == Fill(AtomsOf(chunks), map[])
  {
    if chunks != [] {
      var init, last := chunks[..|chunks| - 1], chunks[|chunks| - 1];
      JoinedIsFill(init);
      FillConcat(AtomsOf(init), ChunkAtoms(last), map[]);
      match last
      case Sql(t) => FillMark(t, Code, map[]);
      case Lit(t) => FillMark(t, LitClass(t), map[]);
      case Bind(n) => FillSingle(Bound(n), map[]);
    }
  }

  // ---- binds ----

  const CAPITALS := "ABCDEFGHIJKLMNOPQRSTUVWXYZ"
  const SMALL := "abcdefghijklmnopqrstuvwxyz"
  const DIGITS := "0123456789"

  lemma CapitalsMean(c: char)
    ensures c in CAPITALS <==> 'A' <= c <= 'Z'
  {
    forall k | 0 <= k < 26
      ensures CAPITALS[k] == 'A' + k as char
    {
    }
    if 'A' <= c <= 'Z' {
      assert CAPITALS[(c - 'A') as int] == c;
    }
  }

  lemma SmallMean(c: char)
    ensures c in SMALL <==> 'a' <= c <= 'z'
  {
    forall k | 0 <= k < 26
      ensures SMALL[k] == 'a' + k as char
    {
    }
    if 'a' <= c <= 'z' {
      assert SMALL[(c - 'a') as int] == c;
    }
  }

  lemma DigitsMean(c: char)
    ensures c in DIGITS <==> '0' <= c <= '9'
  {
    forall k | 0 <= k < 10
      ensures DIGITS[k] == '0' + k as char
    {
    }
    if '0' <= c <= '9' {
      assert DIGITS[(c - '0') as int] == c;
    }
  }

  predicate IsLetter(c: char) {
    c in CAPITALS || c in SMALL
  }

  lemma CharactersMean(c: char)
    ensures AsciiLetter(c) <==> IsLetter(c)
    ensures AsciiDigit(c) <==> c in DIGITS
  {
    hide CAPITALS, SMALL, DIGITS;
    CapitalsMean(c);
    SmallMean(c);
    DigitsMean(c);
  }

  predicate InName(c: char) {
    IsLetter(c) || c in DIGITS || c == '_'
  }

  lemma {:induction false} NameIsLongest(s: string)
    ensures var n := NameTail(s);
      (forall i :: 0 <= i < n ==> InName(s[i])) && (n < |s| ==> !InName(s[n]))
  {
    if s != "" {
      CharactersMean(s[0]);
      NameIsLongest(s[1..]);
      var n := NameTail(s[1..]);
      assert forall i :: 0 < i <= n ==> s[i] == s[1..][i - 1];
    }
  }

  /** A bind begins at a colon that no letter, digit, underscore or colon precedes and a letter or underscore follows, and
      its name is the longest run of letters, digits and underscores from there. */
  lemma BindMeans(p: Option<char>, s: string, other: char -> bool)
    ensures BindsHere(p, s, other) <==>
      && |s| > 1 && s[0] == ':' && (IsLetter(s[1]) || s[1] == '_')
      && (p.Some? ==> !InName(p.value) && p.value != ':' && !(p.value as int > 127 && other(p.value)))
    ensures BindsHere(p, s, other) ==>
      var n := NameLen(s[1..]);
      n > 0 && (forall i :: 0 < i <= n ==> InName(s[i])) && (n + 1 < |s| ==> !InName(s[n + 1]))
  {
    hide AsciiLetter, AsciiDigit, NameTail, IsLetter, DIGITS;
    if p.Some? {
      CharactersMean(p.value);
    }
    if |s| > 1 {
      CharactersMean(s[1]);
      NameIsLongest(s[2..]);
      var n := NameTail(s[2..]);
      assert s[1..][1..] == s[2..];
      assert forall i :: 2 <= i < n + 2 ==> s[i] == s[2..][i - 2];
    }
  }

  // ---- one step ----

  /** Where a string that is open at `j` ends: its closing quote, or the end of the text. */
  function StrEnd(s: string, j: nat): (e: nat)
    requires j <= |s|
    ensures j <= e <= |s|
    decreases |s| - j
  {
    if j == |s| then j
    else if s[j] == '\'' then
      if j + 1 < |s| && s[j + 1] == '\'' then StrEnd(s, j + 2) else j
    else StrEnd(s, j + 1)
  }

  function Cut(s: string, i: nat): nat {
    if i <= |s| then i else |s|
  }

  function PrevAt(s: string, i: nat): Option<char>
    requires i <= |s|
  {
    if i == 0 then None else Some(s[i - 1])
  }

  function AtomsFrom(s: string, i: nat, other: char -> bool): seq<Atom> {
    Atoms(PrevAt(s, Cut(s, i)), s[Cut(s, i)..], other)
  }

  /** The index the scanner goes to from `i`. An unclosed comment finds no end, and the failed
      search, taken as an offset, sends the scanner to index 1. */
  function NextIndex(s: string, i: nat, other: char -> bool): nat
    requires i < |s|
  {
    if s[i] == '\'' then StrEnd(s, i + 1) + 1
    else if Stalls(PrevAt(s, i), s[i..]) then 1
    else i + HeadLen(PrevAt(s, i), s[i..], other)
  }

  function StepAtoms(s: string, i: nat, other: char -> bool): seq<Atom>
    requires i < |s|
  {
    if s[i] == '\'' then Mark(s[i..Cut(s, StrEnd(s, i + 1) + 1)], Str)
    else if Stalls(PrevAt(s, i), s[i..]) then [Stall]
    else Head(PrevAt(s, i), s[i..], other)
  }

  lemma MarkSplit(s: string, j: nat, e: nat, cls: Class)
    requires j < e <= |s|
    ensures Mark(s[j..e], cls) == [Plain(s[j], cls)] + Mark(s[j + 1..e], cls)
  {
  }

  lemma InString(s: string, j: nat, other: char -> bool)
    requires j < |s| && s[j] != '\''
    ensures AtomsStr(s[j..], other) == [Plain(s[j], Str)] + AtomsStr(s[j + 1..], other)
  {
    assert s[j..][1..] == s[j + 1..];
  }

  lemma ClosesString(s: string, j: nat, other: char -> bool)
    requires j < |s| && s[j] == '\''
    ensures AtomsStr(s[j..], other) == [Plain('\'', Str)] + Atoms(Some('\''), s[j + 1..], other)
  {
    assert s[j..][1..] == s[j + 1..];
  }

  lemma OpensString(p: Option<char>, s: string, j: nat, other: char -> bool)
    requires j < |s| && s[j] == '\''
    ensures Atoms(p, s[j..], other) == [Plain('\'', Str)] + AtomsStr(s[j + 1..], other)
  {
    assert s[j..][1..] == s[j + 1..];
  }

  /** What follows a string that ends at `e`. */
  function AfterString(s: string, e: nat, other: char -> bool): seq<Atom>
    requires e <= |s|
  {
    if e < |s| then Atoms(Some('\''), s[e + 1..], other) else []
  }

  lemma MoreString(s: string, j: nat, e: nat, rest: seq<Atom>, other: char -> bool)
    requires j < e <= |s| && s[j] != '\'' && AtomsStr(s[j + 1..], other) == Mark(s[j + 1..e], Str) + rest
    ensures AtomsStr(s[j..], other) == Mark(s[j..e], Str) + rest
  {
    InString(s, j, other);
    MarkSplit(s, j, e, Str);
  }

  lemma DoubledQuote(s: string, j: nat, e: nat, rest: seq<Atom>, other: char -> bool)
    requires j + 1 < e <= |s| && s[j] == '\'' && s[j + 1] == '\''
    requires AtomsStr(s[j + 2..], other) == Mark(s[j + 2..e], Str) + rest
    ensures AtomsStr(s[j..], other) == Mark(s[j..e], Str) + rest
  {
    ClosesString(s, j, other);
    OpensString(Some('\''), s, j + 1, other);
    MarkSplit(s, j, e, Str);
    MarkSplit(s, j + 1, e, Str);
  }

  lemma ClosingQuote(s: string, j: nat, other: char -> bool)
    requires j < |s| && s[j] == '\''
    ensures AtomsStr(s[j..], other) == Mark(s[j..j + 1], Str) + AfterString(s, j, other)
  {
    ClosesString(s, j, other);
  }

  /** The scanner's view of a string, doubled quotes skipped, agrees with closing and reopening it. */
  lemma {:induction false} StringAtoms(s: string, j: nat, e: nat, rest: seq<Atom>, other: char -> bool)
    requires j <= |s| && e == Cut(s, StrEnd(s, j) + 1) && rest == AfterString(s, StrEnd(s, j), other)
    ensures AtomsStr(s[j..], other) == Mark(s[j..e], Str) + rest
    decreases |s| - j
  {
    if j == |s| {
      assert s[j..] == "" && s[j..e] == "";
    } else if s[j] != '\'' {
      StringAtoms(s, j + 1, e, rest, other);
      MoreString(s, j, e, rest, other);
    } else if j + 1 < |s| && s[j + 1] == '\'' {
      StringAtoms(s, j + 2, e, rest, other);
      DoubledQuote(s, j, e, rest, other);
    } else {
      ClosingQuote(s, j, other);
    }
  }

  lemma StringStep(s: string, i: nat, other: char -> bool)
    requires i < |s| && s[i] == '\''
    ensures AtomsFrom(s, i, other) == Mark(s[i..Cut(s, StrEnd(s, i + 1) + 1)], Str) + AtomsFrom(s, StrEnd(s, i + 1) + 1, other)
  {
    hide Atoms, AtomsStr, StrEnd;
    var e, end := Cut(s, StrEnd(s, i + 1) + 1), StrEnd(s, i + 1);
    StringAtoms(s, i + 1, e, AfterString(s, end, other), other);
    OpensString(PrevAt(s, i), s, i, other);
    MarkSplit(s, i, e, Str);
    AfterStringIsCode(s, i + 1, other);
  }

  lemma AfterStringIsCode(s: string, j: nat, other: char -> bool)
    requires j <= |s|
    ensures AfterString(s, StrEnd(s, j), other) == AtomsFrom(s, StrEnd(s, j) + 1, other)
  {
    hide Atoms;
    if StrEnd(s, j) < |s| {
      QuoteAtEnd(s, j);
    } else {
      NothingLeft(s, StrEnd(s, j) + 1, other);
    }
  }

  lemma NothingLeft(s: string, i: nat, other: char -> bool)
    ensures i >= |s| ==> AtomsFrom(s, i, other) == []
  {
    if i >= |s| {
      assert s[Cut(s, i)..] == "";
    }
  }

  lemma HeadStep(s: string, i: nat, other: char -> bool)
    requires i < |s| && HasHead(PrevAt(s, i), s[i..])
    ensures var n := HeadLen(PrevAt(s, i), s[i..], other);
      AtomsFrom(s, i, other) == Head(PrevAt(s, i), s[i..], other) + AtomsFrom(s, i + n, other)
  {
    AtomsUnfold(PrevAt(s, i), s[i..], other);
    var n := HeadLen(PrevAt(s, i), s[i..], other);
    assert s[i..][n..] == s[i + n..] && s[i..][n - 1] == s[i + n - 1];
  }

  predicate StallsAt(s: string, i: nat) {
    i < |s| && Stalls(PrevAt(s, i), s[i..])
  }

  lemma OneStep(s: string, i: nat, other: char -> bool)
    requires i < |s|
    ensures !StallsAt(s, i) ==>
      && i < NextIndex(s, i, other)
      && AtomsFrom(s, i, other) == StepAtoms(s, i, other) + AtomsFrom(s, NextIndex(s, i, other), other)
      && Stall !in StepAtoms(s, i, other)
    ensures StallsAt(s, i) ==>
      AtomsFrom(s, i, other) == [Stall] && 0 < i && NextIndex(s, i, other) == 1
  {
    if s[i] == '\'' {
      StringStep(s, i, other);
    } else if StallsAt(s, i) {
      assert s[i..][0] == s[i];
    } else {
      HeadStep(s, i, other);
    }
  }

  lemma {:induction false} QuoteAtEnd(s: string, j: nat)
    requires j <= |s| && StrEnd(s, j) < |s|
    ensures s[StrEnd(s, j)] == '\''
    decreases |s| - j
  {
    if j < |s| && !(s[j] == '\'' && !(j + 1 < |s| && s[j + 1] == '\'')) {
      QuoteAtEnd(s, if s[j] == '\'' then j + 2 else j + 1);
    }
  }

  // ---- termination, exactly ----

  /** The scanner reaches the end, either straight away or after one trip back to index 1. */
  predicate Terminates(s: string, other: char -> bool) {
    Stall !in AtomsFrom(s, 0, other) || Stall !in AtomsFrom(s, 1, other)
  }

  /** The index after `k` steps. */
  function IndexAfter(s: string, k: nat, other: char -> bool): nat {
    if k == 0 then 0
    else
      var i := IndexAfter(s, k - 1, other);
      if i < |s| then NextIndex(s, i, other) else i
  }

  lemma {:induction false} StalledForever(s: string, k: nat, other: char -> bool)
    requires !Terminates(s, other)
    ensures IndexAfter(s, k, other) < |s| && Stall in AtomsFrom(s, IndexAfter(s, k, other), other)
  {
    hide AtomsFrom, NextIndex, StepAtoms, StallsAt;
    if k == 0 {
      NothingLeft(s, 0, other);
    } else {
      StalledForever(s, k - 1, other);
      var i := IndexAfter(s, k - 1, other);
      OneStep(s, i, other);
      NothingLeft(s, NextIndex(s, i, other), other);
    }
  }

  /** From an index with no stall ahead the end is reached. */
  lemma {:induction false} RunsOut(s: string, k: nat, other: char -> bool) returns (n: nat)
    requires Stall !in AtomsFrom(s, IndexAfter(s, k, other), other)
    ensures IndexAfter(s, n, other) >= |s|
    decreases |s| - IndexAfter(s, k, other)
  {
    hide AtomsFrom, StepAtoms, StallsAt;
    var i := IndexAfter(s, k, other);
    if i >= |s| {
      n := k;
    } else {
      OneStep(s, i, other);
      assert [Stall][0] == Stall;
      assert IndexAfter(s, k + 1, other) == NextIndex(s, i, other);
      n := RunsOut(s, k + 1, other);
    }
  }

  lemma StallAhead(s: string, i: nat, other: char -> bool)
    requires i < |s| && Stall in AtomsFrom(s, i, other)
    ensures if StallsAt(s, i) then NextIndex(s, i, other) == 1
            else i < NextIndex(s, i, other) && Stall in AtomsFrom(s, NextIndex(s, i, other), other)
  {
    OneStep(s, i, other);
  }

  lemma IndexNext(s: string, k: nat, other: char -> bool)
    requires IndexAfter(s, k, other) < |s|
    ensures IndexAfter(s, k + 1, other) == NextIndex(s, IndexAfter(s, k, other), other)
  {
  }

  /** Follows the scan to its first stall; from there it is at index 1. */
  lemma {:induction false} BackToOne(s: string, k: nat, i: nat, other: char -> bool) returns (n: nat)
    requires i == IndexAfter(s, k, other) && Stall in AtomsFrom(s, i, other)
    ensures IndexAfter(s, n, other) == 1
    decreases |s| - i
  {
    hide AtomsFrom, NextIndex, IndexAfter, Stalls;
    NothingLeft(s, i, other);
    StallAhead(s, i, other);
    IndexNext(s, k, other);
    n := k + 1;
    if !StallsAt(s, i) {
      n := BackToOne(s, k + 1, NextIndex(s, i, other), other);
    }
  }

  /** The scanner reaches the end of the text if and only if `Terminates`. */
  lemma TerminatesExactly(s: string, other: char -> bool)
    ensures Terminates(s, other) <==> exists k: nat :: IndexAfter(s, k, other) >= |s|
  {
    if Terminates(s, other) {
      if Stall !in AtomsFrom(s, 0, other) {
        var n := RunsOut(s, 0, other);
      } else {
        var k := BackToOne(s, 0, 0, other);
        var n := RunsOut(s, k, other);
      }
    } else {
      forall k: nat
        ensures IndexAfter(s, k, other) < |s|
      {
        StalledForever(s, k, other);
      }
    }
  }

  /** A text of three characters on which the scanner never ends: it stays at index 1. */
  lemma {:induction false} NeverEnds(k: nat, other: char -> bool)
    ensures IndexAfter("x/*", k, other) == if k == 0 then 0 else 1
  {
    hide NextIndex;
    if k > 0 {
      NeverEnds(k - 1, other);
      SentBack(other);
    }
  }

  lemma SentBack(other: char -> bool)
    ensures NextIndex("x/*", 0, other) == 1 && NextIndex("x/*", 1, other) == 1
  {
    assert "x/*"[0..] == "x/*" && "x/*"[1..] == "/*";
    assert !ClosesAt("/*", 0);
  }

  /** A test a caller can make: if a comment closes after every place one opens, nothing stalls. */
  predicate EveryCommentCloses(s: string) {
    forall i :: 0 <= i <= |s| && OpensBlock(s[i..]) ==> FindClose(s[i..]) >= 0
  }

  lemma {:induction false} ClosedNeverStalls(s: string, i: nat, other: char -> bool)
    requires EveryCommentCloses(s)
    ensures Stall !in AtomsFrom(s, i, other)
    decreases |s| - i
  {
    if i < |s| {
      OneStep(s, i, other);
      ClosedNeverStalls(s, NextIndex(s, i, other), other);
    } else {
      NothingLeft(s, i, other);
    }
  }

  // ---- the loop ----

  /** What the scanner reads: up to the first stall, and then everything again from index 1. */
  function ScanAtoms(s: string, other: char -> bool): seq<Atom> {
    var atoms := AtomsFrom(s, 0, other);
    if Stall !in atoms then atoms else atoms[..|atoms| - 1] + AtomsFrom(s, 1, other)
  }

  /** What the scan has produced so far. `back` says whether a stall has sent it back to index 1,
      `first` how much it had read by then. */
  ghost predicate Progress(s: string, chunks: seq<Chunk>, buf: string, i: nat, back: bool, first: nat, other: char -> bool) {
    if back then
      && Stall in AtomsFrom(s, 0, other) && Stall !in AtomsFrom(s, i, other)
      && AtomsOf(chunks) + Mark(buf, Code) + AtomsFrom(s, i, other) == ScanAtoms(s, other)
      && 1 < first && 1 <= i && |Joined(chunks)| + |buf| == first + Cut(s, i) - 1
    else
      && AtomsOf(chunks) + Mark(buf, Code) + AtomsFrom(s, i, other) == AtomsFrom(s, 0, other)
      && |Joined(chunks)| + |buf| == Cut(s, i)
      && (Stall in AtomsFrom(s, 0, other) <==> Stall in AtomsFrom(s, i, other))
  }

  lemma Start(s: string, other: char -> bool)
    ensures Progress(s, [], "", 0, false, 0, other)
  {
    assert Mark("", Code) == [];
  }

  lemma AfterStep(s: string, chunks: seq<Chunk>, buf: string, chunks': seq<Chunk>, buf': string, i: nat, back: bool, first: nat, other: char -> bool)
    requires i < |s| && Progress(s, chunks, buf, i, back, first, other) && !StallsAt(s, i)
    requires AtomsOf(chunks') + Mark(buf', Code) == AtomsOf(chunks) + Mark(buf, Code) + StepAtoms(s, i, other)
    requires |Joined(chunks')| + |buf'| == |Joined(chunks)| + |buf| + Cut(s, NextIndex(s, i, other)) - i
    ensures Progress(s, chunks', buf', NextIndex(s, i, other), back, first, other)
  {
    hide AtomsFrom, StepAtoms, NextIndex, AtomsOf, Joined, StallsAt;
    OneStep(s, i, other);
  }

  lemma AfterStall(s: string, chunks: seq<Chunk>, buf: string, i: nat, back: bool, first: nat, other: char -> bool)
    requires i < |s| && Progress(s, chunks, buf, i, back, first, other) && StallsAt(s, i)
    requires Terminates(s, other)
    ensures !back && 1 <= i && NextIndex(s, i, other) == 1
    ensures Progress(s, chunks + [Sql(buf)] + [Lit("")], "", 1, true, i, other)
  {
    hide AtomsFrom, Joined, AtomsOf, StepAtoms, NextIndex;
    OneStep(s, i, other);
    assert [Stall][0] == Stall;
    Appended(chunks, buf, Lit(""));
    LastIsStall(AtomsOf(chunks) + Mark(buf, Code));
    assert Mark("", Code) == [] && ChunkAtoms(Lit("")) == [];
  }

  lemma LastIsStall(before: seq<Atom>)
    ensures Stall in before + [Stall] && (before + [Stall])[..|before + [Stall]| - 1] == before
  {
    assert (before + [Stall])[|before|] == Stall;
  }

  /** A string, a closed comment or a bind closes the buffer and adds a chunk of its own. */
  lemma AfterChunk(s: string, chunks: seq<Chunk>, buf: string, chunk: Chunk, i: nat, back: bool, first: nat, other: char -> bool)
    requires i < |s| && Progress(s, chunks, buf, i, back, first, other) && !StallsAt(s, i)
    requires ChunkAtoms(chunk) == StepAtoms(s, i, other) && |Piece(chunk)| == Cut(s, NextIndex(s, i, other)) - i
    ensures i < NextIndex(s, i, other)
    ensures Progress(s, chunks + [Sql(buf)] + [chunk], "", NextIndex(s, i, other), back, first, other)
  {
    hide AtomsFrom, StepAtoms, NextIndex, Progress, StallsAt, ChunkAtoms, Piece;
    OneStep(s, i, other);
    Appended(chunks, buf, chunk);
    assert Mark("", Code) == [];
    AfterStep(s, chunks, buf, chunks + [Sql(buf)] + [chunk], "", i, back, first, other);
  }

  lemma TextAtoms(s: string, i: nat, other: char -> bool)
    requires i < |s| && !StallsAt(s, i)
    requires s[i] == '\'' || OpensLine(s[i..]) || OpensBlock(s[i..])
    ensures i < Cut(s, NextIndex(s, i, other))
    ensures var text := s[i..Cut(s, NextIndex(s, i, other))]; StepAtoms(s, i, other) == ChunkAtoms(Lit(text))
  {
  }

  /** Either kind of literal chunk, whether or not it stalls. */
  lemma AfterText(s: string, chunks: seq<Chunk>, buf: string, text: string, i: nat, back: bool, first: nat, other: char -> bool)
    returns (back': bool, first': nat)
    requires i < |s| && Progress(s, chunks, buf, i, back, first, other) && Terminates(s, other)
    requires s[i] == '\'' || OpensLine(s[i..]) || OpensBlock(s[i..])
    requires if StallsAt(s, i) then text == "" else i <= Cut(s, NextIndex(s, i, other)) && text == s[i..Cut(s, NextIndex(s, i, other))]
    ensures if StallsAt(s, i) then !back && back' else back' == back && i < NextIndex(s, i, other)
    ensures Progress(s, chunks + [Sql(buf)] + [Lit(text)], "", NextIndex(s, i, other), back', first', other)
  {
    if StallsAt(s, i) {
      AfterStall(s, chunks, buf, i, back, first, other);
      back', first' := true, i;
    } else {
      TextAtoms(s, i, other);
      AfterChunk(s, chunks, buf, Lit(text), i, back, first, other);
      back', first' := back, first;
    }
  }

  lemma BindAtoms(s: string, m: nat, i: nat, other: char -> bool)
    requires i < |s| && s[i] == ':' && PrevOk(PrevAt(s, i), other) && m == NameLen(s[i + 1..]) > 0
    ensures StepAtoms(s, i, other) == ChunkAtoms(Bind(s[i + 1..i + 1 + m]))
    ensures NextIndex(s, i, other) == i + 1 + m <= |s| && !StallsAt(s, i)
  {
    var t := s[i..];
    assert t[1..] == s[i + 1..] && t[1..1 + m] == s[i + 1..i + 1 + m];
    assert BindsHere(PrevAt(s, i), t, other) && !OpensLine(t) && !OpensBlock(t);
  }

  lemma AfterChar(s: string, chunks: seq<Chunk>, buf: string, i: nat, back: bool, first: nat, other: char -> bool)
    requires i < |s| && Progress(s, chunks, buf, i, back, first, other)
    requires s[i] != '\'' && !OpensLine(s[i..]) && !OpensBlock(s[i..])
    requires !(s[i] == ':' && PrevOk(PrevAt(s, i), other) && NameLen(s[i + 1..]) > 0)
    ensures Progress(s, chunks, buf + [s[i]], i + 1, back, first, other)
  {
    hide AtomsFrom, Atoms, AtomsOf, Joined;
    assert s[i..][1..] == s[i + 1..];
    assert Mark(buf + [s[i]], Code) == Mark(buf, Code) + [Plain(s[i], Code)];
    AfterStep(s, chunks, buf, chunks, buf + [s[i]], i, back, first, other);
  }

  /** The inner loop: from just after an opening quote to where the string ends. */
  method StringEnd(sql: string, start: nat) returns (j: nat)
    requires start <= |sql|
    ensures j == StrEnd(sql, start)
  {
    j := start;
    while j < |sql|
      invariant start <= j <= |sql|
      invariant StrEnd(sql, j) == StrEnd(sql, start)
    {
      if sql[j] == '\'' && j + 1 < |sql| && sql[j + 1] == '\'' {
        j := j + 2;
        continue;
      }
      if sql[j] == '\'' {
        break;
      }
      j := j + 1;
    }
  }

  method ReadString(sql: string, i: nat, other: char -> bool) returns (text: string, next: nat)
    requires i < |sql| && sql[i] == '\''
    ensures next == NextIndex(sql, i, other) && !StallsAt(sql, i)
    ensures i <= Cut(sql, next) && text == sql[i..Cut(sql, next)]
  {
    var j := StringEnd(sql, i + 1);
    text := sql[i..if j < |sql| then j + 1 else |sql|];
    next := j + 1;
  }

  /** The end of a comment, as `str.find` gives it: a failed search is -1. */
  method ReadComment(sql: string, i: nat, other: char -> bool) returns (text: string, next: nat)
    requires i < |sql| && (OpensLine(sql[i..]) || OpensBlock(sql[i..]))
    ensures next == NextIndex(sql, i, other)
    ensures if StallsAt(sql, i) then text == "" else i <= next <= |sql| && text == sql[i..next]
  {
    var j: int;
    if OpensLine(sql[i..]) {
      var k := FindNewline(sql[i..]);
      j := if k == |sql[i..]| then -1 else i + k;
    } else {
      var k := FindClose(sql[i..]);
      j := (if k < 0 then -1 else i + k) + 2;
    }
    if j <= 0 {
      j := |sql|;
    }
    text := if i <= j then sql[i..j] else "";
    next := j;
  }

  /** One turn of the scanner's loop. */
  method Turn(sql: string, chunks: seq<Chunk>, buf: string, i: nat, ghost back: bool, ghost first: nat, other: char -> bool)
    returns (chunks': seq<Chunk>, buf': string, i': nat, ghost back': bool, ghost first': nat)
    requires i < |sql| && Terminates(sql, other) && Progress(sql, chunks, buf, i, back, first, other)
    ensures Progress(sql, chunks', buf', i', back', first', other)
    ensures (back' == back && i < i') || (!back && back')
  {
    hide Progress, StallsAt, NextIndex, Terminates, PrevOk;
    back', first' := back, first;
    if sql[i] == '\'' || OpensLine(sql[i..]) || OpensBlock(sql[i..]) {
      var text;
      if sql[i] == '\'' {
        text, i' := ReadString(sql, i, other);
      } else {
        text, i' := ReadComment(sql, i, other);
      }
      back', first' := AfterText(sql, chunks, buf, text, i, back, first, other);
      chunks', buf' := chunks + [Sql(buf)] + [Lit(text)], "";
    } else if sql[i] == ':' && PrevOk(PrevAt(sql, i), other) && NameLen(sql[i + 1..]) > 0 {
      var m := NameLen(sql[i + 1..]);
      var name := sql[i + 1..i + 1 + m];
      BindAtoms(sql, m, i, other);
      AfterChunk(sql, chunks, buf, Bind(name), i, back, first, other);
      chunks', buf', i' := chunks + [Sql(buf)] + [Bind(name)], "", i + 1 + m;
    } else {
      AfterChar(sql, chunks, buf, i, back, first, other);
      chunks', buf', i' := chunks, buf + [sql[i]], i + 1;
    }
  }

  /** The scanner. It rejoins to the text exactly when no unclosed comment sent it back. */
  method Scan(sql: string, other: char -> bool) returns (chunks: seq<Chunk>)
    requires Terminates(sql, other)
    ensures AtomsOf(chunks) == ScanAtoms(sql, other)
    ensures Joined(chunks) == sql <==> Stall !in AtomsFrom(sql, 0, other)
  {
    var i: nat, buf := 0, "";
    chunks := [];
    ghost var back, first: nat := false, 0;
    Start(sql, other);
    while i < |sql|
      invariant Progress(sql, chunks, buf, i, back, first, other)
      decreases !back, |sql| - i
    {
      chunks, buf, i, back, first := Turn(sql, chunks, buf, i, back, first, other);
    }
    chunks := chunks + [Sql(buf)];
    Rejoined(sql, chunks, buf, back, first, i, other);
  }

  lemma Rejoined(s: string, chunks: seq<Chunk>, buf: string, back: bool, first: nat, i: nat, other: char -> bool)
    requires chunks != [] && chunks[|chunks| - 1] == Sql(buf) && i >= |s|
    requires Progress(s, chunks[..|chunks| - 1], buf, i, back, first, other)
    ensures AtomsOf(chunks) == ScanAtoms(s, other)
    ensures Joined(chunks) == s <==> Stall !in AtomsFrom(s, 0, other)
  {
    NothingLeft(s, i, other);
    JoinedIsFill(chunks);
    assert s[0..] == s;
    if !back {
      AtomsSpellText(None, s, other);
    }
  }

  lemma Appended(chunks: seq<Chunk>, buf: string, chunk: Chunk)
    ensures AtomsOf(chunks + [Sql(buf)] + [chunk]) == AtomsOf(chunks) + Mark(buf, Code) + ChunkAtoms(chunk)
    ensures |Joined(chunks + [Sql(buf)] + [chunk])| == |Joined(chunks)| + |buf| + |Piece(chunk)|
  {
    var a := chunks + [Sql(buf)];
    assert (a + [chunk])[..|a|] == a && a[..|chunks|] == chunks;
  }
}
