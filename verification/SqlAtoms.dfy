/** What the SQL scanner sees, as a definition on the text: every character is code, string, line
    comment or block comment, or belongs to a bind. A quote inside code opens a string and a quote
    inside a string closes it, so a doubled quote closes and reopens. */
module SqlAtoms {
  import opened Options

  datatype Class = Code | Str | Line | Block

  /** `Stall` is where an unclosed block comment sends the scanner back. */
  datatype Atom = Plain(c: char, cls: Class) | Bound(name: string) | Stall

  predicate AsciiLetter(c: char) {
    'A' <= c <= 'Z' || 'a' <= c <= 'z'
  }

  predicate AsciiDigit(c: char) {
    '0' <= c <= '9'
  }

  /** `str.isalnum`; `other` says which characters beyond ASCII count. */
  predicate IsAlnum(c: char, other: char -> bool) {
    AsciiLetter(c) || AsciiDigit(c) || (c as int > 127 && other(c))
  }

  predicate NameStart(c: char) {
    AsciiLetter(c) || c == '_'
  }

  predicate NameChar(c: char) {
    NameStart(c) || AsciiDigit(c)
  }

  function NameTail(s: string): (n: nat)
    ensures n <= |s|
    ensures forall i :: 0 <= i < n ==> NameChar(s[i])
  {
    if s != "" && NameChar(s[0]) then 1 + NameTail(s[1..]) else 0
  }

  /** Length of the longest name at the start of `s`, 0 if there is none. */
  function NameLen(s: string): (n: nat)
    ensures n <= |s|
    ensures n > 0 <==> s != "" && NameStart(s[0])
    ensures forall i :: 0 <= i < n ==> NameChar(s[i])
  {
    if s != "" && NameStart(s[0]) then 1 + NameTail(s[1..]) else 0
  }

  /** Index of the first newline, or the length. */
  function FindNewline(s: string): (k: nat)
    ensures k <= |s| && (forall i :: 0 <= i < k ==> s[i] != '\n')
    ensures k < |s| ==> s[k] == '\n'
  {
    if s == "" || s[0] == '\n' then 0 else 1 + FindNewline(s[1..])
  }

  predicate ClosesAt(s: string, k: nat) {
    k + 1 < |s| && s[k] == '*' && s[k + 1] == '/'
  }

  /** Index of the first comment close, or -1. */
  function FindClose(s: string): (k: int)
    ensures k >= 0 ==> ClosesAt(s, k) && forall i: nat :: i < k ==> !ClosesAt(s, i)
    ensures k < 0 ==> k == -1 && forall i: nat :: !ClosesAt(s, i)
  {
    if |s| < 2 then -1
    else if s[0] == '*' && s[1] == '/' then 0
    else
      var k := FindClose(s[1..]);
      assert forall i: nat :: i > 0 ==> (ClosesAt(s, i) <==> ClosesAt(s[1..], i - 1));
      if k < 0 then -1 else k + 1
  }

  /** The character before a bind's colon. */
  predicate PrevOk(p: Option<char>, other: char -> bool) {
    p.None? || !(IsAlnum(p.value, other) || p.value == '_' || p.value == ':')
  }

  predicate BindsHere(p: Option<char>, s: string, other: char -> bool) {
    s != "" && s[0] == ':' && PrevOk(p, other) && NameLen(s[1..]) > 0
  }

  function Mark(t: string, cls: Class): (a: seq<Atom>)
    ensures |a| == |t| && forall i :: 0 <= i < |t| ==> a[i] == Plain(t[i], cls)
  {
    seq(|t|, i requires 0 <= i < |t| => Plain(t[i], cls))
  }

  predicate OpensLine(s: string) {
    |s| >= 2 && s[0] == '-' && s[1] == '-'
  }

  predicate OpensBlock(s: string) {
    |s| >= 2 && s[0] == '/' && s[1] == '*'
  }

  /** An unclosed block comment stalls the scanner, except at the very start of the text. */
  predicate Stalls(p: Option<char>, s: string) {
    OpensBlock(s) && FindClose(s) < 0 && p.Some?
  }

  /** The next thing in code is neither a string nor a stall. */
  predicate HasHead(p: Option<char>, s: string) {
    s != "" && s[0] != '\'' && !Stalls(p, s)
  }

  /** How many characters it takes. */
  function HeadLen(p: Option<char>, s: string, other: char -> bool): (n: nat)
    requires HasHead(p, s)
    ensures 0 < n <= |s|
  {
    if OpensLine(s) then FindNewline(s)
    else if OpensBlock(s) then (if FindClose(s) >= 0 then FindClose(s) + 2 else 1)
    else if BindsHere(p, s, other) then 1 + NameLen(s[1..])
    else 1
  }

  /** And the atoms it is. */
  function Head(p: Option<char>, s: string, other: char -> bool): (h: seq<Atom>)
    requires HasHead(p, s)
    ensures Stall !in h && h != []
  {
    var n := HeadLen(p, s, other);
    if OpensLine(s) then Mark(s[..n], Line)
    else if OpensBlock(s) then Mark(s[..n], Block)
    else if BindsHere(p, s, other) then [Bound(s[1..n])]
    else [Plain(s[0], Code)]
  }

  /** The atoms of `s` read as code, after the character `p` if there is one. */
  function Atoms(p: Option<char>, s: string, other: char -> bool): seq<Atom>
    decreases |s|
  {
    if s == "" then []
    else if s[0] == '\'' then [Plain('\'', Str)] + AtomsStr(s[1..], other)
    else if Stalls(p, s) then [Stall]
    else
      var n := HeadLen(p, s, other);
      Head(p, s, other) + Atoms(Some(s[n - 1]), s[n..], other)
  }

  /** The atoms of `s` read inside a string. */
  function AtomsStr(s: string, other: char -> bool): seq<Atom>
    decreases |s|
  {
    if s == "" then []
    else if s[0] == '\'' then [Plain('\'', Str)] + Atoms(Some('\''), s[1..], other)
    else [Plain(s[0], Str)] + AtomsStr(s[1..], other)
  }

  function FillOne(a: Atom, values: map<string, string>): string {
    match a
    case Plain(c, _) => [c]
    case Bound(n) => if n in values then values[n] else ":" + n
    case Stall => ""
  }

  /** The text atoms stand for, with a value for each bind that has one. */
  function Fill(atoms: seq<Atom>, values: map<string, string>): string {
    if atoms == [] then "" else FillOne(atoms[0], values) + Fill(atoms[1..], values)
  }

  lemma {:induction false} FillConcat(a: seq<Atom>, b: seq<Atom>, values: map<string, string>)
    ensures Fill(a + b, values) == Fill(a, values) + Fill(b, values)
  {
    hide FillOne;
    if a == [] {
      assert a + b == b;
    } else {
      FillConcat(a[1..], b, values);
      assert (a + b)[1..] == a[1..] + b;
    }
  }

  lemma FillSingle(a: Atom, values: map<string, string>)
    ensures Fill([a], values) == FillOne(a, values)
  {
    assert [a][1..] == [];
  }

  lemma {:induction false} FillMark(t: string, cls: Class, values: map<string, string>)
    ensures Fill(Mark(t, cls), values) == t
  {
    if t != "" {
      FillMark(t[1..], cls, values);
      assert Mark(t, cls)[1..] == Mark(t[1..], cls);
    }
  }

  lemma HeadSpells(p: Option<char>, s: string, other: char -> bool)
    requires HasHead(p, s)
    ensures Fill(Head(p, s, other), map[]) == s[..HeadLen(p, s, other)]
  {
    var n := HeadLen(p, s, other);
    if OpensLine(s) || OpensBlock(s) {
      FillMark(s[..n], if OpensLine(s) then Line else Block, map[]);
    } else {
      FillSingle(Head(p, s, other)[0], map[]);
    }
  }

  /** What follows the head. */
  function Tail(p: Option<char>, s: string, other: char -> bool): seq<Atom>
    requires HasHead(p, s)
  {
    Atoms(Some(s[HeadLen(p, s, other) - 1]), s[HeadLen(p, s, other)..], other)
  }

  lemma AtomsUnfold(p: Option<char>, s: string, other: char -> bool)
    requires s != "" && s[0] != '\''
    ensures HasHead(p, s) ==> Atoms(p, s, other) == Head(p, s, other) + Tail(p, s, other)
    ensures HasHead(p, s) <==> Atoms(p, s, other) != [Stall]
    ensures HasHead(p, s) ==> (Stall in Atoms(p, s, other) <==> Stall in Tail(p, s, other))
  {
    if HasHead(p, s) {
      assert Head(p, s, other)[0] != Stall;
      assert (Head(p, s, other) + Tail(p, s, other))[0] == Head(p, s, other)[0];
    }
  }

  lemma SpellsFromTail(p: Option<char>, s: string, other: char -> bool)
    requires HasHead(p, s)
    requires Fill(Tail(p, s, other), map[]) == s[HeadLen(p, s, other)..]
    ensures Fill(Head(p, s, other) + Tail(p, s, other), map[]) == s
  {
    hide Atoms, Fill, Head, HeadLen;
    var n := HeadLen(p, s, other);
    HeadSpells(p, s, other);
    FillConcat(Head(p, s, other), Tail(p, s, other), map[]);
    assert s == s[..n] + s[n..];
  }

  /** Nothing is lost: unless the scanner stalls, its atoms spell the text. */
  lemma {:induction false} AtomsSpellText(p: Option<char>, s: string, other: char -> bool)
    requires Stall !in Atoms(p, s, other)
    ensures Fill(Atoms(p, s, other), map[]) == s
    decreases |s|
  {
    if s == "" {
    } else if s[0] == '\'' {
      StringSpellsText(s[1..], other);
      FillConcat([Plain('\'', Str)], AtomsStr(s[1..], other), map[]);
      FillSingle(Plain('\'', Str), map[]);
    } else {
      AtomsUnfold(p, s, other);
      assert [Stall][0] == Stall;
      var n := HeadLen(p, s, other);
      AtomsSpellText(Some(s[n - 1]), s[n..], other);
      SpellsFromTail(p, s, other);
    }
  }

  lemma {:induction false} StringSpellsText(s: string, other: char -> bool)
    requires Stall !in AtomsStr(s, other)
    ensures Fill(AtomsStr(s, other), map[]) == s
    decreases |s|
  {
    if s != "" {
      var rest := if s[0] == '\'' then Atoms(Some('\''), s[1..], other) else AtomsStr(s[1..], other);
      if s[0] == '\'' {
        AtomsSpellText(Some('\''), s[1..], other);
      } else {
        StringSpellsText(s[1..], other);
      }
      FillConcat([Plain(s[0], Str)], rest, map[]);
      FillSingle(Plain(s[0], Str), map[]);
    }
  }
}
