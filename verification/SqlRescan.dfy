/** Replacing binds by values and scanning the result again. */
module SqlRescan {
  import opened Options
  import opened SqlAtoms

  type Values = map<string, string>

  /** A value that reads as code and strings only, ends outside a string, and touches nothing
      around it: outside its own quotes it has no dash, slash, star or colon. */
  predicate PlainValue(v: string, inString: bool) {
    if v == "" then !inString
    else if v[0] == '\'' then PlainValue(v[1..], !inString)
    else (inString || v[0] !in {'-', '/', '*', ':'}) && PlainValue(v[1..], inString)
  }

  predicate SafeValue(v: string) {
    v != "" && PlainValue(v, false)
  }

  function ValueAtoms(v: string, inString: bool): seq<Atom> {
    if v == "" then []
    else if v[0] == '\'' then [Plain('\'', Str)] + ValueAtoms(v[1..], !inString)
    else [Plain(v[0], if inString then Str else Code)] + ValueAtoms(v[1..], inString)
  }

  function Last(v: string): Option<char> {
    if v == "" then None else Some(v[|v| - 1])
  }

  /** Inside a string, a quote closes it; outside, a quote opens one. */
  function Inside(c: char, inString: bool): bool {
    if c == '\'' then !inString else inString
  }

  function Read(p: Option<char>, s: string, inString: bool, other: char -> bool): seq<Atom> {
    if inString then AtomsStr(s, other) else Atoms(p, s, other)
  }

  function CharAtom(c: char, inString: bool): Atom {
    Plain(c, if c == '\'' || inString then Str else Code)
  }

  lemma CharReads(p: Option<char>, c: char, inString: bool, rest: string, other: char -> bool)
    requires inString || c !in {'-', '/', '*', ':'}
    ensures Read(p, [c] + rest, inString, other) == [CharAtom(c, inString)] + Read(Some(c), rest, Inside(c, inString), other)
  {
    hide FindNewline, FindClose, NameLen;
    assert ([c] + rest)[1..] == rest;
  }

  lemma ValueAtomsUnfold(v: string, inString: bool)
    requires v != ""
    ensures ValueAtoms(v, inString) == [CharAtom(v[0], inString)] + ValueAtoms(v[1..], Inside(v[0], inString))
  {
  }

  lemma NoValueAtoms(inString: bool)
    ensures ValueAtoms("", inString) == []
  {
  }

  /** A value reads as its own atoms wherever it is put. */
  lemma {:induction false} ValueReads(p: Option<char>, v: string, inString: bool, rest: string, other: char -> bool)
    requires v != "" && PlainValue(v, inString)
    ensures Read(p, v + rest, inString, other) == ValueAtoms(v, inString) + Read(Last(v), rest, false, other)
    decreases |v|
  {
    hide Read, CharAtom, ValueAtoms;
    var now := Inside(v[0], inString);
    assert v + rest == [v[0]] + (v[1..] + rest);
    CharReads(p, v[0], inString, v[1..] + rest, other);
    ValueAtomsUnfold(v, inString);
    if |v| == 1 {
      assert v[1..] == "" && v[1..] + rest == rest;
      NoValueAtoms(now);
    } else {
      ValueReads(Some(v[0]), v[1..], now, rest, other);
    }
  }

  predicate Bindable(a: Atom, values: Values) {
    a.Bound? ==> a.name in values && SafeValue(values[a.name])
  }

  function SubstOne(a: Atom, values: Values): seq<Atom> {
    if a.Bound? && a.name in values then ValueAtoms(values[a.name], false) else [a]
  }

  /** The atoms with each bind's value in its place: what a faithful rendering must read as. */
  function Subst(atoms: seq<Atom>, values: Values): seq<Atom> {
    if atoms == [] then [] else SubstOne(atoms[0], values) + Subst(atoms[1..], values)
  }

  lemma {:induction false} SubstConcat(a: seq<Atom>, b: seq<Atom>, values: Values)
    ensures Subst(a + b, values) == Subst(a, values) + Subst(b, values)
  {
    hide SubstOne;
    if a == [] {
      assert a + b == b;
    } else {
      SubstConcat(a[1..], b, values);
      assert (a + b)[1..] == a[1..] + b;
    }
  }

  lemma {:induction false} SubstPlain(a: seq<Atom>, values: Values)
    requires forall x <- a :: x.Plain?
    ensures Subst(a, values) == a
  {
    if a != [] {
      assert a[0] in a && forall x <- a[1..] :: x in a;
      SubstPlain(a[1..], values);
    }
  }

  /** The one place where rendering makes a new bind: a bind directly followed by a colon and a name,
      given a value that does not end in a letter, digit or underscore. */
  predicate ExposedAt(atoms: seq<Atom>, k: nat, values: Values, other: char -> bool) {
    && k + 2 < |atoms|
    && atoms[k].Bound? && atoms[k].name in values && PrevOk(Last(values[atoms[k].name]), other)
    && atoms[k + 1] == Plain(':', Code)
    && atoms[k + 2].Plain? && NameStart(atoms[k + 2].c)
  }

  ghost predicate Exposed(atoms: seq<Atom>, values: Values, other: char -> bool) {
    exists k: nat :: ExposedAt(atoms, k, values, other)
  }

  ghost predicate HasBind(atoms: seq<Atom>) {
    exists k :: 0 <= k < |atoms| && atoms[k].Bound?
  }

  lemma ExposedTail(h: seq<Atom>, t: seq<Atom>, values: Values, other: char -> bool)
    requires h != [] && (forall x <- h :: x.Plain?)
    ensures Exposed(h + t, values, other) <==> Exposed(t, values, other)
  {
    if Exposed(h + t, values, other) {
      assert forall i :: 0 <= i < |h| ==> h[i] in h && (h + t)[i] == h[i];
      var k: nat :| ExposedAt(h + t, k, values, other);
      assert ExposedAt(t, k - |h|, values, other);
    }
    if Exposed(t, values, other) {
      var k: nat :| ExposedAt(t, k, values, other);
      assert ExposedAt(h + t, k + |h|, values, other);
    }
  }

  lemma ExposedBind(a: Atom, t: seq<Atom>, values: Values, other: char -> bool)
    ensures Exposed([a] + t, values, other) <==> ExposedAt([a] + t, 0, values, other) || Exposed(t, values, other)
  {
    if Exposed([a] + t, values, other) {
      var k: nat :| ExposedAt([a] + t, k, values, other);
      if k > 0 {
        assert ExposedAt(t, k - 1, values, other);
      }
    }
    if Exposed(t, values, other) {
      var k: nat :| ExposedAt(t, k, values, other);
      assert ExposedAt([a] + t, k + 1, values, other);
    }
  }

  lemma HasBindConcat(a: seq<Atom>, b: seq<Atom>)
    requires HasBind(b)
    ensures HasBind(a + b)
  {
    var k :| 0 <= k < |b| && b[k].Bound?;
    assert (a + b)[|a| + k] == b[k];
  }

  // ---- what the rendered text starts with ----

  /** The first character of a rendered text is the source's, or that of the first bind's value. */
  lemma FirstChar(p: Option<char>, s: string, values: Values, other: char -> bool)
    requires s != "" && Stall !in Atoms(p, s, other)
    requires forall a <- Atoms(p, s, other) :: Bindable(a, values)
    ensures Atoms(p, s, other) != [] && Fill(Atoms(p, s, other), values) != ""
    ensures var out, a := Fill(Atoms(p, s, other), values), Atoms(p, s, other)[0];
      if BindsHere(p, s, other) then
        a.Bound? && a.name in values && SafeValue(values[a.name]) && out[0] == values[a.name][0]
      else a.Plain? && a.c == s[0] == out[0]
  {
    hide FindNewline, FindClose, ValueAtoms;
    var atoms := Atoms(p, s, other);
    if s[0] != '\'' {
      assert [Stall][0] == Stall;
      AtomsUnfold(p, s, other);
    }
    assert atoms[0] in atoms;
  }

  lemma FirstOfValue(v: string)
    requires SafeValue(v)
    ensures v[0] !in {'-', '/', '*', ':'}
  {
  }

  lemma NewlineAfter(t: string, rest: string)
    requires (forall i :: 0 <= i < |t| ==> t[i] != '\n') && (rest == "" || rest[0] == '\n')
    ensures FindNewline(t + rest) == |t|
  {
    var s := t + rest;
    assert forall i :: 0 <= i < |t| ==> s[i] == t[i];
    assert rest != "" ==> s[|t|] == rest[0];
  }

  lemma CloseAfter(t: string, rest: string, k: nat)
    requires k + 2 == |t| && FindClose(t) == k
    ensures FindClose(t + rest) == k
  {
    var s := t + rest;
    assert ClosesAt(s, k);
    forall i: nat | i < k
      ensures !ClosesAt(s, i)
    {
      assert !ClosesAt(t, i);
    }
  }

  lemma CloseOfPrefix(s: string, k: nat)
    requires FindClose(s) == k
    ensures k + 2 <= |s| && FindClose(s[..k + 2]) == k
  {
    var t := s[..k + 2];
    assert ClosesAt(t, k);
    forall i: nat | i < k
      ensures !ClosesAt(t, i)
    {
      assert !ClosesAt(s, i);
    }
  }

  // ---- one head ----

  /** What follows a head that is not a bind cannot change how the head reads. */
  lemma HeadReads(p: Option<char>, q: Option<char>, s: string, values: Values, other: char -> bool)
    requires HasHead(p, s) && !(OpensBlock(s) && FindClose(s) < 0)
    requires BindsHere(p, s, other) == BindsHere(q, s, other) && !Head(p, s, other)[0].Bound?
    requires Stall !in Tail(p, s, other) && forall a <- Tail(p, s, other) :: Bindable(a, values)
    ensures var n, rest := HeadLen(p, s, other), Fill(Tail(p, s, other), values);
      Atoms(q, s[..n] + rest, other) == Head(p, s, other) + Atoms(Some(s[n - 1]), rest, other)
  {
    hide Atoms, Fill, Head, HasHead, BindsHere;
    HeadFacts(p, s, other);
    var n, rest := HeadLen(p, s, other), Fill(Tail(p, s, other), values);
    var out := s[..n] + rest;
    assert out[..n] == s[..n] && out[n..] == rest && out != "" && out[0] == s[0];
    if OpensLine(s) {
      LineReads(p, q, s, values, other);
    } else if OpensBlock(s) {
      BlockReads(p, q, s, rest, other);
    } else {
      CodeCharReads(p, q, s, values, other);
    }
    AtomsUnfold(q, out, other);
  }

  lemma HeadFacts(p: Option<char>, s: string, other: char -> bool)
    requires HasHead(p, s)
    ensures s != "" && s[0] != '\''
    ensures Head(p, s, other)[0].Bound? <==> !OpensLine(s) && !OpensBlock(s) && BindsHere(p, s, other)
  {
  }

  lemma LineReads(p: Option<char>, q: Option<char>, s: string, values: Values, other: char -> bool)
    requires HasHead(p, s) && OpensLine(s)
    requires Stall !in Tail(p, s, other) && forall a <- Tail(p, s, other) :: Bindable(a, values)
    ensures var n := HeadLen(p, s, other);
      var out := s[..n] + Fill(Tail(p, s, other), values);
      HasHead(q, out) && HeadLen(q, out, other) == n && Head(q, out, other) == Head(p, s, other)
  {
    hide Atoms, Fill;
    var n, rest := HeadLen(p, s, other), Fill(Tail(p, s, other), values);
    RestStartsLike(p, s, n, values, other);
    NewlineAfter(s[..n], rest);
    assert (s[..n] + rest)[..n] == s[..n];
  }

  lemma BlockReads(p: Option<char>, q: Option<char>, s: string, rest: string, other: char -> bool)
    requires HasHead(p, s) && OpensBlock(s) && FindClose(s) >= 0
    ensures var n := HeadLen(p, s, other);
      var out := s[..n] + rest;
      HasHead(q, out) && HeadLen(q, out, other) == n && Head(q, out, other) == Head(p, s, other)
  {
    var n := HeadLen(p, s, other);
    CloseOfPrefix(s, n - 2);
    CloseAfter(s[..n], rest, n - 2);
    assert (s[..n] + rest)[..n] == s[..n];
  }

  /** The rendered rest starts with the character the source rest starts with, unless a bind is there. */
  lemma RestStartsLike(p: Option<char>, s: string, n: nat, values: Values, other: char -> bool)
    requires 0 < n <= |s|
    requires Stall !in Atoms(Some(s[n - 1]), s[n..], other)
    requires forall a <- Atoms(Some(s[n - 1]), s[n..], other) :: Bindable(a, values)
    ensures var rest := Fill(Atoms(Some(s[n - 1]), s[n..], other), values);
      if n == |s| then rest == ""
      else rest != "" && (rest[0] == s[n] || (s[n] == ':' && PrevOk(Some(s[n - 1]), other) && rest[0] !in {'-', '/', '*', ':'}))
  {
    if n < |s| {
      FirstChar(Some(s[n - 1]), s[n..], values, other);
      var a := Atoms(Some(s[n - 1]), s[n..], other)[0];
      if a.Bound? {
        FirstOfValue(values[a.name]);
      }
    }
  }

  lemma CodeCharReads(p: Option<char>, q: Option<char>, s: string, values: Values, other: char -> bool)
    requires HasHead(p, s) && !OpensLine(s) && !OpensBlock(s) && !BindsHere(p, s, other) && !BindsHere(q, s, other)
    requires Stall !in Tail(p, s, other) && forall a <- Tail(p, s, other) :: Bindable(a, values)
    ensures var n := HeadLen(p, s, other);
      var out := s[..n] + Fill(Tail(p, s, other), values);
      HasHead(q, out) && HeadLen(q, out, other) == n && Head(q, out, other) == Head(p, s, other)
  {
    hide Atoms, Fill, IsAlnum;
    var rest := Fill(Tail(p, s, other), values);
    RestStartsLike(p, s, 1, values, other);
    var out := s[..1] + rest;
    assert out[1..] == rest && out[0] == s[0];
    assert |s| > 1 ==> s[1..][0] == s[1];
    assert !OpensLine(out) && !OpensBlock(out) && !BindsHere(q, out, other);
  }

  // ---- the whole text ----

  lemma BindableTail(h: seq<Atom>, t: seq<Atom>, values: Values)
    requires forall a <- h + t :: Bindable(a, values)
    ensures forall a <- t :: Bindable(a, values)
  {
    assert forall a <- t :: a in h + t;
  }

  /** A bind is given its value: what follows it reads on, unless it is exposed. */
  lemma BindReads(p: Option<char>, q: Option<char>, s: string, values: Values, other: char -> bool)
    requires HasHead(p, s) && Head(p, s, other)[0].Bound? && Bindable(Head(p, s, other)[0], values)
    ensures Head(p, s, other) == [Head(p, s, other)[0]]
    ensures var v, rest := values[Head(p, s, other)[0].name], Fill(Tail(p, s, other), values);
      && v != ""
      && Fill(Head(p, s, other) + Tail(p, s, other), values) == v + rest
      && Atoms(q, v + rest, other) == ValueAtoms(v, false) + Atoms(Last(v), rest, other)
      && Subst(Head(p, s, other) + Tail(p, s, other), values) == ValueAtoms(v, false) + Subst(Tail(p, s, other), values)
  {
    hide Atoms, PlainValue, HeadLen;
    var a, t := Head(p, s, other)[0], Tail(p, s, other);
    FillConcat([a], t, values);
    FillSingle(a, values);
    SubstConcat([a], t, values);
    assert Subst([a], values) == SubstOne(a, values) + Subst([a][1..], values);
    ValueReads(q, values[a.name], false, Fill(t, values), other);
    assert Read(q, values[a.name] + Fill(t, values), false, other) == Atoms(q, values[a.name] + Fill(t, values), other);
  }

  /** After a bind, its atoms show an exposed colon exactly where the value lets the colon bind. */
  lemma AfterBindExposed(p: Option<char>, s: string, values: Values, other: char -> bool)
    requires HasHead(p, s) && Head(p, s, other)[0].Bound? && Bindable(Head(p, s, other)[0], values)
    requires Stall !in Tail(p, s, other)
    ensures var n, v := HeadLen(p, s, other), values[Head(p, s, other)[0].name];
      && !BindsHere(Some(s[n - 1]), s[n..], other)
      && (ExposedAt(Head(p, s, other) + Tail(p, s, other), 0, values, other) <==> BindsHere(Last(v), s[n..], other))
  {
    hide Fill, PlainValue;
    var n := HeadLen(p, s, other);
    var r := s[n..];
    assert r != "" && r[0] == ':' ==> HasHead(Some(s[n - 1]), r) && Head(Some(s[n - 1]), r, other) == [Plain(':', Code)];
    if r != "" && r[0] == ':' {
      AtomsUnfold(Some(s[n - 1]), r, other);
      assert Tail(p, s, other)[0] == Plain(':', Code);
      assert Tail(p, s, other)[1..] == Atoms(Some(':'), r[1..], other);
      SecondAtom(r[1..], other);
    }
  }

  /** After a colon, the first atom is a name start exactly when the text starts with one. */
  lemma SecondAtom(s: string, other: char -> bool)
    ensures s == "" ==> Atoms(Some(':'), s, other) == []
    ensures s != "" ==> Atoms(Some(':'), s, other) != []
    ensures s != "" && NameStart(s[0]) ==> Atoms(Some(':'), s, other)[0] == Plain(s[0], Code)
    ensures s != "" && Atoms(Some(':'), s, other)[0].Plain? ==> Atoms(Some(':'), s, other)[0].c == s[0]
  {
    hide FindNewline, FindClose, NameLen;
  }

  /** What scanning the rendered text must give: the substituted atoms, or, where a colon was
      exposed, a bind that should not be there. */
  ghost predicate Faithful(read: seq<Atom>, atoms: seq<Atom>, values: Values, other: char -> bool) {
    if Exposed(atoms, values, other) then HasBind(read) else read == Subst(atoms, values)
  }

  lemma FaithfulAfterPlain(h: seq<Atom>, read: seq<Atom>, t: seq<Atom>, values: Values, other: char -> bool)
    requires h != [] && (forall x <- h :: x.Plain?) && Faithful(read, t, values, other)
    ensures Faithful(h + read, h + t, values, other)
  {
    hide Exposed, Subst;
    ExposedTail(h, t, values, other);
    SubstConcat(h, t, values);
    SubstPlain(h, values);
    if Exposed(t, values, other) {
      HasBindConcat(h, read);
    }
  }

  lemma {:induction false} FillPlain(h: seq<Atom>, values: Values)
    requires forall x <- h :: x.Plain?
    ensures Fill(h, values) == Fill(h, map[])
  {
    if h != [] {
      assert h[0] in h && forall x <- h[1..] :: x in h;
      FillPlain(h[1..], values);
    }
  }

  lemma PlainHead(p: Option<char>, s: string, values: Values, other: char -> bool)
    requires HasHead(p, s) && !Head(p, s, other)[0].Bound?
    ensures (forall x <- Head(p, s, other) :: x.Plain?) && Head(p, s, other) != []
    ensures Fill(Head(p, s, other) + Tail(p, s, other), values)
         == s[..HeadLen(p, s, other)] + Fill(Tail(p, s, other), values)
  {
    hide Atoms, Fill;
    FillPlain(Head(p, s, other), values);
    HeadSpells(p, s, other);
    FillConcat(Head(p, s, other), Tail(p, s, other), values);
  }

  lemma ExposedColonBinds(p: Option<char>, q: Option<char>, r: string, values: Values, other: char -> bool)
    requires BindsHere(q, r, other) && !BindsHere(p, r, other) && p.Some?
    ensures HasBind(Atoms(q, Fill(Atoms(p, r, other), values), other))
  {
    hide FindNewline, FindClose;
    AtomsUnfold(p, r, other);
    assert Head(p, r, other) == [Plain(':', Code)];
    var t := Atoms(Some(':'), r[1..], other);
    assert Atoms(p, r, other) == [Plain(':', Code)] + t;
    SecondAtom(r[1..], other);
    FillConcat([Plain(':', Code)], t, values);
    FillSingle(Plain(':', Code), values);
    var out := Fill(Atoms(p, r, other), values);
    assert out[0] == ':' && out[1..] == Fill(t, values) && Fill(t, values)[0] == r[1];
    assert BindsHere(q, out, other);
    AtomsUnfold(q, out, other);
    assert Atoms(q, out, other)[0] == Head(q, out, other)[0];
  }

  lemma FaithfulAfterBind(p: Option<char>, q: Option<char>, s: string, values: Values, other: char -> bool)
    requires HasHead(p, s) && Head(p, s, other)[0].Bound? && Bindable(Head(p, s, other)[0], values)
    requires Stall !in Tail(p, s, other)
    requires var n, v := HeadLen(p, s, other), values[Head(p, s, other)[0].name];
      !BindsHere(Last(v), s[n..], other) ==> Faithful(Atoms(Last(v), Fill(Tail(p, s, other), values), other), Tail(p, s, other), values, other)
    ensures Faithful(Atoms(q, Fill(Head(p, s, other) + Tail(p, s, other), values), other),
                     Head(p, s, other) + Tail(p, s, other), values, other)
  {
    hide Atoms, Fill, Subst, Exposed, ExposedAt, PlainValue, Head, HeadLen, BindsHere, ValueAtoms;
    var n, a, t := HeadLen(p, s, other), Head(p, s, other)[0], Tail(p, s, other);
    var v := values[a.name];
    BindReads(p, q, s, values, other);
    AfterBindExposed(p, s, values, other);
    ExposedBind(a, t, values, other);
    var read := Atoms(Last(v), Fill(t, values), other);
    if BindsHere(Last(v), s[n..], other) {
      ExposedColonBinds(Some(s[n - 1]), Last(v), s[n..], values, other);
      HasBindConcat(ValueAtoms(v, false), read);
    } else if Exposed(t, values, other) {
      HasBindConcat(ValueAtoms(v, false), read);
    }
  }

  /** Scanning the rendering of `s`, whatever value stands before it. */
  lemma {:induction false} Rescan(p: Option<char>, q: Option<char>, s: string, values: Values, other: char -> bool)
    requires Stall !in Atoms(p, s, other) && !(OpensBlock(s) && FindClose(s) < 0)
    requires BindsHere(p, s, other) == BindsHere(q, s, other)
    requires forall a <- Atoms(p, s, other) :: Bindable(a, values)
    ensures Faithful(Atoms(q, Fill(Atoms(p, s, other), values), other), Atoms(p, s, other), values, other)
    decreases |s|
  {
    hide Faithful, Fill, BindsHere, Bindable, Head, HeadLen;
    if s == "" {
      NothingToRead(p, q, values, other);
    } else if s[0] == '\'' {
      RescanQuote(p, q, s, values, other);
    } else {
      NextPart(p, s, values, other);
      var n, t := HeadLen(p, s, other), Tail(p, s, other);
      if Head(p, s, other)[0].Bound? {
        AfterBindExposed(p, s, values, other);
        var v := values[Head(p, s, other)[0].name];
        if !BindsHere(Last(v), s[n..], other) {
          Rescan(Some(s[n - 1]), Last(v), s[n..], values, other);
        }
        FaithfulAfterBind(p, q, s, values, other);
      } else {
        Rescan(Some(s[n - 1]), Some(s[n - 1]), s[n..], values, other);
        PlainHead(p, s, values, other);
        HeadReads(p, q, s, values, other);
        FaithfulAfterPlain(Head(p, s, other), Atoms(Some(s[n - 1]), Fill(t, values), other), t, values, other);
      }
    }
  }

  lemma NothingToRead(p: Option<char>, q: Option<char>, values: Values, other: char -> bool)
    ensures Faithful(Atoms(q, Fill(Atoms(p, "", other), values), other), Atoms(p, "", other), values, other)
  {
  }

  lemma UnclosedStalls(c: char, s: string, other: char -> bool)
    ensures OpensBlock(s) && FindClose(s) < 0 ==> Stall in Atoms(Some(c), s, other)
  {
    if OpensBlock(s) && FindClose(s) < 0 {
      assert Atoms(Some(c), s, other)[0] == Stall;
    }
  }

  /** The preconditions of `Rescan`, carried over a head. */
  lemma NextPart(p: Option<char>, s: string, values: Values, other: char -> bool)
    requires s != "" && s[0] != '\'' && Stall !in Atoms(p, s, other)
    requires forall a <- Atoms(p, s, other) :: Bindable(a, values)
    ensures HasHead(p, s) && Stall !in Tail(p, s, other)
    ensures Bindable(Head(p, s, other)[0], values) && (Head(p, s, other)[0].Bound? ==> Head(p, s, other)[0].name in values)
    ensures forall a <- Tail(p, s, other) :: Bindable(a, values)
    ensures Atoms(p, s, other) == Head(p, s, other) + Tail(p, s, other)
    ensures var n := HeadLen(p, s, other); !(OpensBlock(s[n..]) && FindClose(s[n..]) < 0)
  {
    hide Head, HeadLen;
    AtomsUnfold(p, s, other);
    assert [Stall][0] == Stall;
    BindableTail(Head(p, s, other), Tail(p, s, other), values);
    assert Head(p, s, other)[0] in Head(p, s, other) + Tail(p, s, other);
    var n := HeadLen(p, s, other);
    UnclosedStalls(s[n - 1], s[n..], other);
  }

  lemma {:induction false} RescanQuote(p: Option<char>, q: Option<char>, s: string, values: Values, other: char -> bool)
    requires s != "" && s[0] == '\'' && Stall !in Atoms(p, s, other)
    requires forall a <- Atoms(p, s, other) :: Bindable(a, values)
    ensures Faithful(Atoms(q, Fill(Atoms(p, s, other), values), other), Atoms(p, s, other), values, other)
    decreases |s|, 0
  {
    hide Faithful, Fill, Bindable;
    var h, t := [Plain('\'', Str)], AtomsStr(s[1..], other);
    assert Atoms(p, s, other) == h + t;
    BindableTail(h, t, values);
    RescanString(s[1..], values, other);
    FillConcat(h, t, values);
    FillSingle(h[0], values);
    var out := Fill(h + t, values);
    assert out[0] == '\'' && out[1..] == Fill(t, values);
    assert Atoms(q, out, other) == h + AtomsStr(Fill(t, values), other);
    FaithfulAfterPlain(h, AtomsStr(Fill(t, values), other), t, values, other);
  }

  lemma {:induction false} RescanString(s: string, values: Values, other: char -> bool)
    requires Stall !in AtomsStr(s, other) && forall a <- AtomsStr(s, other) :: Bindable(a, values)
    ensures Faithful(AtomsStr(Fill(AtomsStr(s, other), values), other), AtomsStr(s, other), values, other)
    decreases |s|
  {
    hide Faithful, Fill, Bindable;
    if s == "" {
      NothingInString(values, other);
    } else {
      var h := [Plain(s[0], Str)];
      var t := Read(Some(s[0]), s[1..], s[0] != '\'', other);
      assert AtomsStr(s, other) == h + t;
      BindableTail(h, t, values);
      if s[0] == '\'' {
        UnclosedStalls('\'', s[1..], other);
        Rescan(Some('\''), Some('\''), s[1..], values, other);
      } else {
        RescanString(s[1..], values, other);
      }
      FillConcat(h, t, values);
      FillSingle(h[0], values);
      var out := Fill(h + t, values);
      assert out[0] == s[0] && out[1..] == Fill(t, values);
      assert AtomsStr(out, other) == h + Read(Some(s[0]), Fill(t, values), s[0] != '\'', other);
      FaithfulAfterPlain(h, Read(Some(s[0]), Fill(t, values), s[0] != '\'', other), t, values, other);
    }
  }

  lemma NothingInString(values: Values, other: char -> bool)
    ensures Faithful(AtomsStr(Fill(AtomsStr("", other), values), other), AtomsStr("", other), values, other)
  {
  }
}
