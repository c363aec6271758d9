/** The string literals of a rendering. A string chunk of the scanner is a maximal run of string
    characters, so a quoted value next to a quote becomes one literal with it. */
module SqlLiterals {
  import opened SqlAtoms
  import opened SqlScan
  import opened SqlRescan
  import opened SqlRender
  import opened Options

  predicate InStr(a: Atom) {
    a.Plain? && a.cls == Str
  }

  /** The number of runs of string characters; `inside` says whether one goes on from before. */
  function Runs(atoms: seq<Atom>, inside: bool): nat {
    if atoms == [] then 0
    else (if InStr(atoms[0]) && !inside then 1 else 0) + Runs(atoms[1..], InStr(atoms[0]))
  }

  /** A string chunk is a whole run: it is all string, and what follows is none. */
  lemma {:induction false} ChunkIsRun(s: string, j: nat, other: char -> bool)
    requires j <= |s|
    ensures var e := Cut(s, StrEnd(s, j) + 1);
      AtomsFrom(s, e, other) == [] || !InStr(AtomsFrom(s, e, other)[0])
    decreases |s| - j
  {
    if j < |s| && s[j] != '\'' {
      ChunkIsRun(s, j + 1, other);
    } else if j + 1 < |s| && s[j + 1] == '\'' {
      ChunkIsRun(s, j + 2, other);
    } else {
      var e := Cut(s, StrEnd(s, j) + 1);
      if e < |s| {
        NextIsCode(PrevAt(s, e), s[e..], other);
      }
    }
  }

  lemma NextIsCode(p: Option<char>, s: string, other: char -> bool)
    requires s != "" && s[0] != '\''
    ensures Atoms(p, s, other) != [] && !InStr(Atoms(p, s, other)[0])
  {
    if HasHead(p, s) {
      AtomsUnfold(p, s, other);
    }
  }

  lemma {:induction false} RunsConcat(a: seq<Atom>, b: seq<Atom>, inside: bool)
    ensures Runs(a + b, inside) == Runs(a, inside) + Runs(b, if a == [] then inside else InStr(a[|a| - 1]))
  {
    if a == [] {
      assert a + b == b;
    } else {
      assert (a + b)[1..] == a[1..] + b;
      RunsConcat(a[1..], b, InStr(a[0]));
    }
  }

  lemma RunsFromInside(a: seq<Atom>)
    requires a != []
    ensures Runs(a, false) == Runs(a, true) + if InStr(a[0]) then 1 else 0
  {
  }

  predicate StartsQuoted(a: Atom, values: Values) {
    if a.Bound? then a.name in values && values[a.name] != "" && values[a.name][0] == '\'' else InStr(a)
  }

  predicate EndsQuoted(a: Atom, values: Values) {
    if a.Bound? then a.name in values && Last(values[a.name]) == Some('\'') else InStr(a)
  }

  /** A bind whose value meets a string, or the quote of another bind's value, without a gap. */
  predicate Joint(a: Atom, b: Atom, values: Values) {
    (a.Bound? || b.Bound?) && EndsQuoted(a, values) && StartsQuoted(b, values)
  }

  function Joints(before: Option<Atom>, atoms: seq<Atom>, values: Values): nat
    decreases |atoms|
  {
    if atoms == [] then 0
    else
      (if before.Some? && Joint(before.value, atoms[0], values) then 1 else 0) + Joints(Some(atoms[0]), atoms[1..], values)
  }

  /** The literals of the text and those of the values, each counted by itself. */
  function OwnLiterals(before: Option<Atom>, atoms: seq<Atom>, values: Values): nat
    decreases |atoms|
  {
    if atoms == [] then 0
    else
      (if atoms[0].Bound? then Runs(SubstOne(atoms[0], values), false)
       else if InStr(atoms[0]) && !(before.Some? && InStr(before.value)) then 1 else 0)
      + OwnLiterals(Some(atoms[0]), atoms[1..], values)
  }

  lemma {:induction false} ValueEnds(v: string, inString: bool)
    requires v != "" && PlainValue(v, inString)
    ensures var a := ValueAtoms(v, inString);
      a != [] && (InStr(a[|a| - 1]) <==> v[|v| - 1] == '\'')
  {
    if |v| > 1 {
      ValueEnds(v[1..], Inside(v[0], inString));
      ValueAtomsUnfold(v, inString);
    }
  }

  lemma BindEnds(a: Atom, values: Values)
    requires Bindable(a, values)
    ensures var one := SubstOne(a, values);
      one != [] && (InStr(one[0]) <==> StartsQuoted(a, values)) && (InStr(one[|one| - 1]) <==> EndsQuoted(a, values))
  {
    if a.Bound? {
      ValueEnds(values[a.name], false);
    }
  }

  /** Each joint costs one literal. */
  lemma {:induction false} LiteralsOfSubst(before: Option<Atom>, atoms: seq<Atom>, values: Values)
    requires forall a <- atoms :: Bindable(a, values)
    ensures Runs(Subst(atoms, values), before.Some? && EndsQuoted(before.value, values)) + Joints(before, atoms, values)
      == OwnLiterals(before, atoms, values)
    decreases |atoms|
  {
    hide Bindable, SubstOne, EndsQuoted, StartsQuoted;
    if atoms != [] {
      assert atoms[0] in atoms && forall a <- atoms[1..] :: a in atoms;
      LiteralsOfSubst(Some(atoms[0]), atoms[1..], values);
      FirstOfSubst(before, atoms[0], Subst(atoms[1..], values), values);
    }
  }

  lemma FirstOfSubst(before: Option<Atom>, a: Atom, rest: seq<Atom>, values: Values)
    requires Bindable(a, values)
    ensures Runs(SubstOne(a, values) + rest, before.Some? && EndsQuoted(before.value, values))
      + (if before.Some? && Joint(before.value, a, values) then 1 else 0)
      == (if a.Bound? then Runs(SubstOne(a, values), false)
          else if InStr(a) && !(before.Some? && InStr(before.value)) then 1 else 0)
         + Runs(rest, EndsQuoted(a, values))
  {
    var one, inside := SubstOne(a, values), before.Some? && EndsQuoted(before.value, values);
    RunsConcat(one, rest, inside);
    BindEnds(a, values);
    if a.Bound? {
      RunsFromInside(one);
    } else {
      assert one[1..] == [];
    }
  }

  /** No two neighbours of the source are joined. */
  ghost predicate NoJoint(atoms: seq<Atom>, values: Values) {
    forall k :: 0 < k < |atoms| ==> !Joint(atoms[k - 1], atoms[k], values)
  }

  lemma {:induction false} NoJointsCounted(before: Option<Atom>, atoms: seq<Atom>, values: Values)
    ensures Joints(before, atoms, values) == 0 <==>
      NoJoint(atoms, values) && !(before.Some? && atoms != [] && Joint(before.value, atoms[0], values))
    decreases |atoms|
  {
    hide Joint;
    if |atoms| > 1 {
      NoJointsCounted(Some(atoms[0]), atoms[1..], values);
      NoJointTail(atoms, values);
    }
  }

  lemma NoJointTail(atoms: seq<Atom>, values: Values)
    requires |atoms| > 1
    ensures NoJoint(atoms, values) <==> NoJoint(atoms[1..], values) && !Joint(atoms[0], atoms[1], values)
  {
    var t := atoms[1..];
    if NoJoint(atoms, values) {
      forall k | 0 < k < |t|
        ensures !Joint(t[k - 1], t[k], values)
      {
        assert !Joint(atoms[k + 1 - 1], atoms[k + 1], values);
      }
    }
    if NoJoint(t, values) {
      forall k | 1 < k < |atoms|
        ensures !Joint(atoms[k - 1], atoms[k], values)
      {
        assert !Joint(t[k - 1 - 1], t[k - 1], values);
      }
    }
  }

  /** Without an exposed colon a rendering reads as many string literals as the source and the values have
      together, less one for each joint: as many exactly when no quoted value touches a string. */
  lemma RenderedLiterals(sql: string, types: map<string, ParamType>, params: map<string, string>, other: char -> bool)
    requires Stall !in AtomsFrom(sql, 0, other) && !(OpensBlock(sql) && FindClose(sql) < 0)
    requires Accepted(BindNames(AtomsFrom(sql, 0, other)), types, params)
    requires !Exposed(AtomsFrom(sql, 0, other), Literals(types, params), other)
    ensures var values, source := Literals(types, params), AtomsFrom(sql, 0, other);
      var read := Runs(AtomsFrom(Fill(source, values), 0, other), false);
      && read + Joints(None, source, values) == OwnLiterals(None, source, values)
      && (read == OwnLiterals(None, source, values) <==> NoJoint(source, values))
  {
    hide Accepted, Literals, Fill, Exposed, Joints, Runs, OwnLiterals, NoJoint;
    NoJointsCounted(None, AtomsFrom(sql, 0, other), Literals(types, params));
    RenderingReadsBack(sql, types, params, other);
    BindsAreSafe(AtomsFrom(sql, 0, other), types, params);
    LiteralsOfSubst(None, AtomsFrom(sql, 0, other), Literals(types, params));
  }

  // ---- the failing inputs ----

  const NAMED: map<string, ParamType> := map["a" := OracleNameParam]

  const NAMES: map<string, string> := map["a" := "V"]

  lemma NamesAccepted()
    ensures Accepted({"a"}, NAMED, NAMES) && Literals(NAMED, NAMES) == map["a" := "'V'"]
  {
    assert |"window_start"| != |"a"|;
    assert Literal("V", OracleNameParam) == Some("'V'") by {
      assert "'" + "V" + "'" == "'V'";
    }
  }

  lemma CodeRead(p: char, c: char, rest: string, other: char -> bool)
    requires c !in {'\'', '-', '/'} && !BindsHere(Some(p), [c] + rest, other)
    ensures Atoms(Some(p), [c] + rest, other) == [Plain(c, Code)] + Atoms(Some(c), rest, other)
  {
    hide BindsHere;
    var s := [c] + rest;
    assert s[0] == c && s[1..] == rest;
    AtomsUnfold(Some(p), s, other);
  }

  lemma BindRead(rest: string, other: char -> bool)
    requires rest == "" || !NameChar(rest[0])
    ensures AtomsFrom(":a" + rest, 0, other) == [Bound("a")] + Atoms(Some('a'), rest, other)
  {
    var s := ":a" + rest;
    assert s[0..] == s && s[1..] == ['a'] + rest && s[1..][1..] == rest && s[1..2] == "a" && s[2..] == rest;
    assert NameLen(s[1..]) == 1;
    hide NameLen;
    AtomsUnfold(None, s, other);
  }

  lemma ColonRead(other: char -> bool)
    ensures AtomsFrom(":a:b", 0, other) == [Bound("a"), Plain(':', Code), Plain('b', Code)]
  {
    hide Atoms, AtomsFrom;
    BindRead(":b", other);
    assert ":a" + ":b" == ":a:b" && [':'] + "b" == ":b" && ['b'] + "" == "b";
    CodeRead('a', ':', "b", other);
    CodeRead(':', 'b', "", other);
    NothingRead(Some('b'), other);
  }

  lemma NothingRead(p: Option<char>, other: char -> bool)
    ensures Atoms(p, "", other) == []
  {
  }

  /** A colon behind a bind: the rendering of `:a:b` binds `b`, which the source did not. */
  lemma ExposedColon(other: char -> bool)
    ensures var source, values := AtomsFrom(":a:b", 0, other), Literals(NAMED, NAMES);
      && source == [Bound("a"), Plain(':', Code), Plain('b', Code)]
      && Accepted(BindNames(source), NAMED, NAMES) && Exposed(source, values, other)
      && Fill(source, values) == "'V':b" && HasBind(AtomsFrom("'V':b", 0, other))
  {
    hide AtomsFrom, Accepted, Literals, PrevOk;
    var source, values := AtomsFrom(":a:b", 0, other), Literals(NAMED, NAMES);
    NamesAccepted();
    ColonRead(other);
    assert BindNames(source) == {"a"};
    assert ExposedAt(source, 0, values, other) by {
      QuoteLetsBind(other);
    }
    FilledColon();
    RenderingReadsBack(":a:b", NAMED, NAMES, other);
  }

  lemma QuoteLetsBind(other: char -> bool)
    ensures PrevOk(Last("'V'"), other)
  {
  }

  lemma FilledColon()
    ensures Fill([Bound("a"), Plain(':', Code), Plain('b', Code)], map["a" := "'V'"]) == "'V':b"
  {
    var atoms, values := [Bound("a"), Plain(':', Code), Plain('b', Code)], map["a" := "'V'"];
    assert atoms == [Bound("a")] + ([Plain(':', Code)] + [Plain('b', Code)]);
    FillConcat([Bound("a")], [Plain(':', Code)] + [Plain('b', Code)], values);
    FillConcat([Plain(':', Code)], [Plain('b', Code)], values);
    FillSingle(Bound("a"), values);
    FillSingle(Plain(':', Code), values);
    FillSingle(Plain('b', Code), values);
  }

  lemma StringRead(p: Option<char>, other: char -> bool)
    ensures Atoms(p, "'x'", other) == Mark("'x'", Str)
  {
    assert "'x'"[1..] == "x'" && "x'"[1..] == "'" && "'"[1..] == "";
  }

  lemma QuoteRead(other: char -> bool)
    ensures AtomsFrom(":a'x'", 0, other) == [Bound("a")] + Mark("'x'", Str)
  {
    hide Atoms, AtomsFrom;
    BindRead("'x'", other);
    assert ":a" + "'x'" == ":a'x'";
    StringRead(Some('a'), other);
  }

  /** A string behind a bind: the value and the string of `:a'x'` are read back as one literal. */
  lemma JoinedLiterals(other: char -> bool)
    ensures var source, values := AtomsFrom(":a'x'", 0, other), Literals(NAMED, NAMES);
      && source == [Bound("a")] + Mark("'x'", Str)
      && Accepted(BindNames(source), NAMED, NAMES) && !Exposed(source, values, other)
      && Joint(source[0], source[1], values) && Fill(source, values) == "'V''x'"
      && Runs(AtomsFrom("'V''x'", 0, other), false) != OwnLiterals(None, source, values)
  {
    hide AtomsFrom, Accepted, Literals;
    var source, values := AtomsFrom(":a'x'", 0, other), Literals(NAMED, NAMES);
    NamesAccepted();
    QuoteRead(other);
    assert BindNames(source) == {"a"};
    FillConcat([Bound("a")], Mark("'x'", Str), values);
    FillSingle(Bound("a"), values);
    FillMark("'x'", Str, values);
    assert !NoJoint(source, values) by {
      assert Joint(source[1 - 1], source[1], values);
    }
    RenderedLiterals(":a'x'", NAMED, NAMES, other);
  }
}
