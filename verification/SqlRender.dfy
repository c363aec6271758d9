/** Rendering certified SQL: every bind replaced by a literal of its declared type. */
module SqlRender {
  import opened Options
  import opened SqlAtoms
  import opened SqlScan
  import opened SqlRescan
  import opened Digits
  import Calendar
  import TextOrder

  datatype ParamType = IntegerParam(min: nat, max: nat) | TimestampParam | SqlIdParam | OracleNameParam

  // ---- literals ----

  /** `$` in the value patterns also matches before a final newline. */
  function BeforeFinalNewline(v: string): string {
    if v != "" && v[|v| - 1] == '\n' then v[..|v| - 1] else v
  }

  predicate SqlIdChar(c: char) {
    '0' <= c <= '9' || 'a' <= c <= 'z'
  }

  predicate OracleNameChar(c: char) {
    'A' <= c <= 'Z' || '0' <= c <= '9' || c in {'_', '$', '#'}
  }

  predicate IsSqlId(v: string) {
    var core := BeforeFinalNewline(v);
    |core| == 13 && forall i :: 0 <= i < |core| ==> SqlIdChar(core[i])
  }

  predicate IsOracleName(v: string) {
    var core := BeforeFinalNewline(v);
    1 <= |core| <= 128 && 'A' <= core[0] <= 'Z' && forall i :: 0 <= i < |core| ==> OracleNameChar(core[i])
  }

  predicate IsIntegerText(v: string) {
    var core := BeforeFinalNewline(v);
    1 <= |core| <= 10 && AllDigits(core)
  }

  /** `YYYY-MM-DD HH:MM:SS` or with a T, of a moment that exists; a final newline is refused later. */
  predicate IsTimestamp(v: string) {
    && |v| == 19
    && AllDigits(v[0..4]) && v[4] == '-' && AllDigits(v[5..7]) && v[7] == '-' && AllDigits(v[8..10])
    && v[10] in {'T', ' '}
    && AllDigits(v[11..13]) && v[13] == ':' && AllDigits(v[14..16]) && v[16] == ':' && AllDigits(v[17..19])
    && Calendar.Valid(Calendar.Date(ParseNat(v[0..4]), ParseNat(v[5..7]), ParseNat(v[8..10])))
    && ParseNat(v[11..13]) < 24 && ParseNat(v[14..16]) < 60 && ParseNat(v[17..19]) < 60
  }

  function SpaceForT(v: string): string {
    seq(|v|, i requires 0 <= i < |v| => if v[i] == 'T' then ' ' else v[i])
  }

  function Literal(v: string, t: ParamType): Option<string> {
    match t
    case IntegerParam(min, max) =>
      if IsIntegerText(v) && min <= ParseNat(BeforeFinalNewline(v)) <= max
      then Some(Decimal(ParseNat(BeforeFinalNewline(v)))) else None
    case TimestampParam =>
      if IsTimestamp(v) then Some("TO_DATE('" + SpaceForT(v) + "', 'YYYY-MM-DD HH24:MI:SS')") else None
    case SqlIdParam => if IsSqlId(v) then Some("'" + v + "'") else None
    case OracleNameParam => if IsOracleName(v) then Some("'" + v + "'") else None
  }

  // ---- every literal is a safe value ----

  lemma {:induction false} PlainConcat(a: string, b: string, inString: bool, mid: bool)
    requires PlainValue(b, mid) && (forall i :: 0 <= i < |a| ==> a[i] != '\'')
    requires mid == inString && (!inString ==> forall i :: 0 <= i < |a| ==> a[i] !in {'-', '/', '*', ':'})
    ensures PlainValue(a + b, inString)
  {
    if a == "" {
      assert a + b == b;
    } else {
      PlainConcat(a[1..], b, inString, mid);
      assert (a + b)[1..] == a[1..] + b && (a + b)[0] == a[0];
    }
  }

  lemma Quoted(body: string, rest: string)
    requires (forall i :: 0 <= i < |body| ==> body[i] != '\'') && PlainValue(rest, false)
    ensures PlainValue("'" + body + ("'" + rest), false)
  {
    hide PlainValue;
    PlainQuote(rest, true);
    PlainConcat(body, "'" + rest, true, true);
    PlainQuote(body + ("'" + rest), false);
    assert "'" + body + ("'" + rest) == "'" + (body + ("'" + rest));
  }

  lemma PlainQuote(rest: string, inString: bool)
    ensures PlainValue("'" + rest, inString) == PlainValue(rest, !inString)
  {
    assert ("'" + rest)[1..] == rest;
  }

  lemma LiteralIsSafe(v: string, t: ParamType)
    requires Literal(v, t).Some?
    ensures SafeValue(Literal(v, t).value)
  {
    match t
    case IntegerParam(_, _) =>
      var d := Decimal(ParseNat(BeforeFinalNewline(v)));
      assert forall i :: 0 <= i < |d| ==> IsDigit(d[i]);
      PlainConcat(d, "", false, false);
      assert d + "" == d;
    case TimestampParam =>
      TimestampIsSafe(v);
    case SqlIdParam =>
      NoQuoteIn(v);
      Quoted(v, "");
      assert "'" + v + ("'" + "") == "'" + v + "'";
    case OracleNameParam =>
      NoQuoteIn(v);
      Quoted(v, "");
      assert "'" + v + ("'" + "") == "'" + v + "'";
  }

  lemma NoQuoteIn(v: string)
    requires IsSqlId(v) || IsOracleName(v)
    ensures forall i :: 0 <= i < |v| ==> v[i] != '\''
  {
    var core := BeforeFinalNewline(v);
    assert forall i :: 0 <= i < |core| ==> v[i] == core[i];
  }

  predicate NoQuote(v: string) {
    forall i :: 0 <= i < |v| ==> v[i] != '\''
  }

  /** `open 'body', 'format')`, put together so that quotes pair up. */
  lemma CallIsPlain(open: string, body: string, format: string)
    requires NoQuote(open) && NoQuote(body) && NoQuote(format)
    requires forall i :: 0 <= i < |open| ==> open[i] !in {'-', '/', '*', ':'}
    ensures PlainValue(open + ("'" + body + ("'" + (", " + ("'" + format + ("'" + ")"))))), false)
  {
    hide PlainValue;
    NothingIsPlain();
    PlainConcat(")", "", false, false);
    assert ")" + "" == ")";
    Quoted(format, ")");
    var tail := "'" + format + ("'" + ")");
    PlainConcat(", ", tail, false, false);
    Quoted(body, ", " + tail);
    PlainConcat(open, "'" + body + ("'" + (", " + tail)), false, false);
  }

  lemma NothingIsPlain()
    ensures PlainValue("", false)
  {
  }

  lemma TimestampIsSafe(v: string)
    requires IsTimestamp(v)
    ensures SafeValue("TO_DATE('" + SpaceForT(v) + "', 'YYYY-MM-DD HH24:MI:SS')")
  {
    hide PlainValue, IsTimestamp, SpaceForT;
    TimestampChars(v);
    var body, format := SpaceForT(v), "YYYY-MM-DD HH24:MI:SS";
    CallIsPlain("TO_DATE(", body, format);
    assert "TO_DATE('" == "TO_DATE(" + "'";
    assert "', 'YYYY-MM-DD HH24:MI:SS')" == "'" + (", " + ("'" + format + ("'" + ")")));
    Regrouped("TO_DATE(", "'", body, "'" + (", " + ("'" + format + ("'" + ")"))));
  }

  lemma Regrouped(a: string, b: string, c: string, d: string)
    ensures a + b + c + d == a + (b + c + d)
  {
  }

  lemma TimestampChars(v: string)
    requires IsTimestamp(v)
    ensures NoQuote(SpaceForT(v))
  {
    assert v == v[0..4] + [v[4]] + v[5..7] + [v[7]] + v[8..10] + [v[10]] + v[11..13] + [v[13]] + v[14..16] + [v[16]] + v[17..19];
    forall i | 0 <= i < |v|
      ensures v[i] != '\''
    {
      assert i < 4 ==> v[i] == v[0..4][i];
      assert 5 <= i < 7 ==> v[i] == v[5..7][i - 5];
      assert 8 <= i < 10 ==> v[i] == v[8..10][i - 8];
      assert 11 <= i < 13 ==> v[i] == v[11..13][i - 11];
      assert 14 <= i < 16 ==> v[i] == v[14..16][i - 14];
      assert 17 <= i < 19 ==> v[i] == v[17..19][i - 17];
    }
  }

  // ---- rendering ----

  datatype RenderError =
    | UnknownParameter | MissingParameter | UnsupportedParameter(name: string) | InvalidValue(name: string)
    | WindowOrder | NotReadOnly

  datatype Rendering = Rendered(text: string) | Refused(error: RenderError)

  ghost function BindNames(atoms: seq<Atom>): set<string> {
    set a | a in atoms && a.Bound? :: a.name
  }

  /** The binds of the chunks, each once, in order of first appearance. */
  method BindsOf(chunks: seq<Chunk>) returns (out: seq<string>)
    ensures forall n :: n in out <==> Bind(n) in chunks
    ensures forall i, j :: 0 <= i < j < |out| ==> out[i] != out[j]
  {
    out := [];
    for k := 0 to |chunks|
      invariant forall n :: n in out <==> Bind(n) in chunks[..k]
      invariant forall i, j :: 0 <= i < j < |out| ==> out[i] != out[j]
    {
      if chunks[k].Bind? && chunks[k].name !in out {
        out := out + [chunks[k].name];
      }
    }
    assert chunks[..|chunks|] == chunks;
  }

  predicate WindowOk(params: map<string, string>) {
    "window_start" in params && "window_end" in params ==>
      TextOrder.Less(SpaceForT(params["window_start"]), SpaceForT(params["window_end"]))
  }

  /** The parameters are exactly the binds, each supported and valid, and any window is ordered. */
  predicate Accepted(names: set<string>, types: map<string, ParamType>, params: map<string, string>) {
    && params.Keys == names && names <= types.Keys
    && (forall n <- names :: Literal(params[n], types[n]).Some?)
    && WindowOk(params)
  }

  function Literals(types: map<string, ParamType>, params: map<string, string>): (values: Values)
  {
    map n | n in params && n in types && Literal(params[n], types[n]).Some? :: Literal(params[n], types[n]).value
  }

  /** The text of the chunks with the values in place. */
  function Filled(chunks: seq<Chunk>, values: Values): string {
    Fill(AtomsOf(chunks), values)
  }

  lemma {:induction false} NamesOfAtoms(chunks: seq<Chunk>, n: string)
    ensures Bind(n) in chunks <==> Bound(n) in AtomsOf(chunks)
  {
    if chunks != [] {
      var init, last := chunks[..|chunks| - 1], chunks[|chunks| - 1];
      NamesOfAtoms(init, n);
      assert chunks == init + [last];
      assert Bound(n) in ChunkAtoms(last) <==> last == Bind(n);
    }
  }

  /** The join at the end of `render`. */
  method Join(chunks: seq<Chunk>, values: Values) returns (out: string)
    requires forall n :: Bind(n) in chunks ==> n in values
    ensures out == Filled(chunks, values)
  {
    out := "";
    for k := 0 to |chunks|
      invariant out == Filled(chunks[..k], values)
    {
      var c := chunks[k];
      assert chunks[..k + 1][..k] == chunks[..k];
      FillConcat(AtomsOf(chunks[..k]), ChunkAtoms(c), values);
      match c {
        case Sql(t) => FillMark(t, Code, values);
        case Lit(t) => FillMark(t, LitClass(t), values);
        case Bind(n) => FillSingle(Bound(n), values);
      }
      out := out + (if c.Bind? then values[c.name] else Piece(c));
    }
    assert chunks[..|chunks|] == chunks;
  }

  lemma NeededAreNames(chunks: seq<Chunk>, needed: seq<string>)
    requires forall n :: n in needed <==> Bind(n) in chunks
    ensures (set n | n in needed) == BindNames(AtomsOf(chunks))
  {
    forall n: string
      ensures n in needed <==> n in BindNames(AtomsOf(chunks))
    {
      NamesOfAtoms(chunks, n);
      assert n in BindNames(AtomsOf(chunks)) <==> Bound(n) in AtomsOf(chunks);
    }
  }

  /** Every bind must be supported, then every value valid. */
  method LiteralsFor(needed: seq<string>, types: map<string, ParamType>, params: map<string, string>)
    returns (problem: Option<RenderError>, values: Values)
    requires params.Keys == set n | n in needed
    ensures problem.None? <==> params.Keys <= types.Keys && forall n <- params.Keys :: Literal(params[n], types[n]).Some?
    ensures problem.None? ==> values == Literals(types, params)
    ensures problem.Some? ==>
      if params.Keys <= types.Keys then
        exists n :: problem == Some(InvalidValue(n)) && n in params && Literal(params[n], types[n]).None?
      else exists n :: problem == Some(UnsupportedParameter(n)) && n in params && n !in types
  {
    hide Literal;
    values := map[];
    for i := 0 to |needed|
      invariant forall j :: 0 <= j < i ==> needed[j] in types
    {
      if needed[i] !in types {
        assert needed[i] in params.Keys;
        return Some(UnsupportedParameter(needed[i])), values;
      }
    }
    for i := 0 to |needed|
      invariant forall j :: 0 <= j < i ==> Literal(params[needed[j]], types[needed[j]]).Some?
      invariant values.Keys == set n | n in needed[..i]
      invariant forall n <- values :: Literal(params[n], types[n]) == Some(values[n])
    {
      var lit := Literal(params[needed[i]], types[needed[i]]);
      if lit.None? {
        assert needed[i] in params.Keys;
        return Some(InvalidValue(needed[i])), values;
      }
      values := values[needed[i] := lit.value];
    }
    problem := None;
  }

  /** `render`, on the texts the scanner gets through at all; `readOnly` is the guard applied to the result. */
  method Render(sql: string, types: map<string, ParamType>, params: map<string, string>, readOnly: string -> bool, other: char -> bool)
    returns (r: Rendering)
    requires Terminates(sql, other)
    ensures r.Rendered? <==>
      && Accepted(BindNames(ScanAtoms(sql, other)), types, params)
      && readOnly(Fill(ScanAtoms(sql, other), Literals(types, params)))
    ensures r.Rendered? ==> r.text == Fill(ScanAtoms(sql, other), Literals(types, params))
    ensures r == Refused(UnknownParameter) <==> !(params.Keys <= BindNames(ScanAtoms(sql, other)))
    ensures r == Refused(MissingParameter) <==> params.Keys < BindNames(ScanAtoms(sql, other))
    ensures (exists n :: n in params && n !in types && r == Refused(UnsupportedParameter(n))) <==>
      params.Keys == BindNames(ScanAtoms(sql, other)) && !(params.Keys <= types.Keys)
    ensures (exists n :: n in params && n in types && Literal(params[n], types[n]).None? && r == Refused(InvalidValue(n))) <==>
      && params.Keys == BindNames(ScanAtoms(sql, other)) <= types.Keys
      && exists n <- params.Keys :: Literal(params[n], types[n]).None?
    ensures r == Refused(WindowOrder) <==>
      && params.Keys == BindNames(ScanAtoms(sql, other)) <= types.Keys
      && (forall n <- params.Keys :: Literal(params[n], types[n]).Some?) && !WindowOk(params)
    ensures r == Refused(NotReadOnly) <==>
      && Accepted(BindNames(ScanAtoms(sql, other)), types, params)
      && !readOnly(Fill(ScanAtoms(sql, other), Literals(types, params)))
  {
    hide Literal, Fill, ScanAtoms, WindowOk;
    var chunks := Scan(sql, other);
    ghost var names := BindNames(ScanAtoms(sql, other));
    var needed := BindsOf(chunks);
    NeededAreNames(chunks, needed);
    if exists n <- params.Keys :: n !in needed {
      return Refused(UnknownParameter);
    }
    if exists n <- needed :: n !in params {
      return Refused(MissingParameter);
    }
    assert params.Keys == names;
    var problem, values := LiteralsFor(needed, types, params);
    if problem.Some? {
      return Refused(problem.value);
    }
    if !WindowOk(params) {
      return Refused(WindowOrder);
    }
    var out := Join(chunks, values);
    if !readOnly(out) {
      return Refused(NotReadOnly);
    }
    r := Rendered(out);
  }

  // ---- what rendering guarantees ----

  predicate IsComment(a: Atom) {
    a.Plain? && (a.cls == Line || a.cls == Block)
  }

  function Comments(atoms: seq<Atom>): seq<Atom> {
    if atoms == [] then [] else (if IsComment(atoms[0]) then [atoms[0]] else []) + Comments(atoms[1..])
  }

  lemma {:induction false} CommentsConcat(a: seq<Atom>, b: seq<Atom>)
    ensures Comments(a + b) == Comments(a) + Comments(b)
  {
    hide IsComment;
    if a == [] {
      assert a + b == b;
    } else {
      CommentsConcat(a[1..], b);
      assert (a + b)[1..] == a[1..] + b;
    }
  }

  lemma {:induction false} ValuesAreNoComments(v: string, inString: bool)
    ensures Comments(ValueAtoms(v, inString)) == [] && !HasBind(ValueAtoms(v, inString))
  {
    if v != "" {
      ValueAtomsUnfold(v, inString);
      ValuesAreNoComments(v[1..], Inside(v[0], inString));
      var atoms, rest := ValueAtoms(v, inString), ValueAtoms(v[1..], Inside(v[0], inString));
      assert atoms[1..] == rest;
      assert forall k :: 0 < k < |atoms| ==> atoms[k] == rest[k - 1];
    }
  }

  lemma OneKeepsComments(a: Atom, values: Values)
    requires Bindable(a, values)
    ensures Comments(SubstOne(a, values)) == Comments([a]) && !HasBind(SubstOne(a, values))
  {
    if a.Bound? {
      ValuesAreNoComments(values[a.name], false);
    }
  }

  lemma {:induction false} SubstKeepsComments(atoms: seq<Atom>, values: Values)
    requires forall a <- atoms :: Bindable(a, values)
    ensures Comments(Subst(atoms, values)) == Comments(atoms) && !HasBind(Subst(atoms, values))
  {
    hide SubstOne, Bindable, Comments;
    if atoms == [] {
    } else {
      assert atoms[0] in atoms && forall a <- atoms[1..] :: a in atoms;
      SubstKeepsComments(atoms[1..], values);
      OneKeepsComments(atoms[0], values);
      var one, rest := SubstOne(atoms[0], values), Subst(atoms[1..], values);
      CommentsConcat(one, rest);
      CommentsConcat([atoms[0]], atoms[1..]);
      assert [atoms[0]] + atoms[1..] == atoms;
      assert forall k :: |one| <= k < |one + rest| ==> (one + rest)[k] == rest[k - |one|];
    }
  }

  lemma BindsAreSafe(source: seq<Atom>, types: map<string, ParamType>, params: map<string, string>)
    requires Accepted(BindNames(source), types, params)
    ensures forall a <- source :: Bindable(a, Literals(types, params))
  {
    hide Literal;
    forall a | a in source
      ensures Bindable(a, Literals(types, params))
    {
      if a.Bound? {
        LiteralIsSafe(params[a.name], types[a.name]);
      }
    }
  }

  /** Every rendering of a text whose first characters are not an unclosed comment. Scanning it again
      finds a bind exactly where a colon was exposed; otherwise it reads as the source with each
      value in its bind's place: no bind, the same comments, all other text in order. */
  lemma RenderingReadsBack(sql: string, types: map<string, ParamType>, params: map<string, string>, other: char -> bool)
    requires Stall !in AtomsFrom(sql, 0, other) && !(OpensBlock(sql) && FindClose(sql) < 0)
    requires Accepted(BindNames(AtomsFrom(sql, 0, other)), types, params)
    ensures var values, source := Literals(types, params), AtomsFrom(sql, 0, other);
      var again := AtomsFrom(Fill(source, values), 0, other);
      && (HasBind(again) <==> Exposed(source, values, other))
      && (!HasBind(again) ==> again == Subst(source, values) && Comments(again) == Comments(source) && Stall !in again)
  {
    hide Literal, Fill, Exposed, BindsHere;
    var values, source := Literals(types, params), AtomsFrom(sql, 0, other);
    BindsAreSafe(source, types, params);
    assert sql[0..] == sql && Fill(source, values)[0..] == Fill(source, values);
    Rescan(None, None, sql, values, other);
    SubstKeepsComments(source, values);
    NoStallAfterSubst(source, values);
  }

  lemma {:induction false} NoStallAfterSubst(atoms: seq<Atom>, values: Values)
    requires Stall !in atoms
    ensures Stall !in Subst(atoms, values)
  {
    if atoms != [] {
      assert atoms[0] in atoms && forall a <- atoms[1..] :: a in atoms;
      NoStallAfterSubst(atoms[1..], values);
      if atoms[0].Bound? && atoms[0].name in values {
        ValueHasNoStall(values[atoms[0].name], false);
      }
    }
  }

  lemma {:induction false} ValueHasNoStall(v: string, inString: bool)
    ensures Stall !in ValueAtoms(v, inString)
  {
    if v != "" {
      ValueHasNoStall(v[1..], Inside(v[0], inString));
    }
  }
}
