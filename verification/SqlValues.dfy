/** What a rendered literal denotes: the value given for the parameter, of its declared type. */
module SqlValues {
  import opened Options
  import opened Digits
  import opened TextOrder
  import opened SqlRender
  import opened SqlRescan
  import opened UtcText
  import Calendar

  /** The value, a final newline aside. */
  function Core(v: string): (core: string)
    ensures v == core || v == core + "\n"
  {
    if v != "" && v[|v| - 1] == '\n' then v[..|v| - 1] else v
  }

  predicate LowerOrDigit(c: char) {
    'a' <= c <= 'z' || '0' <= c <= '9'
  }

  predicate UpperOrDigit(c: char) {
    'A' <= c <= 'Z' || '0' <= c <= '9' || c == '_' || c == '$' || c == '#'
  }

  /** A date and a time of day that exist, in 19 characters. */
  predicate IsMoment(v: string) {
    && |v| == 19 && v[4] == '-' && v[7] == '-' && (v[10] == 'T' || v[10] == ' ') && v[13] == ':' && v[16] == ':'
    && (forall i :: 0 <= i < 19 && i !in {4, 7, 10, 13, 16} ==> IsDigit(v[i]))
    && ValidUtc(MomentOf(v))
  }

  function Part(v: string, from: nat, to: nat): nat
    requires from <= to <= |v|
  {
    if AllDigits(v[from..to]) then ParseNat(v[from..to]) else 0
  }

  function MomentOf(v: string): Utc
    requires |v| == 19
  {
    Utc(Calendar.Date(Part(v, 0, 4), Part(v, 5, 7), Part(v, 8, 10)), Part(v, 11, 13), Part(v, 14, 16), Part(v, 17, 19), 0)
  }

  /** The values a type admits. */
  predicate Admits(t: ParamType, v: string) {
    match t
    case IntegerParam(min, max) =>
      1 <= |Core(v)| <= 10 && AllDigits(Core(v)) && min <= ParseNat(Core(v)) <= max
    case TimestampParam => IsMoment(v)
    case SqlIdParam => |Core(v)| == 13 && forall i :: 0 <= i < 13 ==> LowerOrDigit(Core(v)[i])
    case OracleNameParam =>
      1 <= |Core(v)| <= 128 && 'A' <= v[0] <= 'Z' && forall i :: 0 <= i < |Core(v)| ==> UpperOrDigit(Core(v)[i])
  }

  /** The literal is the value: the same number without leading zeros, the same text between quotes, or the same digits
      at the places of the format. */
  predicate Denotes(t: ParamType, v: string, lit: string) {
    match t
    case IntegerParam(_, _) =>
      && lit != "" && AllDigits(lit) && (lit[0] == '0' ==> |lit| == 1)
      && AllDigits(Core(v)) && ParseNat(lit) == ParseNat(Core(v))
    case TimestampParam =>
      && |v| == 19
      && lit == "TO_DATE('" + (v[..4] + "-" + v[5..7] + "-" + v[8..10] + " " + v[11..13] + ":" + v[14..16] + ":" + v[17..19])
                + "', 'YYYY-MM-DD HH24:MI:SS')"
    case _ => |lit| == |v| + 2 && lit[0] == '\'' && lit[|lit| - 1] == '\'' && lit[1..|lit| - 1] == v
  }

  lemma Pieces(v: string)
    requires |v| == 19
    ensures v == v[..4] + [v[4]] + v[5..7] + [v[7]] + v[8..10] + [v[10]] + v[11..13] + [v[13]] + v[14..16] + [v[16]] + v[17..19]
  {
  }

  lemma TimestampMeans(v: string)
    ensures IsTimestamp(v) <==> IsMoment(v)
    ensures IsMoment(v) ==>
      SpaceForT(v) == v[..4] + "-" + v[5..7] + "-" + v[8..10] + " " + v[11..13] + ":" + v[14..16] + ":" + v[17..19]
  {
    hide ParseNat;
    if IsTimestamp(v) {
      assert forall i :: 0 <= i < 4 ==> v[i] == v[0..4][i];
      assert forall i :: 5 <= i < 7 ==> v[i] == v[5..7][i - 5];
      assert forall i :: 8 <= i < 10 ==> v[i] == v[8..10][i - 8];
      assert forall i :: 11 <= i < 13 ==> v[i] == v[11..13][i - 11];
      assert forall i :: 14 <= i < 16 ==> v[i] == v[14..16][i - 14];
      assert forall i :: 17 <= i < 19 ==> v[i] == v[17..19][i - 17];
    }
    if IsMoment(v) {
      SpacedOut(v);
    }
  }

  lemma SpacedOut(v: string)
    requires IsMoment(v)
    ensures SpaceForT(v) == v[..4] + "-" + v[5..7] + "-" + v[8..10] + " " + v[11..13] + ":" + v[14..16] + ":" + v[17..19]
  {
    hide ValidUtc, MomentOf;
    var s := SpaceForT(v);
    assert forall i :: 0 <= i < 19 && i != 10 ==> v[i] != 'T' && s[i] == v[i];
  }

  lemma IntegerDenotes(v: string, min: nat, max: nat)
    ensures var t := IntegerParam(min, max);
      && (Literal(v, t).Some? <==> Admits(t, v))
      && (Admits(t, v) ==> Denotes(t, v, Literal(v, t).value))
  {
    hide ParseNat, Decimal;
    assert Core(v) == BeforeFinalNewline(v);
    if AllDigits(Core(v)) {
      DecimalDenotes(ParseNat(Core(v)));
    }
  }

  lemma DecimalDenotes(n: nat)
    ensures var lit := Decimal(n);
      lit != "" && AllDigits(lit) && (lit[0] == '0' ==> |lit| == 1) && ParseNat(lit) == n
  {
    hide ParseNat, Decimal;
    NoLeadingZero(n);
    ParseDecimal(n);
  }

  lemma Unquoted(v: string)
    ensures var lit := "'" + v + "'";
      |lit| == |v| + 2 && lit[0] == '\'' && lit[|lit| - 1] == '\'' && lit[1..|lit| - 1] == v
  {
  }

  /** A value has a literal exactly when its type admits it, and then the literal denotes it. */
  lemma LiteralDenotes(v: string, t: ParamType)
    ensures Literal(v, t).Some? <==> Admits(t, v)
    ensures Admits(t, v) ==> Denotes(t, v, Literal(v, t).value)
  {
    hide IsTimestamp, IsMoment, SpaceForT, ParseNat, Decimal, IsIntegerText;
    Unquoted(v);
    match t
    case IntegerParam(min, max) => IntegerDenotes(v, min, max);
    case TimestampParam =>
      TimestampMeans(v);
      AdmittedMoment(v);
    case SqlIdParam =>
    case OracleNameParam =>
  }

  // ---- windows ----

  lemma SameBetween(p: string, q: string, c: char, d: char, x: string, y: string)
    requires |p| == |q|
    ensures Less(p + ([c] + x), q + ([c] + y)) <==> Less(p + ([d] + x), q + ([d] + y))
  {
    LessByField(p, q, [c] + x, [c] + y);
    LessByField(p, q, [d] + x, [d] + y);
    LessAfterPrefix([c], x, y);
    LessAfterPrefix([d], x, y);
  }

  /** The timestamp a moment is written as. */
  function Stamped(v: string): string
    requires |v| == 19
  {
    v[..10] + ("T" + (v[11..] + "Z"))
  }

  lemma StampedIsUtc(v: string)
    requires IsMoment(v)
    ensures IsUtcTimestamp(Stamped(v)) && Fields(Stamped(v)) == MomentOf(v) && Stamped(v)[19..] == "Z"
  {
    hide ParseNat, ValidUtc;
    var s := Stamped(v);
    assert s[0..4] == v[0..4] && s[5..7] == v[5..7] && s[8..10] == v[8..10];
    assert s[11..13] == v[11..13] && s[14..16] == v[14..16] && s[17..19] == v[17..19];
    assert s[19..] == "Z";
    assert TailOk("Z") by {
      TailIsOk("", true);
    }
  }

  /** Rendered moments compare as texts the way they follow each other in time. */
  lemma MomentsInOrder(a: string, b: string)
    requires IsMoment(a) && IsMoment(b) && |a| == |b| == 19
    ensures Less(SpaceForT(a), SpaceForT(b)) <==> Seconds(MomentOf(a)) < Seconds(MomentOf(b))
  {
    hide IsMoment, IsUtcTimestamp, Fields, SpaceForT, Seconds, MomentOf;
    StampedIsUtc(a);
    StampedIsUtc(b);
    TextsOrder(Stamped(a), Stamped(b));
    LessIrreflexive("Z");
    Halves(a);
    Halves(b);
    LessByField(a[..10] + ("T" + a[11..]), b[..10] + ("T" + b[11..]), "Z", "Z");
    SameBetween(a[..10], b[..10], ' ', 'T', a[11..], b[11..]);
  }

  lemma Halves(v: string)
    requires IsMoment(v)
    ensures |v| == 19 && SpaceForT(v) == v[..10] + ([' '] + v[11..]) && Stamped(v) == v[..10] + (['T'] + v[11..]) + "Z"
  {
    hide ValidUtc, MomentOf;
    var s := SpaceForT(v);
    assert forall i :: 0 <= i < 19 && i != 10 ==> v[i] != 'T' && s[i] == v[i];
    assert s == s[..10] + [s[10]] + s[11..];
  }

  /** An accepted window starts strictly before it ends. */
  lemma WindowInTime(params: map<string, string>)
    requires "window_start" in params && "window_end" in params
    requires IsMoment(params["window_start"]) && IsMoment(params["window_end"])
    ensures WindowOk(params) <==> Seconds(MomentOf(params["window_start"])) < Seconds(MomentOf(params["window_end"]))
  {
    hide IsMoment;
    AdmittedMoment(params["window_start"]);
    AdmittedMoment(params["window_end"]);
    MomentsInOrder(params["window_start"], params["window_end"]);
  }

  // ---- of a rendering ----

  /** Exactly when parameters are accepted: they are the binds, of known types that admit the values, and a window of two
      moments has its start before its end. */
  lemma AcceptedExactly(names: set<string>, types: map<string, ParamType>, params: map<string, string>)
    requires forall n <- {"window_start", "window_end"} :: n in types ==> types[n] == TimestampParam
    ensures Accepted(names, types, params) <==>
      && params.Keys == names && (forall n <- names :: n in types)
      && (forall n <- names :: Admits(types[n], params[n]))
      && ("window_start" in names && "window_end" in names ==>
            Seconds(MomentOf(params["window_start"])) < Seconds(MomentOf(params["window_end"])))
  {
    hide Literal, Admits, IsMoment, WindowOk, Seconds, MomentOf;
    forall n | n in params && n in types
      ensures Literal(params[n], types[n]).Some? <==> Admits(types[n], params[n])
    {
      LiteralDenotes(params[n], types[n]);
    }
    NoWindow(params);
    if params.Keys == names && "window_start" in names && "window_end" in names
       && "window_start" in types && "window_end" in types {
      AdmittedMoment(params["window_start"]);
      AdmittedMoment(params["window_end"]);
      if IsMoment(params["window_start"]) && IsMoment(params["window_end"]) {
        WindowInTime(params);
      }
    }
  }

  lemma AdmittedMoment(v: string)
    ensures Admits(TimestampParam, v) <==> IsMoment(v)
    ensures IsMoment(v) ==> |v| == 19
  {
  }

  lemma NoWindow(params: map<string, string>)
    ensures !("window_start" in params && "window_end" in params) ==> WindowOk(params)
  {
  }

  /** Whatever is rendered has in the place of each bind a literal that denotes the value given for it. */
  lemma RenderedValues(names: set<string>, types: map<string, ParamType>, params: map<string, string>, n: string)
    requires Accepted(names, types, params) && n in names
    ensures n in Literals(types, params) && Denotes(types[n], params[n], Literals(types, params)[n])
  {
    hide Literal, Denotes;
    LiteralDenotes(params[n], types[n]);
  }
}
