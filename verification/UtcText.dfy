/** UTC instants and their ISO texts. Several parts of the system compare such texts as strings. */
module UtcText {
  import opened Calendar
  import opened Digits
  import opened TextOrder

  datatype Utc = Utc(date: Date, hour: nat, minute: nat, second: nat, micro: nat)

  predicate ValidUtc(u: Utc) {
    Valid(u.date) && u.hour < 24 && u.minute < 60 && u.second < 60 && u.micro < 1_000_000
  }

  function Seconds(u: Utc): int {
    ((DayNumber(u.date) * 24 + u.hour) * 60 + u.minute) * 60 + u.second
  }

  /** Microseconds since the calendar began: the instant itself. */
  function Micros(u: Utc): int {
    Seconds(u) * 1_000_000 + u.micro
  }

  /** A day has 86400 seconds, an hour 3600, a minute 60, and a second a million microseconds. */
  lemma Elapsed(u: Utc, v: Utc)
    ensures Seconds(v) - Seconds(u) ==
      86_400 * (DayNumber(v.date) - DayNumber(u.date)) + 3_600 * (v.hour - u.hour) + 60 * (v.minute - u.minute) + (v.second - u.second)
    ensures Micros(v) - Micros(u) == 1_000_000 * (Seconds(v) - Seconds(u)) + (v.micro - u.micro)
  {
    hide DayNumber;
  }

  /** `YYYY-MM-DDTHH:MM:SS` followed by a tail. */
  function Text(u: Utc, tail: string): string
    requires Valid(u.date)
  {
    Pad(u.date.year, 4) + ("-" + (Pad(u.date.month, 2) + ("-" + (Pad(u.date.day, 2) + ("T" +
    (Pad(u.hour, 2) + (":" + (Pad(u.minute, 2) + (":" + (Pad(u.second, 2) + tail))))))))))
  }

  /** `datetime.isoformat()` of a UTC value: no fraction when the microseconds are zero. */
  function IsoFormat(u: Utc): string
    requires ValidUtc(u)
  {
    Text(u, IsoTail(u.micro))
  }

  function IsoTail(micro: nat): string {
    (if micro == 0 then "" else "." + Pad(micro, 6)) + "+00:00"
  }

  lemma ClockOrder(u: Utc, v: Utc)
    requires ValidUtc(u) && ValidUtc(v)
    ensures Seconds(u) < Seconds(v) <==>
      || Before(u.date, v.date)
      || (u.date == v.date && (u.hour, u.minute) == (v.hour, v.minute) && u.second < v.second)
      || (u.date == v.date && u.hour == v.hour && u.minute < v.minute)
      || (u.date == v.date && u.hour < v.hour)
    ensures Seconds(u) == Seconds(v) <==> u.(micro := 0) == v.(micro := 0)
  {
    BeforeIsEarlier(u.date, v.date);
    BeforeIsEarlier(v.date, u.date);
  }

  /** The texts of two instants compare as their seconds, then their tails. */
  lemma TextComparesSeconds(u: Utc, v: Utc, t: string, w: string)
    requires ValidUtc(u) && ValidUtc(v)
    ensures Less(Text(u, t), Text(v, w)) <==> Seconds(u) < Seconds(v) || (Seconds(u) == Seconds(v) && Less(t, w))
  {
    ClockOrder(u, v);
    assert Pow10(4) == 10000 && Pow10(2) == 100;
    var (s5, z5) := (Pad(u.second, 2) + t, Pad(v.second, 2) + w);
    FieldOrder(u.second, v.second, 2, t, w);
    LessAfterPrefix(":", s5, z5);
    FieldOrder(u.minute, v.minute, 2, ":" + s5, ":" + z5);
    var (s4, z4) := (Pad(u.minute, 2) + (":" + s5), Pad(v.minute, 2) + (":" + z5));
    LessAfterPrefix(":", s4, z4);
    FieldOrder(u.hour, v.hour, 2, ":" + s4, ":" + z4);
    var (s3, z3) := (Pad(u.hour, 2) + (":" + s4), Pad(v.hour, 2) + (":" + z4));
    LessAfterPrefix("T", s3, z3);
    FieldOrder(u.date.day, v.date.day, 2, "T" + s3, "T" + z3);
    var (s2, z2) := (Pad(u.date.day, 2) + ("T" + s3), Pad(v.date.day, 2) + ("T" + z3));
    LessAfterPrefix("-", s2, z2);
    FieldOrder(u.date.month, v.date.month, 2, "-" + s2, "-" + z2);
    var (s1, z1) := (Pad(u.date.month, 2) + ("-" + s2), Pad(v.date.month, 2) + ("-" + z2));
    LessAfterPrefix("-", s1, z1);
    FieldOrder(u.date.year, v.date.year, 4, "-" + s1, "-" + z1);
  }

  lemma IsoTailOrder(a: nat, b: nat)
    requires a < 1_000_000 && b < 1_000_000
    ensures Less(IsoTail(a), IsoTail(b)) <==> a < b
  {
    var z := "+00:00";
    assert Pow10(6) == 1_000_000;
    FieldOrder(a, b, 6, z, z);
    LessIrreflexive(z);
    LessAfterPrefix(".", Pad(a, 6) + z, Pad(b, 6) + z);
    assert ("." + Pad(a, 6)) + z == "." + (Pad(a, 6) + z);
    assert ("." + Pad(b, 6)) + z == "." + (Pad(b, 6) + z);
    assert IsoTail(0) == z;
  }

  /** Sorting `isoformat` texts of UTC instants as strings is sorting them by time. */
  lemma IsoOrderIsTimeOrder(u: Utc, v: Utc)
    requires ValidUtc(u) && ValidUtc(v)
    ensures Less(IsoFormat(u), IsoFormat(v)) <==> Micros(u) < Micros(v)
    ensures IsoFormat(u) == IsoFormat(v) <==> Micros(u) == Micros(v)
  {
    TextComparesSeconds(u, v, IsoTail(u.micro), IsoTail(v.micro));
    TextComparesSeconds(v, u, IsoTail(v.micro), IsoTail(u.micro));
    IsoTailOrder(u.micro, v.micro);
    IsoTailOrder(v.micro, u.micro);
    LessIrreflexive(IsoFormat(u));
    ClockOrder(u, v);
  }

  // ---- texts the system accepts from outside ----

  predicate Ends(s: string, suffix: string) {
    |suffix| <= |s| && s[|s| - |suffix|..] == suffix
  }

  predicate FractionOk(f: string) {
    f == "" || (2 <= |f| <= 7 && f[0] == '.' && AllDigits(f[1..]))
  }

  predicate TailOk(t: string) {
    || (Ends(t, "Z") && FractionOk(t[..|t| - 1]))
    || (Ends(t, "+00:00") && FractionOk(t[..|t| - 6]))
  }

  predicate ShapeOk(s: string) {
    && |s| > 19
    && AllDigits(s[0..4]) && s[4] == '-' && AllDigits(s[5..7]) && s[7] == '-' && AllDigits(s[8..10]) && s[10] == 'T'
    && AllDigits(s[11..13]) && s[13] == ':' && AllDigits(s[14..16]) && s[16] == ':' && AllDigits(s[17..19])
    && TailOk(s[19..])
  }

  /** The fields of a well-shaped text, the fraction apart. */
  function Fields(s: string): Utc
    requires ShapeOk(s)
  {
    Utc(Date(ParseNat(s[0..4]), ParseNat(s[5..7]), ParseNat(s[8..10])),
        ParseNat(s[11..13]), ParseNat(s[14..16]), ParseNat(s[17..19]), 0)
  }

  /** `is_utc_timestamp`: the shape of an ISO UTC timestamp, and a date and time that exist. */
  predicate IsUtcTimestamp(s: string) {
    ShapeOk(s) && ValidUtc(Fields(s))
  }

  lemma FieldsText(s: string)
    requires ShapeOk(s) && Valid(Fields(s).date)
    ensures Text(Fields(s), s[19..]) == s
  {
    hide Pad, ParseNat, Valid;
    PadParse(s[0..4]);
    PadParse(s[5..7]);
    PadParse(s[8..10]);
    PadParse(s[11..13]);
    PadParse(s[14..16]);
    PadParse(s[17..19]);
    assert s[17..] == s[17..19] + s[19..];
    assert s[14..] == s[14..16] + (":" + s[17..]);
    assert s[11..] == s[11..13] + (":" + s[14..]);
    assert s[8..] == s[8..10] + ("T" + s[11..]);
    assert s[5..] == s[5..7] + ("-" + s[8..]);
    assert s == s[0..4] + ("-" + s[5..]);
  }

  // ---- their instants ----

  /** The text ends in `Z`, not in `+00:00`. */
  predicate Zulu(s: string) {
    Ends(s, "Z")
  }

  function Ending(zulu: bool): string {
    if zulu then "Z" else "+00:00"
  }

  /** What follows the seconds. */
  function Tail(f: string, zulu: bool): string {
    if f == "" then Ending(zulu) else "." + (f + Ending(zulu))
  }

  /** The fraction digits, without the dot. */
  function Fraction(s: string): (f: string)
    requires ShapeOk(s)
    ensures |f| <= 6 && AllDigits(f)
    ensures s[19..] == Tail(f, Zulu(s))
  {
    var t, e := s[19..], Ending(Zulu(s));
    EndingOfTail(t);
    assert Ends(t, "Z") <==> Zulu(s);
    assert t == t[..|t| - |e|] + e;
    if t == e then "" else t[1..|t| - |e|]
  }

  lemma EndingOfTail(t: string)
    requires TailOk(t)
    ensures Ends(t, Ending(Ends(t, "Z"))) && FractionOk(t[..|t| - |Ending(Ends(t, "Z"))|])
  {
  }

  function Zeros(n: nat): (z: string)
    ensures |z| == n && AllDigits(z)
  {
    if n == 0 then "" else Zeros(n - 1) + "0"
  }

  function FractionMicros(f: string): nat
    requires |f| <= 6 && AllDigits(f)
  {
    ParseNat(f + Zeros(6 - |f|))
  }

  function Instant(s: string): int
    requires IsUtcTimestamp(s)
  {
    Seconds(Fields(s)) * 1_000_000 + FractionMicros(Fraction(s))
  }

  predicate ProperPrefix(f: string, g: string) {
    f <= g && f != g
  }

  lemma {:induction false} ParseBound(f: string)
    requires AllDigits(f)
    ensures ParseNat(f) < Pow10(|f|)
  {
    if f != "" {
      ParseBound(f[..|f| - 1]);
    }
  }

  lemma ParseNothing()
    ensures ParseNat("") == 0 && Pow10(0) == 1
  {
  }

  lemma ParseStep(s: string)
    requires s != "" && AllDigits(s)
    ensures ParseNat(s) == 10 * ParseNat(s[..|s| - 1]) + DigitValue(s[|s| - 1])
    ensures Pow10(|s|) == 10 * Pow10(|s| - 1)
  {
  }

  lemma TimesTen(a: nat, p: nat)
    ensures a * (10 * p) == 10 * (a * p)
  {
  }

  lemma {:induction false} ParseOfConcat(f: string, g: string)
    requires AllDigits(f) && AllDigits(g)
    ensures ParseNat(f + g) == ParseNat(f) * Pow10(|g|) + ParseNat(g)
  {
    hide ParseNat, Pow10, DigitValue;
    if g == "" {
      assert f + g == f;
      ParseNothing();
    } else {
      ParseStep(g);
      ParseStep(f + g);
      var h := g[..|g| - 1];
      ParseOfConcat(f, h);
      assert (f + g)[..|f + g| - 1] == f + h;
      TimesTen(ParseNat(f), Pow10(|h|));
    }
  }

  lemma {:induction false} ZerosAreZero(n: nat)
    ensures ParseNat(Zeros(n)) == 0
  {
    if n > 0 {
      ZerosAreZero(n - 1);
      assert Zeros(n)[..n - 1] == Zeros(n - 1);
    }
  }

  lemma ExtendingFractionIsNotEarlier(f: string, g: string)
    requires AllDigits(f) && AllDigits(g) && |g| <= 6 && ProperPrefix(f, g)
    ensures FractionMicros(f) <= FractionMicros(g)
  {
    hide ParseNat, Pow10, Zeros;
    var r := g[|f|..] + Zeros(6 - |g|);
    assert g + Zeros(6 - |g|) == f + r;
    ParseOfConcat(f, r);
    ParseOfConcat(f, Zeros(6 - |f|));
    ZerosAreZero(6 - |f|);
  }

  /** A fraction that ends sorts before one that goes on, unless it ends in `Z`. */
  lemma ShorterFraction(f: string, g: string, e: bool, h: bool)
    requires AllDigits(g) && ProperPrefix(f, g)
    ensures Less(f + Ending(e), g + Ending(h)) <==> !e
    ensures Less(g + Ending(h), f + Ending(e)) <==> e
  {
    var r := g[|f|..];
    assert g + Ending(h) == f + (r + Ending(h));
    LessAfterPrefix(f, r + Ending(h), Ending(e));
    LessAfterPrefix(f, Ending(e), r + Ending(h));
    assert IsDigit(g[|f|]);
  }

  lemma UnrelatedFractions(f: string, g: string, e: bool, h: bool)
    requires AllDigits(f) && AllDigits(g) && |f| <= 6 && |g| <= 6 && !(f <= g) && !(g <= f)
    ensures Less(f + Ending(e), g + Ending(h)) <==> FractionMicros(f) < FractionMicros(g)
    ensures FractionMicros(f) != FractionMicros(g)
  {
    LessDecided(f, g, Ending(e), Ending(h));
    LessDecided(f, g, Zeros(6 - |f|), Zeros(6 - |g|));
    DigitsOrder(f + Zeros(6 - |f|), g + Zeros(6 - |g|));
    LessIrreflexive(f + Zeros(6 - |f|));
    LessTotal(f, g);
    LessDecided(g, f, Zeros(6 - |g|), Zeros(6 - |f|));
  }

  /** String order and time order say the same about two instants. */
  predicate OrdersAgree(a: string, b: string)
    requires IsUtcTimestamp(a) && IsUtcTimestamp(b)
  {
    && (Less(a, b) <==> Instant(a) < Instant(b))
    && (Less(b, a) <==> Instant(b) < Instant(a))
  }

  lemma TailOrder(f: string, g: string, e: bool, h: bool)
    requires AllDigits(f) && AllDigits(g)
    ensures Less(Tail(f, e), Tail(g, h)) <==> Less(f + Ending(e), g + Ending(h))
  {
    LessAfterPrefix(".", f + Ending(e), g + Ending(h));
    if f == "" || g == "" {
      assert "" + Ending(e) == Ending(e) && "" + Ending(h) == Ending(h);
    }
  }

  /** The dividing condition for two fractions of one second. */
  predicate TailsFit(f: string, g: string, e: bool, h: bool)
    requires AllDigits(f) && AllDigits(g) && |f| <= 6 && |g| <= 6
  {
    || (f == g && e == h)
    || (FractionMicros(f) != FractionMicros(g) && !(e && ProperPrefix(f, g)) && !(h && ProperPrefix(g, f)))
  }

  lemma TailsAgree(f: string, g: string, e: bool, h: bool)
    requires AllDigits(f) && AllDigits(g) && |f| <= 6 && |g| <= 6
    ensures
      && (Less(Tail(f, e), Tail(g, h)) <==> FractionMicros(f) < FractionMicros(g))
      && (Less(Tail(g, h), Tail(f, e)) <==> FractionMicros(g) < FractionMicros(f))
      <==> TailsFit(f, g, e, h)
  {
    hide FractionMicros, Tail;
    TailOrder(f, g, e, h);
    TailOrder(g, f, h, e);
    if f == g {
      LessAfterPrefix(f, Ending(e), Ending(h));
      LessAfterPrefix(f, Ending(h), Ending(e));
      LessIrreflexive(Ending(e));
    } else if f <= g {
      ExtendingFractionIsNotEarlier(f, g);
      ShorterFraction(f, g, e, h);
    } else if g <= f {
      ExtendingFractionIsNotEarlier(g, f);
      ShorterFraction(g, f, h, e);
    } else {
      UnrelatedFractions(f, g, e, h);
      UnrelatedFractions(g, f, h, e);
    }
  }

  lemma FractionBelowOneSecond(f: string)
    requires |f| <= 6 && AllDigits(f)
    ensures FractionMicros(f) < 1_000_000
  {
    ParseBound(f + Zeros(6 - |f|));
    assert Pow10(6) == 1_000_000;
  }

  lemma TextsOrder(a: string, b: string)
    requires IsUtcTimestamp(a) && IsUtcTimestamp(b)
    ensures Less(a, b) <==>
      Seconds(Fields(a)) < Seconds(Fields(b)) || (Seconds(Fields(a)) == Seconds(Fields(b)) && Less(a[19..], b[19..]))
  {
    hide Text;
    FieldsText(a);
    FieldsText(b);
    TextComparesSeconds(Fields(a), Fields(b), a[19..], b[19..]);
  }

  lemma SameText(a: string, b: string)
    requires IsUtcTimestamp(a) && IsUtcTimestamp(b)
    requires Seconds(Fields(a)) == Seconds(Fields(b)) && Fraction(a) == Fraction(b) && Zulu(a) == Zulu(b)
    ensures a == b
  {
    hide Text, ShapeOk, Seconds, Fraction;
    FieldsText(a);
    FieldsText(b);
    ClockOrder(Fields(a), Fields(b));
  }

  lemma InstantsOrder(a: string, b: string)
    requires IsUtcTimestamp(a) && IsUtcTimestamp(b)
    ensures Instant(a) < Instant(b) <==>
      || Seconds(Fields(a)) < Seconds(Fields(b))
      || (Seconds(Fields(a)) == Seconds(Fields(b)) && FractionMicros(Fraction(a)) < FractionMicros(Fraction(b)))
  {
    hide FractionMicros, Fields, ShapeOk;
    FractionBelowOneSecond(Fraction(a));
    FractionBelowOneSecond(Fraction(b));
  }

  /** The text ends in `Z` where the fraction of the other goes on. */
  predicate StopsShort(a: string, b: string)
    requires IsUtcTimestamp(a) && IsUtcTimestamp(b)
  {
    Zulu(a) && ProperPrefix(Fraction(a), Fraction(b))
  }

  /** Comparing two accepted timestamps as strings is comparing their times exactly when they are one text,
      or fall in different seconds, or are different instants of which neither text ends in `Z` where the
      fraction of the other goes on. */
  lemma StringOrderOfTimes(a: string, b: string)
    requires IsUtcTimestamp(a) && IsUtcTimestamp(b)
    ensures OrdersAgree(a, b) <==>
      || a == b
      || Seconds(Fields(a)) != Seconds(Fields(b))
      || (Instant(a) != Instant(b) && !StopsShort(a, b) && !StopsShort(b, a))
  {
    hide Fields, ShapeOk, FractionMicros, Tail, Ends;
    TextsOrder(a, b);
    TextsOrder(b, a);
    InstantsOrder(a, b);
    InstantsOrder(b, a);
    TailsAgree(Fraction(a), Fraction(b), Zulu(a), Zulu(b));
    LessIrreflexive(a);
    if Seconds(Fields(a)) == Seconds(Fields(b)) && Fraction(a) == Fraction(b) && Zulu(a) == Zulu(b) {
      SameText(a, b);
    }
  }

  // ---- the failing pairs ----

  /** The first second of 2026, with the tail. */
  function NewYear(tail: string): string {
    "2026-01-01T00:00:00" + tail
  }

  lemma ParseDigit(s: string, c: char)
    requires AllDigits(s) && IsDigit(c)
    ensures AllDigits(s + [c]) && ParseNat(s + [c]) == 10 * ParseNat(s) + DigitValue(c)
  {
    assert (s + [c])[..|s|] == s;
  }

  lemma ParseNewYear()
    ensures AllDigits("2026") && AllDigits("01") && AllDigits("00")
    ensures ParseNat("2026") == 2026 && ParseNat("01") == 1 && ParseNat("00") == 0
  {
    hide ParseNat;
    ParseNothing();
    assert "" + ['2'] == "2" && "2" + ['0'] == "20" && "20" + ['2'] == "202" && "202" + ['6'] == "2026";
    assert "" + ['0'] == "0" && "0" + ['1'] == "01" && "0" + ['0'] == "00";
    ParseDigit("", '2');
    ParseDigit("2", '0');
    ParseDigit("20", '2');
    ParseDigit("202", '6');
    ParseDigit("", '0');
    ParseDigit("0", '1');
    ParseDigit("0", '0');
  }

  lemma NewYearOk(tail: string)
    requires tail != "" && TailOk(tail)
    ensures IsUtcTimestamp(NewYear(tail)) && NewYear(tail)[19..] == tail
    ensures Fields(NewYear(tail)) == Utc(Date(2026, 1, 1), 0, 0, 0, 0)
  {
    hide TailOk, ParseNat, AllDigits;
    var s := NewYear(tail);
    ParseNewYear();
    assert s[0..4] == "2026" && s[5..7] == "01" && s[8..10] == "01";
    assert s[11..13] == "00" && s[14..16] == "00" && s[17..19] == "00";
    assert s[19..] == tail;
  }

  lemma TailsDiffer(f: string, g: string, e: bool, h: bool)
    requires Tail(f, e) == Tail(g, h)
    ensures f == g && e == h
  {
    var t := Tail(f, e);
    assert t[|t| - 1] == if e then 'Z' else '0';
    assert f != "" ==> t[1..|t| - |Ending(e)|] == f;
    assert g != "" ==> t[1..|t| - |Ending(h)|] == g;
  }

  /** A later instant that sorts first: half a second past, against the whole second. */
  lemma LaterSortsFirst()
    ensures IsUtcTimestamp(NewYear("Z")) && IsUtcTimestamp(NewYear(".5Z"))
    ensures Instant(NewYear("Z")) < Instant(NewYear(".5Z")) && Less(NewYear(".5Z"), NewYear("Z"))
  {
    hide ShapeOk, Fields, Seconds, NewYear, IsUtcTimestamp, Pow10, ParseNat;
    NewYearInstant("", true);
    NewYearInstant("5", true);
    assert "." + ("5" + "Z") == ".5Z";
    HalfSecond();
    TextsOrder(NewYear(".5Z"), NewYear("Z"));
  }

  /** One instant in two spellings, of which one sorts first. */
  lemma SameInstantSortsFirst()
    ensures IsUtcTimestamp(NewYear("Z")) && IsUtcTimestamp(NewYear("+00:00"))
    ensures Instant(NewYear("Z")) == Instant(NewYear("+00:00")) && Less(NewYear("+00:00"), NewYear("Z"))
  {
    hide ShapeOk, Fields, Seconds, NewYear, IsUtcTimestamp;
    NewYearInstant("", true);
    NewYearInstant("", false);
    TextsOrder(NewYear("+00:00"), NewYear("Z"));
  }

  /** A pair whose order is kept. */
  lemma EarlierSortsFirst()
    ensures IsUtcTimestamp(NewYear("+00:00")) && IsUtcTimestamp(NewYear(".5Z"))
    ensures Instant(NewYear("+00:00")) < Instant(NewYear(".5Z")) && Less(NewYear("+00:00"), NewYear(".5Z"))
  {
    hide ShapeOk, Fields, Seconds, NewYear, IsUtcTimestamp, Pow10, ParseNat;
    NewYearInstant("", false);
    NewYearInstant("5", true);
    assert "." + ("5" + "Z") == ".5Z";
    HalfSecond();
    TextsOrder(NewYear("+00:00"), NewYear(".5Z"));
  }

  lemma HalfSecond()
    ensures FractionMicros("") < FractionMicros("5")
  {
    ZerosAreZero(6);
    ZerosAreZero(5);
    ParseOfConcat("5", Zeros(5));
    ParseDigit("", '5');
    assert "" + ['5'] == "5" && "" + Zeros(6) == Zeros(6);
    assert Pow10(5) == 100_000;
  }

  lemma NewYearInstant(f: string, zulu: bool)
    requires AllDigits(f) && |f| <= 6
    ensures var s := NewYear(Tail(f, zulu));
      && IsUtcTimestamp(s) && s[19..] == Tail(f, zulu)
      && Fields(s) == Utc(Date(2026, 1, 1), 0, 0, 0, 0)
      && Instant(s) == Seconds(Utc(Date(2026, 1, 1), 0, 0, 0, 0)) * 1_000_000 + FractionMicros(f)
  {
    hide Seconds, FractionMicros, Fields;
    TailIsOk(f, zulu);
    NewYearOk(Tail(f, zulu));
    TailsDiffer(f, Fraction(NewYear(Tail(f, zulu))), zulu, Zulu(NewYear(Tail(f, zulu))));
  }

  lemma TailIsOk(f: string, zulu: bool)
    requires AllDigits(f) && |f| <= 6
    ensures TailOk(Tail(f, zulu)) && Tail(f, zulu) != ""
  {
    var t, e := Tail(f, zulu), Ending(zulu);
    assert t == (if f == "" then "" else "." + f) + e;
    assert t[|t| - |e|..] == e && t[..|t| - |e|] == if f == "" then "" else "." + f;
    assert f != "" ==> ("." + f)[1..] == f;
  }
}
