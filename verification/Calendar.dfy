/** The Gregorian calendar of Python's `date`, and calendar-month arithmetic on it. */
module Calendar {
  import opened Options

  datatype Date = Date(year: int, month: int, day: int)

  predicate IsLeap(y: int) {
    y % 4 == 0 && (y % 100 != 0 || y % 400 == 0)
  }

  function DaysIn(y: int, m: int): int {
    if m == 2 then (if IsLeap(y) then 29 else 28)
    else if m == 4 || m == 6 || m == 9 || m == 11 then 30
    else 31
  }

  /** The dates Python can build. */
  predicate Valid(d: Date) {
    1 <= d.year <= 9999 && 1 <= d.month <= 12 && 1 <= d.day <= DaysIn(d.year, d.month)
  }

  function DaysBeforeYear(y: int): int {
    365 * (y - 1) + (y - 1) / 4 - (y - 1) / 100 + (y - 1) / 400
  }

  function DaysBeforeMonth(y: int, m: int): int {
    (if m == 1 then 0 else if m == 2 then 31 else if m == 3 then 59 else if m == 4 then 90
     else if m == 5 then 120 else if m == 6 then 151 else if m == 7 then 181 else if m == 8 then 212
     else if m == 9 then 243 else if m == 10 then 273 else if m == 11 then 304 else 334)
    + (if m > 2 && IsLeap(y) then 1 else 0)
  }

  /** The two tables agree: the months follow one another without gap. */
  lemma MonthLength(y: int, m: int)
    requires 1 <= m < 12
    ensures DaysBeforeMonth(y, m + 1) - DaysBeforeMonth(y, m) == DaysIn(y, m)
  {
  }

  /** The proleptic ordinal: 0001-01-01 is day 1. */
  function DayNumber(d: Date): int {
    DaysBeforeYear(d.year) + DaysBeforeMonth(d.year, d.month) + d.day
  }

  lemma YearLength(y: int)
    ensures DaysBeforeYear(y + 1) - DaysBeforeYear(y) == if IsLeap(y) then 366 else 365
  {
    var a, b, c := (y - 1) / 4, (y - 1) / 100, (y - 1) / 400;
    assert y / 4 == if y % 4 == 0 then a + 1 else a;
    assert y / 100 == if y % 100 == 0 then b + 1 else b;
    assert y / 400 == if y % 400 == 0 then c + 1 else c;
  }

  // ---- the order of dates ----

  predicate Before(a: Date, b: Date) {
    a.year < b.year || (a.year == b.year && (a.month < b.month || (a.month == b.month && a.day < b.day)))
  }

  lemma {:induction false} LaterYear(y: int, z: int)
    requires y < z
    ensures DaysBeforeYear(y) + 366 <= DaysBeforeYear(z) + (if IsLeap(y) then 0 else 1)
    decreases z - y
  {
    YearLength(z - 1);
    if y < z - 1 {
      LaterYear(y, z - 1);
    }
  }

  lemma DayInYear(d: Date)
    requires Valid(d)
    ensures DaysBeforeYear(d.year) < DayNumber(d) <= DaysBeforeYear(d.year) + (if IsLeap(d.year) then 366 else 365)
  {
  }

  /** Field-by-field order is the order of day numbers. */
  lemma BeforeIsEarlier(a: Date, b: Date)
    requires Valid(a) && Valid(b)
    ensures Before(a, b) <==> DayNumber(a) < DayNumber(b)
  {
    DayInYear(a);
    DayInYear(b);
    if a.year < b.year {
      LaterYear(a.year, b.year);
    } else if b.year < a.year {
      LaterYear(b.year, a.year);
    } else {
    }
  }

  // ---- calendar months ----

  /** The last day of a month, computed as the code does from the first of the next month; absent
      where Python cannot build that date. */
  function LastDayOfMonth(y: int, m: int): (r: Option<int>)
    requires 1 <= m <= 12
    ensures r.Some? ==> r.value == DaysIn(y, m)
    ensures r.Some? <==> 1 <= y <= 9999 && !(y == 9999 && m == 12)
  {
    var next := if m == 12 then Date(y + 1, 1, 1) else Date(y, m + 1, 1);
    if !(1 <= y) || !Valid(next) then None
    else
      assert DayNumber(next) - 1 == DayNumber(Date(y, m, DaysIn(y, m))) by {
        YearLength(y);
      }
      Some(DayNumber(next) - DayNumber(Date(y, m, 1)))
  }

  /** `add_calendar_months`: the same day of the target month, clamped to its last day. */
  function AddMonths(d: Date, months: int): Option<Date> {
    var index := d.month - 1 + months;
    var year, month := d.year + index / 12, index % 12 + 1;
    var last := LastDayOfMonth(year, month);
    if last.None? then None
    else Some(Date(year, month, if d.day <= last.value then d.day else last.value))
  }

  /** Months since January of year 1. */
  function MonthIndex(d: Date): int {
    12 * (d.year - 1) + d.month - 1
  }

  /** A result exists exactly when the target month is one Python can end: December 9999 is not,
      although its dates are. */
  lemma AddMonthsDefined(d: Date, months: int)
    requires Valid(d)
    ensures AddMonths(d, months).Some? <==> 0 <= MonthIndex(d) + months < 12 * 9999 - 1
    ensures AddMonths(d, months).Some? ==>
      var r := AddMonths(d, months).value;
      Valid(r) && MonthIndex(r) == MonthIndex(d) + months && r.day <= d.day && (r.day < d.day ==> r.day == DaysIn(r.year, r.month))
  {
    var index := d.month - 1 + months;
    assert index == 12 * (index / 12) + index % 12;
  }

  /** A later start never gives an earlier result. */
  lemma AddMonthsMonotone(a: Date, b: Date, months: int)
    requires Valid(a) && Valid(b) && DayNumber(a) <= DayNumber(b)
    requires AddMonths(a, months).Some? && AddMonths(b, months).Some?
    ensures DayNumber(AddMonths(a, months).value) <= DayNumber(AddMonths(b, months).value)
  {
    var x, y := AddMonths(a, months).value, AddMonths(b, months).value;
    AddMonthsDefined(a, months);
    AddMonthsDefined(b, months);
    BeforeIsEarlier(b, a);
    BeforeIsEarlier(y, x);
    assert MonthIndex(a) <= MonthIndex(b);
    assert MonthIndex(x) < MonthIndex(y) ==> !Before(y, x);
    assert MonthIndex(x) == MonthIndex(y) ==> x.year == y.year && x.month == y.month;
  }

  /** Days between the first of a month and the first of the month `k` later, inside one year,
      with the room the shorter of the two months leaves. */
  lemma MonthGap(y: int, m: int, k: int)
    requires 1 <= m && m + k <= 12 && k in {1, 3, 6}
    ensures var gap, cut := DaysBeforeMonth(y, m + k) - DaysBeforeMonth(y, m), DaysIn(y, m) - DaysIn(y, m + k);
      && (k == 1 ==> 28 <= gap <= 31 && 28 <= gap - cut)
      && (k == 3 ==> 89 <= gap <= 92 && 89 <= gap - cut)
      && (k == 6 ==> 181 <= gap <= 184 && 181 <= gap - cut)
  {
  }

  lemma MonthGapOverNewYear(y: int, m: int, k: int)
    requires 1 <= m <= 12 < m + k && k in {1, 3, 6}
    ensures var year := if IsLeap(y) then 366 else 365;
      var gap := year - DaysBeforeMonth(y, m) + DaysBeforeMonth(y + 1, m + k - 12);
      var cut := DaysIn(y, m) - DaysIn(y + 1, m + k - 12);
      && (k == 1 ==> 28 <= gap <= 31 && 28 <= gap - cut)
      && (k == 3 ==> 89 <= gap <= 92 && 89 <= gap - cut)
      && (k == 6 ==> 181 <= gap <= 184 && 181 <= gap - cut)
  {
  }

  /** One, three and six calendar months, in days, for every date. */
  lemma HorizonDays(d: Date, months: int)
    requires Valid(d) && months in {1, 3, 6} && AddMonths(d, months).Some?
    ensures var days := DayNumber(AddMonths(d, months).value) - DayNumber(d);
      && (months == 1 ==> 28 <= days <= 31)
      && (months == 3 ==> 89 <= days <= 92)
      && (months == 6 ==> 181 <= days <= 184)
  {
    hide AddMonths, DaysBeforeYear, DaysBeforeMonth, IsLeap;
    var r := AddMonths(d, months).value;
    AddMonthsDefined(d, months);
    YearLength(d.year);
    if d.month + months <= 12 {
      assert r.year == d.year && r.month == d.month + months;
      MonthGap(d.year, d.month, months);
    } else {
      assert r.year == d.year + 1 && r.month == d.month + months - 12;
      MonthGapOverNewYear(d.year, d.month, months);
    }
  }

  const MAX_HORIZON_DAYS := 6 * 31

  /** Every forecast horizon lies inside the window a threshold date may fall in. */
  lemma HorizonInsideThresholdWindow(d: Date, months: int)
    requires Valid(d) && months in {1, 3, 6} && AddMonths(d, months).Some?
    ensures 0 < DayNumber(AddMonths(d, months).value) - DayNumber(d) <= MAX_HORIZON_DAYS == 186
  {
    HorizonDays(d, months);
  }

  lemma SameMonth(a: Date, b: Date)
    requires 1 <= a.month <= 12 && 1 <= b.month <= 12 && MonthIndex(a) == MonthIndex(b)
    ensures a.year == b.year && a.month == b.month
  {
  }

  lemma FirstOfMonth(a: Date, k: int, b: Date)
    requires Valid(a) && Valid(b) && b.year < 9999 && a.day == b.day == 1 && MonthIndex(b) == MonthIndex(a) + k
    ensures AddMonths(a, k) == Some(b)
  {
    AddMonthsDefined(a, k);
    SameMonth(AddMonths(a, k).value, b);
  }

  /** All six bounds are attained. */
  lemma HorizonBoundsAreTight()
    ensures AddMonths(Date(2023, 2, 1), 1) == Some(Date(2023, 3, 1)) && DayNumber(Date(2023, 3, 1)) - DayNumber(Date(2023, 2, 1)) == 28
    ensures AddMonths(Date(2023, 1, 1), 1) == Some(Date(2023, 2, 1)) && DayNumber(Date(2023, 2, 1)) - DayNumber(Date(2023, 1, 1)) == 31
    ensures AddMonths(Date(2023, 2, 1), 3) == Some(Date(2023, 5, 1)) && DayNumber(Date(2023, 5, 1)) - DayNumber(Date(2023, 2, 1)) == 89
    ensures AddMonths(Date(2023, 5, 1), 3) == Some(Date(2023, 8, 1)) && DayNumber(Date(2023, 8, 1)) - DayNumber(Date(2023, 5, 1)) == 92
    ensures AddMonths(Date(2022, 9, 1), 6) == Some(Date(2023, 3, 1)) && DayNumber(Date(2023, 3, 1)) - DayNumber(Date(2022, 9, 1)) == 181
    ensures AddMonths(Date(2023, 3, 1), 6) == Some(Date(2023, 9, 1)) && DayNumber(Date(2023, 9, 1)) - DayNumber(Date(2023, 3, 1)) == 184
  {
    hide AddMonths;
    FirstOfMonth(Date(2023, 2, 1), 1, Date(2023, 3, 1));
    FirstOfMonth(Date(2023, 1, 1), 1, Date(2023, 2, 1));
    FirstOfMonth(Date(2023, 2, 1), 3, Date(2023, 5, 1));
    FirstOfMonth(Date(2023, 5, 1), 3, Date(2023, 8, 1));
    FirstOfMonth(Date(2022, 9, 1), 6, Date(2023, 3, 1));
    FirstOfMonth(Date(2023, 3, 1), 6, Date(2023, 9, 1));
  }
}
