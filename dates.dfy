/** Calendar dates of the proleptic Gregorian calendar, as Python's
    `datetime.date` has them (years 1 to 9999), and the small date helpers of
    app.py: three days before a date, the next month, the start of the
    program season, and the first and last day of a month. */
module Dates {
  import opened Rows

  datatype Date = Date(year: int, month: int, day: int)

  /** A month of a year: what `strftime("%B %Y")` names (the `month_year`
      label of a deadline row) and what `f"{year}-{month:02d}"` writes. */
  datatype YearMonth = YearMonth(year: int, month: int)

  predicate IsLeapYear(y: int) {
    y % 4 == 0 && (y % 100 != 0 || y % 400 == 0)
  }

  /** `calendar.monthrange(y, m)[1]`. */
  function DaysInMonth(y: int, m: int): (n: int)
    requires 1 <= m <= 12
    ensures 28 <= n <= 31
    ensures n == 29 <==> m == 2 && IsLeapYear(y)
  {
    if m == 2 then (if IsLeapYear(y) then 29 else 28)
    else if m == 4 || m == 6 || m == 9 || m == 11 then 30
    else 31
  }

  predicate ValidDate(d: Date) {
    1 <= d.year <= 9999 && 1 <= d.month <= 12 && 1 <= d.day <= DaysInMonth(d.year, d.month)
  }

  predicate ValidMonth(ym: YearMonth) {
    1 <= ym.month <= 12
  }

  function MonthOf(d: Date): YearMonth {
    YearMonth(d.year, d.month)
  }

  /** Order of dates by (year, month, day), which is the order SQLite uses
      when it compares the stored `YYYY-MM-DD` texts (see IsoDates.IsoOrder). */
  predicate DateLe(a: Date, b: Date) {
    a.year < b.year || (a.year == b.year && (a.month < b.month || (a.month == b.month && a.day <= b.day)))
  }

  /** Days of the months of year `y` before month `m`. */
  function DaysBeforeMonth(y: int, m: int): (n: nat)
    requires 1 <= m <= 13
  {
    if m == 1 then 0 else DaysBeforeMonth(y, m - 1) + DaysInMonth(y, m - 1)
  }

  function DaysInYear(y: int): nat {
    if IsLeapYear(y) then 366 else 365
  }

  /** A year's length is the sum of its months. */
  lemma DaysInYearIsSumOfMonths(y: int)
    ensures DaysInYear(y) == DaysBeforeMonth(y, 13)
  {
    var feb := DaysInMonth(y, 2);
    assert DaysBeforeMonth(y, 2) == 31;
    assert DaysBeforeMonth(y, 3) == 31 + feb;
    assert DaysBeforeMonth(y, 4) == 62 + feb;
    assert DaysBeforeMonth(y, 5) == 92 + feb;
    assert DaysBeforeMonth(y, 6) == 123 + feb;
    assert DaysBeforeMonth(y, 7) == 153 + feb;
    assert DaysBeforeMonth(y, 8) == 184 + feb;
    assert DaysBeforeMonth(y, 9) == 215 + feb;
    assert DaysBeforeMonth(y, 10) == 245 + feb;
    assert DaysBeforeMonth(y, 11) == 276 + feb;
    assert DaysBeforeMonth(y, 12) == 306 + feb;
  }

  /** Days of the years before year `y`. */
  function DaysBeforeYear(y: int): nat
    requires y >= 1
  {
    if y == 1 then 0 else DaysBeforeYear(y - 1) + DaysInYear(y - 1)
  }

  /** The day's ordinal, 1 for 0001-01-01 (Python's `date.toordinal()`). */
  function DayNumber(d: Date): int
    requires ValidDate(d)
  {
    DaysBeforeYear(d.year) + DaysBeforeMonth(d.year, d.month) + d.day
  }

  lemma {:induction false} DaysBeforeMonthGrows(y: int, m1: int, m2: int)
    requires 1 <= m1 < m2 <= 13
    ensures DaysBeforeMonth(y, m1) + DaysInMonth(y, m1) <= DaysBeforeMonth(y, m2)
    decreases m2
  {
    if m2 > m1 + 1 {
      DaysBeforeMonthGrows(y, m1, m2 - 1);
    }
  }

  lemma {:induction false} DaysBeforeYearGrows(y1: int, y2: int)
    requires 1 <= y1 < y2
    ensures DaysBeforeYear(y1) + DaysInYear(y1) <= DaysBeforeYear(y2)
    decreases y2
  {
    if y2 > y1 + 1 {
      DaysBeforeYearGrows(y1, y2 - 1);
    }
  }

  /** A date's ordinal lies within its year's range of ordinals. */
  lemma DayNumberInYear(d: Date)
    requires ValidDate(d)
    ensures DaysBeforeYear(d.year) + DaysBeforeMonth(d.year, d.month) < DayNumber(d)
    ensures DayNumber(d) <= DaysBeforeYear(d.year) + DaysBeforeMonth(d.year, d.month) + DaysInMonth(d.year, d.month)
    ensures DayNumber(d) <= DaysBeforeYear(d.year) + DaysInYear(d.year)
  {
    DaysBeforeMonthGrows(d.year, d.month, 13);
    DaysInYearIsSumOfMonths(d.year);
  }

  /** The (year, month, day) order is the order of the days' ordinals: a
      later ordinal is a later day. */
  lemma DateLeIffDayNumber(a: Date, b: Date)
    requires ValidDate(a) && ValidDate(b)
    ensures DateLe(a, b) <==> DayNumber(a) <= DayNumber(b)
  {
    DayNumberInYear(a);
    DayNumberInYear(b);
    if a.year < b.year {
      DaysBeforeYearGrows(a.year, b.year);
    } else if b.year < a.year {
      DaysBeforeYearGrows(b.year, a.year);
    } else if a.month < b.month {
      DaysBeforeMonthGrows(a.year, a.month, b.month);
    } else if b.month < a.month {
      DaysBeforeMonthGrows(a.year, b.month, a.month);
    }
  }

  /** The day before `d`; there is none before 0001-01-01 (Python raises
      OverflowError there). */
  function PrevDay(d: Date): (r: Option<Date>)
    requires ValidDate(d)
    ensures r.None? <==> d == Date(1, 1, 1)
    ensures r.Some? ==> ValidDate(r.value) && DayNumber(r.value) == DayNumber(d) - 1
  {
    if d.day > 1 then
      PrevDayWithinMonth(d);
      Some(Date(d.year, d.month, d.day - 1))
    else if d.month > 1 then
      PrevDayAcrossMonth(d);
      Some(Date(d.year, d.month - 1, DaysInMonth(d.year, d.month - 1)))
    else if d.year > 1 then
      PrevDayAcrossYear(d);
      Some(Date(d.year - 1, 12, 31))
    else
      None
  }

  lemma PrevDayWithinMonth(d: Date)
    requires ValidDate(d) && d.day > 1
    ensures ValidDate(Date(d.year, d.month, d.day - 1))
    ensures DayNumber(Date(d.year, d.month, d.day - 1)) == DayNumber(d) - 1
  {
  }

  lemma PrevDayAcrossMonth(d: Date)
    requires ValidDate(d) && d.day == 1 && d.month > 1
    ensures ValidDate(Date(d.year, d.month - 1, DaysInMonth(d.year, d.month - 1)))
    ensures DayNumber(Date(d.year, d.month - 1, DaysInMonth(d.year, d.month - 1))) == DayNumber(d) - 1
  {
  }

  lemma PrevDayAcrossYear(d: Date)
    requires ValidDate(d) && d.day == 1 && d.month == 1 && d.year > 1
    ensures ValidDate(Date(d.year - 1, 12, 31))
    ensures DayNumber(Date(d.year - 1, 12, 31)) == DayNumber(d) - 1
  {
    assert DaysBeforeYear(d.year) == DaysBeforeYear(d.year - 1) + DaysInYear(d.year - 1);
    DaysInYearIsSumOfMonths(d.year - 1);
    assert DaysInYear(d.year - 1) == DaysBeforeMonth(d.year - 1, 12) + 31;
  }

  /** 0001-01-01 is day 1, and every other date comes later. */
  lemma FirstDayNumber(d: Date)
    requires ValidDate(d)
    ensures DayNumber(d) == 1 <==> d == Date(1, 1, 1)
  {
    if d != Date(1, 1, 1) {
      if d.year > 1 {
        DaysBeforeYearGrows(1, d.year);
      } else if d.month > 1 {
        DaysBeforeMonthGrows(1, 1, d.month);
      }
    }
  }

  /** `d - timedelta(days=n)`: the date `n` days earlier, or nothing when that
      would precede 0001-01-01. */
  function MinusDays(d: Date, n: nat): (r: Option<Date>)
    requires ValidDate(d)
    ensures r.None? <==> DayNumber(d) <= n
    ensures r.Some? ==> ValidDate(r.value) && DayNumber(r.value) == DayNumber(d) - n
    decreases n
  {
    if n == 0 then Some(d)
    else match PrevDay(d)
      case None => FirstDayNumber(d); None
      case Some(e) => MinusDays(e, n - 1)
  }

  /** The deadline for teachers to claim a reward: three days before the
      drop-off range starts (app.py, `set_volunteer_dates`). */
  function TeacherEnd(rangeStart: Date): (r: Option<Date>)
    requires ValidDate(rangeStart)
    ensures r.None? <==> DayNumber(rangeStart) <= 3
    ensures r.Some? ==> ValidDate(r.value) && DayNumber(r.value) == DayNumber(rangeStart) - 3
    ensures r.Some? ==> DateLe(r.value, rangeStart) && r.value != rangeStart
  {
    match MinusDays(rangeStart, 3)
    case None => None
    case Some(e) => DateLeIffDayNumber(e, rangeStart); Some(e)
  }

  /** Months counted from year 0: consecutive months differ by one. */
  function MonthIndex(ym: YearMonth): int {
    ym.year * 12 + ym.month - 1
  }

  /** The month after `ym`, December rolling over to January of the next
      year. */
  function NextMonth(ym: YearMonth): (r: YearMonth)
    requires ValidMonth(ym)
    ensures ValidMonth(r) && MonthIndex(r) == MonthIndex(ym) + 1
  {
    if ym.month == 12 then YearMonth(ym.year + 1, 1) else YearMonth(ym.year, ym.month + 1)
  }

  /** Two valid months with the same index are the same month, so the
      contract of NextMonth determines its result. */
  lemma MonthIndexInjective(a: YearMonth, b: YearMonth)
    requires ValidMonth(a) && ValidMonth(b) && MonthIndex(a) == MonthIndex(b)
    ensures a == b
  {
  }

  /** August 1 that opens the program season containing `today`: of this
      year from August on, of the previous year before August. */
  function SeasonStart(today: Date): (r: Date)
    requires ValidDate(today)
    ensures r.month == 8 && r.day == 1
    ensures DateLe(r, today)
    ensures forall y: int :: y > r.year ==> !DateLe(Date(y, 8, 1), today)
  {
    if today.month >= 8 then Date(today.year, 8, 1) else Date(today.year - 1, 8, 1)
  }

  /** The first day of the month of `today` (`strftime("%Y-%m") + "-01"`). */
  function MonthStart(today: Date): (r: Date)
    requires ValidDate(today)
    ensures ValidDate(r) && MonthOf(r) == MonthOf(today)
    ensures forall d :: MonthOf(d) == MonthOf(today) && ValidDate(d) ==> DateLe(r, d)
  {
    Date(today.year, today.month, 1)
  }

  /** The last day of the month of `today` (`monthrange` gives its number). */
  function MonthEnd(today: Date): (r: Date)
    requires ValidDate(today)
    ensures ValidDate(r) && MonthOf(r) == MonthOf(today)
    ensures forall d :: MonthOf(d) == MonthOf(today) && ValidDate(d) ==> DateLe(d, r)
  {
    Date(today.year, today.month, DaysInMonth(today.year, today.month))
  }

  /** The dates between the month bounds, both included, are exactly the
      dates of that month. */
  lemma InMonthBounds(today: Date, d: Date)
    requires ValidDate(today) && ValidDate(d)
    ensures DateLe(MonthStart(today), d) && DateLe(d, MonthEnd(today)) <==> MonthOf(d) == MonthOf(today)
  {
  }

  /** The season boundary of the program: on 2025-07-31 the season began on
      2024-08-01, on 2025-08-01 it begins that day. */
  lemma SeasonStartExamples()
    ensures SeasonStart(Date(2025, 7, 31)) == Date(2024, 8, 1)
    ensures SeasonStart(Date(2025, 8, 1)) == Date(2025, 8, 1)
  {
  }

  /** A drop-off range starting 2025-04-10 gives teachers until 2025-04-07. */
  lemma TeacherEndExample()
    ensures TeacherEnd(Date(2025, 4, 10)) == Some(Date(2025, 4, 7))
  {
  }
}
