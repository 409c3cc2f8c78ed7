/**
 * Proleptic Gregorian calendar arithmetic of the age calculator: the leap
 * rule, month lengths, the year/month/day difference between two dates and
 * the order of the instants JavaScript `Date` objects stand for.
 */
module Calendar {

  /** The wall-clock fields of a `Date`: full year, month 1–12, day of month. */
  datatype Date = Date(year: int, month: int, day: int)

  /** A `Date` carrying a time of day (the reading of the clock). */
  datatype Instant = Instant(date: Date, hour: int, minute: int)

  /** A years/months/days difference. */
  datatype Ymd = Ymd(years: int, months: int, days: int)

  /** JavaScript `%` on integers: truncating division, so the remainder has the dividend's sign. */
  function JsRemainder(a: int, b: int): (r: int)
    requires b > 0
    ensures -b < r < b
    ensures a >= 0 ==> r == a % b
    ensures a < 0 ==> r <= 0 && a - r == -b * ((-a) / b)
  {
    if a >= 0 then a % b
    else
      var q := (-a) / b;
      assert -a == b * q + (-a) % b;
      -((-a) % b)
  }

  /** `isLeap` as written, with JavaScript's `%`. */
  predicate IsLeap(year: int) {
    (JsRemainder(year, 4) == 0 && JsRemainder(year, 100) != 0) || JsRemainder(year, 400) == 0
  }

  /** For the divisors of the leap rule, a negative number and its negation are divisible alike. */
  lemma DivisibleNegated(x: int, k: int)
    requires x < 0 && (k == 4 || k == 100 || k == 400)
    ensures (-x) % k == 0 <==> x % k == 0
  {
  }

  /** The Gregorian leap rule, also for negative years. */
  lemma IsLeapGregorian(year: int)
    ensures IsLeap(year) <==> (year % 4 == 0 && year % 100 != 0) || year % 400 == 0
  {
    if year < 0 {
      DivisibleNegated(year, 4);
      DivisibleNegated(year, 100);
      DivisibleNegated(year, 400);
    }
  }

  /** Leap years repeat every 400 years. */
  lemma LeapCycle(year: int)
    ensures IsLeap(year + 400) == IsLeap(year)
  {
    IsLeapGregorian(year);
    IsLeapGregorian(year + 400);
    assert (year + 400) % 4 == year % 4;
    assert (year + 400) % 100 == year % 100;
    assert (year + 400) % 400 == year % 400;
  }

  /** `maxDaysInMonth`; months outside 1–12 fall through to 31. */
  function MaxDaysInMonth(month: int, year: int): (r: int)
    ensures 28 <= r <= 31
    ensures r < 30 <==> month == 2
    ensures month == 2 ==> (r == 29 <==> IsLeap(year))
    ensures r == 30 <==> month == 4 || month == 6 || month == 9 || month == 11
  {
    if month == 2 then (if IsLeap(year) then 29 else 28)
    else if month in [4, 6, 9, 11] then 30
    else 31
  }

  /** A date whose day exists in its month. */
  predicate ValidDate(d: Date) {
    d.year >= 0 && 1 <= d.month <= 12 && 1 <= d.day <= MaxDaysInMonth(d.month, d.year)
  }

  predicate ValidInstant(t: Instant) {
    ValidDate(t.date) && 0 <= t.hour < 24 && 0 <= t.minute < 60
  }

  /** `a` comes after `b`, comparing year, then month, then day. */
  predicate IsAfter(a: Date, b: Date) {
    a.year > b.year
    || (a.year == b.year && (a.month > b.month || (a.month == b.month && a.day > b.day)))
  }

  // ---------------------------------------------------------------------
  // Time values: a day count from 1 January of year 0 and a minute count.
  // ---------------------------------------------------------------------

  /** Days of a year before the first of `month` (`month` 13 gives the whole year). */
  function DaysBeforeMonth(month: int, year: int): nat
    requires 1 <= month <= 13
  {
    if month == 1 then 0 else DaysBeforeMonth(month - 1, year) + MaxDaysInMonth(month - 1, year)
  }

  function YearLength(year: int): nat {
    DaysBeforeMonth(13, year)
  }

  /** A year has 366 days exactly when it is a leap year. */
  lemma YearLengthLeap(year: int)
    ensures YearLength(year) == if IsLeap(year) then 366 else 365
  {
    var feb := MaxDaysInMonth(2, year);
    assert DaysBeforeMonth(2, year) == 31;
    assert DaysBeforeMonth(3, year) == 31 + feb;
    assert DaysBeforeMonth(4, year) == 62 + feb;
    assert DaysBeforeMonth(5, year) == 92 + feb;
    assert DaysBeforeMonth(6, year) == 123 + feb;
    assert DaysBeforeMonth(7, year) == 153 + feb;
    assert DaysBeforeMonth(8, year) == 184 + feb;
    assert DaysBeforeMonth(9, year) == 215 + feb;
    assert DaysBeforeMonth(10, year) == 245 + feb;
    assert DaysBeforeMonth(11, year) == 276 + feb;
    assert DaysBeforeMonth(12, year) == 306 + feb;
  }

  function DaysBeforeYear(year: nat): nat {
    if year == 0 then 0 else DaysBeforeYear(year - 1) + YearLength(year - 1)
  }

  /** The day number of a date, counting 1 January of year 0 as day 0. */
  function DayOrdinal(d: Date): int
    requires ValidDate(d)
  {
    DaysBeforeYear(d.year) + DaysBeforeMonth(d.month, d.year) + d.day - 1
  }

  /** The minute number of an instant; JavaScript compares `Date`s by such a count. */
  function MinuteStamp(t: Instant): int
    requires ValidDate(t.date)
  {
    DayOrdinal(t.date) * 1440 + t.hour * 60 + t.minute
  }

  lemma {:induction false} DaysBeforeMonthGrows(m: int, n: int, year: int)
    requires 1 <= m < n <= 13
    ensures DaysBeforeMonth(m, year) + MaxDaysInMonth(m, year) <= DaysBeforeMonth(n, year)
  {
    if n > m + 1 {
      DaysBeforeMonthGrows(m, n - 1, year);
    }
  }

  lemma {:induction false} DaysBeforeYearGrows(y: nat, z: nat)
    requires y < z
    ensures DaysBeforeYear(y) + YearLength(y) <= DaysBeforeYear(z)
  {
    if z > y + 1 {
      DaysBeforeYearGrows(y, z - 1);
    }
  }

  /** A date's day number lies within its year. */
  lemma DayOrdinalInYear(d: Date)
    requires ValidDate(d)
    ensures DaysBeforeYear(d.year) <= DayOrdinal(d) < DaysBeforeYear(d.year) + YearLength(d.year)
  {
    DaysBeforeMonthGrows(d.month, 13, d.year);
  }

  /** Day numbers follow the calendar order of valid dates. */
  lemma DayOrdinalOrder(a: Date, b: Date)
    requires ValidDate(a) && ValidDate(b)
    ensures DayOrdinal(a) < DayOrdinal(b) <==> IsAfter(b, a)
    ensures DayOrdinal(a) == DayOrdinal(b) <==> a == b
  {
    if a.year < b.year {
      DayOrdinalInYear(a);
      DayOrdinalInYear(b);
      DaysBeforeYearGrows(a.year, b.year);
    } else if a.year > b.year {
      DayOrdinalInYear(a);
      DayOrdinalInYear(b);
      DaysBeforeYearGrows(b.year, a.year);
    } else if a.month < b.month {
      DaysBeforeMonthGrows(a.month, b.month, a.year);
    } else if a.month > b.month {
      DaysBeforeMonthGrows(b.month, a.month, a.year);
    }
  }

  /**
   * A date taken at midnight is later than an instant exactly when its
   * calendar date is after the instant's: the time of day never decides.
   */
  lemma MidnightAfterInstant(d: Date, t: Instant)
    requires ValidDate(d) && ValidInstant(t)
    ensures MinuteStamp(Instant(d, 0, 0)) > MinuteStamp(t) <==> IsAfter(d, t.date)
  {
    DayOrdinalOrder(t.date, d);
    var x := DayOrdinal(d);
    var y := DayOrdinal(t.date);
    if x > y {
      assert x * 1440 >= y * 1440 + 1440;
    } else {
      assert x * 1440 <= y * 1440;
    }
  }

  // ---------------------------------------------------------------------
  // differenceYMD
  // ---------------------------------------------------------------------

  /** `new Date(to.year, to.month - 1, 0).getDate()`: the length of the month before `to`'s month. */
  function PrevMonthLength(to: Date): (r: int)
    ensures 28 <= r <= 31
    ensures r < 30 <==> to.month == 3
    ensures to.month == 1 ==> r == 31
    ensures 1 <= to.month <= 12 ==> var p := MonthIndex(to) - 1; r == MaxDaysInMonth(p % 12 + 1, p / 12)
  {
    if to.month == 1 then
      assert (MonthIndex(to) - 1) / 12 == to.year - 1 && (MonthIndex(to) - 1) % 12 == 11;
      MaxDaysInMonth(12, to.year - 1)
    else
      assert 1 <= to.month <= 12 ==>
        (MonthIndex(to) - 1) / 12 == to.year && (MonthIndex(to) - 1) % 12 + 1 == to.month - 1;
      MaxDaysInMonth(to.month - 1, to.year)
  }

  /** The count of months from January of year 0 to a date's month. */
  function MonthIndex(d: Date): int {
    d.year * 12 + d.month - 1
  }

  /** The day of the month of `to` is earlier than that of `from`, so a month is borrowed. */
  predicate Borrows(from: Date, to: Date) {
    to.day < from.day
  }

  /** Whole months elapsed, counting a month only once its day of the month is reached. */
  function ElapsedMonths(from: Date, to: Date): int {
    MonthIndex(to) - MonthIndex(from) - (if Borrows(from, to) then 1 else 0)
  }

  /**
   * The difference as whole months split into years and months, and the
   * days left over, with the borrowed month counted at the length of the
   * month before `to`'s month.
   */
  function ElapsedYmd(from: Date, to: Date): (r: Ymd)
    ensures 0 <= r.months <= 11
    ensures r.years * 12 + r.months == ElapsedMonths(from, to)
  {
    var total := ElapsedMonths(from, to);
    Ymd(total / 12, total % 12, to.day - from.day + (if Borrows(from, to) then PrevMonthLength(to) else 0))
  }

  /** `differenceYMD`: field-by-field subtraction with a day borrow, then a month borrow. */
  method DifferenceYmd(from: Date, to: Date) returns (diff: Ymd)
    requires ValidDate(from) && ValidDate(to)
    ensures 0 <= diff.months <= 11
    ensures diff.years * 12 + diff.months == ElapsedMonths(from, to)
    ensures diff == ElapsedYmd(from, to)
  {
    var years := to.year - from.year;
    var months := to.month - from.month;
    var days := to.day - from.day;
    if days < 0 {
      var prevMonth := PrevMonthLength(to);
      days := days + prevMonth;
      months := months - 1;
    }
    if months < 0 {
      months := months + 12;
      years := years - 1;
    }
    diff := Ymd(years, months, days);
  }

  /**
   * For `from` not after `to` the years are not negative and the months are
   * 0–11; the days lie in -2..30 whatever the order.
   */
  lemma DifferenceBounds(from: Date, to: Date)
    requires ValidDate(from) && ValidDate(to)
    ensures var r := ElapsedYmd(from, to);
      0 <= r.months <= 11 && -2 <= r.days <= 30 && (!IsAfter(from, to) ==> r.years >= 0)
  {
    var total := ElapsedMonths(from, to);
    if !IsAfter(from, to) {
      assert total >= 0;
    }
  }

  /** On the same day of the month nothing is borrowed: whole months only. */
  lemma DifferenceSameDayOfMonth(from: Date, to: Date)
    requires ValidDate(from) && ValidDate(to) && from.day == to.day
    ensures var r := ElapsedYmd(from, to);
      r.days == 0 && r.years * 12 + r.months == MonthIndex(to) - MonthIndex(from)
      && 0 <= r.months <= 11
  {
  }

  /**
   * A borrow takes one month off and adds the length of the month before
   * `to`'s month; the days come out negative exactly when `from`'s day
   * exceeds `to`'s day plus that length.
   */
  lemma DifferenceBorrow(from: Date, to: Date)
    requires ValidDate(from) && ValidDate(to) && Borrows(from, to)
    ensures var r := ElapsedYmd(from, to);
      r.years * 12 + r.months == MonthIndex(to) - MonthIndex(from) - 1
      && r.days == to.day - from.day + PrevMonthLength(to)
      && r.days < PrevMonthLength(to)
      && (r.days < 0 <==> from.day > to.day + PrevMonthLength(to))
  {
  }

  /** Without a borrow the days are the plain difference of the days of the month. */
  lemma DifferenceNoBorrow(from: Date, to: Date)
    requires ValidDate(from) && ValidDate(to) && !Borrows(from, to)
    ensures var r := ElapsedYmd(from, to);
      r.years * 12 + r.months == MonthIndex(to) - MonthIndex(from)
      && r.days == to.day - from.day
      && 0 <= r.days < MaxDaysInMonth(to.month, to.year)
  {
  }

  /** A date against itself is zero years, zero months and zero days. */
  lemma DifferenceToSelf(d: Date)
    requires ValidDate(d)
    ensures ElapsedYmd(d, d) == Ymd(0, 0, 0)
  {
  }

  /** The worked examples: whole years, a borrow over April, and a negative day count. */
  lemma DifferenceExamples()
    ensures ElapsedYmd(Date(1990, 5, 15), Date(2024, 5, 15)) == Ymd(34, 0, 0)
    ensures ElapsedYmd(Date(1990, 5, 20), Date(2024, 5, 15)) == Ymd(33, 11, 25)
    ensures ElapsedYmd(Date(2000, 1, 31), Date(2000, 3, 1)) == Ymd(0, 1, -1)
  {
    assert IsLeap(2000) by { IsLeapGregorian(2000); }
  }

  /** The day number of the first day of the month with index `mi` (see `MonthIndex`). */
  function DaysBeforeMonthIndex(mi: int): int
    requires mi >= 0
  {
    DaysBeforeYear(mi / 12) + DaysBeforeMonth(mi % 12 + 1, mi / 12)
  }

  /**
   * Adding the difference back to `from` gives `to`: the years and months
   * move `from` to the month with index `mi`, and the days, counted from
   * `from`'s day of the month with `Date`'s overflow into the next or the
   * previous month, land on `to`'s day number. This holds for a negative
   * day count too (2000-01-31 plus one month and -1 day is "30 February",
   * which is 1 March).
   */
  lemma DifferenceRoundTrip(from: Date, to: Date)
    requires ValidDate(from) && ValidDate(to) && !IsAfter(from, to)
    ensures var r := ElapsedYmd(from, to);
      var mi := MonthIndex(from) + 12 * r.years + r.months;
      mi >= 0 && DaysBeforeMonthIndex(mi) + from.day + r.days - 1 == DayOrdinal(to)
  {
    var r := ElapsedYmd(from, to);
    var mi := MonthIndex(from) + 12 * r.years + r.months;
    assert mi == MonthIndex(to) - (if Borrows(from, to) then 1 else 0);
    if Borrows(from, to) && to.month == 1 {
      assert to.year >= 1;
      assert mi / 12 == to.year - 1 && mi % 12 == 11;
      assert DaysBeforeMonth(13, to.year - 1) == DaysBeforeMonth(12, to.year - 1) + 31;
    } else if Borrows(from, to) {
      assert mi / 12 == to.year && mi % 12 + 1 == to.month - 1;
    } else {
      assert mi / 12 == to.year && mi % 12 + 1 == to.month;
    }
  }
}
