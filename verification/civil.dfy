/**
 * Wall-clock time and the proleptic Gregorian calendar.
 *
 * A timestamp is an integer count of local wall-clock milliseconds since
 * 1970-01-01 00:00, with every day exactly 86 400 000 ms long (no daylight
 * saving, no time-zone offset). A day number counts whole days since
 * 1970-01-01. This module plays the part of the JavaScript `Date` getters
 * (`getFullYear`, `getMonth`, `getDate`, `getDay`) and of the date-fns day
 * helpers the calendar builds on.
 */
module Civil {

  /** Milliseconds in one day: `1000 * 60 * 60 * 24`. */
  const DAY: int := 86400000

  /** Milliseconds in one week: `1000 * 60 * 60 * 24 * 7`. */
  const WEEK: int := 7 * DAY

  /** Days from 0000-01-01 to 1970-01-01 in the proleptic Gregorian calendar. */
  const EPOCH_DAYS: int := 719528

  /** Day number of a timestamp: `Math.floor(t / DAY)` (Dafny's `/` floors for a positive divisor). */
  function DayOf(t: int): int {
    t / DAY
  }

  /** Local midnight of the day holding `t`, as `setHours(0, 0, 0, 0)` or `startOfDay` give it. */
  function StartOfDay(t: int): (m: int)
    ensures m <= t < m + DAY
    ensures m % DAY == 0
    ensures DayOf(m) == DayOf(t)
  {
    DayOf(t) * DAY
  }

  /** Milliseconds elapsed since local midnight. */
  function TimeOfDay(t: int): (r: int)
    ensures 0 <= r < DAY
    ensures t == StartOfDay(t) + r
  {
    t % DAY
  }

  /** Day of the week of a day number, Sunday = 0 (1970-01-01 was a Thursday). */
  function WeekdayOfDay(n: int): (w: int)
    ensures 0 <= w < 7
  {
    (n + 4) % 7
  }

  /** `Date.prototype.getDay`: day of the week of a timestamp, Sunday = 0. */
  function Weekday(t: int): (w: int)
    ensures 0 <= w < 7
  {
    WeekdayOfDay(DayOf(t))
  }

  /** date-fns `isSameDay`: both timestamps fall between the same two midnights. */
  predicate SameDay(t1: int, t2: int) {
    DayOf(t1) == DayOf(t2)
  }

  /** A calendar date; `month` runs 1..12 (JavaScript's `getMonth() + 1`). */
  datatype Date = Date(year: int, month: int, day: int)

  predicate IsLeapYear(y: int) {
    y % 4 == 0 && (y % 100 != 0 || y % 400 == 0)
  }

  function DaysInYear(y: int): int {
    if IsLeapYear(y) then 366 else 365
  }

  function DaysInMonth(y: int, m: int): (n: int)
    requires 1 <= m <= 12
    ensures 28 <= n <= 31
  {
    if m == 2 then (if IsLeapYear(y) then 29 else 28)
    else if m == 4 || m == 6 || m == 9 || m == 11 then 30
    else 31
  }

  /** Days of year `y` that lie before the first of month `m`. */
  function DaysBeforeMonth(y: int, m: int): (n: int)
    requires 1 <= m <= 12
    ensures 0 <= n
    ensures n + DaysInMonth(y, m) <= DaysInYear(y)
    ensures m == 12 ==> n + DaysInMonth(y, m) == DaysInYear(y)
  {
    var leap := if IsLeapYear(y) then 1 else 0;
    if m == 1 then 0
    else if m == 2 then 31
    else if m == 3 then 59 + leap
    else if m == 4 then 90 + leap
    else if m == 5 then 120 + leap
    else if m == 6 then 151 + leap
    else if m == 7 then 181 + leap
    else if m == 8 then 212 + leap
    else if m == 9 then 243 + leap
    else if m == 10 then 273 + leap
    else if m == 11 then 304 + leap
    else 334 + leap
  }

  lemma DaysBeforeNextMonth(y: int, m: int)
    requires 1 <= m < 12
    ensures DaysBeforeMonth(y, m + 1) == DaysBeforeMonth(y, m) + DaysInMonth(y, m)
  {
  }

  /**
   * Days from 0000-01-01 to the first of January of year `y`: 365 per year
   * plus one per leap year in between (multiples of 4, less multiples of 100,
   * plus multiples of 400), counted with floor division so that it also
   * holds for years before year 0.
   */
  function DaysBeforeYear(y: int): int {
    365 * y + (y + 3) / 4 - (y + 99) / 100 + (y + 399) / 400
  }

  lemma DaysBeforeNextYear(y: int)
    ensures DaysBeforeYear(y + 1) == DaysBeforeYear(y) + DaysInYear(y)
  {
    StepOf4(y);
    StepOf100(y);
    StepOf400(y);
    DivisorChain(y);
    assert DaysBeforeYear(y + 1) == 365 * y + 365 + (y + 4) / 4 - (y + 100) / 100 + (y + 400) / 400;
  }

  /** A multiple of 400 is a multiple of 100, and a multiple of 100 is a multiple of 4. */
  lemma DivisorChain(y: int)
    ensures y % 400 == 0 ==> y % 100 == 0
    ensures y % 100 == 0 ==> y % 4 == 0
  {
    if y % 400 == 0 {
      Multiple400(y);
    }
    if y % 100 == 0 {
      Multiple100(y);
    }
  }

  /** A multiple of 400 is a multiple of 100. */
  lemma Multiple400(y: int)
    requires y % 400 == 0
    ensures y % 100 == 0
  {
    var d := 4 * (y / 400) - y / 100;
    assert y % 100 == 100 * d;
  }

  /** A multiple of 100 is a multiple of 4. */
  lemma Multiple100(y: int)
    requires y % 100 == 0
    ensures y % 4 == 0
  {
    var d := 25 * (y / 100) - y / 4;
    assert y % 4 == 4 * d;
  }

  /** The count of multiples of 4 up to `y` rises by one exactly when 4 divides `y`. */
  lemma StepOf4(y: int)
    ensures (y + 4) / 4 == (y + 3) / 4 + (if y % 4 == 0 then 1 else 0)
  {
  }

  /** The count of multiples of 100 up to `y` rises by one exactly when 100 divides `y`. */
  lemma StepOf100(y: int)
    ensures (y + 100) / 100 == (y + 99) / 100 + (if y % 100 == 0 then 1 else 0)
  {
  }

  /** The count of multiples of 400 up to `y` rises by one exactly when 400 divides `y`. */
  lemma StepOf400(y: int)
    ensures (y + 400) / 400 == (y + 399) / 400 + (if y % 400 == 0 then 1 else 0)
  {
  }

  /** Years start in increasing order. */
  lemma {:induction false} DaysBeforeYearMonotone(a: int, b: int)
    requires a < b
    ensures DaysBeforeYear(a) + 365 <= DaysBeforeYear(a + 1) <= DaysBeforeYear(b)
    decreases b - a
  {
    DaysBeforeNextYear(a);
    if a + 1 < b {
      DaysBeforeYearMonotone(a + 1, b);
    }
  }

  /** The start of year `y` is within a day or two of 365.2425 * y. */
  lemma DaysBeforeYearNearAverage(y: int)
    ensures 146097 * y - 396 <= 400 * DaysBeforeYear(y) <= 146097 * y + 699
  {
  }

  /** The year holding day `z` counted from 0000-01-01. */
  function YearOfDay(z: int): (y: int)
    ensures DaysBeforeYear(y) <= z < DaysBeforeYear(y + 1)
  {
    var y0 := (400 * z) / 146097;
    DaysBeforeYearNearAverage(y0 - 1);
    DaysBeforeYearNearAverage(y0 + 2);
    assert DaysBeforeYear(y0 - 1) <= z;
    assert z < DaysBeforeYear(y0 + 2);
    if z < DaysBeforeYear(y0) then y0 - 1
    else if z < DaysBeforeYear(y0 + 1) then y0
    else y0 + 1
  }

  /** The month holding day `doy` (0-based) of year `y`. */
  function MonthOfYearDay(y: int, doy: int): (m: int)
    requires 0 <= doy < DaysInYear(y)
    ensures 1 <= m <= 12
    ensures DaysBeforeMonth(y, m) <= doy < DaysBeforeMonth(y, m) + DaysInMonth(y, m)
  {
    MonthFrom(y, doy, 12)
  }

  function MonthFrom(y: int, doy: int, m: int): (r: int)
    requires 1 <= m <= 12
    requires 0 <= doy < DaysBeforeMonth(y, m) + DaysInMonth(y, m)
    ensures 1 <= r <= m
    ensures DaysBeforeMonth(y, r) <= doy < DaysBeforeMonth(y, r) + DaysInMonth(y, r)
    decreases m
  {
    if m == 1 || DaysBeforeMonth(y, m) <= doy then m
    else
      DaysBeforeNextMonth(y, m - 1);
      MonthFrom(y, doy, m - 1)
  }

  predicate ValidDate(d: Date) {
    1 <= d.month <= 12 && 1 <= d.day <= DaysInMonth(d.year, d.month)
  }

  /** Day number (days since 1970-01-01) of a calendar date. */
  function DayNumber(d: Date): int
    requires ValidDate(d)
  {
    DaysBeforeYear(d.year) + DaysBeforeMonth(d.year, d.month) + d.day - 1 - EPOCH_DAYS
  }

  /** The calendar date of a day number: the days-to-civil conversion. */
  function CivilFromDays(n: int): (d: Date)
    ensures ValidDate(d)
    ensures DayNumber(d) == n
  {
    var z := n + EPOCH_DAYS;
    var y := YearOfDay(z);
    DaysBeforeNextYear(y);
    var doy := z - DaysBeforeYear(y);
    var m := MonthOfYearDay(y, doy);
    Date(y, m, doy - DaysBeforeMonth(y, m) + 1)
  }

  /** Two valid dates with the same day number are the same date. */
  lemma DayNumberInjective(d1: Date, d2: Date)
    requires ValidDate(d1) && ValidDate(d2)
    requires DayNumber(d1) == DayNumber(d2)
    ensures d1 == d2
  {
    var y1, y2 := d1.year, d2.year;
    DaysBeforeNextYear(y1);
    DaysBeforeNextYear(y2);
    if y1 < y2 {
      DaysBeforeYearMonotone(y1, y2);
      assert false;
    } else if y2 < y1 {
      DaysBeforeYearMonotone(y2, y1);
      assert false;
    }
    if d1.month < d2.month {
      MonthsOrdered(y1, d1.month, d2.month);
    } else if d2.month < d1.month {
      MonthsOrdered(y1, d2.month, d1.month);
    }
  }

  lemma MonthsOrdered(y: int, m1: int, m2: int)
    requires 1 <= m1 < m2 <= 12
    ensures DaysBeforeMonth(y, m1) + DaysInMonth(y, m1) <= DaysBeforeMonth(y, m2)
    decreases m2 - m1
  {
    DaysBeforeNextMonth(y, m1);
    if m1 + 1 < m2 {
      MonthsOrdered(y, m1 + 1, m2);
    }
  }

  /** Round trip: a valid date survives conversion to a day number and back. */
  lemma CivilRoundTrip(d: Date)
    requires ValidDate(d)
    ensures CivilFromDays(DayNumber(d)) == d
  {
    DayNumberInjective(CivilFromDays(DayNumber(d)), d);
  }

  /** The calendar date of a timestamp (`getFullYear`, `getMonth() + 1`, `getDate`). */
  function CivilOf(t: int): (d: Date)
    ensures ValidDate(d)
    ensures DayNumber(d) == DayOf(t)
  {
    CivilFromDays(DayOf(t))
  }

  /**
   * Same-day by day number (date-fns) agrees with same-day by matching
   * year, month and day of the month.
   */
  lemma SameDayIffSameDate(t1: int, t2: int)
    ensures SameDay(t1, t2) <==> CivilOf(t1) == CivilOf(t2)
  {
  }

  /** Day number of the first of the month that holds day `n`. */
  function MonthStartDay(n: int): (f: int)
    ensures f <= n < f + 31
    ensures var d := CivilFromDays(n); f == DayNumber(Date(d.year, d.month, 1))
  {
    var d := CivilFromDays(n);
    DayNumber(Date(d.year, d.month, 1))
  }

  /**
   * A day lies in the month of day `n` exactly when it falls between that
   * month's first and last day numbers.
   */
  lemma SameMonthIffWithinMonth(n: int, k: int)
    ensures var d := CivilFromDays(n);
            var first := DayNumber(Date(d.year, d.month, 1));
            (CivilFromDays(k).year == d.year && CivilFromDays(k).month == d.month)
            <==> (first <= k < first + DaysInMonth(d.year, d.month))
  {
    var d := CivilFromDays(n);
    var first := DayNumber(Date(d.year, d.month, 1));
    var e := CivilFromDays(k);
    if first <= k < first + DaysInMonth(d.year, d.month) {
      var c := Date(d.year, d.month, k - first + 1);
      assert DayNumber(c) == k;
      DayNumberInjective(c, e);
    }
  }

  /** Months counted from year 0: `getFullYear() * 12 + getMonth()` up to a constant. */
  function MonthIndex(d: Date): int {
    d.year * 12 + d.month
  }

  /** Every day of an earlier month comes before every day of a later month. */
  lemma EarlierMonthEarlierDay(d1: Date, d2: Date)
    requires ValidDate(d1) && ValidDate(d2)
    requires MonthIndex(d1) < MonthIndex(d2)
    ensures DayNumber(d1) < DayNumber(d2)
  {
    DaysBeforeNextYear(d1.year);
    if d1.year == d2.year {
      MonthsOrdered(d1.year, d1.month, d2.month);
    } else {
      DaysBeforeYearMonotone(d1.year, d2.year);
    }
  }

  /** Day numbers `n` and `k` fall in the same month of the same year. */
  predicate SameMonth(n: int, k: int) {
    CivilFromDays(n).year == CivilFromDays(k).year && CivilFromDays(n).month == CivilFromDays(k).month
  }
}
