/**
 * The recurrence and scheduling engine of the calendar: the month grid, the
 * per-day event selection, the recurrence test and the conflict test.
 *
 * All comparisons are on full timestamps, as in the source: a recurring
 * event whose anchor has a time of day is tested against the midnight that
 * starts each grid cell, so day and week counts run from the anchor
 * instant, not from the anchor's calendar day.
 */
module DateUtils {
  import opened Wrappers
  import opened Civil
  import opened Seqs
  import opened Types
  import opened JsMath

  /** `recurrence.interval || 1`: a missing or zero interval counts as 1. */
  function EffectiveInterval(interval: Option<int>): (k: int)
    ensures k != 0
    ensures interval.None? || interval == Some(0) ==> k == 1
    ensures interval.Some? && interval.value != 0 ==> k == interval.value
  {
    match interval
    case None => 1
    case Some(n) => if n == 0 then 1 else n
  }

  // ---------------------------------------------------------------------
  // Occurrence test (doesRecurringEventOccurOnDay)
  // ---------------------------------------------------------------------

  /** `Math.floor((day - start) / DAY)`: whole days from the anchor instant. */
  function DaysDiff(start: int, day: int): int {
    (day - start) / DAY
  }

  /** `Math.floor((day - start) / (7 * DAY))`: whole weeks from the anchor instant. */
  function WeeksDiff(start: int, day: int): int {
    (day - start) / WEEK
  }

  /** `(year(day) - year(start)) * 12 + month(day) - month(start)`. */
  function MonthsDiff(start: int, day: int): int {
    MonthIndex(CivilOf(day)) - MonthIndex(CivilOf(start))
  }

  /** The rule's end date is set and `day` lies strictly after it. */
  predicate PastEnd(rule: RecurrenceRule, day: int) {
    rule.endDate.Some? && day > rule.endDate.value
  }

  /** The weekday test of a weekly rule: listed weekdays, else the anchor's weekday. */
  predicate WeekdayMatches(rule: RecurrenceRule, start: int, day: int) {
    if rule.weekdays.Some? && |rule.weekdays.value| > 0 then Weekday(day) in rule.weekdays.value
    else Weekday(day) == Weekday(start)
  }

  /** The per-kind part of the occurrence test, once the anchor and end-date checks have passed. */
  predicate PatternMatches(rule: RecurrenceRule, start: int, day: int) {
    match rule.kind
    case Daily => JsRem(DaysDiff(start, day), EffectiveInterval(rule.interval)) == 0
    case Weekly =>
      JsRem(WeeksDiff(start, day), EffectiveInterval(rule.interval)) == 0 && WeekdayMatches(rule, start, day)
    case Monthly =>
      JsRem(MonthsDiff(start, day), EffectiveInterval(rule.interval)) == 0 && CivilOf(day).day == CivilOf(start).day
    case Custom =>
      rule.interval.Some? && rule.interval.value != 0 && JsRem(DaysDiff(start, day), rule.interval.value) == 0
    case OneTime => false
  }

  /**
   * `doesRecurringEventOccurOnDay`: whether event `e` has an occurrence on
   * the grid day whose timestamp is `day`.
   */
  function OccursOnDay(e: Event, day: int): (r: bool)
    ensures day < e.date ==> !r
    ensures PastEnd(e.recurrence, day) ==> !r
    ensures e.date <= day && !PastEnd(e.recurrence, day) ==> (r <==> PatternMatches(e.recurrence, e.date, day))
    ensures e.recurrence.kind == OneTime ==> !r
    ensures e.recurrence.kind == Custom && (e.recurrence.interval.None? || e.recurrence.interval.value == 0) ==> !r
    ensures r && e.recurrence.kind == Monthly ==> CivilOf(day).day == CivilOf(e.date).day
    ensures r && e.recurrence.kind == Weekly ==> WeekdayMatches(e.recurrence, e.date, day)
  {
    if day < e.date then false
    else if PastEnd(e.recurrence, day) then false
    else PatternMatches(e.recurrence, e.date, day)
  }

  // ---------------------------------------------------------------------
  // Per-day selection (getEventsForDay)
  // ---------------------------------------------------------------------

  /** Whether `getEventsForDay` keeps event `e` for the grid day `day`. */
  predicate ShowsOn(day: int, e: Event) {
    if e.recurrence.kind == OneTime then SameDay(day, e.date) else OccursOnDay(e, day)
  }

  /** `getEventsForDay`: the events shown on one grid day, in list order. */
  function EventsForDay(day: int, events: seq<Event>): (r: seq<Event>)
    ensures forall e :: e in r <==>
      e in events && (if e.recurrence.kind == OneTime then SameDay(day, e.date) else OccursOnDay(e, day))
    ensures forall e :: multiset(r)[e] == if ShowsOn(day, e) then multiset(events)[e] else 0
    ensures IsSubsequence(r, events)
  {
    Filter(events, e => ShowsOn(day, e))
  }

  // ---------------------------------------------------------------------
  // Month grid (getCalendarDays, getDaysWithEvents)
  // ---------------------------------------------------------------------

  /** Day number of the Sunday on or before the first of the month holding day `n` (`startOfWeek(startOfMonth(..))`). */
  function GridFirstDay(n: int): int {
    var first := MonthStartDay(n);
    first - WeekdayOfDay(first)
  }

  /** Day number of the last of the month holding day `n` (`endOfMonth`). */
  function MonthLastDay(n: int): int {
    var c := CivilFromDays(n);
    MonthStartDay(n) + DaysInMonth(c.year, c.month) - 1
  }

  /** Day number of the Saturday on or after the last of the month holding day `n` (`endOfWeek(endOfMonth(..))`). */
  function GridLastDay(n: int): int {
    var last := MonthLastDay(n);
    last + (6 - WeekdayOfDay(last))
  }

  /** Whole weeks around a month of `len` days starting on day number `first`. */
  lemma WeeksAroundMonth(first: int, len: int)
    requires 28 <= len <= 31
    ensures var last := first + len - 1;
            var start := first - WeekdayOfDay(first);
            var end := last + (6 - WeekdayOfDay(last));
            && 28 <= end - start + 1 <= 42 && (end - start + 1) % 7 == 0
            && WeekdayOfDay(start) == 0 && WeekdayOfDay(end) == 6
            && start <= first <= start + 6 && end - 6 <= last <= end
  {
  }

  lemma GridShape(n: int)
    ensures 28 <= GridLastDay(n) - GridFirstDay(n) + 1 <= 42
    ensures (GridLastDay(n) - GridFirstDay(n) + 1) % 7 == 0
    ensures WeekdayOfDay(GridFirstDay(n)) == 0 && WeekdayOfDay(GridLastDay(n)) == 6
    ensures GridFirstDay(n) <= MonthStartDay(n) <= GridFirstDay(n) + 6
    ensures GridLastDay(n) - 6 <= MonthLastDay(n) <= GridLastDay(n)
  {
    var c := CivilFromDays(n);
    var first, len := MonthStartDay(n), DaysInMonth(c.year, c.month);
    assert MonthLastDay(n) == first + len - 1;
    assert GridFirstDay(n) == first - WeekdayOfDay(first);
    assert GridLastDay(n) == MonthLastDay(n) + (6 - WeekdayOfDay(MonthLastDay(n)));
    WeeksAroundMonth(first, len);
  }

  /** The days of the month holding day `n` run from its first to its last day number. */
  lemma MonthDays(n: int)
    ensures forall k :: SameMonth(k, n) <==> MonthStartDay(n) <= k <= MonthLastDay(n)
  {
    forall k
      ensures SameMonth(k, n) <==> MonthStartDay(n) <= k <= MonthLastDay(n)
    {
      SameMonthIffWithinMonth(n, k);
    }
  }

  /** The midnight that starts day number `k`. */
  function Midnight(k: int): (t: int)
    ensures t % DAY == 0 && DayOf(t) == k
    ensures Weekday(t) == WeekdayOfDay(k)
  {
    k * DAY
  }

  lemma MidnightNext(k: int)
    ensures Midnight(k + 1) == Midnight(k) + DAY
  {
  }

  /** The `len` consecutive midnights starting with that of day number `start`. */
  function Midnights(start: int, len: nat): (days: seq<int>)
    ensures |days| == len
    ensures forall i :: 0 <= i < len ==> days[i] == Midnight(start + i)
    ensures forall i :: 0 <= i < len ==> days[i] % DAY == 0 && DayOf(days[i]) == start + i
    ensures forall i :: 0 <= i < len ==> Weekday(days[i]) == WeekdayOfDay(start + i)
    ensures forall i :: 0 < i < len ==> days[i] == days[i - 1] + DAY
  {
    var days := seq(len, i requires 0 <= i < len => Midnight(start + i));
    forall i | 0 < i < len
      ensures days[i] == days[i - 1] + DAY
    {
      MidnightNext(start + i - 1);
    }
    days
  }

  /**
   * `getCalendarDays`: the midnights from the Sunday on or before the first
   * of `date`'s month to the Saturday on or after its last day.
   */
  function CalendarDays(date: int): (days: seq<int>)
    ensures 28 <= |days| <= 42 && |days| % 7 == 0
    ensures forall i :: 0 <= i < |days| ==> days[i] % DAY == 0 && DayOf(days[i]) == GridFirstDay(DayOf(date)) + i
    ensures forall i :: 0 < i < |days| ==> days[i] == days[i - 1] + DAY
    ensures Weekday(days[0]) == 0 && Weekday(days[|days| - 1]) == 6
  {
    var n := DayOf(date);
    GridShape(n);
    var first, last := GridFirstDay(n), GridLastDay(n);
    WeekMidnights(first, last);
    Midnights(first, last - first + 1)
  }

  /** The midnights from a Sunday to a Saturday in whole weeks. */
  lemma WeekMidnights(first: int, last: int)
    requires 28 <= last - first + 1 <= 42 && (last - first + 1) % 7 == 0
    requires WeekdayOfDay(first) == 0 && WeekdayOfDay(last) == 6
    ensures var days := Midnights(first, last - first + 1);
            && 28 <= |days| <= 42 && |days| % 7 == 0
            && Weekday(days[0]) == 0 && Weekday(days[|days| - 1]) == 6
  {
    var len := last - first + 1;
    assert first + (len - 1) == last;
  }

  /**
   * The grid holds every day of the reference month, and its first and last
   * weeks each hold at least one of them: no week is spare.
   */
  lemma CalendarDaysCoverMonth(date: int)
    ensures var days := CalendarDays(date);
            forall n :: SameMonth(n, DayOf(date)) ==> DayOf(days[0]) <= n <= DayOf(days[|days| - 1])
    ensures var days := CalendarDays(date);
            SameMonth(DayOf(days[6]), DayOf(date)) && SameMonth(DayOf(days[|days| - 7]), DayOf(date))
  {
    var days := CalendarDays(date);
    var n := DayOf(date);
    GridShape(n);
    MonthDays(n);
    assert DayOf(days[|days| - 1]) == GridLastDay(n);
    assert DayOf(days[|days| - 7]) == GridLastDay(n) - 6;
  }

  /** One grid cell: the day, its current-month and today flags, and its events. */
  function CellFor(day: int, currentDate: int, events: seq<Event>, now: int): (cell: DayWithEvents)
    ensures cell.date == day
    ensures cell.isCurrentMonth <==>
      CivilOf(day).year == CivilOf(currentDate).year && CivilOf(day).month == CivilOf(currentDate).month
    ensures cell.isToday <==> SameDay(day, now)
    ensures cell.events == EventsForDay(day, events)
  {
    DayWithEvents(day, SameMonth(DayOf(day), DayOf(currentDate)), SameDay(day, now), EventsForDay(day, events))
  }

  /** `getDaysWithEvents`, with the wall-clock "now" that `isToday` reads passed in. */
  function DaysWithEvents(currentDate: int, events: seq<Event>, now: int): (cells: seq<DayWithEvents>)
    ensures |cells| == |CalendarDays(currentDate)|
    ensures forall i :: 0 <= i < |cells| ==> cells[i] == CellFor(CalendarDays(currentDate)[i], currentDate, events, now)
  {
    var days := CalendarDays(currentDate);
    seq(|days|, i requires 0 <= i < |days| => CellFor(days[i], currentDate, events, now))
  }

  // ---------------------------------------------------------------------
  // Conflicts (doEventsConflict)
  // ---------------------------------------------------------------------

  /** date-fns `isWithinInterval` on a closed interval. */
  predicate IsWithinInterval(t: int, start: int, end: int) {
    start <= t <= end
  }

  /** An event whose end time, when present, is not before its start. */
  predicate WellTimed(e: Event) {
    e.endTime.Some? ==> e.date <= e.endTime.value
  }

  /**
   * `doEventsConflict`: the two events start on the same calendar day and
   * either one has no end time (it then blocks the whole day) or their
   * closed time intervals meet.
   */
  function DoEventsConflict(e1: Event, e2: Event): (r: bool)
    ensures !SameDay(e1.date, e2.date) ==> !r
    ensures SameDay(e1.date, e2.date) && (e1.endTime.None? || e2.endTime.None?) ==> r
    ensures SameDay(e1.date, e2.date) && WellTimed(e1) && WellTimed(e2) && e1.endTime.Some? && e2.endTime.Some? ==>
      (r <==> e1.date <= e2.endTime.value && e2.date <= e1.endTime.value)
  {
    if !SameDay(e1.date, e2.date) then false
    else if e1.endTime.None? || e2.endTime.None? then true
    else
      var s1, f1, s2, f2 := e1.date, e1.endTime.value, e2.date, e2.endTime.value;
      IsWithinInterval(s1, s2, f2) || IsWithinInterval(f1, s2, f2)
      || IsWithinInterval(s2, s1, f1) || IsWithinInterval(f2, s1, f1)
  }

  /** Conflict does not depend on which event is asked about first. */
  lemma ConflictSymmetric(e1: Event, e2: Event)
    ensures DoEventsConflict(e1, e2) == DoEventsConflict(e2, e1)
  {
  }

  // ---------------------------------------------------------------------
  // Properties of the occurrence test
  // ---------------------------------------------------------------------

  /** Whole days between the midnights of two day numbers. */
  lemma MidnightSpan(a: int, n: int)
    ensures Midnight(a + n) - Midnight(a) == n * DAY
    ensures DaysDiff(Midnight(a), Midnight(a + n)) == n
    ensures Midnight(a + n) < Midnight(a) <==> n < 0
  {
    assert Midnight(a + n) - Midnight(a) == Midnight(n);
  }

  /** An anchor at midnight is the midnight of its own day number. */
  lemma MidnightAnchor(t: int)
    requires TimeOfDay(t) == 0
    ensures t == Midnight(DayOf(t))
  {
  }

  /**
   * With the anchor at midnight, a daily event occurs on the day `n` days
   * after its anchor day exactly when `n` is a non-negative multiple of the
   * interval (and the end date has not passed).
   */
  lemma DailyFromMidnightAnchor(e: Event, n: int)
    requires e.recurrence.kind == Daily && TimeOfDay(e.date) == 0
    ensures var day := Midnight(DayOf(e.date) + n);
            OccursOnDay(e, day) <==>
              n >= 0 && !PastEnd(e.recurrence, day) && n % EffectiveInterval(e.recurrence.interval) == 0
  {
    MidnightAnchor(e.date);
    MidnightSpan(DayOf(e.date), n);
  }

  /**
   * As written, a daily event whose anchor has a time of day counts days from
   * the anchor instant: it does not occur in its own anchor cell, and it
   * occurs `n` cells later exactly when `n - 1` is a multiple of the interval.
   */
  lemma DailyFromTimedAnchor(e: Event, n: int)
    requires e.recurrence.kind == Daily && TimeOfDay(e.date) > 0
    ensures var day := Midnight(DayOf(e.date) + n);
            OccursOnDay(e, day) <==>
              n >= 1 && !PastEnd(e.recurrence, day) && (n - 1) % EffectiveInterval(e.recurrence.interval) == 0
  {
    var day := Midnight(DayOf(e.date) + n);
    var a := Midnight(DayOf(e.date));
    MidnightSpan(DayOf(e.date), n);
    MidnightSpan(DayOf(e.date), n - 1);
    assert e.date == a + TimeOfDay(e.date);
    assert day - e.date == (n - 1) * DAY + (DAY - TimeOfDay(e.date));
    assert DaysDiff(e.date, day) == n - 1;
  }

  /** Whole weeks in `n` whole days. */
  lemma WeeksInDays(n: int)
    ensures (n * DAY) / WEEK == n / 7
  {
    var q, r := n / 7, n % 7;
    assert n * DAY == q * WEEK + r * DAY;
  }

  /** The weekday `n` days after a day: the weekday count moves on by `n` modulo 7. */
  lemma WeekdayAfter(a: int, n: int)
    ensures WeekdayOfDay(a + n) == (WeekdayOfDay(a) + n) % 7
  {
  }

  /**
   * With the anchor at midnight, a weekly event occurs `n` days after its
   * anchor day exactly when `n >= 0`, the end date has not passed, the week
   * count `n / 7` is a multiple of the interval, and the weekday is one of
   * the listed weekdays (or the anchor's own weekday when none are listed).
   */
  lemma WeeklyFromMidnightAnchor(e: Event, n: int)
    requires e.recurrence.kind == Weekly && TimeOfDay(e.date) == 0
    ensures var day := Midnight(DayOf(e.date) + n);
            var rule := e.recurrence;
            OccursOnDay(e, day) <==>
              && n >= 0 && !PastEnd(rule, day) && (n / 7) % EffectiveInterval(rule.interval) == 0
              && if rule.weekdays.Some? && |rule.weekdays.value| > 0
                 then (Weekday(e.date) + n) % 7 in rule.weekdays.value
                 else n % 7 == 0
  {
    var d0 := DayOf(e.date);
    var day := Midnight(d0 + n);
    MidnightAnchor(e.date);
    MidnightSpan(d0, n);
    WeeksInDays(n);
    assert WeeksDiff(e.date, day) == n / 7;
    WeekdayAfter(d0, n);
    assert Weekday(day) == (Weekday(e.date) + n) % 7;
  }

  /** Between two dates with the same day of the month, the later month holds the later day. */
  lemma SameDayOfMonthOrder(c: Date, a: Date)
    requires ValidDate(c) && ValidDate(a) && c.day == a.day
    ensures DayNumber(c) >= DayNumber(a) <==> MonthIndex(c) >= MonthIndex(a)
  {
    if MonthIndex(c) < MonthIndex(a) {
      EarlierMonthEarlierDay(c, a);
    } else if MonthIndex(a) < MonthIndex(c) {
      EarlierMonthEarlierDay(a, c);
    }
  }

  /**
   * With the anchor at midnight, a monthly event occurs on the midnight
   * that starts a calendar date exactly when the end date has not passed,
   * the date is in the anchor's month or a later one, the month difference
   * is a multiple of the interval, and the day of the month is the anchor's.
   */
  lemma MonthlyOnDate(e: Event, day: int)
    requires e.recurrence.kind == Monthly && TimeOfDay(e.date) == 0 && TimeOfDay(day) == 0
    ensures OccursOnDay(e, day) <==>
      && !PastEnd(e.recurrence, day)
      && MonthsDiff(e.date, day) >= 0
      && MonthsDiff(e.date, day) % EffectiveInterval(e.recurrence.interval) == 0
      && CivilOf(day).day == CivilOf(e.date).day
  {
    MonthlyCount(e.date, day);
    MonthlyOccurs(e, day, MonthsDiff(e.date, day), CivilOf(day).day == CivilOf(e.date).day);
  }

  /**
   * A monthly event occurs on `day`, `m` months after its start, exactly
   * when the day is not past the end, `m` is a non-negative multiple of the
   * interval, and the day of the month matches.
   */
  lemma MonthlyOccurs(e: Event, day: int, m: int, sameDay: bool)
    requires e.recurrence.kind == Monthly && MonthsDiff(e.date, day) == m
    requires sameDay == (CivilOf(day).day == CivilOf(e.date).day)
    requires sameDay ==> (day >= e.date <==> m >= 0)
    ensures OccursOnDay(e, day) <==>
      !PastEnd(e.recurrence, day) && m >= 0 && m % EffectiveInterval(e.recurrence.interval) == 0 && sameDay
  {
    var k := EffectiveInterval(e.recurrence.interval);
    var divides := m % k == 0;
    assert JsRem(m, k) == 0 <==> divides;
    MonthlyPattern(e.recurrence, e.date, day);
    OccursWhen(day < e.date, PastEnd(e.recurrence, day), PatternMatches(e.recurrence, e.date, day),
      m >= 0, divides, sameDay);
  }

  /** A monthly rule matches on the same day of the month, a multiple of the interval of months on. */
  lemma MonthlyPattern(rule: RecurrenceRule, start: int, day: int)
    requires rule.kind == Monthly
    ensures PatternMatches(rule, start, day) ==
      (JsRem(MonthsDiff(start, day), EffectiveInterval(rule.interval)) == 0 && CivilOf(day).day == CivilOf(start).day)
  {
  }

  /**
   * Between two midnights on the same day of the month, the later one is
   * the one in the later (or the same) month.
   */
  lemma MonthlyCount(start: int, day: int)
    requires TimeOfDay(start) == 0 && TimeOfDay(day) == 0
    ensures CivilOf(day).day == CivilOf(start).day ==> (day >= start <==> MonthsDiff(start, day) >= 0)
  {
    MidnightAnchor(start);
    MidnightAnchor(day);
    if CivilOf(day).day == CivilOf(start).day {
      SameDayOfMonthOrder(CivilOf(day), CivilOf(start));
    }
  }

  /**
   * The shape of `OccursOnDay` for a pattern that needs a matching day: an
   * occurrence exactly when the day is not past the end, the count is not
   * negative, the count divides and the day matches.
   */
  lemma OccursWhen(before: bool, past: bool, pattern: bool, notNegative: bool, divides: bool, sameDay: bool)
    requires pattern == (divides && sameDay)
    requires sameDay ==> (!before <==> notNegative)
    ensures (if before then false else if past then false else pattern) <==> !past && notNegative && divides && sameDay
  {
  }

  /**
   * No end-of-month clamping: a monthly event anchored on the 31st never
   * occurs in a month with fewer than 31 days.
   */
  lemma MonthlyAnchor31(e: Event, day: int)
    requires e.recurrence.kind == Monthly && CivilOf(e.date).day == 31
    requires DaysInMonth(CivilOf(day).year, CivilOf(day).month) < 31
    ensures !OccursOnDay(e, day)
  {
  }

  /** A custom rule with a non-zero interval behaves exactly like a daily rule with that interval. */
  lemma CustomActsAsDaily(e: Event, day: int)
    requires e.recurrence.kind == Custom && e.recurrence.interval.Some? && e.recurrence.interval.value != 0
    ensures OccursOnDay(e, day) == OccursOnDay(e.(recurrence := e.recurrence.(kind := Daily)), day)
  {
  }

  /**
   * As written, the grid cell of an anchor that has a time of day shows the
   * event only if it is one-time: every recurring event is missing from the
   * cell of its own first day.
   */
  lemma TimedAnchorCell(e: Event)
    requires TimeOfDay(e.date) > 0
    ensures ShowsOn(StartOfDay(e.date), e) <==> e.recurrence.kind == OneTime
  {
  }

  /**
   * A weekly "Standup" anchored on Monday 2024-03-04 at 09:00 with weekdays
   * [Monday] occurs on the following three Mondays and not on Tuesday
   * 2024-03-05.
   */
  lemma StandupScenario()
    ensures var standup := Event("standup", "Standup", Midnight(DayNumber(Date(2024, 3, 4))) + 9 * 3600000, None, None, Blue,
                                 RecurrenceRule(Weekly, Some(1), Some([1]), None, None));
            && Weekday(standup.date) == 1
            && OccursOnDay(standup, Midnight(DayNumber(Date(2024, 3, 11))))
            && OccursOnDay(standup, Midnight(DayNumber(Date(2024, 3, 18))))
            && OccursOnDay(standup, Midnight(DayNumber(Date(2024, 3, 25))))
            && !OccursOnDay(standup, Midnight(DayNumber(Date(2024, 3, 5))))
  {
    assert DayNumber(Date(2024, 3, 4)) == 19786;
  }

  /** The grid is not always six weeks: February 2015 needs four, August 2015 six. */
  lemma GridLengths()
    ensures |CalendarDays(Midnight(DayNumber(Date(2015, 2, 10))))| == 28
    ensures |CalendarDays(Midnight(DayNumber(Date(2015, 8, 10))))| == 42
  {
    var feb := DayNumber(Date(2015, 2, 10));
    assert feb == 16476;
    CivilRoundTrip(Date(2015, 2, 10));
    assert MonthStartDay(feb) == 16467 && MonthLastDay(feb) == 16494;
    assert GridFirstDay(feb) == 16467 && GridLastDay(feb) == 16494;
    var aug := DayNumber(Date(2015, 8, 10));
    assert aug == 16657;
    CivilRoundTrip(Date(2015, 8, 10));
    assert MonthStartDay(aug) == 16648 && MonthLastDay(aug) == 16678;
    assert GridFirstDay(aug) == 16642 && GridLastDay(aug) == 16683;
  }
}
