/**
 * The event-list utilities: event creation with defaults, the conflict
 * search, the text search, the colour classes and the human-readable
 * recurrence summary.
 */
module EventUtils {
  import opened Wrappers
  import opened Civil
  import opened Seqs
  import opened Types
  import opened Text
  import opened DateUtils

  // ---------------------------------------------------------------------
  // Creation (createEvent)
  // ---------------------------------------------------------------------

  /**
   * `createEvent`: a new event with identifier `id` (the source draws a
   * fresh UUID), colour `'blue'` and a one-time rule unless given.
   */
  function CreateEvent(id: string, title: string, date: int, endTime: Option<int>,
                       description: Option<string>, color: Option<string>,
                       recurrence: Option<RecurrenceRule>): (e: Event)
    ensures e.id == id && e.title == title && e.date == date
    ensures e.endTime == endTime && e.description == description
    ensures ColorName(e.color) == ValueOr(color, "blue") && IsCanonical(e.color)
    ensures recurrence.None? ==> e.recurrence == OneTimeRule
    ensures recurrence.Some? ==> e.recurrence == recurrence.value
  {
    Event(id, title, date, endTime, description, ColorFromName(ValueOr(color, "blue")),
          ValueOr(recurrence, OneTimeRule))
  }

  /** An event created with every default shows on the calendar day of its date and on no other. */
  lemma DefaultEventShowsOnItsDayOnly(id: string, title: string, date: int, day: int)
    ensures var e := CreateEvent(id, title, date, None, None, None, None);
      (ShowsOn(day, e) <==> DayOf(day) == DayOf(date))
      && e.color == Blue
      && ColorClass(e.color) == "bg-blue-500 hover:bg-blue-600"
      && FormatRecurrenceText(e.recurrence) == "One-time event"
  {
  }

  // ---------------------------------------------------------------------
  // Conflicts (checkEventConflicts)
  // ---------------------------------------------------------------------

  /** The test `checkEventConflicts` applies to each existing event. */
  predicate Reported(candidate: Event, e: Event) {
    e.id != candidate.id && DoEventsConflict(candidate, e)
  }

  /**
   * `checkEventConflicts`: the events of `existing`, other than `candidate`
   * itself (by id), that conflict with it, in list order.
   */
  function CheckEventConflicts(candidate: Event, existing: seq<Event>): (r: seq<Event>)
    ensures forall e :: e in r <==> e in existing && e.id != candidate.id && DoEventsConflict(candidate, e)
    ensures forall e :: e in r ==> SameDay(e.date, candidate.date)
    ensures forall i :: 0 <= i < |r| ==> r[i].id != candidate.id
    ensures IsSubsequence(r, existing)
  {
    Filter(existing, (e: Event) => Reported(candidate, e))
  }

  /** Conflict reporting is mutual between two events with different ids. */
  lemma ConflictsAreMutual(a: Event, b: Event)
    ensures a in CheckEventConflicts(b, [a]) <==> b in CheckEventConflicts(a, [b])
  {
    ConflictSymmetric(a, b);
  }

  /** Adding events to the list can only add conflicts: the search distributes over concatenation. */
  lemma ConflictsOfAppend(candidate: Event, xs: seq<Event>, ys: seq<Event>)
    ensures CheckEventConflicts(candidate, xs + ys)
         == CheckEventConflicts(candidate, xs) + CheckEventConflicts(candidate, ys)
  {
    FilterAppend(xs, ys, (e: Event) => Reported(candidate, e));
  }

  // ---------------------------------------------------------------------
  // Search (filterEventsBySearchTerm)
  // ---------------------------------------------------------------------

  /** The search predicate for an already lower-cased term. */
  predicate MatchesTerm(e: Event, term: string) {
    Contains(Lower(e.title), term)
    || (e.description.Some? && Contains(Lower(e.description.value), term))
  }

  /**
   * `filterEventsBySearchTerm`: a blank term keeps the list as it is;
   * otherwise the events whose title or description contains the term,
   * compared case-insensitively, in list order.
   */
  function FilterBySearchTerm(events: seq<Event>, term: string): (r: seq<Event>)
    ensures IsBlank(term) ==> r == events
    ensures !IsBlank(term) ==> forall e :: e in r <==> e in events && MatchesTerm(e, Lower(term))
    ensures !IsBlank(term) ==> forall e :: multiset(r)[e] == if MatchesTerm(e, Lower(term)) then multiset(events)[e] else 0
    ensures IsSubsequence(r, events)
  {
    if IsBlank(term) then
      IsSubsequenceRefl(events);
      events
    else
      var t := Lower(term);
      Filter(events, e => MatchesTerm(e, t))
  }

  /** Searching the results of a search for the same term changes nothing. */
  lemma SearchIdempotent(events: seq<Event>, term: string)
    ensures FilterBySearchTerm(FilterBySearchTerm(events, term), term) == FilterBySearchTerm(events, term)
  {
    if !IsBlank(term) {
      var t := Lower(term);
      FilterIdempotent(events, e => MatchesTerm(e, t));
    }
  }

  /** Containment is transitive. */
  lemma ContainsTransitive(a: string, b: string, c: string)
    requires Contains(a, b) && Contains(b, c)
    ensures Contains(a, c)
  {
    var i :| 0 <= i <= |a| - |b| && MatchesAt(a, b, i);
    var j :| 0 <= j <= |b| - |c| && MatchesAt(b, c, j);
    forall k | 0 <= k < |c|
      ensures a[i + j + k] == c[k]
    {
      assert a[i..i + |b|][j + k] == b[j + k];
      assert b[j..j + |c|][k] == c[k];
    }
    assert a[i + j..i + j + |c|] == c;
    assert MatchesAt(a, c, i + j);
  }

  /** A lower-cased string holding a non-blank string is itself not blank. */
  lemma NonBlankContainer(hay: string, needle: string)
    requires Contains(Lower(hay), Lower(needle)) && !IsBlank(needle)
    ensures !IsBlank(hay)
  {
    var k :| 0 <= k < |needle| && !IsJsWhitespace(needle[k]);
    var i :| 0 <= i <= |Lower(hay)| - |Lower(needle)| && MatchesAt(Lower(hay), Lower(needle), i);
    assert Lower(hay)[i + k] == Lower(needle)[k];
    assert !IsJsWhitespace(hay[i + k]);
  }

  /**
   * Refining a search narrows it: when the longer term contains the shorter
   * one (ignoring case), every event found by the longer term is found by
   * the shorter one.
   */
  lemma SearchNarrows(events: seq<Event>, short: string, long: string, e: Event)
    requires Contains(Lower(long), Lower(short))
    requires e in FilterBySearchTerm(events, long)
    ensures e in FilterBySearchTerm(events, short)
  {
    if !IsBlank(short) {
      NonBlankContainer(long, short);
      if Contains(Lower(e.title), Lower(long)) {
        ContainsTransitive(Lower(e.title), Lower(long), Lower(short));
      } else {
        ContainsTransitive(Lower(e.description.value), Lower(long), Lower(short));
      }
    }
  }

  // ---------------------------------------------------------------------
  // Colours (getEventColorClass)
  // ---------------------------------------------------------------------

  /** The Tailwind class pair of a colour name: its 500 shade, darkened to 600 on hover. */
  function ClassOf(name: string): (cls: string)
    ensures |cls| == 21 + 2 * |name|
    ensures cls[3..3 + |name|] == name
  {
    var cls := "bg-" + name + "-500 hover:bg-" + name + "-600";
    assert cls[3..3 + |name|] == name by {
      assert cls == "bg-" + (name + ("-500 hover:bg-" + name + "-600"));
    }
    cls
  }

  /**
   * `getEventColorClass`: the Tailwind classes of a colour, one table entry
   * `bg-<name>-500 hover:bg-<name>-600` per colour; a string outside the six
   * colours finds no entry and falls back to blue's. The colour can be read
   * back from the class.
   */
  function ColorClass(c: Color): (cls: string)
    ensures |cls| >= 21 && (|cls| - 21) % 2 == 0
    ensures ColorFromName(cls[3..3 + (|cls| - 21) / 2]) == if c.Other? then Blue else c
  {
    if c.Other? then ClassOf("blue") else ClassOf(ColorName(c))
  }

  /** Two of the six colours share a class only if they are the same colour. */
  lemma ColorClassInjective(c1: Color, c2: Color)
    requires !c1.Other? && !c2.Other?
    requires ColorClass(c1) == ColorClass(c2)
    ensures c1 == c2
  {
  }

  // ---------------------------------------------------------------------
  // Recurrence summary (formatRecurrenceText)
  // ---------------------------------------------------------------------

  /** `days[day]` for the short weekday names; an index outside 0..6 is `undefined`, which `join` prints as "". */
  function WeekdayName(d: int): (name: string)
    ensures 0 <= d < 7 ==> |name| == 3
    ensures !(0 <= d < 7) ==> name == ""
  {
    if 0 <= d < 7 then ["Sun", "Mon", "Tue", "Wed", "Thu", "Fri", "Sat"][d] else ""
  }

  /** `weekdays.map(day => days[day]).join(', ')`. */
  function WeekdayList(ws: seq<int>): string {
    Join(seq(|ws|, i requires 0 <= i < |ws| => WeekdayName(ws[i])), ", ")
  }

  /** The whole summary of a repeating rule that lists no weekdays and counts with interval 1. */
  function KindWord(kind: RecurrenceType): string
    requires kind != OneTime
  {
    match kind
    case Daily => "Daily"
    case Weekly => "Weekly"
    case Monthly => "Monthly"
    case Custom => "Every 1 days"
  }

  /** The unit an "Every N ..." summary counts in: custom rules count days. */
  function Unit(kind: RecurrenceType): string {
    match kind
    case Weekly => "weeks"
    case Monthly => "months"
    case _ => "days"
  }

  /** A weekly rule with at least one selected weekday: its summary names the days. */
  predicate ListsWeekdays(rule: RecurrenceRule) {
    rule.kind == Weekly && rule.weekdays.Some? && |rule.weekdays.value| > 0
  }

  /** "Every N <unit>". */
  function EveryPhrase(k: int, unit: string): (s: string)
    ensures |s| > 6 && s[..6] == "Every " && s[0] == 'E'
  {
    "Every " + IntToString(k) + " " + unit
  }

  /**
   * `formatRecurrenceText`: a one-line English summary of a rule. The
   * interval is `interval || 1`; a custom rule always reads as a day count.
   */
  function FormatRecurrenceText(rule: RecurrenceRule): (text: string)
    ensures rule.kind == OneTime <==> text == "One-time event"
    ensures rule.kind != OneTime && !ListsWeekdays(rule) && EffectiveInterval(rule.interval) == 1 ==>
      text == KindWord(rule.kind)
    ensures rule.kind != OneTime && !ListsWeekdays(rule) && EffectiveInterval(rule.interval) != 1 ==>
      text == "Every " + IntToString(EffectiveInterval(rule.interval)) + " " + Unit(rule.kind)
    ensures ListsWeekdays(rule) && EffectiveInterval(rule.interval) == 1 ==>
      text == "Weekly on " + WeekdayList(rule.weekdays.value)
    ensures ListsWeekdays(rule) && EffectiveInterval(rule.interval) != 1 ==>
      text == "Every " + IntToString(EffectiveInterval(rule.interval)) + " weeks on " + WeekdayList(rule.weekdays.value)
  {
    if rule.kind == OneTime then "One-time event"
    else
      var k := EffectiveInterval(rule.interval);
      match rule.kind
      case Daily => if k == 1 then "Daily" else EveryPhrase(k, "days")
      case Weekly =>
        if rule.weekdays.Some? && |rule.weekdays.value| > 0 then
          var names := WeekdayList(rule.weekdays.value);
          if k == 1 then
            var t := "Weekly" + " on " + names;
            assert t[0] == 'W';
            t
          else EveryPhrase(k, "weeks") + " on " + names
        else if k == 1 then "Weekly" else EveryPhrase(k, "weeks")
      case Monthly => if k == 1 then "Monthly" else EveryPhrase(k, "months")
      case Custom =>
        var t := EveryPhrase(k, "days");
        assert k == 1 ==> t == "Every 1 days";
        t
  }

  /**
   * Round trip: for a rule that lists no weekdays and reads "Every N <unit>",
   * the number N read back from the text is the rule's interval, and the
   * text ends in the unit of the rule's kind.
   */
  lemma EveryTextRoundTrip(rule: RecurrenceRule)
    requires rule.kind != OneTime && !ListsWeekdays(rule)
    requires EffectiveInterval(rule.interval) != 1 || rule.kind == Custom
    ensures var text := FormatRecurrenceText(rule);
      var u := |Unit(rule.kind)| + 1;
      && |text| > 6 + u && text[..6] == "Every " && text[|text| - u..] == " " + Unit(rule.kind)
      && text[6..|text| - u] == IntToString(EffectiveInterval(rule.interval))
      && ParseInt(text[6..|text| - u]) == EffectiveInterval(rule.interval)
  {
    var k := EffectiveInterval(rule.interval);
    var text := FormatRecurrenceText(rule);
    var digits := IntToString(k);
    var tail := " " + Unit(rule.kind);
    assert text == "Every " + digits + tail;
    assert text[6..|text| - |tail|] == digits;
    assert text[|text| - |tail|..] == tail;
    IntRoundTrip(k);
  }

  /**
   * Two rules of the same kind, listing no weekdays, with the same summary
   * count with the same interval.
   */
  lemma TextDeterminesInterval(r1: RecurrenceRule, r2: RecurrenceRule)
    requires r1.kind == r2.kind != OneTime && !ListsWeekdays(r1) && !ListsWeekdays(r2)
    requires FormatRecurrenceText(r1) == FormatRecurrenceText(r2)
    ensures EffectiveInterval(r1.interval) == EffectiveInterval(r2.interval)
  {
    var k1, k2 := EffectiveInterval(r1.interval), EffectiveInterval(r2.interval);
    if r1.kind == Custom || (k1 != 1 && k2 != 1) {
      EveryTextRoundTrip(r1);
      EveryTextRoundTrip(r2);
    }
  }

  /**
   * A custom rule with an interval other than 1 reads exactly like the daily
   * rule with that interval; with interval 1 it reads "Every 1 days", not "Daily".
   */
  lemma CustomTextLikeDaily(rule: RecurrenceRule)
    requires rule.kind == Custom
    ensures EffectiveInterval(rule.interval) != 1 ==>
      FormatRecurrenceText(rule) == FormatRecurrenceText(rule.(kind := Daily))
    ensures EffectiveInterval(rule.interval) == 1 ==>
      FormatRecurrenceText(rule) == "Every 1 days" != FormatRecurrenceText(rule.(kind := Daily))
  {
  }

  /** The weekday list names the listed days in order, separated by ", ". */
  lemma {:induction false} WeekdayListAppend(ws: seq<int>, d: int)
    requires |ws| > 0
    ensures WeekdayList(ws + [d]) == WeekdayList(ws) + ", " + WeekdayName(d)
  {
    var parts := seq(|ws + [d]|, i requires 0 <= i < |ws + [d]| => WeekdayName((ws + [d])[i]));
    assert parts[..|parts| - 1] == seq(|ws|, i requires 0 <= i < |ws| => WeekdayName(ws[i]));
  }
}
