# Custom Event Calendar: recurrence and scheduling core in Dafny

This project models the scheduling logic of a browser calendar written in
TypeScript and React. Each event has a start timestamp (its *anchor*), an
optional end time and a recurrence rule. The rule kinds are none, daily,
weekly, monthly and custom, and a rule can carry an interval, weekdays and
an end date. The model covers:

- **dateUtils**: the month grid (`getCalendarDays`), the events shown on
  each grid day (`getEventsForDay`, `getDaysWithEvents`), the recurrence
  test (`doesRecurringEventOccurOnDay`) and the conflict test
  (`doEventsConflict`).
- **eventUtils**: event creation with defaults, the conflict search, the
  text search, the colour classes and the one-line summary of a rule.
- **Calendar**: the list updates behind save, delete and drag-and-drop,
  written as pure functions that return the new list. It also covers the
  grid the page shows for a search term.
- **DayCell**: the per-cell sort by start time, the cap of three listed
  events and the hidden count.
- **EventForm**: the weekday toggle, the rule and event the form builds,
  the conflict probe and what a submit does.

## Time model

- A timestamp is an `int` of milliseconds. A day is `DAY = 86400000` ms.
  There are no time zones and no daylight-saving shifts.
- The day number of a timestamp is `t / DAY` (floor division).
- Weekdays count from Sunday = 0. Day number 0, 1970-01-01, is a Thursday.
- Year, month and day of the month come from a proleptic Gregorian
  conversion (module `Civil`). It is proved to round-trip with the day
  number of a date.
- JavaScript's `%` truncates toward zero, and Dafny's `%` is Euclidean.
  The model writes JavaScript's operator out as `JsMath.JsRem`. Every use
  here is a test for a zero remainder, and the two operators agree on that
  test for every sign of either operand (`JsMath.JsRem`'s contract).
- `interval || 1` turns a missing or zero interval into 1 and keeps
  negative intervals as they are.

## Where the model departs from a reader's expectation

- **Grid size.** `getCalendarDays` runs from the Sunday on or before the
  first of the month to the Saturday on or after its last day. It yields
  28, 35 or 42 days, not always a six-week grid. `DateUtils.GridLengths`
  shows a 4-week and a 6-week month.
- **Full timestamps.** The occurrence test compares and subtracts full
  timestamps, not calendar days (`src/utils/dateUtils.ts:95`, `:107`,
  `:114`, `:146`). The model does the same. So a recurring event whose
  anchor has a time of day is missing from the grid cell of its own first
  day, and its day and week counts run from the anchor instant
  (`DateUtils.DailyFromTimedAnchor`, `DateUtils.TimedAnchorCell`). The
  calendar-day behaviour a reader would expect is proved only for anchors at
  midnight (`DateUtils.DailyFromMidnightAnchor`,
  `DateUtils.WeeklyFromMidnightAnchor`, `DateUtils.MonthlyOnDate`).
- **Sort key.** A day cell sorts by the event's anchor `date`, not by the
  time of the occurrence shown in that cell. The model sorts by the anchor,
  as the code does.

## Model

| member | source | states |
|---|---|---|
| Types.ColorFromName | src/utils/eventUtils.ts:53 | the colour a string is cast to names that string again, for the six colours and for any other string |
| Types.ColorNameRoundTrip | src/types/index.ts:1 | each of the six colours, and each cast string that is not one of their names, is recovered from its own name |
| JsMath.JsRem | src/utils/dateUtils.ts:108 | JavaScript's remainder has the sign of the dividend and is zero exactly when the divisor divides the dividend |
| DateUtils.EffectiveInterval | src/utils/dateUtils.ts:106 | the interval a rule counts with is never zero: a missing or zero interval counts as 1, any other interval counts as itself |
| DateUtils.OccursOnDay | src/utils/dateUtils.ts:87-151 | no occurrence before the anchor instant or strictly after the end date; between them the per-kind pattern decides; a one-time rule, and a custom rule without a non-zero interval, never occur; a monthly occurrence has the anchor's day of the month; a weekly one has a listed weekday, or the anchor's weekday when none are listed |
| DateUtils.DailyFromMidnightAnchor | src/utils/dateUtils.ts:105-109 | with a midnight anchor, a daily event occurs n days later exactly when n >= 0, the end date has not passed and n is a multiple of the interval |
| DateUtils.DailyFromTimedAnchor | src/utils/dateUtils.ts:105-109 | with a timed anchor, a daily event skips its own first cell and occurs n cells later exactly when n >= 1, the end date has not passed and n - 1 is a multiple of the interval |
| DateUtils.WeeklyFromMidnightAnchor | src/utils/dateUtils.ts:112-128 | with a midnight anchor, a weekly event occurs n days later exactly when n >= 0, the end date has not passed, the week count n / 7 is a multiple of the interval and the weekday is listed (or, with no list, n is a whole number of weeks) |
| DateUtils.MonthlyOnDate | src/utils/dateUtils.ts:131-142 | with a midnight anchor, a monthly event occurs on the midnight of a date exactly when the end date has not passed, the date's month is the anchor's or later, the month difference is a multiple of the interval, and the day of the month equals the anchor's; JavaScript's truncating `%` and the anchor-order test become a Euclidean `%` on a non-negative month count |
| DateUtils.SameDayOfMonthOrder | src/utils/dateUtils.ts:133-141 | between two dates with the same day of the month, the later month holds the later day, so the month difference is non-negative exactly when the date is not before the anchor |
| DateUtils.MonthlyAnchor31 | src/utils/dateUtils.ts:141 | a monthly event anchored on the 31st never occurs in a month of fewer than 31 days |
| DateUtils.CustomActsAsDaily | src/utils/dateUtils.ts:145-148 | a custom rule with a non-zero interval occurs on exactly the days of the daily rule with that interval |
| DateUtils.TimedAnchorCell | src/utils/dateUtils.ts:73-80 | when the anchor has a time of day, the cell of the anchor's own day shows the event exactly when it is one-time |
| DateUtils.StandupScenario | src/utils/dateUtils.ts:112-128 | a weekly Monday 09:00 event anchored on 2024-03-04 occurs on the three following Mondays and not on the Tuesday after its anchor |
| DateUtils.EventsForDay | src/utils/dateUtils.ts:67-84 | a one-time event is kept exactly when it starts on the same calendar day, any other event exactly when the occurrence test holds; each kept event keeps its multiplicity, and the result is an in-order subsequence of the input |
| DateUtils.GridShape | src/utils/dateUtils.ts:23-30 | the grid has a multiple of 7 days between 28 and 42; it starts on a Sunday and ends on a Saturday; its first week holds the month's first day and its last week the month's last day |
| DateUtils.CalendarDays | src/utils/dateUtils.ts:23-30 | the grid is a gap-free ascending run of midnights, one day apart, from a Sunday to a Saturday, of 28 to 42 days in whole weeks |
| DateUtils.CalendarDaysCoverMonth | src/utils/dateUtils.ts:23-30 | every day of the reference month lies in the grid, and the first and last weeks each hold a day of that month |
| DateUtils.GridLengths | src/utils/dateUtils.ts:23-30 | the grid of February 2015 has 28 days and that of August 2015 has 42 |
| DateUtils.MonthDays | src/utils/dateUtils.ts:55 | a day is in the same month as the reference day exactly when it lies between the month's first and last day |
| DateUtils.CellFor | src/utils/dateUtils.ts:49-58 | a cell carries its day, is in the current month exactly when year and month equal the reference date's, is today exactly when it is on the clock's day, and lists the events the per-day selection keeps |
| DateUtils.DaysWithEvents | src/utils/dateUtils.ts:43-60 | one cell per grid day, in grid order, each built from its own day |
| Civil.SameDayIffSameDate | src/utils/dateUtils.ts:38-40 | two timestamps are on the same day exactly when they have the same year, month and day of the month |
| Civil.CivilRoundTrip | src/utils/dateUtils.ts:131-141 | converting a valid date to its day number and back gives the date again, so the year, month and day read from a grid day are those of that day |
| DateUtils.DoEventsConflict | src/utils/dateUtils.ts:154-173 | events starting on different days never conflict; on the same day, a missing end time always conflicts; with both end times (each not before its start) they conflict exactly when each starts no later than the other ends |
| DateUtils.ConflictSymmetric | src/utils/dateUtils.ts:166-172 | the conflict test gives the same answer with its two events swapped |
| EventUtils.CreateEvent | src/utils/eventUtils.ts:39-56 | the new event has the given id, title, start, end and description; its colour names the given colour, or "blue" by default; its rule is the given one, or exactly `{ type: 'none' }` by default |
| EventUtils.DefaultEventShowsOnItsDayOnly | src/utils/eventUtils.ts:39-56 | an event created with all defaults is blue, reads "One-time event" and shows on its own calendar day and on no other |
| EventUtils.CheckEventConflicts | src/utils/eventUtils.ts:59-66 | the result holds exactly the existing events with another id that conflict with the candidate, in list order; each starts on the candidate's day and none has the candidate's id |
| EventUtils.ConflictsAreMutual | src/utils/eventUtils.ts:59-66 | one event is reported against a second exactly when the second is reported against the first |
| EventUtils.ConflictsOfAppend | src/utils/eventUtils.ts:63-65 | the conflicts found in two concatenated lists are those of the first list followed by those of the second |
| EventUtils.FilterBySearchTerm | src/utils/eventUtils.ts:69-81 | a blank term returns the list unchanged; otherwise the result holds exactly the events whose lower-cased title or description contains the lower-cased term, each with its number of copies; the result is an in-order subsequence |
| EventUtils.SearchIdempotent | src/utils/eventUtils.ts:69-81 | searching the result again with the same term changes nothing |
| EventUtils.SearchNarrows | src/utils/eventUtils.ts:75-80 | when one term contains another (ignoring case), every event the longer term finds is also found by the shorter |
| EventUtils.ColorClass | src/utils/eventUtils.ts:84-95 | the colour can be read back from its class: the name inside the class is that of the colour itself, or of blue for a string outside the six colours |
| EventUtils.ColorClassInjective | src/utils/eventUtils.ts:85-92 | two of the six colours with the same class are the same colour |
| EventUtils.FormatRecurrenceText | src/utils/eventUtils.ts:98-126 | the text is "One-time event" exactly for a one-time rule; with interval 1 and no listed weekdays it is exactly "Daily", "Weekly", "Monthly" or, for a custom rule, "Every 1 days"; with another interval it is exactly "Every N days", "Every N weeks" or "Every N months" by kind, custom counting days; a weekly rule with weekdays reads "Weekly on " or "Every N weeks on " followed by the weekday list |
| EventUtils.EveryTextRoundTrip | src/utils/eventUtils.ts:101-121 | for a rule that reads "Every N ...", the number read back from the text is the rule's interval and the text ends in the unit of the rule's kind |
| EventUtils.TextDeterminesInterval | src/utils/eventUtils.ts:101-121 | two rules of the same kind that list no weekdays and have the same text count with the same interval |
| EventUtils.CustomTextLikeDaily | src/utils/eventUtils.ts:120-121 | a custom rule reads like the daily rule with the same interval, except that interval 1 reads "Every 1 days" and not "Daily" |
| EventUtils.WeekdayListAppend | src/utils/eventUtils.ts:109-110 | the weekday list names the days in the given order, separated by ", " |
| Text.IntRoundTrip | src/utils/eventUtils.ts:105 | an integer printed in a template literal is read back as the same integer |
| Text.Lower | src/utils/eventUtils.ts:75 | lower-casing keeps the length, maps each character on its own, and leaves no upper-case ASCII letter |
| Calendar.SaveEvent | src/components/Calendar/Calendar.tsx:65-73 | an edit keeps the ids in order, puts the saved event at each position with its id and keeps every other event in place; an add appends the event after the unchanged list |
| Calendar.SaveEditIdempotent | src/components/Calendar/Calendar.tsx:66-67 | saving the same edit twice gives the same list as saving it once |
| Calendar.DeleteEvent | src/components/Calendar/Calendar.tsx:75-80 | the result holds exactly the events with another id, each with its number of copies, in list order, and no event with the deleted id |
| Calendar.DeleteUndoesAdd | src/components/Calendar/Calendar.tsx:68 | adding an event with a fresh id and deleting that id gives back the original list |
| Calendar.DeleteIdempotent | src/components/Calendar/Calendar.tsx:76 | deleting an id twice is deleting it once |
| Calendar.MoveEvent | src/components/Calendar/Calendar.tsx:82-93 | the moved event starts on the target day at the same time of day, keeps its duration and keeps a missing end time missing; id, title, description, colour and rule are unchanged |
| Calendar.MoveToSameDay | src/components/Calendar/Calendar.tsx:83-89 | dropping an event on its own day leaves it unchanged |
| Calendar.MoveCompose | src/components/Calendar/Calendar.tsx:83-93 | two drops in a row end where a single drop to the second day ends |
| Calendar.DropEvent | src/components/Calendar/Calendar.tsx:82-101 | the ids stay in order; events with another id are unchanged; every event with the dropped id now starts on the target day |
| Calendar.DropIsEdit | src/components/Calendar/Calendar.tsx:95-97 | a drop is an edit-mode save of the moved event |
| Calendar.VisibleGrid | src/components/Calendar/Calendar.tsx:28-35 | the page shows one cell per grid day, in grid order |
| Calendar.VisibleGridContents | src/components/Calendar/Calendar.tsx:28-35 | an event appears in a cell exactly when it is in the list, passes the search and shows on that cell's day |
| DayCell.SortByDate | src/components/Calendar/DayCell.tsx:30 | the sorted list is a permutation of the cell's events, ascending by start time |
| DayCell.SortStable | src/components/Calendar/DayCell.tsx:30 | events with the same start time keep their relative order |
| DayCell.SortSorted | src/components/Calendar/DayCell.tsx:30 | a list already in order is left as it is |
| DayCell.ViewOf | src/components/Calendar/DayCell.tsx:30-35 | the cell lists the first min(3, n) events of the sorted list; the hidden count is n - 3, negative for short lists; listed plus positive hidden count is n |
| DayCell.DisplayedAreEarliest | src/components/Calendar/DayCell.tsx:33-35 | every event of the cell that is not listed, counted with its copies, starts no earlier than every listed event, and "+ N more" shows exactly when some event is not listed |
| EventForm.ToggleWeekday | src/components/Events/EventForm.tsx:55-61 | a listed weekday is removed, every copy of it, and the other weekdays keep their order and their copies; an unlisted weekday is appended at the end; no other weekday changes membership |
| EventForm.ToggleTwiceAbsent | src/components/Events/EventForm.tsx:55-61 | toggling an unlisted weekday twice gives back the original list |
| EventForm.ToggleKeepsDistinct | src/components/Events/EventForm.tsx:55-61 | toggling keeps a weekday list free of repeats |
| EventForm.BuildRule | src/components/Events/EventForm.tsx:106-111 | the rule has the chosen kind and interval, the weekdays only when it is weekly, no end date exactly when the end-date field is empty, and no occurrence count |
| EventForm.ProbeId | src/components/Events/EventForm.tsx:74 | the conflict probe has the edited event's id when that is non-empty, and "temp-id" otherwise |
| EventForm.Probe | src/components/Events/EventForm.tsx:73-86 | the probe carries the probe id, the start and the end time of the form |
| EventForm.BuildSavedEvent | src/components/Events/EventForm.tsx:120-130 | an edit keeps the event's id and other fields and overwrites title, start, end, description, colour and rule; a new event gets the fresh id; a colour in the form the cast produces is kept |
| EventForm.Submit | src/components/Events/EventForm.tsx:95-136 | a submit does nothing exactly when the title, date or start time is empty; with conflicts it shows them, and they are the probe's conflicts; otherwise it saves the built event, and the probe had no conflicts |
| EventForm.SaveAnyway | src/components/Events/EventForm.tsx:357-387 | the "Save Anyway" button always saves; the saved event has the edited event's id or the fresh one, and the form's title, start, end, description, rule and (for one of the six colours) colour |
| EventForm.SavedEventHasNoConflicts | src/components/Events/EventForm.tsx:113-132 | when the probe and the saved event exclude the same ids, the event a submit saves conflicts with no existing event |
| EventForm.SaveAnywayMatchesSubmit | src/components/Events/EventForm.tsx:334-386 | whenever the conflict warning (and so the button) is shown, "Save Anyway" saves exactly the event the same submit would save if no event conflicted |

## Left out

- `loadEvents` and `saveEvents` (`src/utils/eventUtils.ts:6-36`): localStorage and JSON I/O are not modelled.
- EventUtils.CreateEvent: the fresh id from `uuidv4` is a parameter, because it is random.
- `formatDate` and date-fns `parse`: string formatting and parsing are not modelled. The form's parsed start, end and end-date timestamps are parameters. An Invalid Date from a malformed field is not modelled.
- DateUtils.CellFor: `isToday` reads the wall clock; the current time is the parameter `now`.
- `getNextMonth` and `getPrevMonth` (`src/utils/dateUtils.ts:63-64`): thin wrappers over the library's month arithmetic, not modelled.
- Time zones and daylight saving: every day is 86,400,000 ms long, and local time equals the timestamp.
- Text.Lower: only ASCII letters are lower-cased. Case folding beyond ASCII is not modelled, and `trim`'s whitespace set is the ECMAScript one.
- DateUtils.EffectiveInterval: the interval is an integer. A fractional or NaN value that `Number()` can produce from the interval input (`src/components/Events/EventForm.tsx:281`) is not modelled.
- Text.IntRoundTrip: integers print as plain decimal digits. JavaScript's exponent notation for magnitudes of 10^21 and above is not modelled.
- DateUtils.DoEventsConflict: the overlap equivalence is stated only for events whose end time is not before their start. `isWithinInterval` is taken as the closed interval test and is false on an inverted interval. The library's behaviour on inverted intervals (it throws or swaps the bounds, depending on its version) is not modelled.
- EventUtils.ColorClass: a colour string that names a property of `Object.prototype` is not modelled; every string outside the six colours falls back to blue.
- EventUtils.FormatRecurrenceText: the `default` branch "Recurring event" is unreachable for the five rule kinds and has no counterpart.
- The `occurrences` field of a rule is carried but read by no operation.
- EventForm.Submit: the conflicts come from a React effect (`src/components/Events/EventForm.tsx:64-93`) that reruns when a field it lists changes. Every form field the probe's start and end are built from is listed; the description and colour are not listed, but the conflict test reads only the probe's id, start and end. The effect also reads the edited `event` (the source of the probe's id) and `existingEvents` without listing them; the model assumes neither changes while the form is open, so the conflicts are those of the submitted values against the current events.
- Calendar.DropEvent: `date.setHours` mutates the drop target's Date object in place. That side effect on the caller's value is not modelled.
- React state, effects and rendering: the form's initialisation effect, the modal, the drag bookkeeping in the grid component, the header and the app shell are UI only and not modelled.
