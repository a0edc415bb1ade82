/**
 * The calendar's records: colours, recurrence rules, events and the
 * per-day cells of the month grid. Dates are timestamps (see module Civil);
 * an optional field the source writes as `field?: T` or `T | null` is an
 * `Option<T>` here.
 */
module Types {
  import opened Wrappers

  /**
   * The six colours an event can carry. `Other` holds any other string that
   * reaches an event through the untyped `color as EventColor` cast when an
   * event is created.
   */
  datatype Color = Blue | Green | Purple | Amber | Red | Pink | Other(name: string)

  /** The string the source uses for a colour. */
  function ColorName(c: Color): string {
    match c
    case Blue => "blue"
    case Green => "green"
    case Purple => "purple"
    case Amber => "amber"
    case Red => "red"
    case Pink => "pink"
    case Other(s) => s
  }

  /** The colour a string names once cast to an event colour. */
  function ColorFromName(s: string): (c: Color)
    ensures ColorName(c) == s
  {
    if s == "blue" then Blue
    else if s == "green" then Green
    else if s == "purple" then Purple
    else if s == "amber" then Amber
    else if s == "red" then Red
    else if s == "pink" then Pink
    else Other(s)
  }

  /** A colour in the form the cast produces: `Other` never holds one of the six names. */
  predicate IsCanonical(c: Color) {
    c.Other? ==> c.name !in {"blue", "green", "purple", "amber", "red", "pink"}
  }

  lemma ColorNameRoundTrip(c: Color)
    requires IsCanonical(c)
    ensures ColorFromName(ColorName(c)) == c
  {
  }

  /** The recurrence kinds: `'none' | 'daily' | 'weekly' | 'monthly' | 'custom'`. */
  datatype RecurrenceType = OneTime | Daily | Weekly | Monthly | Custom

  /**
   * A recurrence rule as the source stores it: a kind plus loose optional
   * fields. `weekdays` holds `getDay` numbers (Sunday = 0); `endDate` is a
   * timestamp; `occurrences` is declared but read by no operation.
   */
  datatype RecurrenceRule = RecurrenceRule(
    kind: RecurrenceType,
    interval: Option<int>,
    weekdays: Option<seq<int>>,
    endDate: Option<int>,
    occurrences: Option<int>)

  /** The rule `{ type: 'none' }`. */
  const OneTimeRule: RecurrenceRule := RecurrenceRule(OneTime, None, None, None, None)

  /** A calendar event; `date` is the start timestamp of its first occurrence (the anchor). */
  datatype Event = Event(
    id: string,
    title: string,
    date: int,
    endTime: Option<int>,
    description: Option<string>,
    color: Color,
    recurrence: RecurrenceRule)

  /** One cell of the month grid. */
  datatype DayWithEvents = DayWithEvents(
    date: int,
    isCurrentMonth: bool,
    isToday: bool,
    events: seq<Event>)

  /** The ids of a list of events, in order. */
  function Ids(events: seq<Event>): (ids: seq<string>)
    ensures |ids| == |events|
    ensures forall i :: 0 <= i < |events| ==> ids[i] == events[i].id
  {
    seq(|events|, i requires 0 <= i < |events| => events[i].id)
  }
}
