/**
 * The event form's logic: the weekday toggle, the recurrence rule and the
 * event it builds from its fields, the conflict probe, and what a submit
 * does. Parsing the date and time fields is done outside the model: the
 * parsed timestamps are parameters.
 */
module EventForm {
  import opened Wrappers
  import opened Seqs
  import opened Types
  import opened DateUtils
  import opened EventUtils

  // ---------------------------------------------------------------------
  // Weekday toggle (handleWeekdayToggle)
  // ---------------------------------------------------------------------

  /**
   * Remove every copy of `d` if present, keeping the other weekdays, with
   * their copies, in their order; else append `d`.
   */
  function ToggleWeekday(ws: seq<int>, d: int): (r: seq<int>)
    ensures d in ws ==> d !in r
    ensures d in ws ==> IsSubsequence(r, ws) && forall x :: x != d ==> multiset(r)[x] == multiset(ws)[x]
    ensures d !in ws ==> r == ws + [d]
    ensures forall x :: x != d ==> (x in r <==> x in ws)
  {
    if d in ws then Filter(ws, (x: int) => x != d) else ws + [d]
  }

  /** Toggling an absent weekday twice gives back the original list. */
  lemma ToggleTwiceAbsent(ws: seq<int>, d: int)
    requires d !in ws
    ensures ToggleWeekday(ToggleWeekday(ws, d), d) == ws
  {
    var p := (x: int) => x != d;
    FilterAppend(ws, [d], p);
    assert Filter([d], p) == [] by {
      assert [d][1..] == [];
    }
    forall i | 0 <= i < |ws|
      ensures p(ws[i])
    {
    }
    FilterKeepsAll(ws, p);
  }

  /** The toggle keeps a weekday list free of repeats. */
  lemma ToggleKeepsDistinct(ws: seq<int>, d: int)
    requires Distinct(ws)
    ensures Distinct(ToggleWeekday(ws, d))
  {
    if d in ws {
      DistinctSubsequence(Filter(ws, (x: int) => x != d), ws);
    }
  }

  // ---------------------------------------------------------------------
  // Building the rule and the event
  // ---------------------------------------------------------------------

  /**
   * The rule the form builds: the chosen kind and interval, the selected
   * weekdays only for a weekly rule, the parsed end date only when the
   * end-date field is filled in, and no occurrence count.
   */
  function BuildRule(kind: RecurrenceType, interval: int, weekdays: seq<int>,
                     endDateField: string, parsedEndDate: int): (rule: RecurrenceRule)
    ensures rule.kind == kind && rule.interval == Some(interval)
    ensures rule.weekdays.Some? <==> kind == Weekly
    ensures rule.weekdays.Some? ==> rule.weekdays.value == weekdays
    ensures rule.endDate.None? <==> endDateField == ""
    ensures rule.endDate.Some? ==> rule.endDate.value == parsedEndDate
    ensures rule.occurrences.None?
  {
    RecurrenceRule(kind, Some(interval),
                   if kind == Weekly then Some(weekdays) else None,
                   if endDateField == "" then None else Some(parsedEndDate),
                   None)
  }

  /** The values a filled-in form yields once its date and time fields are parsed. */
  datatype FormValues = FormValues(
    title: string,
    start: int,
    end: Option<int>,
    description: string,
    color: Color,
    rule: RecurrenceRule)

  /** `event?.id || 'temp-id'`: the id the conflict probe carries. */
  function ProbeId(editing: Option<Event>): (id: string)
    ensures editing.Some? && editing.value.id != "" ==> id == editing.value.id
    ensures editing.None? || editing.value.id == "" ==> id == "temp-id"
  {
    if editing.Some? && editing.value.id != "" then editing.value.id else "temp-id"
  }

  /** The temporary event the form checks for conflicts. */
  function Probe(editing: Option<Event>, v: FormValues): (e: Event)
    ensures e.id == ProbeId(editing) && e.date == v.start && e.endTime == v.end
  {
    Event(ProbeId(editing), v.title, v.start, v.end, Some(v.description), v.color, v.rule)
  }

  /**
   * The event a submit saves: an edited event keeps its id and overwrites
   * title, start, end, description, colour and rule; a new event comes from
   * `createEvent` with the fresh id `newId`.
   */
  function BuildSavedEvent(editing: Option<Event>, newId: string, v: FormValues): (e: Event)
    ensures editing.Some? ==> e.id == editing.value.id
    ensures editing.None? ==> e.id == newId
    ensures e.title == v.title && e.date == v.start && e.endTime == v.end
    ensures e.description == Some(v.description) && e.recurrence == v.rule
    ensures IsCanonical(v.color) ==> e.color == v.color
  {
    match editing
    case Some(ev) =>
      ev.(title := v.title, date := v.start, endTime := v.end, description := Some(v.description),
          color := v.color, recurrence := v.rule)
    case None =>
      var e := CreateEvent(newId, v.title, v.start, v.end, Some(v.description), Some(ColorName(v.color)), Some(v.rule));
      ColorNameRoundTrip(e.color);
      if IsCanonical(v.color) then
        ColorNameRoundTrip(v.color);
        e
      else e
  }

  // ---------------------------------------------------------------------
  // Submitting (handleSubmit and "Save Anyway")
  // ---------------------------------------------------------------------

  datatype SubmitOutcome =
    | Ignored                                  // a required field is empty
    | ShowConflicts(conflicts: seq<Event>)      // the conflict warning opens
    | Saved(event: Event)                       // `onSave` receives the event

  /**
   * `handleSubmit`: nothing happens unless title, date and start time are
   * filled in; with conflicts the warning opens; otherwise the event is saved.
   * The conflicts are those of the probe built from the same values.
   */
  function Submit(editing: Option<Event>, newId: string, dateField: string, startField: string,
                  v: FormValues, existing: seq<Event>): (o: SubmitOutcome)
    ensures v.title == "" || dateField == "" || startField == "" <==> o.Ignored?
    ensures o.ShowConflicts? ==> |o.conflicts| > 0 && o.conflicts == CheckEventConflicts(Probe(editing, v), existing)
    ensures o.Saved? ==> CheckEventConflicts(Probe(editing, v), existing) == [] && o.event == BuildSavedEvent(editing, newId, v)
  {
    if v.title == "" || dateField == "" || startField == "" then Ignored
    else
      var conflicts := CheckEventConflicts(Probe(editing, v), existing);
      if |conflicts| > 0 then ShowConflicts(conflicts) else Saved(BuildSavedEvent(editing, newId, v))
  }

  /**
   * "Save Anyway": the warning's button saves the event the form builds,
   * conflicts or not: the edited event's id or the fresh one, and the
   * form's title, start, end, description, colour and rule.
   */
  function SaveAnyway(editing: Option<Event>, newId: string, v: FormValues): (o: SubmitOutcome)
    ensures o.Saved?
    ensures editing.Some? ==> o.event.id == editing.value.id
    ensures editing.None? ==> o.event.id == newId
    ensures o.event.title == v.title && o.event.date == v.start && o.event.endTime == v.end
    ensures o.event.description == Some(v.description) && o.event.recurrence == v.rule
    ensures IsCanonical(v.color) ==> o.event.color == v.color
  {
    Saved(BuildSavedEvent(editing, newId, v))
  }

  /**
   * A saved event conflicts with no existing event of another id, provided
   * the probe's id and the saved event's id exclude the same events: the
   * edited event keeps a non-empty id, or a new event's fresh id and
   * "temp-id" are both absent from the list.
   */
  lemma SavedEventHasNoConflicts(editing: Option<Event>, newId: string, dateField: string, startField: string,
                                 v: FormValues, existing: seq<Event>)
    requires Submit(editing, newId, dateField, startField, v, existing).Saved?
    requires editing.Some? ==> editing.value.id != ""
    requires editing.None? ==> newId !in Ids(existing) && "temp-id" !in Ids(existing)
    ensures CheckEventConflicts(Submit(editing, newId, dateField, startField, v, existing).event, existing) == []
  {
    var probe := Probe(editing, v);
    var saved := BuildSavedEvent(editing, newId, v);
    forall e | e in existing
      ensures !(e.id != saved.id && DoEventsConflict(saved, e))
    {
      var i :| 0 <= i < |existing| && existing[i] == e;
      assert Ids(existing)[i] == e.id;
      assert e !in CheckEventConflicts(probe, existing);
      assert DoEventsConflict(saved, e) == DoEventsConflict(probe, e);
    }
  }

  /**
   * Once the warning is shown, "Save Anyway" saves exactly what the same
   * submit saves when no event conflicts.
   */
  lemma SaveAnywayMatchesSubmit(editing: Option<Event>, newId: string, dateField: string, startField: string,
                                v: FormValues, existing: seq<Event>)
    requires Submit(editing, newId, dateField, startField, v, existing).ShowConflicts?
    ensures SaveAnyway(editing, newId, v) == Submit(editing, newId, dateField, startField, v, [])
  {
  }
}
