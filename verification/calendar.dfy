/**
 * The calendar page's event-list updates: saving a new or edited event,
 * deleting one, moving one to another day by drag and drop, and the grid
 * the page shows for a search term.
 */
module Calendar {
  import opened Wrappers
  import opened Civil
  import opened Seqs
  import opened Types
  import opened Text
  import opened DateUtils
  import opened EventUtils

  /**
   * `handleSaveEvent`: when an event was being edited, every event with the
   * saved event's id is replaced by it; otherwise the event is appended.
   */
  function SaveEvent(events: seq<Event>, editing: bool, ev: Event): (r: seq<Event>)
    ensures editing ==> Ids(r) == Ids(events)
    ensures editing ==> forall i :: 0 <= i < |events| && events[i].id != ev.id ==> r[i] == events[i]
    ensures editing ==> forall i :: 0 <= i < |events| && events[i].id == ev.id ==> r[i] == ev
    ensures editing ==> forall e :: e in r <==> (e == ev && ev.id in Ids(events)) || (e in events && e.id != ev.id)
    ensures !editing ==> |r| == |events| + 1 && r[..|events|] == events && r[|events|] == ev
  {
    if editing then
      var r := ReplaceWhere(events, (e: Event) => e.id == ev.id, ev);
      assert forall e :: e in r ==> (e == ev && ev.id in Ids(events)) || (e in events && e.id != ev.id) by {
        forall e | e in r
          ensures (e == ev && ev.id in Ids(events)) || (e in events && e.id != ev.id)
        {
          var i :| 0 <= i < |r| && r[i] == e;
          if events[i].id == ev.id {
            assert Ids(events)[i] == ev.id;
          }
        }
      }
      assert forall e :: (e == ev && ev.id in Ids(events)) ==> e in r by {
        if ev.id in Ids(events) {
          var i :| 0 <= i < |events| && Ids(events)[i] == ev.id;
          assert r[i] == ev;
        }
      }
      assert forall e :: (e in events && e.id != ev.id) ==> e in r by {
        forall e | e in events && e.id != ev.id
          ensures e in r
        {
          var i :| 0 <= i < |events| && events[i] == e;
          assert r[i] == e;
        }
      }
      r
    else
      events + [ev]
  }

  /** `handleDeleteEvent`: the events whose id differs from `id`, in list order. */
  function DeleteEvent(events: seq<Event>, id: string): (r: seq<Event>)
    ensures forall e :: e in r <==> e in events && e.id != id
    ensures forall e :: multiset(r)[e] == if e.id != id then multiset(events)[e] else 0
    ensures id !in Ids(r)
    ensures IsSubsequence(r, events)
  {
    var r := Filter(events, (e: Event) => e.id != id);
    assert id !in Ids(r) by {
      forall i | 0 <= i < |r|
        ensures Ids(r)[i] != id
      {
        assert r[i] in r;
      }
    }
    r
  }

  /** Adding an event with a fresh id and then deleting that id restores the list. */
  lemma DeleteUndoesAdd(events: seq<Event>, ev: Event)
    requires ev.id !in Ids(events)
    ensures DeleteEvent(SaveEvent(events, false, ev), ev.id) == events
  {
    var p := (e: Event) => e.id != ev.id;
    forall i | 0 <= i < |events|
      ensures p(events[i])
    {
      assert Ids(events)[i] == events[i].id;
    }
    FilterKeepsAll(events, p);
    FilterAppend(events, [ev], p);
    assert Filter([ev], p) == [];
  }

  /** Deleting twice by the same id is deleting once. */
  lemma DeleteIdempotent(events: seq<Event>, id: string)
    ensures DeleteEvent(DeleteEvent(events, id), id) == DeleteEvent(events, id)
  {
    FilterIdempotent(events, (e: Event) => e.id != id);
  }

  /** Saving the same edit twice is saving it once. */
  lemma SaveEditIdempotent(events: seq<Event>, ev: Event)
    ensures SaveEvent(SaveEvent(events, true, ev), true, ev) == SaveEvent(events, true, ev)
  {
    var once := SaveEvent(events, true, ev);
    var twice := SaveEvent(once, true, ev);
    assert |twice| == |once|;
    forall i | 0 <= i < |once|
      ensures twice[i] == once[i]
    {
      assert Ids(once)[i] == Ids(events)[i];
    }
  }

  // ---------------------------------------------------------------------
  // Drag and drop (handleEventDrop)
  // ---------------------------------------------------------------------

  /** The start of a day plus a time within it lies on that day. */
  lemma OnDay(t: int, r: int)
    requires 0 <= r < DAY
    ensures DayOf(StartOfDay(t) + r) == DayOf(t)
    ensures StartOfDay(StartOfDay(t) + r) == StartOfDay(t)
  {
    var m := StartOfDay(t);
    assert (m + r) / DAY == m / DAY by {
      assert m == DayOf(t) * DAY;
    }
  }

  /**
   * The event moved to the day of `target`: start and end shift by the whole
   * days between the start of the event's day and the start of the target day.
   */
  function MoveEvent(e: Event, target: int): (m: Event)
    ensures DayOf(m.date) == DayOf(target)
    ensures TimeOfDay(m.date) == TimeOfDay(e.date)
    ensures m.endTime.Some? <==> e.endTime.Some?
    ensures m.endTime.Some? ==> m.endTime.value - m.date == e.endTime.value - e.date
    ensures m.id == e.id && m.title == e.title && m.description == e.description
    ensures m.color == e.color && m.recurrence == e.recurrence
  {
    var shift := StartOfDay(target) - StartOfDay(e.date);
    var date := e.date + shift;
    assert date == StartOfDay(target) + TimeOfDay(e.date);
    OnDay(target, TimeOfDay(e.date));
    e.(date := date,
       endTime := match e.endTime
                  case Some(t) => Some(t + shift)
                  case None => None)
  }

  /** Dropping an event on the day it already starts on leaves it unchanged. */
  lemma MoveToSameDay(e: Event, target: int)
    requires DayOf(target) == DayOf(e.date)
    ensures MoveEvent(e, target) == e
  {
  }

  /** Two moves in a row land where a single move to the second target lands. */
  lemma MoveCompose(e: Event, t1: int, t2: int)
    ensures MoveEvent(MoveEvent(e, t1), t2) == MoveEvent(e, t2)
  {
    var m := MoveEvent(e, t1);
    OnDay(t1, TimeOfDay(e.date));
    assert StartOfDay(m.date) == StartOfDay(t1);
  }

  /** `handleEventDrop`: every event with the dropped event's id becomes the moved event. */
  function DropEvent(events: seq<Event>, e: Event, target: int): (r: seq<Event>)
    ensures Ids(r) == Ids(events)
    ensures forall i :: 0 <= i < |events| && events[i].id != e.id ==> r[i] == events[i]
    ensures forall i :: 0 <= i < |events| && events[i].id == e.id ==> DayOf(r[i].date) == DayOf(target)
  {
    ReplaceWhere(events, (x: Event) => x.id == e.id, MoveEvent(e, target))
  }

  /** A drop is a save of the moved event in edit mode. */
  lemma DropIsEdit(events: seq<Event>, e: Event, target: int)
    ensures DropEvent(events, e, target) == SaveEvent(events, true, MoveEvent(e, target))
  {
  }

  // ---------------------------------------------------------------------
  // The grid on screen
  // ---------------------------------------------------------------------

  /** The cells the page shows: the month grid of the events that pass the search. */
  function VisibleGrid(currentDate: int, events: seq<Event>, term: string, now: int): (cells: seq<DayWithEvents>)
    ensures |cells| == |CalendarDays(currentDate)|
    ensures forall i :: 0 <= i < |cells| ==> cells[i].date == CalendarDays(currentDate)[i]
  {
    DaysWithEvents(currentDate, FilterBySearchTerm(events, term), now)
  }

  /**
   * An event appears in a cell of the page exactly when it is in the list,
   * passes the search, and shows on that cell's day.
   */
  lemma VisibleGridContents(currentDate: int, events: seq<Event>, term: string, now: int, e: Event)
    ensures var cells := VisibleGrid(currentDate, events, term, now);
      forall i :: 0 <= i < |cells| ==>
        (e in cells[i].events <==>
          e in events && (IsBlank(term) || MatchesTerm(e, Lower(term))) && ShowsOn(cells[i].date, e))
  {
  }
}
