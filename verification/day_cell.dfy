/**
 * What one day cell of the grid lists: its events sorted by start
 * timestamp, at most three of them, and the count of the rest.
 */
module DayCell {
  import opened Types

  /** Ascending by start timestamp. */
  predicate SortedByDate(s: seq<Event>) {
    forall i, j :: 0 <= i < j < |s| ==> s[i].date <= s[j].date
  }

  /**
   * The events of `s` that start at timestamp `t`, in order. This is
   * `Filter(s, e => e.date == t)`, written here to peel off the last element
   * rather than the first, because `Insert` scans the sorted list from its
   * back and the stability proof steps through `s + [y]`.
   */
  function StartingAt(s: seq<Event>, t: int): seq<Event>
    decreases |s|
  {
    if |s| == 0 then []
    else
      assert s == s[..|s| - 1] + [s[|s| - 1]];
      StartingAt(s[..|s| - 1], t) + if s[|s| - 1].date == t then [s[|s| - 1]] else []
  }

  /** Insert `x` into sorted `s` after every event that starts no later than it. */
  function Insert(x: Event, s: seq<Event>): (r: seq<Event>)
    ensures |r| == |s| + 1
    ensures multiset(r) == multiset(s) + multiset{x}
    decreases |s|
  {
    if |s| == 0 || s[|s| - 1].date <= x.date then s + [x]
    else
      assert s == s[..|s| - 1] + [s[|s| - 1]];
      Insert(x, s[..|s| - 1]) + [s[|s| - 1]]
  }

  /** Inserting into a sorted list gives a sorted list. */
  lemma {:induction false} InsertSorted(x: Event, s: seq<Event>)
    requires SortedByDate(s)
    ensures SortedByDate(Insert(x, s))
    decreases |s|
  {
    if |s| == 0 || s[|s| - 1].date <= x.date {
    } else {
      var front := s[..|s| - 1];
      var y := s[|s| - 1];
      InsertSorted(x, front);
      var r := Insert(x, front);
      forall i | 0 <= i < |r|
        ensures r[i].date <= y.date
      {
        assert r[i] in multiset(r);
        assert r[i] == x || r[i] in multiset(front);
        if r[i] != x {
          var k :| 0 <= k < |front| && front[k] == r[i];
          assert front[k] == s[k];
        }
      }
      assert Insert(x, s) == r + [y];
    }
  }

  /**
   * `[...events].sort((a, b) => a.date - b.date)`: a stable sort by start
   * timestamp (ECMAScript requires `Array.prototype.sort` to be stable).
   */
  function SortByDate(s: seq<Event>): (r: seq<Event>)
    ensures |r| == |s|
    ensures SortedByDate(r)
    ensures multiset(r) == multiset(s)
    decreases |s|
  {
    if |s| == 0 then []
    else
      assert s == s[..|s| - 1] + [s[|s| - 1]];
      InsertSorted(s[|s| - 1], SortByDate(s[..|s| - 1]));
      Insert(s[|s| - 1], SortByDate(s[..|s| - 1]))
  }

  /** Selecting by start time distributes over appending one event. */
  lemma StartingAtSnoc(s: seq<Event>, y: Event, t: int)
    ensures StartingAt(s + [y], t) == StartingAt(s, t) + (if y.date == t then [y] else [])
  {
    assert (s + [y])[..|s|] == s;
  }

  /** Inserting before the last event puts that event back at the end. */
  lemma InsertBeforeLast(x: Event, s: seq<Event>)
    requires |s| > 0 && x.date < s[|s| - 1].date
    ensures Insert(x, s) == Insert(x, s[..|s| - 1]) + [s[|s| - 1]]
  {
  }

  /** Inserting `x` adds it after the events that share its start, and touches no other start. */
  lemma {:induction false} InsertStable(x: Event, s: seq<Event>, t: int)
    ensures StartingAt(Insert(x, s), t) == StartingAt(s, t) + (if x.date == t then [x] else [])
    decreases |s|
  {
    if |s| == 0 || s[|s| - 1].date <= x.date {
      StartingAtSnoc(s, x, t);
    } else {
      var front := s[..|s| - 1];
      var y := s[|s| - 1];
      var inner := Insert(x, front);
      InsertBeforeLast(x, s);
      InsertStable(x, front, t);
      StartingAtSnoc(inner, y, t);
      assert s == front + [y];
      StartingAtSnoc(front, y, t);
      var X := if x.date == t then [x] else [];
      var Y := if y.date == t then [y] else [];
      SwapEmpty(StartingAt(front, t), X, Y);
    }
  }

  /** Two pieces of which one is empty may be appended in either order. */
  lemma SwapEmpty(f: seq<Event>, a: seq<Event>, b: seq<Event>)
    requires a == [] || b == []
    ensures f + a + b == f + b + a
  {
  }

  /** The sort is stable: events that start at the same time keep their relative order. */
  lemma {:induction false} SortStable(s: seq<Event>, t: int)
    ensures StartingAt(SortByDate(s), t) == StartingAt(s, t)
    decreases |s|
  {
    if |s| > 0 {
      var front := s[..|s| - 1];
      var x := s[|s| - 1];
      SortStable(front, t);
      InsertStable(x, SortByDate(front), t);
    }
  }

  /** Sorting a list with one more event at the end inserts that event into the sorted rest. */
  lemma SortByDateSnoc(front: seq<Event>, x: Event)
    ensures SortByDate(front + [x]) == Insert(x, SortByDate(front))
  {
    var s := front + [x];
    assert s[..|s| - 1] == front && s[|s| - 1] == x;
  }

  /** Sorting a list that is already in order changes nothing. */
  lemma {:induction false} SortSorted(s: seq<Event>)
    requires SortedByDate(s)
    ensures SortByDate(s) == s
    decreases |s|
  {
    if |s| > 0 {
      var front := s[..|s| - 1];
      var x := s[|s| - 1];
      assert s == front + [x];
      assert SortedByDate(front) by {
        assert forall i :: 0 <= i < |front| ==> front[i] == s[i];
      }
      SortSorted(front);
      SortByDateSnoc(front, x);
      assert |front| == 0 || front[|front| - 1].date <= x.date;
    }
  }

  /** The number of events a cell lists before it switches to "+ N more". */
  const DISPLAY_LIMIT: int := 3

  /** The listed events and the (possibly negative) hidden count of one cell. */
  datatype CellView = CellView(displayed: seq<Event>, hiddenCount: int)

  /**
   * The cell's listing: the first `DISPLAY_LIMIT` events in start order, and
   * `n - DISPLAY_LIMIT` hidden events, which goes negative for short lists.
   */
  function ViewOf(events: seq<Event>): (v: CellView)
    ensures |v.displayed| == if |events| < DISPLAY_LIMIT then |events| else DISPLAY_LIMIT
    ensures v.displayed == SortByDate(events)[..|v.displayed|]
    ensures v.hiddenCount == |events| - DISPLAY_LIMIT
    ensures |v.displayed| + (if v.hiddenCount > 0 then v.hiddenCount else 0) == |events|
    ensures SortedByDate(v.displayed)
    ensures multiset(v.displayed) <= multiset(events)
  {
    var sorted := SortByDate(events);
    var k := if |sorted| < DISPLAY_LIMIT then |sorted| else DISPLAY_LIMIT;
    SortedPrefix(sorted, k);
    CellView(sorted[..k], |sorted| - DISPLAY_LIMIT)
  }

  /** A prefix of a sorted list is sorted, and its events are among the list's. */
  lemma SortedPrefix(s: seq<Event>, k: nat)
    requires SortedByDate(s) && k <= |s|
    ensures SortedByDate(s[..k])
    ensures multiset(s[..k]) <= multiset(s)
  {
    assert s == s[..k] + s[k..];
  }

  /** Whether the cell shows the "+ N more" line. */
  predicate ShowsMore(v: CellView) {
    v.hiddenCount > 0
  }

  /**
   * The cell lists the earliest events: every event of the cell that it
   * leaves out (counted with multiplicity) starts no earlier than every
   * event it lists, and it leaves some out exactly when it says "+ N more".
   */
  lemma DisplayedAreEarliest(events: seq<Event>)
    ensures var v := ViewOf(events);
      (forall d, e :: d in v.displayed && e in multiset(events) - multiset(v.displayed) ==> d.date <= e.date)
      && (ShowsMore(v) <==> |v.displayed| < |events|)
  {
    var v := ViewOf(events);
    var sorted := SortByDate(events);
    var k := |v.displayed|;
    assert v.displayed == sorted[..k];
    RestOfPrefix(sorted, k);
    PrefixBeforeRest(sorted, k);
  }

  /** Taking a prefix's events away from a list leaves the events after the prefix. */
  lemma RestOfPrefix(s: seq<Event>, k: nat)
    requires k <= |s|
    ensures multiset(s) - multiset(s[..k]) == multiset(s[k..])
  {
    assert s == s[..k] + s[k..];
  }

  /** In a sorted list, every event of a prefix starts no later than every event after it. */
  lemma PrefixBeforeRest(sorted: seq<Event>, k: nat)
    requires SortedByDate(sorted) && k <= |sorted|
    ensures forall d, e :: d in sorted[..k] && e in sorted[k..] ==> d.date <= e.date
  {
    forall d, e | d in sorted[..k] && e in sorted[k..]
      ensures d.date <= e.date
    {
      var i :| 0 <= i < k && sorted[..k][i] == d;
      var j :| 0 <= j < |sorted| - k && sorted[k..][j] == e;
      assert sorted[i] == d && sorted[k + j] == e;
    }
  }
}
