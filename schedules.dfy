/** The weekly schedule: a dictionary from weekday to the ordered list of
    class names taught that day, together with the order in which the days
    were first inserted (the dictionary's iteration order). */
module Schedules {

  type Day = string
  type ClassName = string

  /** `order` lists the days in insertion order; `lists` maps each day to
      its classes in the order they were added. */
  datatype Schedule = Schedule(order: seq<Day>, lists: map<Day, seq<ClassName>>)

  /** The schedule of a fresh or reset tracker. */
  const Empty: Schedule := Schedule([], map[])

  /** Every day occurs once in the order, the order and the dictionary's
      keys agree, and a day is only present once a class was added to it. */
  ghost predicate WellFormed(s: Schedule) {
    && (forall i, j :: 0 <= i < j < |s.order| ==> s.order[i] != s.order[j])
    && (forall d :: d in s.lists <==> d in s.order)
    && (forall d :: d in s.lists ==> s.lists[d] != [])
  }

  /** The lookup `schedule.get(day, [])`. */
  function ListOf(s: Schedule, day: Day): seq<ClassName> {
    if day in s.lists then s.lists[day] else []
  }

  /** The class names occurring in the list of some day. */
  function Classes(s: Schedule): set<ClassName> {
    set d, c | d in s.lists && c in s.lists[d] :: c
  }

  /** Adding a class to a day: appended to that day's list, or the day is
      inserted at the end with the one-element list. */
  function Add(s: Schedule, day: Day, c: ClassName): (r: Schedule)
    ensures ListOf(r, day) == ListOf(s, day) + [c]
    ensures forall d :: d != day ==> ListOf(r, d) == ListOf(s, d)
    ensures day in s.lists ==> r.order == s.order
    ensures day !in s.lists ==> r.order == s.order + [day]
    ensures WellFormed(s) ==> WellFormed(r)
  {
    if day in s.lists then Schedule(s.order, s.lists[day := s.lists[day] + [c]])
    else Schedule(s.order + [day], s.lists[day := [c]])
  }

  /** After adding `c`, the scheduled classes are the old ones and `c`. */
  lemma AddClasses(s: Schedule, day: Day, c: ClassName)
    ensures Classes(Add(s, day, c)) == Classes(s) + {c}
  {
    var r := Add(s, day, c);
    assert c in r.lists[day];
    forall x | x in Classes(r)
      ensures x in Classes(s) + {c}
    {
      var d :| d in r.lists && x in r.lists[d];
      if d != day {
        assert x in s.lists[d];
      } else if x != c {
        assert x in ListOf(s, day);
      }
    }
    forall x | x in Classes(s)
      ensures x in Classes(r)
    {
      var d :| d in s.lists && x in s.lists[d];
      assert x in ListOf(r, d);
    }
  }

  /** Replaying persisted (day, class) rows in insertion order, one
      `Add` per row: the first loop of load_data. */
  function Replay(s: Schedule, rows: seq<(Day, ClassName)>): Schedule
    decreases |rows|
  {
    if rows == [] then s
    else
      var n := |rows| - 1;
      Add(Replay(s, rows[..n]), rows[n].0, rows[n].1)
  }

  /** The class names of the rows stored for `day`, in row order. */
  function RowsFor(rows: seq<(Day, ClassName)>, day: Day): seq<ClassName> {
    if rows == [] then []
    else (if rows[0].0 == day then [rows[0].1] else []) + RowsFor(rows[1..], day)
  }

  lemma {:induction false} RowsForAppend(a: seq<(Day, ClassName)>, b: seq<(Day, ClassName)>, day: Day)
    ensures RowsFor(a + b, day) == RowsFor(a, day) + RowsFor(b, day)
  {
    if a == [] {
      assert a + b == b;
    } else {
      assert (a + b)[1..] == a[1..] + b;
      RowsForAppend(a[1..], b, day);
    }
  }

  /** Replay rebuilds each day's list as the subsequence of that day's
      rows, in insertion order, after what the list already held. */
  lemma {:induction false} ReplayLists(s: Schedule, rows: seq<(Day, ClassName)>, day: Day)
    ensures ListOf(Replay(s, rows), day) == ListOf(s, day) + RowsFor(rows, day)
    decreases |rows|
  {
    if rows != [] {
      var n := |rows| - 1;
      ReplayLists(s, rows[..n], day);
      assert rows == rows[..n] + [rows[n]];
      RowsForAppend(rows[..n], [rows[n]], day);
    }
  }

  /** Replaying rows onto a well-formed schedule keeps it well formed. */
  lemma {:induction false} ReplayWellFormed(s: Schedule, rows: seq<(Day, ClassName)>)
    requires WellFormed(s)
    ensures WellFormed(Replay(s, rows))
    decreases |rows|
  {
    if rows != [] {
      ReplayWellFormed(s, rows[..|rows| - 1]);
    }
  }
}
