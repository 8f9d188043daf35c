/** The attendance store: three in-memory dictionaries mirrored into three
    persisted tables, each table an append-only sequence of rows. */
module Tracker {
  import opened Schedules
  import Counters
  import Attendance

  /** The in-memory absence counters against the counters a reload of the
      absences table would rebuild: every reloaded key is in memory, and the
      two disagree only on scheduled classes whose counter add_class reset
      to 0 without writing a row. */
  ghost predicate AbsencesMatchLog(inMemory: Counters.Counter, reloaded: Counters.Counter, s: Schedule) {
    && reloaded.Keys <= inMemory.Keys
    && forall c :: c in inMemory && inMemory[c] != Counters.Get(reloaded, c) ==>
         inMemory[c] == 0 && c in Classes(s)
  }

  /** add_class keeps the relation: the class it resets to 0 is scheduled. */
  lemma AbsencesMatchAfterAdd(inMemory: Counters.Counter, reloaded: Counters.Counter, s: Schedule, day: Day, c: ClassName)
    requires AbsencesMatchLog(inMemory, reloaded, s)
    ensures AbsencesMatchLog(inMemory[c := 0], reloaded, Add(s, day, c))
  {
    AddClasses(s, day, c);
  }

  /** A marking call keeps the relation: every class it marks gets the
      same value in memory and in the row it inserts. */
  lemma AbsencesMatchAfterStore(inMemory: Counters.Counter, reloaded: Counters.Counter, s: Schedule, names: seq<ClassName>)
    requires AbsencesMatchLog(inMemory, reloaded, s)
    ensures AbsencesMatchLog(Counters.BumpAll(inMemory, names), Counters.Replay(reloaded, Counters.BumpRows(inMemory, names)), s)
  {
    var mem := Counters.BumpAll(inMemory, names);
    var log := Counters.Replay(reloaded, Counters.BumpRows(inMemory, names));
    forall c
      ensures c in log ==> c in mem
      ensures c in mem && mem[c] != Counters.Get(log, c) ==> mem[c] == 0 && c in Classes(s)
    {
      Counters.ReplayOfBumpRows(reloaded, inMemory, names, c);
      Counters.BumpAllCounts(inMemory, names, c);
      if c !in names {
        CountZero(names, c);
      }
    }
  }

  /** The absences table after a marking call, reloaded, relates to the
      counters in memory as before the call. */
  lemma AbsenceTableAfterStore(inMemory: Counters.Counter, table: seq<Counters.CounterRow>, s: Schedule, names: seq<ClassName>)
    ensures AbsencesMatchLog(inMemory, Counters.Replay(map[], table), s) ==>
            AbsencesMatchLog(Counters.BumpAll(inMemory, names), Counters.Replay(map[], table + Counters.BumpRows(inMemory, names)), s)
  {
    Counters.ReplayAppend(map[], table, Counters.BumpRows(inMemory, names));
    if AbsencesMatchLog(inMemory, Counters.Replay(map[], table), s) {
      AbsencesMatchAfterStore(inMemory, Counters.Replay(map[], table), s, names);
    }
  }

  /** A name that does not occur has count 0. */
  lemma {:induction false} CountZero(names: seq<ClassName>, c: ClassName)
    requires c !in names
    ensures Counters.Count(names, c) == 0
  {
    if names != [] {
      CountZero(names[1..], c);
    }
  }

  /** The answers equal to `pick`, keeping the classes' order: the lists
      mark_absent_classes and mark_cancelled_class build from the prompts. */
  function Chosen(classes: seq<ClassName>, answers: seq<bool>, pick: bool): seq<ClassName>
    requires |answers| == |classes|
    decreases |classes|
  {
    if classes == [] then []
    else
      var n := |classes| - 1;
      Chosen(classes[..n], answers[..n], pick) + (if answers[n] == pick then [classes[n]] else [])
  }

  /** Each of today's classes is chosen under exactly one of the answers. */
  lemma {:induction false} ChosenSplit(classes: seq<ClassName>, answers: seq<bool>)
    requires |answers| == |classes|
    ensures multiset(Chosen(classes, answers, true)) + multiset(Chosen(classes, answers, false)) == multiset(classes)
    decreases |classes|
  {
    if classes != [] {
      var n := |classes| - 1;
      ChosenSplit(classes[..n], answers[..n]);
      assert classes == classes[..n] + [classes[n]];
    }
  }

  /** The prompt loop of mark_absent_classes and mark_cancelled_class:
      walks today's classes with their answers and collects, in order,
      those answered `pick`. */
  method Select(classes: seq<ClassName>, answers: seq<bool>, pick: bool) returns (chosen: seq<ClassName>)
    requires |answers| == |classes|
    ensures chosen == Chosen(classes, answers, pick)
  {
    chosen := [];
    for i := 0 to |classes|
      invariant chosen == Chosen(classes[..i], answers[..i], pick)
    {
      if answers[i] == pick {
        chosen := chosen + [classes[i]];
      }
      assert classes[..i + 1][..i] == classes[..i];
      assert answers[..i + 1][..i] == answers[..i];
    }
    assert classes[..|classes|] == classes && answers[..|answers|] == answers;
  }

  /** The positions whose answer is `pick`, in increasing order. */
  function Picked(answers: seq<bool>, pick: bool): seq<nat>
    decreases |answers|
  {
    if answers == [] then []
    else
      var n := |answers| - 1;
      Picked(answers[..n], pick) + (if answers[n] == pick then [n] else [])
  }

  /** The chosen list keeps exactly the classes whose answer is `pick`, in
      the order of the list: its k-th entry is the class at the k-th
      position answered `pick`, those positions increase, and every position
      answered `pick` is among them. */
  lemma {:induction false} ChosenKeeps(classes: seq<ClassName>, answers: seq<bool>, pick: bool)
    requires |answers| == |classes|
    ensures |Chosen(classes, answers, pick)| == |Picked(answers, pick)|
    ensures forall k :: 0 <= k < |Picked(answers, pick)| ==>
      && Picked(answers, pick)[k] < |classes|
      && answers[Picked(answers, pick)[k]] == pick
      && Chosen(classes, answers, pick)[k] == classes[Picked(answers, pick)[k]]
    ensures forall k, l :: 0 <= k < l < |Picked(answers, pick)| ==> Picked(answers, pick)[k] < Picked(answers, pick)[l]
    ensures forall i :: 0 <= i < |answers| && answers[i] == pick ==> i in Picked(answers, pick)
    decreases |classes|
  {
    if classes != [] {
      var n := |classes| - 1;
      ChosenKeeps(classes[..n], answers[..n], pick);
      var before := Picked(answers[..n], pick);
      assert forall k :: 0 <= k < |before| ==> before[k] < n;
      forall i | 0 <= i < |answers| && answers[i] == pick
        ensures i in Picked(answers, pick)
      {
        if i < n {
          assert answers[..n][i] == answers[i];
        }
      }
    }
  }

  class AttendanceTracker {
    /** weekday to ordered class list, with the days' insertion order */
    var schedule: Schedule
    /** class name to number of absences */
    var absences: Counters.Counter
    /** class name to number of cancellations */
    var cancelled: Counters.Counter
    /** the rows of the `schedule` table as this connection sees them,
        including a delete not yet committed */
    var scheduleTable: seq<(Day, ClassName)>
    /** the rows of the `schedule` table as last committed: what a restart
        loads */
    var committedSchedule: seq<(Day, ClassName)>
    /** the rows of the `absences` table */
    var absencesTable: seq<Counters.CounterRow>
    /** the rows of the `cancelled_classes` table */
    var cancelledTable: seq<Counters.CounterRow>

    /** The schedule is well formed and is the replay of the schedule table
        as this connection sees it. Every method keeps this. */
    ghost predicate Synced()
      reads this
    {
      && WellFormed(schedule)
      && schedule == Replay(Empty, scheduleTable)
    }

    /** Write-through: no schedule change is pending, and reloading the
        committed tables reproduces the schedule and the cancellation
        counters exactly, and the absence counters up to the resets done by
        add_class. A fresh tracker has it and every mutation but reset_data
        keeps it. */
    ghost predicate Valid()
      reads this
    {
      && Synced()
      && committedSchedule == scheduleTable
      && cancelled == Counters.Replay(map[], cancelledTable)
      && AbsencesMatchLog(absences, Counters.Replay(map[], absencesTable), schedule)
    }

    /** Start-up: empty dictionaries, then load_data over the tables found. */
    constructor (scheduleRows: seq<(Day, ClassName)>, absenceRows: seq<Counters.CounterRow>, cancelledRows: seq<Counters.CounterRow>)
      ensures Valid()
      ensures scheduleTable == scheduleRows && absencesTable == absenceRows && cancelledTable == cancelledRows
      ensures committedSchedule == scheduleRows
      ensures schedule == Replay(Empty, scheduleRows)
      ensures absences == Counters.Replay(map[], absenceRows)
      ensures cancelled == Counters.Replay(map[], cancelledRows)
    {
      schedule := Empty;
      absences := map[];
      cancelled := map[];
      scheduleTable := scheduleRows;
      committedSchedule := scheduleRows;
      absencesTable := absenceRows;
      cancelledTable := cancelledRows;
      new;
      LoadData();
      ReplayWellFormed(Empty, scheduleRows);
    }

    /** load_data: replays the schedule rows, then the absence rows and the
        cancellation rows, into the current dictionaries. */
    method LoadData()
      modifies this
      ensures schedule == Replay(old(schedule), scheduleTable)
      ensures absences == Counters.Replay(old(absences), absencesTable)
      ensures cancelled == Counters.Replay(old(cancelled), cancelledTable)
      ensures scheduleTable == old(scheduleTable) && absencesTable == old(absencesTable) && cancelledTable == old(cancelledTable)
      ensures committedSchedule == old(committedSchedule)
    {
      LoadSchedule();
      LoadAbsences();
      LoadCancelled();
    }

    /** The first loop of load_data: each (day, class) row appends the
        class to the day's list, creating the day on its first row. */
    method LoadSchedule()
      modifies this`schedule
      ensures schedule == Replay(old(schedule), scheduleTable)
    {
      var rows := scheduleTable;
      for i := 0 to |rows|
        invariant schedule == Replay(old(schedule), rows[..i])
      {
        var (day, className) := rows[i];
        if day in schedule.lists {
          schedule := Schedule(schedule.order, schedule.lists[day := schedule.lists[day] + [className]]);
        } else {
          schedule := Schedule(schedule.order + [day], schedule.lists[day := [className]]);
        }
        assert rows[..i + 1][..i] == rows[..i];
      }
      assert rows[..|rows|] == rows;
    }

    /** The second loop of load_data: each absence row overwrites the
        class's counter. */
    method LoadAbsences()
      modifies this`absences
      ensures absences == Counters.Replay(old(absences), absencesTable)
    {
      var rows := absencesTable;
      for i := 0 to |rows|
        invariant absences == Counters.Replay(old(absences), rows[..i])
      {
        var (className, count) := rows[i];
        absences := absences[className := count];
        assert rows[..i + 1][..i] == rows[..i];
      }
      assert rows[..|rows|] == rows;
    }

    /** The third loop of load_data: each cancellation row overwrites the
        class's counter. */
    method LoadCancelled()
      modifies this`cancelled
      ensures cancelled == Counters.Replay(old(cancelled), cancelledTable)
    {
      var rows := cancelledTable;
      for i := 0 to |rows|
        invariant cancelled == Counters.Replay(old(cancelled), rows[..i])
      {
        var (className, count) := rows[i];
        cancelled := cancelled[className := count];
        assert rows[..i + 1][..i] == rows[..i];
      }
      assert rows[..|rows|] == rows;
    }

    /** add_class: appends the class to the day's list (creating the day),
        sets its absence counter to 0 and inserts the (day, class) row. */
    method AddClass(day: Day, className: ClassName)
      requires Synced()
      modifies this
      ensures Synced()
      ensures old(Valid()) ==> Valid()
      ensures schedule == Add(old(schedule), day, className)
      ensures ListOf(schedule, day) == ListOf(old(schedule), day) + [className]
      ensures forall d :: d != day ==> ListOf(schedule, d) == ListOf(old(schedule), d)
      ensures absences == old(absences)[className := 0]
      ensures cancelled == old(cancelled)
      ensures scheduleTable == old(scheduleTable) + [(day, className)]
      ensures committedSchedule == scheduleTable
      ensures absencesTable == old(absencesTable) && cancelledTable == old(cancelledTable)
    {
      if day in schedule.lists {
        schedule := Schedule(schedule.order, schedule.lists[day := schedule.lists[day] + [className]]);
      } else {
        schedule := Schedule(schedule.order + [day], schedule.lists[day := [className]]);
      }
      absences := absences[className := 0];
      scheduleTable := scheduleTable + [(day, className)];
      committedSchedule := scheduleTable;

      assert scheduleTable[..|scheduleTable| - 1] == old(scheduleTable);
      AddClasses(old(schedule), day, className);
    }

    /** store_absent_classes: each name in turn raises its absence counter
        by one and inserts a row with the new value. */
    method StoreAbsentClasses(absentClasses: seq<ClassName>)
      requires Synced()
      modifies this
      ensures Synced()
      ensures old(Valid()) ==> Valid()
      ensures absences == Counters.BumpAll(old(absences), absentClasses)
      ensures absencesTable == old(absencesTable) + Counters.BumpRows(old(absences), absentClasses)
      ensures old(absences) == Counters.Replay(map[], old(absencesTable)) ==> absences == Counters.Replay(map[], absencesTable)
      ensures schedule == old(schedule) && cancelled == old(cancelled)
      ensures scheduleTable == old(scheduleTable) && cancelledTable == old(cancelledTable)
      ensures committedSchedule == scheduleTable
    {
      absences, absencesTable := Counters.Increment(absences, absencesTable, absentClasses);
      committedSchedule := scheduleTable;
      AbsenceTableAfterStore(old(absences), old(absencesTable), schedule, absentClasses);
      Counters.ReloadAfterStore(old(absencesTable), absentClasses);
    }

    /** store_cancelled_classes: the same loop over the cancellation
        counters and the cancelled_classes table. */
    method StoreCancelledClasses(cancelledClasses: seq<ClassName>)
      requires Synced()
      modifies this
      ensures Synced()
      ensures old(Valid()) ==> Valid()
      ensures cancelled == Counters.BumpAll(old(cancelled), cancelledClasses)
      ensures cancelledTable == old(cancelledTable) + Counters.BumpRows(old(cancelled), cancelledClasses)
      ensures old(cancelled) == Counters.Replay(map[], old(cancelledTable)) ==> cancelled == Counters.Replay(map[], cancelledTable)
      ensures schedule == old(schedule) && absences == old(absences)
      ensures scheduleTable == old(scheduleTable) && absencesTable == old(absencesTable)
      ensures committedSchedule == scheduleTable
    {
      cancelled, cancelledTable := Counters.Increment(cancelled, cancelledTable, cancelledClasses);
      committedSchedule := scheduleTable;
      Counters.ReloadAfterStore(old(cancelledTable), cancelledClasses);
    }

    /** reset_data as written, on a database this program created: once
        confirmed, the three dictionaries are emptied and the schedule rows
        are deleted, but the next statement deletes from the `attendance`
        table, which is never created, and raises. The absence and
        cancellation rows are never deleted and nothing is committed, so
        the schedule delete stays pending until the next commit. */
    method ResetData(confirm: bool) returns (raised: bool)
      requires Synced()
      modifies this
      ensures Synced()
      ensures raised == confirm
      ensures confirm ==> schedule == Empty && absences == map[] && cancelled == map[]
      ensures confirm ==> scheduleTable == []
      ensures !confirm ==> schedule == old(schedule) && absences == old(absences) && cancelled == old(cancelled)
      ensures !confirm ==> scheduleTable == old(scheduleTable)
      ensures committedSchedule == old(committedSchedule)
      ensures absencesTable == old(absencesTable) && cancelledTable == old(cancelledTable)
      ensures confirm ==> forall d :: ListOf(schedule, d) == []
      ensures confirm ==> Attendance.AttendanceOf(schedule, absences, cancelled) == map[]
      ensures confirm ==> Attendance.ExportOf(schedule, absences, cancelled) == []
    {
      raised := false;
      if confirm {
        schedule := Empty;
        absences := map[];
        cancelled := map[];
        scheduleTable := [];
        raised := true;
      }
    }

    /** reset_data as evidently intended: once confirmed, the dictionaries
        and all three tables are emptied and the deletes are committed. */
    method ResetDataIntended(confirm: bool)
      requires Synced()
      modifies this
      ensures Synced()
      ensures confirm ==> Valid()
      ensures !confirm ==> old(Valid()) ==> Valid()
      ensures confirm ==> schedule == Empty && absences == map[] && cancelled == map[]
      ensures confirm ==> scheduleTable == [] && committedSchedule == [] && absencesTable == [] && cancelledTable == []
      ensures !confirm ==> schedule == old(schedule) && absences == old(absences) && cancelled == old(cancelled)
      ensures !confirm ==> scheduleTable == old(scheduleTable) && committedSchedule == old(committedSchedule)
      ensures !confirm ==> absencesTable == old(absencesTable) && cancelledTable == old(cancelledTable)
      ensures confirm ==> forall d :: ListOf(schedule, d) == []
      ensures confirm ==> Attendance.AttendanceOf(schedule, absences, cancelled) == map[]
      ensures confirm ==> Attendance.ExportOf(schedule, absences, cancelled) == []
    {
      if confirm {
        schedule := Empty;
        absences := map[];
        cancelled := map[];
        scheduleTable := [];
        absencesTable := [];
        cancelledTable := [];
        committedSchedule := [];
      }
    }

    /** The lookup of today's classes in show_today_classes,
        mark_absent_classes and mark_cancelled_class: the classes
        registered for that weekday, in insertion order, or none. */
    method TodayClasses(today: Day) returns (classes: seq<ClassName>)
      requires Synced()
      ensures classes == ListOf(schedule, today)
      ensures classes == RowsFor(scheduleTable, today)
      ensures today !in schedule.lists ==> classes == []
    {
      classes := if today in schedule.lists then schedule.lists[today] else [];
      ReplayLists(Empty, scheduleTable, today);
    }

    /** mark_absent_classes: one "did you attend" answer per class of the
        day; the classes answered no are recorded as absent. */
    method MarkAbsentClasses(today: Day, attended: seq<bool>)
      requires Synced()
      requires |attended| == |ListOf(schedule, today)|
      modifies this
      ensures Synced()
      ensures old(Valid()) ==> Valid()
      ensures var absent := Chosen(ListOf(old(schedule), today), attended, false);
              && absences == Counters.BumpAll(old(absences), absent)
              && absencesTable == old(absencesTable) + Counters.BumpRows(old(absences), absent)
              && committedSchedule == if absent == [] then old(committedSchedule) else scheduleTable
      ensures schedule == old(schedule) && cancelled == old(cancelled)
      ensures scheduleTable == old(scheduleTable) && cancelledTable == old(cancelledTable)
    {
      var classes := if today in schedule.lists then schedule.lists[today] else [];
      var absentClasses := Select(classes, attended, false);
      if absentClasses != [] {
        StoreAbsentClasses(absentClasses);
      }
    }

    /** mark_cancelled_class: one "is it cancelled" answer per class of the
        day; the classes answered yes are recorded as cancelled. */
    method MarkCancelledClass(today: Day, cancelledAnswers: seq<bool>)
      requires Synced()
      requires |cancelledAnswers| == |ListOf(schedule, today)|
      modifies this
      ensures Synced()
      ensures old(Valid()) ==> Valid()
      ensures var chosen := Chosen(ListOf(old(schedule), today), cancelledAnswers, true);
              && cancelled == Counters.BumpAll(old(cancelled), chosen)
              && cancelledTable == old(cancelledTable) + Counters.BumpRows(old(cancelled), chosen)
              && committedSchedule == if chosen == [] then old(committedSchedule) else scheduleTable
      ensures schedule == old(schedule) && absences == old(absences)
      ensures scheduleTable == old(scheduleTable) && absencesTable == old(absencesTable)
    {
      var classes := if today in schedule.lists then schedule.lists[today] else [];
      var cancelledClasses := Select(classes, cancelledAnswers, true);
      if cancelledClasses != [] {
        StoreCancelledClasses(cancelledClasses);
      }
    }

    /** calculate_attendance: for every day in insertion order and every
        class of its list, the percentage with that day's list length as
        total; a later day overwrites the entry of an earlier one. */
    method CalculateAttendance() returns (percentages: map<ClassName, real>)
      requires WellFormed(schedule)
      ensures percentages == Attendance.AttendanceOf(schedule, absences, cancelled)
      ensures percentages.Keys == Classes(schedule)
    {
      var s, abs, can := schedule, absences, cancelled;
      assert WellFormed(s);
      percentages := map[];
      var k := 0;
      while k < |s.order|
        invariant 0 <= k <= |s.order|
        invariant percentages == Attendance.AttendanceUpTo(s, abs, can, k)
      {
        var day := s.order[k];
        var classNames := s.lists[day];
        ghost var before := percentages;
        var j := 0;
        while j < |classNames|
          invariant 0 <= j <= |classNames|
          invariant percentages == Attendance.Overwrite(before, classNames, j, abs, can)
        {
          var className := classNames[j];
          var totalClasses := |classNames|;
          var attendedClasses := totalClasses - Counters.Get(abs, className);
          var cancelledCount := Counters.Get(can, className);
          attendedClasses := attendedClasses - cancelledCount;
          var percentage := Attendance.Percentage(attendedClasses, totalClasses);
          assert attendedClasses == |classNames| - Counters.Get(abs, className) - Counters.Get(can, className);
          Attendance.OverwriteStep(before, classNames, j, abs, can);
          percentages := percentages[className := percentage];
          j := j + 1;
        }
        k := k + 1;
      }
      Attendance.AttendanceKeys(s, abs, can);
    }

    /** The rows generate_updated_attendance_csv writes below its header:
        one per (day, class) occurrence, in schedule and list order. */
    method GenerateUpdatedAttendanceCsv() returns (rows: seq<Attendance.CsvRow>)
      requires WellFormed(schedule)
      ensures rows == Attendance.ExportOf(schedule, absences, cancelled)
      ensures |rows| == Attendance.Occurrences(schedule, |schedule.order|)
    {
      var s, abs, can := schedule, absences, cancelled;
      assert WellFormed(s);
      rows := [];
      var k := 0;
      while k < |s.order|
        invariant 0 <= k <= |s.order|
        invariant rows == Attendance.ExportUpTo(s, abs, can, k)
      {
        var day := s.order[k];
        var classNames := s.lists[day];
        ghost var before := rows;
        var j := 0;
        while j < |classNames|
          invariant 0 <= j <= |classNames|
          invariant rows == before + Attendance.DayRows(day, classNames, abs, can)[..j]
        {
          var className := classNames[j];
          var totalClasses := |classNames|;
          var attendedClasses := totalClasses - Counters.Get(abs, className);
          var cancelledCount := Counters.Get(can, className);
          attendedClasses := attendedClasses - cancelledCount;
          var percentage := Attendance.Percentage(attendedClasses, totalClasses);
          assert attendedClasses == |classNames| - Counters.Get(abs, className) - Counters.Get(can, className);
          Attendance.DayRowsStep(day, classNames, abs, can, j);
          rows := rows + [Attendance.CsvRow(day, className, percentage)];
          j := j + 1;
        }
        assert Attendance.DayRows(day, classNames, abs, can)[..j] == Attendance.DayRows(day, classNames, abs, can);
        k := k + 1;
      }
      Attendance.ExportLength(s, abs, can, |s.order|);
    }
  }

  /** Restarting the application: a new tracker loads the committed
      tables of the old one. From a valid tracker it gets back the schedule
      and cancellation counters exactly, and the absence counters up to
      add_class's resets. */
  method Restart(t: AttendanceTracker) returns (u: AttendanceTracker)
    ensures fresh(u) && u.Valid()
    ensures u.schedule == Replay(Empty, t.committedSchedule)
    ensures u.absences == Counters.Replay(map[], t.absencesTable)
    ensures u.cancelled == Counters.Replay(map[], t.cancelledTable)
    ensures t.Valid() ==> u.schedule == t.schedule && u.cancelled == t.cancelled
    ensures t.Valid() ==> AbsencesMatchLog(t.absences, u.absences, t.schedule)
  {
    u := new AttendanceTracker(t.committedSchedule, t.absencesTable, t.cancelledTable);
  }

  /** add_class after a recorded absence: memory holds 0 for the class, but
      the absences table still holds the row with 1, so a restart brings
      back 1. */
  method AddClassAfterAbsence() returns (inMemory: int, afterRestart: int)
    ensures inMemory == 0 && afterRestart == 1
  {
    var t := new AttendanceTracker([], [], []);
    Counters.MarkOnce(map[], "Math");
    t.StoreAbsentClasses(["Math"]);
    assert t.absencesTable == [("Math", 1)];
    t.AddClass("Monday", "Math");
    var u := Restart(t);
    assert t.absencesTable[..0] == [];
    assert u.absences == map["Math" := 1];
    inMemory := t.absences["Math"];
    afterRestart := Counters.Get(u.absences, "Math");
  }

  /** reset_data as written, then a restart: the absence row survives the
      reset, and so does the schedule row, whose delete was never
      committed. */
  method ResetThenRestart() returns (inMemory: int, afterRestart: int, mondayAfterRestart: seq<ClassName>)
    ensures inMemory == 0 && afterRestart == 1 && mondayAfterRestart == ["Math"]
  {
    var t := new AttendanceTracker([], [], []);
    t.AddClass("Monday", "Math");
    assert t.committedSchedule == [("Monday", "Math")];
    Counters.MarkOnce(t.absences, "Math");
    t.StoreAbsentClasses(["Math"]);
    assert t.absencesTable == [("Math", 1)];
    var raised := t.ResetData(true);
    var u := Restart(t);
    assert t.absencesTable[..0] == [];
    assert u.absences == map["Math" := 1];
    assert t.committedSchedule[..0] == [];
    assert u.schedule == Add(Empty, "Monday", "Math");
    inMemory := Counters.Get(t.absences, "Math");
    afterRestart := Counters.Get(u.absences, "Math");
    mondayAfterRestart := ListOf(u.schedule, "Monday");
  }

  /** The intended reset, then a restart: nothing comes back. */
  method IntendedResetThenRestart() returns (afterRestart: int, mondayAfterRestart: seq<ClassName>)
    ensures afterRestart == 0 && mondayAfterRestart == []
  {
    var t := new AttendanceTracker([], [], []);
    t.AddClass("Monday", "Math");
    t.StoreAbsentClasses(["Math"]);
    t.ResetDataIntended(true);
    var u := Restart(t);
    afterRestart := Counters.Get(u.absences, "Math");
    mondayAfterRestart := ListOf(u.schedule, "Monday");
  }

  /** A fresh tracker after Math and Science are added to Monday and Math
      is marked absent once. */
  method MondayTracker() returns (t: AttendanceTracker)
    ensures fresh(t) && t.Valid()
    ensures t.schedule.order == ["Monday"] && ListOf(t.schedule, "Monday") == ["Math", "Science"]
    ensures Counters.Get(t.absences, "Math") == 1 && Counters.Get(t.absences, "Science") == 0
    ensures t.cancelled == map[]
  {
    t := new AttendanceTracker([], [], []);
    t.AddClass("Monday", "Math");
    t.AddClass("Monday", "Science");
    Counters.MarkOnce(t.absences, "Math");
    t.StoreAbsentClasses(["Math"]);
  }

  /** Monday holds Math and Science and Math was missed once: Math is at
      50 percent and Science at 100. */
  method MondayExample() returns (math: real, science: real)
    ensures math == 50.0 && science == 100.0
  {
    var t := MondayTracker();
    var percentages := t.CalculateAttendance();
    MondayFigures(t.schedule, t.absences, t.cancelled);
    math := percentages["Math"];
    science := percentages["Science"];
  }

  /** The figures of the Monday example, on the query function alone. */
  lemma MondayFigures(s: Schedule, absences: Counters.Counter, cancelled: Counters.Counter)
    requires s.order == ["Monday"] && ListOf(s, "Monday") == ["Math", "Science"]
    requires Counters.Get(absences, "Math") == 1 && Counters.Get(absences, "Science") == 0
    requires cancelled == map[]
    ensures var p := Attendance.AttendanceOf(s, absences, cancelled);
            "Math" in p && "Science" in p && p["Math"] == 50.0 && p["Science"] == 100.0
  {
    Attendance.AttendanceLastDay(s, absences, cancelled, 0, "Math");
    Attendance.AttendanceLastDay(s, absences, cancelled, 0, "Science");
  }
}
