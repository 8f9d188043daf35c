/** The two queries over the store: the per-class attendance percentages of
    calculate_attendance and the per-(day, class) rows of the CSV export.
    Percentages are exact: `round(…, 2)` and floating point are not modelled. */
module Attendance {
  import opened Schedules
  import Counters

  /** attended / total * 100, or 0 when the day has no classes. */
  function Percentage(attended: int, total: int): real {
    if total > 0 then (attended as real / total as real) * 100.0 else 0.0
  }

  /** The percentage times the total is 100 times the attended count; with
      no classes it is 0. */
  lemma PercentageScaled(attended: int, total: int)
    ensures total > 0 ==> Percentage(attended, total) * (total as real) == (attended as real) * 100.0
    ensures total <= 0 ==> Percentage(attended, total) == 0.0
  {
    if total > 0 {
      var t := total as real;
      var q := attended as real / t;
      assert q * t == attended as real;
      calc {
        Percentage(attended, total) * t;
        == (q * 100.0) * t;
        == (q * t) * 100.0;
      }
    }
  }

  /** 100 exactly when every class of the day was attended, negative exactly
      when absences and cancellations exceed the day's class count (the value
      is not clamped), and otherwise between 0 and 100. */
  lemma PercentageRange(attended: int, total: int)
    requires total > 0
    ensures Percentage(attended, total) == 100.0 <==> attended == total
    ensures Percentage(attended, total) < 0.0 <==> attended < 0
    ensures 0 <= attended <= total ==> 0.0 <= Percentage(attended, total) <= 100.0
  {
    var r := Percentage(attended, total);
    var t := total as real;
    PercentageScaled(attended, total);
    assert r * t == (attended as real) * 100.0;
    if r == 100.0 {
      assert 100.0 * t == (attended as real) * 100.0;
    }
    if r < 0.0 {
      assert r * t < 0.0;
    }
    if attended < 0 {
      assert r * t < 0.0;
    }
    if 0 <= attended <= total {
      assert r * t <= 100.0 * t;
    }
  }

  /** One more absence lowers a row's percentage by 100 / total. */
  lemma PercentageOneLess(attended: int, total: int)
    requires total > 0
    ensures Percentage(attended - 1, total) == Percentage(attended, total) - 100.0 / (total as real)
  {
  }

  /** The percentage reported for class `c` on a day whose list is `list`:
      the day's list length is the total, and the class's absences and
      cancellations (counted over all days) are subtracted from it. */
  function ClassPercentage(list: seq<ClassName>, c: ClassName, absences: Counters.Counter, cancelled: Counters.Counter): real {
    Percentage(|list| - Counters.Get(absences, c) - Counters.Get(cancelled, c), |list|)
  }

  /** The result mapping after the first `j` classes of a day's list have
      been processed on top of `acc`, each assignment overwriting the class's
      earlier entry. */
  function Overwrite(acc: map<ClassName, real>, list: seq<ClassName>, j: nat, absences: Counters.Counter, cancelled: Counters.Counter): map<ClassName, real>
    requires j <= |list|
  {
    if j == 0 then acc
    else Overwrite(acc, list, j - 1, absences, cancelled)[list[j - 1] := ClassPercentage(list, list[j - 1], absences, cancelled)]
  }

  /** Processing one more class of the list sets its entry. */
  lemma OverwriteStep(acc: map<ClassName, real>, list: seq<ClassName>, j: nat, absences: Counters.Counter, cancelled: Counters.Counter)
    requires j < |list|
    ensures Overwrite(acc, list, j + 1, absences, cancelled) ==
      Overwrite(acc, list, j, absences, cancelled)[list[j] := ClassPercentage(list, list[j], absences, cancelled)]
  {
  }

  /** The classes of the processed part of the list get that day's
      percentage; every other entry of `acc` is kept. */
  lemma {:induction false} OverwriteAt(acc: map<ClassName, real>, list: seq<ClassName>, j: nat, absences: Counters.Counter, cancelled: Counters.Counter, c: ClassName)
    requires j <= |list|
    ensures c in Overwrite(acc, list, j, absences, cancelled) <==> c in acc || c in list[..j]
    ensures c in list[..j] ==> Overwrite(acc, list, j, absences, cancelled)[c] == ClassPercentage(list, c, absences, cancelled)
    ensures c !in list[..j] && c in acc ==> Overwrite(acc, list, j, absences, cancelled)[c] == acc[c]
  {
    if j > 0 {
      OverwriteAt(acc, list, j - 1, absences, cancelled, c);
      assert list[..j] == list[..j - 1] + [list[j - 1]];
    }
  }

  /** The same for a whole day's list. */
  lemma OverwriteDay(acc: map<ClassName, real>, list: seq<ClassName>, absences: Counters.Counter, cancelled: Counters.Counter, c: ClassName)
    ensures c in Overwrite(acc, list, |list|, absences, cancelled) <==> c in acc || c in list
    ensures c in list ==> Overwrite(acc, list, |list|, absences, cancelled)[c] == ClassPercentage(list, c, absences, cancelled)
    ensures c !in list && c in acc ==> Overwrite(acc, list, |list|, absences, cancelled)[c] == acc[c]
  {
    OverwriteAt(acc, list, |list|, absences, cancelled, c);
    assert list[..|list|] == list;
  }

  /** The result mapping after the first `k` days (in insertion order) have
      been processed. */
  function AttendanceUpTo(s: Schedule, absences: Counters.Counter, cancelled: Counters.Counter, k: nat): map<ClassName, real>
    requires k <= |s.order|
  {
    if k == 0 then map[]
    else
      var list := ListOf(s, s.order[k - 1]);
      Overwrite(AttendanceUpTo(s, absences, cancelled, k - 1), list, |list|, absences, cancelled)
  }

  /** The mapping calculate_attendance computes. */
  function AttendanceOf(s: Schedule, absences: Counters.Counter, cancelled: Counters.Counter): map<ClassName, real> {
    AttendanceUpTo(s, absences, cancelled, |s.order|)
  }

  /** The result's keys are exactly the classes of the days processed. */
  lemma {:induction false} AttendanceUpToKeys(s: Schedule, absences: Counters.Counter, cancelled: Counters.Counter, k: nat, c: ClassName)
    requires k <= |s.order|
    ensures c in AttendanceUpTo(s, absences, cancelled, k) <==> exists i :: 0 <= i < k && c in ListOf(s, s.order[i])
  {
    if k > 0 {
      AttendanceUpToKeys(s, absences, cancelled, k - 1, c);
      OverwriteDay(AttendanceUpTo(s, absences, cancelled, k - 1), ListOf(s, s.order[k - 1]), absences, cancelled, c);
    }
  }

  /** calculate_attendance has one entry per class scheduled on any day. */
  lemma AttendanceKeys(s: Schedule, absences: Counters.Counter, cancelled: Counters.Counter)
    requires WellFormed(s)
    ensures AttendanceOf(s, absences, cancelled).Keys == Classes(s)
  {
    forall c | c in AttendanceOf(s, absences, cancelled)
      ensures c in Classes(s)
    {
      AttendanceUpToKeys(s, absences, cancelled, |s.order|, c);
      var i :| 0 <= i < |s.order| && c in ListOf(s, s.order[i]);
      assert s.order[i] in s.lists;
    }
    forall c | c in Classes(s)
      ensures c in AttendanceOf(s, absences, cancelled)
    {
      var d :| d in s.lists && c in s.lists[d];
      var i :| 0 <= i < |s.order| && s.order[i] == d;
      assert c in ListOf(s, s.order[i]);
      AttendanceUpToKeys(s, absences, cancelled, |s.order|, c);
    }
  }

  /** The last day (in insertion order) whose list contains `c` decides the
      entry for `c`: its list length is the total. */
  lemma {:induction false} AttendanceUpToLastDay(s: Schedule, absences: Counters.Counter, cancelled: Counters.Counter, k: nat, i: nat, c: ClassName)
    requires i < k <= |s.order|
    requires c in ListOf(s, s.order[i])
    requires forall j :: i < j < k ==> c !in ListOf(s, s.order[j])
    ensures c in AttendanceUpTo(s, absences, cancelled, k)
    ensures AttendanceUpTo(s, absences, cancelled, k)[c] == ClassPercentage(ListOf(s, s.order[i]), c, absences, cancelled)
  {
    var day := ListOf(s, s.order[k - 1]);
    OverwriteDay(AttendanceUpTo(s, absences, cancelled, k - 1), day, absences, cancelled, c);
    if i < k - 1 {
      AttendanceUpToLastDay(s, absences, cancelled, k - 1, i, c);
    }
  }

  lemma AttendanceLastDay(s: Schedule, absences: Counters.Counter, cancelled: Counters.Counter, i: nat, c: ClassName)
    requires i < |s.order|
    requires c in ListOf(s, s.order[i])
    requires forall j :: i < j < |s.order| ==> c !in ListOf(s, s.order[j])
    ensures c in AttendanceOf(s, absences, cancelled)
    ensures AttendanceOf(s, absences, cancelled)[c] ==
      Percentage(|ListOf(s, s.order[i])| - Counters.Get(absences, c) - Counters.Get(cancelled, c), |ListOf(s, s.order[i])|)
  {
    AttendanceUpToLastDay(s, absences, cancelled, |s.order|, i, c);
  }

  /** With no absences and no cancellations for any scheduled class, every
      class is at 100 percent. */
  lemma {:induction false} FullAttendanceUpTo(s: Schedule, absences: Counters.Counter, cancelled: Counters.Counter, k: nat)
    requires k <= |s.order|
    requires forall i, c :: 0 <= i < k && c in ListOf(s, s.order[i]) ==>
      Counters.Get(absences, c) == 0 && Counters.Get(cancelled, c) == 0
    ensures forall c :: c in AttendanceUpTo(s, absences, cancelled, k) ==> AttendanceUpTo(s, absences, cancelled, k)[c] == 100.0
  {
    if k > 0 {
      FullAttendanceUpTo(s, absences, cancelled, k - 1);
      var day := ListOf(s, s.order[k - 1]);
      forall c | c in AttendanceUpTo(s, absences, cancelled, k)
        ensures AttendanceUpTo(s, absences, cancelled, k)[c] == 100.0
      {
        OverwriteDay(AttendanceUpTo(s, absences, cancelled, k - 1), day, absences, cancelled, c);
        if c in day {
          PercentageRange(|day|, |day|);
        }
      }
    }
  }

  lemma FullAttendance(s: Schedule, absences: Counters.Counter, cancelled: Counters.Counter)
    requires forall c :: c in Classes(s) ==> Counters.Get(absences, c) == 0 && Counters.Get(cancelled, c) == 0
    ensures forall c :: c in AttendanceOf(s, absences, cancelled) ==> AttendanceOf(s, absences, cancelled)[c] == 100.0
  {
    forall i, c | 0 <= i < |s.order| && c in ListOf(s, s.order[i])
      ensures Counters.Get(absences, c) == 0 && Counters.Get(cancelled, c) == 0
    {
      assert c in s.lists[s.order[i]];
    }
    FullAttendanceUpTo(s, absences, cancelled, |s.order|);
  }

  /** One row of the CSV export. */
  datatype CsvRow = CsvRow(day: Day, className: ClassName, percentage: real)

  /** The header row of the CSV export. */
  const CsvHeader: seq<string> := ["Day", "Class", "Attendance Percentage"]

  /** The rows one day contributes: one per entry of its list, in order. */
  function DayRows(day: Day, list: seq<ClassName>, absences: Counters.Counter, cancelled: Counters.Counter): seq<CsvRow> {
    seq(|list|, j requires 0 <= j < |list| => CsvRow(day, list[j], ClassPercentage(list, list[j], absences, cancelled)))
  }

  /** The data rows written for the first `k` days. */
  function ExportUpTo(s: Schedule, absences: Counters.Counter, cancelled: Counters.Counter, k: nat): seq<CsvRow>
    requires k <= |s.order|
  {
    if k == 0 then []
    else ExportUpTo(s, absences, cancelled, k - 1) + DayRows(s.order[k - 1], ListOf(s, s.order[k - 1]), absences, cancelled)
  }

  /** The data rows generate_updated_attendance_csv writes. */
  function ExportOf(s: Schedule, absences: Counters.Counter, cancelled: Counters.Counter): seq<CsvRow> {
    ExportUpTo(s, absences, cancelled, |s.order|)
  }

  /** The total length of the class lists of the first `k` days. */
  function Occurrences(s: Schedule, k: nat): nat
    requires k <= |s.order|
  {
    if k == 0 then 0 else Occurrences(s, k - 1) + |ListOf(s, s.order[k - 1])|
  }

  lemma {:induction false} OccurrencesMonotone(s: Schedule, i: nat, k: nat)
    requires i < k <= |s.order|
    ensures Occurrences(s, i) + |ListOf(s, s.order[i])| <= Occurrences(s, k)
    decreases k
  {
    if i < k - 1 {
      OccurrencesMonotone(s, i, k - 1);
    }
  }

  /** The export has one row per (day, class) occurrence. */
  lemma {:induction false} ExportLength(s: Schedule, absences: Counters.Counter, cancelled: Counters.Counter, k: nat)
    requires k <= |s.order|
    ensures |ExportUpTo(s, absences, cancelled, k)| == Occurrences(s, k)
  {
    if k > 0 {
      ExportLength(s, absences, cancelled, k - 1);
    }
  }

  /** The `j`-th row of a day is its `j`-th class with that day's total. */
  lemma DayRowAt(day: Day, list: seq<ClassName>, absences: Counters.Counter, cancelled: Counters.Counter, j: nat)
    requires j < |list|
    ensures |DayRows(day, list, absences, cancelled)| == |list|
    ensures DayRows(day, list, absences, cancelled)[j] == CsvRow(day, list[j], ClassPercentage(list, list[j], absences, cancelled))
  {
  }

  /** Writing the rows of a day one class at a time. */
  lemma DayRowsStep(day: Day, list: seq<ClassName>, absences: Counters.Counter, cancelled: Counters.Counter, j: nat)
    requires j < |list|
    ensures DayRows(day, list, absences, cancelled)[..j + 1] == DayRows(day, list, absences, cancelled)[..j] +
      [CsvRow(day, list[j], ClassPercentage(list, list[j], absences, cancelled))]
  {
    DayRowAt(day, list, absences, cancelled, j);
  }

  /** The row for the `j`-th class of the `i`-th day comes after all rows of
      earlier days, and takes that day's list length as its total. */
  lemma {:induction false} ExportRowAt(s: Schedule, absences: Counters.Counter, cancelled: Counters.Counter, k: nat, i: nat, j: nat)
    requires i < k <= |s.order|
    requires j < |ListOf(s, s.order[i])|
    ensures Occurrences(s, i) + j < |ExportUpTo(s, absences, cancelled, k)|
    ensures ExportUpTo(s, absences, cancelled, k)[Occurrences(s, i) + j] ==
      CsvRow(s.order[i], ListOf(s, s.order[i])[j], ClassPercentage(ListOf(s, s.order[i]), ListOf(s, s.order[i])[j], absences, cancelled))
  {
    var list := ListOf(s, s.order[i]);
    var row := CsvRow(s.order[i], list[j], ClassPercentage(list, list[j], absences, cancelled));
    var x := Occurrences(s, i) + j;
    var prefix := ExportUpTo(s, absences, cancelled, k - 1);
    var last := DayRows(s.order[k - 1], ListOf(s, s.order[k - 1]), absences, cancelled);
    ExportLength(s, absences, cancelled, k - 1);
    if i < k - 1 {
      ExportRowAt(s, absences, cancelled, k - 1, i, j);
      OccurrencesMonotone(s, i, k - 1);
      assert x < |prefix| && prefix[x] == row;
      assert (prefix + last)[x] == prefix[x];
    } else {
      DayRowAt(s.order[i], list, absences, cancelled, j);
      assert last[j] == row;
      assert (prefix + last)[|prefix| + j] == last[j];
    }
  }

  /** One more absence for `c` lowers its percentage on any day by one
      attended class. */
  lemma ClassPercentageAfterAbsence(list: seq<ClassName>, c: ClassName, absences: Counters.Counter, cancelled: Counters.Counter)
    requires list != []
    ensures ClassPercentage(list, c, Counters.BumpAll(absences, [c]), cancelled) ==
      ClassPercentage(list, c, absences, cancelled) - 100.0 / (|list| as real)
  {
    Counters.BumpAllCounts(absences, [c], c);
    assert Counters.Count([c], c) == 1;
    PercentageOneLess(|list| - Counters.Get(absences, c) - Counters.Get(cancelled, c), |list|);
  }

  /** Recording one more absence for `c` lowers EVERY export row of `c`, on
      whatever day, by one attended class: by 100 / (that day's list length). */
  lemma AbsenceLowersEveryRow(s: Schedule, absences: Counters.Counter, cancelled: Counters.Counter, c: ClassName, i: nat, j: nat)
    requires i < |s.order|
    requires j < |ListOf(s, s.order[i])| && ListOf(s, s.order[i])[j] == c
    ensures var before := ExportOf(s, absences, cancelled);
            var after := ExportOf(s, Counters.BumpAll(absences, [c]), cancelled);
            && Occurrences(s, i) + j < |before| == |after|
            && after[Occurrences(s, i) + j].percentage ==
               before[Occurrences(s, i) + j].percentage - 100.0 / (|ListOf(s, s.order[i])| as real)
  {
    var bumped := Counters.BumpAll(absences, [c]);
    ExportLength(s, absences, cancelled, |s.order|);
    ExportLength(s, bumped, cancelled, |s.order|);
    ExportRowAt(s, absences, cancelled, |s.order|, i, j);
    ExportRowAt(s, bumped, cancelled, |s.order|, i, j);
    ClassPercentageAfterAbsence(ListOf(s, s.order[i]), c, absences, cancelled);
  }

  /** An empty schedule (after reset) gives an empty mapping and no rows. */
  lemma EmptyQueries(absences: Counters.Counter, cancelled: Counters.Counter)
    ensures AttendanceOf(Empty, absences, cancelled) == map[]
    ensures ExportOf(Empty, absences, cancelled) == []
  {
  }
}
