# Attendance tracker store, in Dafny

A model of the attendance store inside the `AttendanceTracker` class of a
small desktop attendance tracker. The store keeps three dictionaries:

- the weekly schedule, mapping a weekday to the ordered list of class names
  taught that day;
- the absence counters, mapping a class name to its number of absences;
- the cancellation counters, mapping a class name to its number of
  cancellations.

Every change is mirrored into a database table. At start-up the three
dictionaries are rebuilt from those tables. Two queries read the store:

- the attendance percentage of every class;
- the rows of the attendance CSV export.

Both queries use the same formula:
(day-list length − absences − cancellations) / day-list length × 100.

The project has four modules:

- `Schedules` (schedules.dfy) is the schedule. A Python dictionary iterates
  in insertion order, so a schedule is a map from day to class list together
  with the sequence of days in insertion order. The module has the append
  step of `add_class` and the replay of schedule rows.
- `Counters` (counters.dfy) holds the counter dictionaries and the
  increment loop of `store_absent_classes` and `store_cancelled_classes`.
  It also has the rows that loop inserts and the last-row-wins replay of
  those rows.
- `Attendance` (attendance.dfy) holds the percentage formula and the two
  queries, as functions with their properties proved.
- `Tracker` (tracker.dfy) is the class `AttendanceTracker`. Its fields are
  the three dictionaries and the three tables. Each table is an append-only
  sequence of rows, because the source only ever inserts rows and deletes
  all of them. The schedule table is kept twice: as this connection sees
  it, and as last committed, which is what a restart loads. Its methods
  have the loops of the source. Two predicates describe the state:
  - `Synced` holds always: the schedule is the replay of the schedule
    table as the connection sees it;
  - `Valid` is write-through. No schedule change is pending. Reloading the
    committed tables gives back the schedule and the cancellation counters
    exactly. It gives back the absence counters except for classes whose
    counter `add_class` reset to 0 without writing a row. A new tracker has
    `Valid`, and every mutation keeps it except `reset_data` as written.

`AddClassAfterAbsence` shows the add_class exception on a concrete sequence
of calls, proved: memory holds 0 but a restart brings back 1.

`reset_data` as written does not reset the tables (see "## Findings").
`ResetData` models it as written and `ResetDataIntended` as intended.

## Model

| member | source | states |
|---|---|---|
| Schedules.Add | AttendanceTracker.py:281-284 | the day's list gains the class at its end, or the day is created with a one-element list; every other day's list is unchanged; a new day goes last in the iteration order; the schedule stays well formed; duplicates are kept |
| Schedules.AddClasses | AttendanceTracker.py:281-284 | after adding a class, the scheduled class names are the old ones plus that class |
| Schedules.Replay | AttendanceTracker.py:254-259 | definition, no contract: the loading loop, adding each row to the end of its day's list; its properties are stated by ReplayLists and ReplayWellFormed |
| Schedules.ReplayLists | AttendanceTracker.py:251-258 | replaying schedule rows makes each day's list its old content followed by exactly that day's rows, in row order |
| Schedules.ReplayWellFormed | AttendanceTracker.py:251-258 | replaying rows onto a well-formed schedule gives a well-formed schedule |
| Counters.Get | AttendanceTracker.py:210-213 | definition, no contract: the lookup with 0 for a missing class |
| Counters.BumpAll | AttendanceTracker.py:298-302 | definition, no contract: the counters after the increment loop; stated by BumpAllCounts and MarkStep |
| Counters.BumpRows | AttendanceTracker.py:298-305 | definition, no contract: the rows the loop inserts, one per name with its new count; stated by BumpRowsLength, BumpRowAt and BumpRowsShape |
| Counters.Replay | AttendanceTracker.py:264-273 | definition, no contract: the loading loop, each row overwriting its class's counter; stated by ReplayAppend, ReplayUntouched and ReplayLastRow |
| Counters.Increment | AttendanceTracker.py:298-305 | the increment loop leaves exactly the bumped counters and appends exactly the rows of the call, one per name with its new count |
| Counters.BumpAllCounts | AttendanceTracker.py:297-302 | marking raises each class's counter by the number of times it was marked, counting from 0 for unseen names; the keys become the old keys plus the marked names |
| Counters.MarkStep | AttendanceTracker.py:297-305 | one loop iteration raises the name's counter by one and appends one row carrying the new value |
| Counters.MarkOnce | AttendanceTracker.py:297-305 | marking one class raises it by one and writes the single row (class, new value) |
| Counters.MarkedTwice | AttendanceTracker.py:295-306 | two calls each marking the same class raise its counter by exactly 2 |
| Counters.BumpRowsLength | AttendanceTracker.py:303-305 | a call writes one row per marked name |
| Counters.BumpRowAt | AttendanceTracker.py:303-305 | row i holds the i-th marked name and its prior count plus its occurrences up to position i |
| Counters.BumpRowsShape | AttendanceTracker.py:295-306 | the same statement for every row of the call at once |
| Counters.ReplayAppend | AttendanceTracker.py:261-266 | replaying two row blocks in sequence equals replaying their concatenation |
| Counters.ReplayUntouched | AttendanceTracker.py:261-266 | a class that no row names keeps its value under replay |
| Counters.ReplayLastRow | AttendanceTracker.py:261-273 | last row wins: replay leaves each class at the value of the last row naming it |
| Counters.ReplayOfBumpRows | AttendanceTracker.py:303-305 | replaying one call's rows sets every marked class to its value after the call and keeps every other class |
| Counters.WriteThrough | AttendanceTracker.py:295-306 | replaying the rows a call inserts, on top of the counters it started from, gives exactly the counters it leaves |
| Counters.ReloadAfterStore | AttendanceTracker.py:311-322 | a table that reloads to the counters in memory still does so after a call appends its rows |
| Counters.ReloadAfterCalls | AttendanceTracker.py:248-273 | reloading the table written by any sequence of marking calls from empty state yields the in-memory counters |
| Attendance.Percentage | AttendanceTracker.py:216 | definition, no contract: attended / total times 100, or 0 with no classes; stated by PercentageScaled, PercentageRange and PercentageOneLess |
| Attendance.ClassPercentage | AttendanceTracker.py:209-216 | definition, no contract: a class's percentage with a given list length, subtracting its absences and cancellations; stated by ClassPercentageAfterAbsence |
| Attendance.PercentageScaled | AttendanceTracker.py:216 | the percentage times the total equals 100 times the attended count; with no classes it is 0 |
| Attendance.PercentageRange | AttendanceTracker.py:209-216 | 100 exactly when attended equals total; negative exactly when attended is negative (no clamping); between 0 and 100 otherwise |
| Attendance.PercentageOneLess | AttendanceTracker.py:209-216 | one fewer attended class lowers the percentage by 100 / total |
| Attendance.Overwrite | AttendanceTracker.py:208-218 | definition, no contract: the inner loop over one day's list; stated by OverwriteStep, OverwriteAt and OverwriteDay |
| Attendance.AttendanceUpTo | AttendanceTracker.py:207-218 | definition, no contract: the outer loop over the first k days; stated by AttendanceUpToKeys, AttendanceUpToLastDay and FullAttendanceUpTo |
| Attendance.AttendanceOf | AttendanceTracker.py:203-218 | definition, no contract: calculate_attendance's dictionary; stated by AttendanceKeys, AttendanceLastDay and FullAttendance |
| Attendance.OverwriteStep | AttendanceTracker.py:208-218 | one inner-loop iteration sets the class's entry to that day's percentage |
| Attendance.OverwriteAt | AttendanceTracker.py:208-218 | processing part of a day's list, entry by entry: listed classes get that day's percentage, other entries are kept |
| Attendance.OverwriteDay | AttendanceTracker.py:208-218 | the same for a day's whole list |
| Attendance.AttendanceUpToKeys | AttendanceTracker.py:207-218 | after the first k days, the result's keys are exactly the classes of those days |
| Attendance.AttendanceKeys | AttendanceTracker.py:203-218 | calculate_attendance has one entry for each class name scheduled on some day, and no other |
| Attendance.AttendanceUpToLastDay | AttendanceTracker.py:207-218 | after the first k days, a class's entry uses the list of the last of those days that contains it |
| Attendance.AttendanceLastDay | AttendanceTracker.py:203-218 | the entry of a class uses the list length of the last day, in iteration order, that contains it, and subtracts its absences and cancellations |
| Attendance.FullAttendanceUpTo | AttendanceTracker.py:207-218 | with no absences and cancellations on the first k days, every entry so far is 100 |
| Attendance.FullAttendance | AttendanceTracker.py:203-218 | with no absences and no cancellations for any scheduled class, every entry is 100 |
| Attendance.CsvHeader | AttendanceTracker.py:330 | definition, no contract: the three column names of the export |
| Attendance.DayRows | AttendanceTracker.py:336-350 | definition, no contract: the rows of one day; stated by DayRowAt and DayRowsStep |
| Attendance.ExportUpTo | AttendanceTracker.py:335-350 | definition, no contract: the rows of the first k days; stated by ExportLength and ExportRowAt |
| Attendance.ExportOf | AttendanceTracker.py:335-350 | definition, no contract: the export's data rows; stated by ExportLength, ExportRowAt and AbsenceLowersEveryRow |
| Attendance.OccurrencesMonotone | AttendanceTracker.py:335-336 | the rows of a day lie within the rows of every longer prefix of days |
| Attendance.ExportLength | AttendanceTracker.py:335-350 | the export has one row per (day, class) occurrence: its length is the sum of the day-list lengths |
| Attendance.DayRowAt | AttendanceTracker.py:336-350 | a day contributes one row per list entry; row j is the j-th class with that day's percentage |
| Attendance.DayRowsStep | AttendanceTracker.py:336-350 | writing a day's rows one class at a time |
| Attendance.ExportRowAt | AttendanceTracker.py:335-350 | the row of the j-th class of the i-th day comes after all earlier days' rows, and uses that day's list length as total |
| Attendance.ClassPercentageAfterAbsence | AttendanceTracker.py:209-216 | one more absence lowers a class's percentage on a given day by 100 / that day's list length |
| Attendance.AbsenceLowersEveryRow | AttendanceTracker.py:335-350 | one more absence for a class lowers every export row of that class, on whatever day, by 100 / that day's list length |
| Attendance.EmptyQueries | AttendanceTracker.py:36-38 | on an empty schedule both queries are empty |
| Tracker.AbsencesMatchLog | AttendanceTracker.py:279-306 | definition, no contract: memory and the reloaded absences agree on every class, except that memory may hold 0 for a scheduled class the table has a row for; kept by AbsencesMatchAfterAdd and AbsencesMatchAfterStore |
| Tracker.AbsencesMatchAfterAdd | AttendanceTracker.py:279-289 | add_class keeps the relation between memory and the absences table: the counter it resets belongs to a scheduled class |
| Tracker.AbsencesMatchAfterStore | AttendanceTracker.py:295-306 | a marking call keeps that relation: each marked class has the same value in memory and in its new row |
| Tracker.AbsenceTableAfterStore | AttendanceTracker.py:295-306 | if memory and the reloaded absences table were related so before a marking call, they are after it, with the call's rows appended |
| Tracker.CountZero | AttendanceTracker.py:297-302 | a name that is not marked is counted 0 times |
| Tracker.Chosen | AttendanceTracker.py:159-163 | definition, no contract: the classes whose answer is the one picked, in list order; stated by ChosenSplit and ChosenKeeps |
| Tracker.ChosenSplit | AttendanceTracker.py:158-163 | each of today's classes lands in exactly one of the two answer lists (asked class, answer yes or no) |
| Tracker.Picked | AttendanceTracker.py:159-163 | definition, no contract: the positions whose answer is the one picked, in increasing order |
| Tracker.ChosenKeeps | AttendanceTracker.py:159-163 | the chosen list has one entry per position answered as picked; its k-th entry is the class at the k-th such position; those positions increase, and every position so answered is among them |
| Tracker.Select | AttendanceTracker.py:159-163 | the prompt loop collects exactly the chosen classes, in list order |
| Tracker.AttendanceTracker.Synced | AttendanceTracker.py:251-259 | definition, no contract: the schedule is well formed and is the replay of the schedule table as the connection sees it |
| Tracker.AttendanceTracker.Valid | AttendanceTracker.py:248-273 | definition, no contract: no schedule change is pending; the committed tables reload to the schedule and cancellations exactly and to the absences up to add_class's resets |
| Tracker.AttendanceTracker.constructor | AttendanceTracker.py:18-27 | a new tracker starts from empty dictionaries and loads the tables: its state is the replay of the rows found, all of them committed, and it is valid |
| Tracker.AttendanceTracker.LoadData | AttendanceTracker.py:248-273 | the dictionaries become the replay of the schedule, absences and cancelled tables onto them; the tables are unchanged |
| Tracker.AttendanceTracker.LoadSchedule | AttendanceTracker.py:251-258 | the schedule becomes the replay of the schedule rows onto it |
| Tracker.AttendanceTracker.LoadAbsences | AttendanceTracker.py:261-266 | the absence counters become the last-row-wins replay of the absence rows onto them |
| Tracker.AttendanceTracker.LoadCancelled | AttendanceTracker.py:268-273 | the cancellation counters become the last-row-wins replay of the cancellation rows onto them |
| Tracker.AttendanceTracker.AddClass | AttendanceTracker.py:279-289 | the class is appended to the day's list, or the day is created; other days are unchanged; the absence counter becomes 0, overwriting any count; the schedule table gains exactly the row (day, class) and is committed, with any pending delete; cancellations and the counter tables are unchanged; Valid is kept |
| Tracker.AttendanceTracker.StoreAbsentClasses | AttendanceTracker.py:295-306 | absences are raised once per occurrence of each name; one (name, new count) row is appended per name, in order; the schedule and cancellations are unchanged; the commit makes any pending schedule delete final; memory that agreed with the table still agrees, and Valid is kept |
| Tracker.AttendanceTracker.StoreCancelledClasses | AttendanceTracker.py:311-322 | the same on the cancellation counters and their table, which reloads to memory afterwards whenever it did before; the commit makes any pending schedule delete final; the schedule and absences are unchanged; Valid is kept |
| Tracker.AttendanceTracker.ResetData | AttendanceTracker.py:33-44 | as written: once confirmed, the three dictionaries and the uncommitted view of the schedule table are empty and the call raises; the committed schedule rows and the absence and cancellation tables are unchanged; every day's list and both queries are empty; unconfirmed, nothing changes |
| Tracker.AttendanceTracker.ResetDataIntended | AttendanceTracker.py:33-44 | as intended: once confirmed, the three dictionaries and all three tables are empty and committed, and Valid holds; unconfirmed, nothing changes and Valid is kept |
| Tracker.AttendanceTracker.TodayClasses | AttendanceTracker.py:139-141 | today's classes are the day's list, or none for an unscheduled day, and equal that day's rows of the schedule table in insertion order |
| Tracker.AttendanceTracker.MarkAbsentClasses | AttendanceTracker.py:154-176 | the classes of today answered "not attended", in list order, are recorded as absences, and only when there is at least one; Valid is kept |
| Tracker.AttendanceTracker.MarkCancelledClass | AttendanceTracker.py:178-201 | the classes of today answered "cancelled", in list order, are recorded as cancellations, and only when there is at least one; Valid is kept |
| Tracker.AttendanceTracker.CalculateAttendance | AttendanceTracker.py:203-218 | the loop's map equals the attendance function, whose keys are exactly the scheduled classes |
| Tracker.AttendanceTracker.GenerateUpdatedAttendanceCsv | AttendanceTracker.py:327-350 | the rows written under the header are the export function's rows, one per (day, class) occurrence |
| Tracker.Restart | AttendanceTracker.py:18-27 | a new tracker over the committed tables is valid and holds their replay; over a valid tracker it gets back the same schedule and cancellations, and absences that match memory except for classes reset by add_class |
| Tracker.AddClassAfterAbsence | AttendanceTracker.py:285-288 | after one absence for Math and then add_class of Math, memory holds 0 while a restart brings back 1 |
| Tracker.ResetThenRestart | AttendanceTracker.py:33-44 | after Monday/Math is added, Math is marked absent once and the reset is confirmed, memory holds 0 absences, a restart brings back 1, and Monday's list comes back as [Math] |
| Tracker.IntendedResetThenRestart | AttendanceTracker.py:33-44 | the same calls with the intended reset: after a restart Math has 0 absences and Monday has no classes |
| Tracker.MondayTracker | AttendanceTracker.py:279-306 | adding Math and Science to Monday and marking Math absent once leaves Monday's list as [Math, Science], Math at 1 absence, Science at 0 |
| Tracker.MondayExample | AttendanceTracker.py:203-218 | in that state Math is at 50 percent and Science at 100 |
| Tracker.MondayFigures | AttendanceTracker.py:203-218 | the same figures, from the attendance function alone |

## Left out

- The Tk user interface (windows, buttons, message boxes) is not modelled. Each yes/no prompt of `mark_absent_classes` and `mark_cancelled_class` becomes one boolean per class of today. The confirmation prompt of `reset_data` becomes the `confirm` parameter.
- The message boxes that display results are not modelled, including the text built by `calculate_attendance`. The recalculation that `mark_cancelled_class` triggers only displays text, so it is left out too.
- Reading the clock for the weekday is not modelled. The weekday is a parameter of `TodayClasses` and of the marking methods.
- The spreadsheet import (`new_user_registration`) and the template export use an external library, so they are left out. Import amounts to repeated `AddClass` calls.
- The database mechanics are not modelled: connecting and creating tables. Each table is an append-only sequence of rows, and a DELETE empties it. Commits are modelled only for the schedule table, where `reset_data` leaves a delete uncommitted. The counter tables are never deleted from by the code that runs, so every write to them is committed by its own call.
- Replay assumes that a SELECT without ORDER BY (lines 252, 262 and 269) returns rows in insertion order. SQLite usually does this for such plain tables but does not promise it, and the day order and last-row-wins both depend on it.
- Tracker.AttendanceTracker.ResetData: it assumes the database has no `attendance` table, which holds for every database this program creates (lines 230-246). On a database that has one, the call would complete like ResetDataIntended.
- The `attendance` table that `reset_data` deletes from is never created or written, so it has no field. The message box after the reset (line 44) is never reached as written.
- Opening and writing the CSV file is not modelled. `GenerateUpdatedAttendanceCsv` returns the data rows, and `Attendance.CsvHeader` is the header.
- Logging is not modelled.
- Failed database writes are not modelled. The handlers in `add_class` and the two store methods catch the error and log it. Memory is updated before the INSERT (lines 281-285 before 288; 300 before 304; 316 before 320), so after a failed INSERT memory has changed and the table has not. The model assumes every INSERT and commit succeeds. `reset_data` has no handler; its one failure, on line 40, is modelled.
- The broken error call in `main` is outside the store.
- Attendance.Percentage: the source rounds to two decimals in floating point. The model keeps the exact rational value, so ties and rounding error are not modelled.
- Tracker.AttendanceTracker.AddClass: the source resets the absence counter to 0 even when the class already had one. It writes no row for this, so the relation to the absences table holds only up to those resets (`AbsencesMatchLog`), not exactly. The model follows the code: line 285 sets the counter to 0 on every call.

## Findings

| source | as written | input that shows it | evidently intended | confidence | as-written member | corrected member |
|---|---|---|---|---|---|---|
| AttendanceTracker.py:33-44 | after emptying the dictionaries and issuing the schedule delete, line 40 deletes from the `attendance` table, which `create_tables` never creates, so it raises; the absences and cancelled_classes tables keep their rows and nothing is committed | add Math to Monday, mark Math absent once, confirm the reset, restart: Math has 1 absence again and Monday's list is [Math] (`Tracker.ResetThenRestart`) | all three tables emptied and the deletes committed, so a restart finds nothing (`Tracker.IntendedResetThenRestart`) | high; not executed | Tracker.AttendanceTracker.ResetData | Tracker.AttendanceTracker.ResetDataIntended |
