/** Per-class counters (absences, cancellations), the loop that raises
    them, and the append-only tables that persist every new value. */
module Counters {
  import Schedules

  type ClassName = Schedules.ClassName

  /** A counter dictionary: class name to count. */
  type Counter = map<ClassName, int>

  /** One persisted row: a class name and the counter value written then. */
  type CounterRow = (ClassName, int)

  /** The lookup `counter.get(c, 0)`. */
  function Get(m: Counter, c: ClassName): int {
    if c in m then m[c] else 0
  }

  /** The number of times `c` occurs in `names`. */
  function Count(names: seq<ClassName>, c: ClassName): nat {
    if names == [] then 0
    else (if names[0] == c then 1 else 0) + Count(names[1..], c)
  }

  lemma {:induction false} CountAppend(a: seq<ClassName>, b: seq<ClassName>, c: ClassName)
    ensures Count(a + b, c) == Count(a, c) + Count(b, c)
  {
    if a == [] {
      assert a + b == b;
    } else {
      assert (a + b)[1..] == a[1..] + b;
      CountAppend(a[1..], b, c);
    }
  }

  /** The counters after the marking loop has processed `names` in order,
      each name raising its counter by one (from 0 when unseen). */
  function BumpAll(m: Counter, names: seq<ClassName>): Counter
    decreases |names|
  {
    if names == [] then m
    else
      var prev := BumpAll(m, names[..|names| - 1]);
      var c := names[|names| - 1];
      prev[c := Get(prev, c) + 1]
  }

  /** The rows the marking loop inserts: one per name, carrying the
      counter's value just after that name was counted. */
  function BumpRows(m: Counter, names: seq<ClassName>): seq<CounterRow>
    decreases |names|
  {
    if names == [] then []
    else
      var n := |names| - 1;
      BumpRows(m, names[..n]) + [(names[n], Get(BumpAll(m, names), names[n]))]
  }

  /** One more iteration of the marking loop. */
  lemma MarkStep(m: Counter, names: seq<ClassName>, i: nat)
    requires i < |names|
    ensures BumpAll(m, names[..i + 1]) == BumpAll(m, names[..i])[names[i] := Get(BumpAll(m, names[..i]), names[i]) + 1]
    ensures BumpRows(m, names[..i + 1]) == BumpRows(m, names[..i]) + [(names[i], Get(BumpAll(m, names[..i + 1]), names[i]))]
  {
    assert names[..i + 1][..i] == names[..i];
  }

  /** The loop of store_absent_classes and store_cancelled_classes: each
      name in turn raises its counter by one, starting from 1 for a new
      name, and one row with the new value is inserted. */
  method Increment(m: Counter, table: seq<CounterRow>, names: seq<ClassName>) returns (counters: Counter, rows: seq<CounterRow>)
    ensures counters == BumpAll(m, names)
    ensures rows == table + BumpRows(m, names)
  {
    counters, rows := m, table;
    for i := 0 to |names|
      invariant counters == BumpAll(m, names[..i])
      invariant rows == table + BumpRows(m, names[..i])
    {
      var className := names[i];
      MarkStep(m, names, i);
      if className in counters {
        counters := counters[className := counters[className] + 1];
      } else {
        counters := counters[className := 1];
      }
      rows := rows + [(className, counters[className])];
    }
    assert names[..|names|] == names;
  }

  /** Replaying counter rows in insertion order, each row overwriting the
      class's value: the second and third loops of load_data. */
  function Replay(m: Counter, rows: seq<CounterRow>): Counter
    decreases |rows|
  {
    if rows == [] then m
    else
      var n := |rows| - 1;
      Replay(m, rows[..n])[rows[n].0 := rows[n].1]
  }

  /** Marking raises each class's counter by the number of times it was
      marked, and adds exactly the marked names as keys. */
  lemma {:induction false} BumpAllCounts(m: Counter, names: seq<ClassName>, c: ClassName)
    ensures Get(BumpAll(m, names), c) == Get(m, c) + Count(names, c)
    ensures BumpAll(m, names).Keys == m.Keys + set x | x in names
    decreases |names|
  {
    if names != [] {
      var n := |names| - 1;
      BumpAllCounts(m, names[..n], c);
      assert names == names[..n] + [names[n]];
      CountAppend(names[..n], [names[n]], c);
      assert (set x | x in names) == (set x | x in names[..n]) + {names[n]};
    }
  }

  /** A call marking one class raises it by one and writes one row with
      the new value. */
  lemma MarkOnce(m: Counter, c: ClassName)
    ensures BumpAll(m, [c]) == m[c := Get(m, c) + 1]
    ensures BumpRows(m, [c]) == [(c, Get(m, c) + 1)]
  {
    assert [c][..0] == [];
  }

  /** Marking the same class twice, with one call each, raises it by 2. */
  lemma MarkedTwice(m: Counter, c: ClassName)
    ensures Get(BumpAll(BumpAll(m, [c]), [c]), c) == Get(m, c) + 2
  {
    BumpAllCounts(m, [c], c);
    BumpAllCounts(BumpAll(m, [c]), [c], c);
  }

  /** One row per marked name. */
  lemma {:induction false} BumpRowsLength(m: Counter, names: seq<ClassName>)
    ensures |BumpRows(m, names)| == |names|
    decreases |names|
  {
    if names != [] {
      BumpRowsLength(m, names[..|names| - 1]);
    }
  }

  /** Row `i` holds the `i`-th name and the prior count plus the
      occurrences of that name up to position `i`. */
  lemma {:induction false} BumpRowAt(m: Counter, names: seq<ClassName>, i: nat)
    requires i < |names|
    ensures i < |BumpRows(m, names)|
    ensures BumpRows(m, names)[i] == (names[i], Get(m, names[i]) + Count(names[..i + 1], names[i]))
    decreases |names|
  {
    var n := |names| - 1;
    var p := names[..n];
    BumpRowsLength(m, p);
    if i < n {
      BumpRowAt(m, p, i);
      assert names[..i + 1] == p[..i + 1];
    } else {
      assert names[..i + 1] == names;
      BumpAllCounts(m, names, names[i]);
    }
  }

  /** One row per marked name, in order, each carrying the name's count
      just after it was marked. */
  lemma BumpRowsShape(m: Counter, names: seq<ClassName>)
    ensures |BumpRows(m, names)| == |names|
    ensures forall i :: 0 <= i < |names| ==>
      BumpRows(m, names)[i] == (names[i], Get(m, names[i]) + Count(names[..i + 1], names[i]))
  {
    BumpRowsLength(m, names);
    forall i | 0 <= i < |names|
      ensures BumpRows(m, names)[i] == (names[i], Get(m, names[i]) + Count(names[..i + 1], names[i]))
    {
      BumpRowAt(m, names, i);
    }
  }

  lemma {:induction false} ReplayAppend(m: Counter, a: seq<CounterRow>, b: seq<CounterRow>)
    ensures Replay(m, a + b) == Replay(Replay(m, a), b)
    decreases |b|
  {
    if b == [] {
      assert a + b == a;
    } else {
      var n := |b| - 1;
      assert (a + b)[..|a + b| - 1] == a + b[..n];
      ReplayAppend(m, a, b[..n]);
    }
  }

  /** A class no row mentions keeps its value under replay. */
  lemma {:induction false} ReplayUntouched(m: Counter, rows: seq<CounterRow>, c: ClassName)
    requires forall i :: 0 <= i < |rows| ==> rows[i].0 != c
    ensures Get(Replay(m, rows), c) == Get(m, c)
    decreases |rows|
  {
    if rows != [] {
      ReplayUntouched(m, rows[..|rows| - 1], c);
    }
  }

  /** Last row wins: replay leaves a class at the value of the last row
      that names it. */
  lemma {:induction false} ReplayLastRow(m: Counter, rows: seq<CounterRow>, i: nat)
    requires i < |rows|
    requires forall j :: i < j < |rows| ==> rows[j].0 != rows[i].0
    ensures rows[i].0 in Replay(m, rows) && Replay(m, rows)[rows[i].0] == rows[i].1
    decreases |rows|
  {
    var n := |rows| - 1;
    if i < n {
      ReplayLastRow(m, rows[..n], i);
    }
  }

  /** Replaying the rows one marking call writes, on top of any counters
      `m0`, sets every marked class to its value after the call and leaves
      every other class of `m0` alone. */
  lemma {:induction false} ReplayOfBumpRows(m0: Counter, m: Counter, names: seq<ClassName>, c: ClassName)
    ensures Replay(m0, BumpRows(m, names)).Keys == m0.Keys + set x | x in names
    ensures Get(Replay(m0, BumpRows(m, names)), c) ==
      if c in names then Get(BumpAll(m, names), c) else Get(m0, c)
    decreases |names|
  {
    if names != [] {
      var n := |names| - 1;
      var p := names[..n];
      ReplayOfBumpRows(m0, m, p, c);
      var rows := BumpRows(m, names);
      assert rows[..|rows| - 1] == BumpRows(m, p);
      assert names == p + [names[n]];
      assert (set x | x in names) == (set x | x in p) + {names[n]};
    }
  }

  /** Write-through: the rows a marking call inserts replay, on top of the
      counters it started from, to exactly the counters it leaves. */
  lemma WriteThrough(m: Counter, names: seq<ClassName>)
    ensures Replay(m, BumpRows(m, names)) == BumpAll(m, names)
  {
    var r := Replay(m, BumpRows(m, names));
    var b := BumpAll(m, names);
    forall c | c in r
      ensures c in b && r[c] == b[c]
    {
      ReplayOfBumpRows(m, m, names, c);
      BumpAllCounts(m, names, c);
      if c !in names {
        assert Get(b, c) == Get(m, c);
      }
    }
    forall c | c in b
      ensures c in r
    {
      ReplayOfBumpRows(m, m, names, c);
      BumpAllCounts(m, names, c);
    }
  }

  /** A table that reloads to the counters in memory still does after a
      marking call appends its rows. */
  lemma ReloadAfterStore(table: seq<CounterRow>, names: seq<ClassName>)
    ensures Replay(map[], table + BumpRows(Replay(map[], table), names)) == BumpAll(Replay(map[], table), names)
  {
    var m := Replay(map[], table);
    ReplayAppend(map[], table, BumpRows(m, names));
    WriteThrough(m, names);
  }

  /** The counters after a sequence of marking calls from empty state. */
  function AfterCalls(calls: seq<seq<ClassName>>): Counter
    decreases |calls|
  {
    if calls == [] then map[]
    else
      var n := |calls| - 1;
      BumpAll(AfterCalls(calls[..n]), calls[n])
  }

  /** The table those calls leave, starting from an empty table. */
  function LogOfCalls(calls: seq<seq<ClassName>>): seq<CounterRow>
    decreases |calls|
  {
    if calls == [] then []
    else
      var n := |calls| - 1;
      LogOfCalls(calls[..n]) + BumpRows(AfterCalls(calls[..n]), calls[n])
  }

  /** Reloading the table written by any sequence of marking calls from
      empty state yields the in-memory counters. */
  lemma {:induction false} ReloadAfterCalls(calls: seq<seq<ClassName>>)
    ensures Replay(map[], LogOfCalls(calls)) == AfterCalls(calls)
    decreases |calls|
  {
    if calls != [] {
      var n := |calls| - 1;
      ReloadAfterCalls(calls[..n]);
      ReplayAppend(map[], LogOfCalls(calls[..n]), BumpRows(AfterCalls(calls[..n]), calls[n]));
      WriteThrough(AfterCalls(calls[..n]), calls[n]);
    }
  }
}
