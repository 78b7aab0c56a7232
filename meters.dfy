/** `process_data`'s lists of repeated-consumption dates per meter
    (main.py:376-404): meters having some consumption value twice are kept,
    the rows whose value is repeated are picked, and each meter's dates are
    collected and sorted. */
module Meters {
  import opened Common
  import opened Dates
  import opened Cleanup
  import opened Temporal

  /** Rows of meter `m`. */
  function MeterRows(rows: seq<Reading>, m: string): (r: seq<Reading>)
    ensures forall x :: x in r <==> x in rows && x.meterId == Some(m)
  {
    Filter(rows, (x: Reading) => x.meterId == Some(m))
  }

  /** How many rows carry consumption `v` (a missing value counts with the
      missing values, as `duplicated` does). */
  function CountValue(rows: seq<Reading>, v: Option<real>): nat
  {
    Count(rows, (x: Reading) => x.consumption == v)
  }

  /** `has_any_duplicates`: some consumption value occurs twice among meter `m`'s rows. */
  predicate MeterHasRepeat(rows: seq<Reading>, m: string)
  {
    exists x :: x in MeterRows(rows, m) && CountValue(MeterRows(rows, m), x.consumption) >= 2
  }

  /** `df_sorted.groupby('№ ОДПУ').filter(has_any_duplicates)`: rows of
      meters with a repeated value; rows without a meter id form no group. */
  function DuplicateGroups(rows: seq<Reading>): (r: seq<Reading>)
    ensures forall x :: x in r <==> x in rows && x.meterId.Some? && MeterHasRepeat(rows, x.meterId.value)
  {
    Filter(rows, (x: Reading) => x.meterId.Some? && MeterHasRepeat(rows, x.meterId.value))
  }

  /** The rows picked at main.py:392 as written:
      `duplicated(keep=False)` over the whole filtered table. */
  function SelectedAsWritten(rows: seq<Reading>): seq<Reading>
  {
    var groups := DuplicateGroups(rows);
    Filter(groups, (x: Reading) => CountValue(groups, x.consumption) >= 2)
  }

  /** The rows evidently meant: those whose value repeats within their own meter. */
  function SelectedPerMeter(rows: seq<Reading>): seq<Reading>
  {
    Filter(rows, (x: Reading) => x.meterId.Some? && CountValue(MeterRows(rows, x.meterId.value), x.consumption) >= 2)
  }

  function DatesOf(rows: seq<Reading>): (ds: seq<Option<CalendarDate>>)
    ensures |ds| == |rows| && forall i :: 0 <= i < |rows| ==> ds[i] == rows[i].date
  {
    seq(|rows|, i requires 0 <= i < |rows| => rows[i].date)
  }

  function MeterIds(rows: seq<Reading>): set<string>
  {
    set x | x in rows && x.meterId.Some? :: x.meterId.value
  }

  /** `groupby('№ ОДПУ')['дата'].apply(list)` followed by `sort_dates`: for
      every meter among the picked rows, the dates of its picked rows in
      date order. */
  function DateLists(picked: seq<Reading>): (lists: map<string, seq<Option<CalendarDate>>>)
    ensures lists.Keys == MeterIds(picked)
    ensures forall m :: m in lists ==>
      SortedDates(lists[m]) && multiset(lists[m]) == multiset(DatesOf(MeterRows(picked, m)))
  {
    map m | m in MeterIds(picked) :: SortDates(DatesOf(MeterRows(picked, m)))
  }

  /** The lists of main.py:380-404 as written. */
  function RepeatedDatesAsWritten(rows: seq<Reading>): map<string, seq<Option<CalendarDate>>>
  {
    DateLists(SelectedAsWritten(rows))
  }

  /** The lists as evidently intended. */
  function RepeatedDatesPerMeter(rows: seq<Reading>): map<string, seq<Option<CalendarDate>>>
  {
    DateLists(SelectedPerMeter(rows))
  }

  // ---------------------------------------------------------------- properties

  /** Every meter listed, as written, has a value repeated among its own rows. */
  lemma ListedMetersRepeat(rows: seq<Reading>, m: string)
    requires m in RepeatedDatesAsWritten(rows)
    ensures MeterHasRepeat(rows, m)
  {
    var picked := SelectedAsWritten(rows);
    var x :| x in picked && x.meterId.Some? && x.meterId.value == m;
    assert x in DuplicateGroups(rows);
  }

  /** A listed date is the date of a picked row of that meter. */
  lemma ListedDateHasRow(picked: seq<Reading>, m: string, d: Option<CalendarDate>)
    requires m in DateLists(picked) && d in DateLists(picked)[m]
    ensures exists x :: x in picked && x.meterId == Some(m) && x.date == d
  {
    var mine := MeterRows(picked, m);
    var ds := DatesOf(mine);
    assert d in multiset(ds) by {
      assert d in multiset(DateLists(picked)[m]);
    }
    var i :| 0 <= i < |ds| && ds[i] == d;
    assert mine[i] in mine;
  }

  /** With the per-meter reading, a date listed for meter `m` is the date
      of a row of `m` whose consumption value another row of `m` has too. */
  lemma PerMeterListSound(rows: seq<Reading>, m: string, d: Option<CalendarDate>)
    requires m in RepeatedDatesPerMeter(rows) && d in RepeatedDatesPerMeter(rows)[m]
    ensures exists x :: x in MeterRows(rows, m) && x.date == d && CountValue(MeterRows(rows, m), x.consumption) >= 2
  {
    var picked := SelectedPerMeter(rows);
    ListedDateHasRow(picked, m, d);
    var x :| x in picked && x.meterId == Some(m) && x.date == d;
    assert x in MeterRows(rows, m);
  }

  /** The date of every picked row is listed under its meter. */
  lemma PickedDateListed(picked: seq<Reading>, x: Reading)
    requires x in picked && x.meterId.Some?
    ensures x.meterId.value in DateLists(picked) && x.date in DateLists(picked)[x.meterId.value]
  {
    var m := x.meterId.value;
    assert m in MeterIds(picked);
    var mine := MeterRows(picked, m);
    assert x in mine;
    var i :| 0 <= i < |mine| && mine[i] == x;
    assert DatesOf(mine)[i] == x.date;
    assert x.date in multiset(DatesOf(mine));
  }

  /** With the per-meter reading, the date of every row of `m` whose
      consumption value another row of `m` has too is listed for `m`. */
  lemma PerMeterListComplete(rows: seq<Reading>, m: string, x: Reading)
    requires x in MeterRows(rows, m) && CountValue(MeterRows(rows, m), x.consumption) >= 2
    ensures m in RepeatedDatesPerMeter(rows) && x.date in RepeatedDatesPerMeter(rows)[m]
  {
    assert x in SelectedPerMeter(rows);
    PickedDateListed(SelectedPerMeter(rows), x);
  }

  /** With the per-meter reading, a date is listed for `m` exactly when a
      row of `m` of that date holds a value `m` read at least twice. */
  lemma PerMeterListed(rows: seq<Reading>, m: string, d: Option<CalendarDate>)
    requires m in RepeatedDatesPerMeter(rows)
    ensures d in RepeatedDatesPerMeter(rows)[m] <==>
      exists x :: x in MeterRows(rows, m) && x.date == d && CountValue(MeterRows(rows, m), x.consumption) >= 2
  {
    if d in RepeatedDatesPerMeter(rows)[m] {
      PerMeterListSound(rows, m, d);
    }
    if exists x :: x in MeterRows(rows, m) && x.date == d && CountValue(MeterRows(rows, m), x.consumption) >= 2 {
      var x :| x in MeterRows(rows, m) && x.date == d && CountValue(MeterRows(rows, m), x.consumption) >= 2;
      PerMeterListComplete(rows, m, x);
    }
  }

  /** Counting within a selection finds no more than counting in the whole. */
  lemma {:induction false} CountOfFilter<T>(s: seq<T>, q: T -> bool, p: T -> bool)
    ensures Count(Filter(s, q), p) <= Count(s, p)
  {
    if s != [] {
      var s' := s[..|s| - 1];
      CountOfFilter(s', q, p);
      CountConcat(Filter(s', q), if q(s[|s| - 1]) then [s[|s| - 1]] else [], p);
    }
  }

  /** Selecting first the rows of repeating meters and then those of meter
      `m` gives all rows of `m` when `m` repeats. */
  lemma {:induction false} MeterRowsOfGroups(rows: seq<Reading>, all: seq<Reading>, m: string)
    requires MeterHasRepeat(all, m)
    ensures MeterRows(Filter(rows, (x: Reading) => x.meterId.Some? && MeterHasRepeat(all, x.meterId.value)), m) == MeterRows(rows, m)
  {
    if rows != [] {
      var rows' := rows[..|rows| - 1];
      var p := (x: Reading) => x.meterId.Some? && MeterHasRepeat(all, x.meterId.value);
      MeterRowsOfGroups(rows', all, m);
      var last := rows[|rows| - 1];
      FilterConcat(Filter(rows', p), if p(last) then [last] else [], (x: Reading) => x.meterId == Some(m));
    }
  }

  /** Every row picked per meter is also picked as written: the as-written
      lists contain the intended ones. */
  lemma PerMeterPickedAsWritten(rows: seq<Reading>, x: Reading)
    requires x in SelectedPerMeter(rows)
    ensures x in SelectedAsWritten(rows)
  {
    var m := x.meterId.value;
    assert x in MeterRows(rows, m);
    assert MeterHasRepeat(rows, m);
    var groups := DuplicateGroups(rows);
    assert x in groups;
    MeterRowsOfGroups(rows, rows, m);
    assert MeterRows(groups, m) == MeterRows(rows, m);
    CountOfFilter(groups, (y: Reading) => y.meterId == Some(m), (y: Reading) => y.consumption == x.consumption);
  }

  // ---------------------------------------------------------------- the discrepancy

  function At(m: string, d: CalendarDate, v: real): Reading
  {
    Reading(Some(m), None, None, Some(d), Some(v))
  }

  /** Meter A read 5, 5 and 7; meter B read 7 twice. */
  function TwoMeters(): seq<Reading>
  {
    [At("A", Date(2021, 1, 10), 5.0), At("A", Date(2021, 2, 10), 5.0), At("A", Date(2021, 3, 10), 7.0),
     At("B", Date(2021, 1, 10), 7.0), At("B", Date(2021, 2, 10), 7.0)]
  }

  /** Meter A's rows of the example. */
  lemma MeterARows()
    ensures MeterRows(TwoMeters(), "A") == TwoMeters()[..3]
  {
    var rows := TwoMeters();
    assert rows == rows[..3] + rows[3..];
    var isA := (x: Reading) => x.meterId == Some("A");
    FilterConcat(rows[..3], rows[3..], isA);
    FilterAll(rows[..3], isA);
    FilterNone(rows[3..], isA);
  }

  /** Meter B's rows of the example. */
  lemma MeterBRows()
    ensures MeterRows(TwoMeters(), "B") == TwoMeters()[3..]
  {
    var rows := TwoMeters();
    assert rows == rows[..3] + rows[3..];
    var isB := (x: Reading) => x.meterId == Some("B");
    FilterConcat(rows[..3], rows[3..], isB);
    FilterNone(rows[..3], isB);
    FilterAll(rows[3..], isB);
  }

  /** A read 7 once and 5 twice; B read 7 twice; the two meters together read 7 three times. */
  lemma TwoMetersCounts()
    ensures CountValue(TwoMeters()[..3], Some(7.0)) == 1
    ensures CountValue(TwoMeters()[..3], Some(5.0)) == 2
    ensures CountValue(TwoMeters()[3..], Some(7.0)) == 2
    ensures CountValue(TwoMeters(), Some(7.0)) == 3
  {
    var rows := TwoMeters();
    var a, b := rows[..3], rows[3..];
    assert rows == a + b;
    assert a[..2] == [rows[0], rows[1]];
    assert a[..2][..1] == [rows[0]];
    assert [rows[0]][..0] == [];
    assert b[..1] == [b[0]];
    var seven := (x: Reading) => x.consumption == Some(7.0);
    var five := (x: Reading) => x.consumption == Some(5.0);
    assert Count([rows[0]], seven) == 0 && Count([rows[0]], five) == 1;
    assert Count(a[..2], seven) == 0 && Count(a[..2], five) == 2;
    assert Count(a, seven) == 1 && Count(a, five) == 2;
    CountConcat(a, b, seven);
  }

  /** As written, A's 7 of 10 March is picked because B read 7 too; per
      meter it is not, as A read 7 only once. */
  lemma CrossMeterRepeat()
    ensures At("A", Date(2021, 3, 10), 7.0) in SelectedAsWritten(TwoMeters())
    ensures At("A", Date(2021, 3, 10), 7.0) !in SelectedPerMeter(TwoMeters())
  {
    var rows := TwoMeters();
    var x := At("A", Date(2021, 3, 10), 7.0);
    assert rows[2] == x;
    assert x in SelectedAsWritten(rows) by {
      BothMetersGrouped();
      TwoMetersCounts();
    }
    assert x !in SelectedPerMeter(rows) by {
      MeterARows();
      TwoMetersCounts();
    }
  }

  /** Both meters of the example read some value twice, so grouping keeps every row. */
  lemma BothMetersGrouped()
    ensures DuplicateGroups(TwoMeters()) == TwoMeters()
  {
    var rows := TwoMeters();
    assert MeterHasRepeat(rows, "A") by {
      MeterARows();
      TwoMetersCounts();
      assert rows[0] in rows[..3];
    }
    assert MeterHasRepeat(rows, "B") by {
      MeterBRows();
      TwoMetersCounts();
      assert rows[3] in rows[3..];
    }
    assert forall y :: y in rows ==> y.meterId == Some("A") || y.meterId == Some("B");
    TwoMetersAllGrouped(rows);
  }

  lemma TwoMetersAllGrouped(rows: seq<Reading>)
    requires MeterHasRepeat(rows, "A") && MeterHasRepeat(rows, "B")
    requires forall y :: y in rows ==> y.meterId == Some("A") || y.meterId == Some("B")
    ensures DuplicateGroups(rows) == rows
  {
    FilterAll(rows, (x: Reading) => x.meterId.Some? && MeterHasRepeat(rows, x.meterId.value));
  }

  function March10(): Option<CalendarDate>
  {
    var d: CalendarDate := Date(2021, 3, 10);
    Some(d)
  }

  /** As written, meter A's list holds 10 March 2021. */
  lemma CrossMeterListedAsWritten()
    ensures "A" in RepeatedDatesAsWritten(TwoMeters())
    ensures March10() in RepeatedDatesAsWritten(TwoMeters())["A"]
  {
    CrossMeterRepeat();
    PickedDateListed(SelectedAsWritten(TwoMeters()), At("A", Date(2021, 3, 10), 7.0));
  }

  /** Meter A's only reading of 10 March is a value A read once. */
  lemma MarchReadOnceByA()
    ensures forall y :: y in MeterRows(TwoMeters(), "A") && y.date == March10() ==>
      CountValue(MeterRows(TwoMeters(), "A"), y.consumption) == 1
  {
    var rows := TwoMeters();
    MeterARows();
    TwoMetersCounts();
    assert forall y :: y in rows[..3] ==> y == rows[0] || y == rows[1] || y == rows[2];
  }

  /** Read per meter, meter A is listed (it read 5 twice) but 10 March is
      not among its dates. */
  lemma CrossMeterNotListedPerMeter()
    ensures "A" in RepeatedDatesPerMeter(TwoMeters())
    ensures March10() !in RepeatedDatesPerMeter(TwoMeters())["A"]
  {
    var rows := TwoMeters();
    MeterARows();
    TwoMetersCounts();
    PerMeterListComplete(rows, "A", rows[0]);
    MarchReadOnceByA();
    PerMeterListed(rows, "A", March10());
  }
}
