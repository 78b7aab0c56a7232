/** Repeated-value classification of one meter's readings (`analyze_anomalies`,
    main.py:580-608, reported at main.py:617-631). A reading's value is
    "repeated" when another reading of the meter has the same value; Type 1
    counts date-adjacent pairs of equal values at most 31 days apart, Type 2
    marks readings sharing value and day-and-month, and Type 3 is the mask
    left after removing the first two. */
module Temporal {
  import opened Common
  import opened Dates

  /** One row of the meter's detail table: reading date (missing when the
      export's date could not be parsed) and consumption. */
  datatype Detail = Detail(date: Option<CalendarDate>, value: Option<real>)

  // ---------------------------------------------------------------- occurrence counts

  /** Number of the first `n` rows whose value is `v`; a missing value is
      equal to a missing value, as in `duplicated`. */
  function OccurrencesIn(rows: seq<Detail>, v: Option<real>, n: nat): (c: nat)
    requires n <= |rows|
    ensures c <= n
  {
    if n == 0 then 0
    else OccurrencesIn(rows, v, n - 1) + (if rows[n - 1].value == v then 1 else 0)
  }

  function Occurrences(rows: seq<Detail>, v: Option<real>): nat
  {
    OccurrencesIn(rows, v, |rows|)
  }

  /** Row `i` belongs to `duplicated(subset=['Текущее потребление, Гкал'], keep=False)`. */
  predicate Repeated(rows: seq<Detail>, i: nat)
    requires i < |rows|
  {
    Occurrences(rows, rows[i].value) >= 2
  }

  /** Two distinct rows with the same value make both of them repeated. */
  lemma {:induction false} TwoOccurrences(rows: seq<Detail>, v: Option<real>, i: nat, j: nat, n: nat)
    requires i < j < n <= |rows| && rows[i].value == v && rows[j].value == v
    ensures OccurrencesIn(rows, v, n) >= 2
  {
    if j < n - 1 {
      TwoOccurrences(rows, v, i, j, n - 1);
    } else {
      OneOccurrence(rows, v, i, n - 1);
    }
  }

  lemma {:induction false} OneOccurrence(rows: seq<Detail>, v: Option<real>, i: nat, n: nat)
    requires i < n <= |rows| && rows[i].value == v
    ensures OccurrencesIn(rows, v, n) >= 1
  {
    if i < n - 1 {
      OneOccurrence(rows, v, i, n - 1);
    }
  }

  /** A value that occurs has a row carrying it. */
  lemma {:induction false} OccurrenceWitness(rows: seq<Detail>, v: Option<real>, n: nat) returns (i: nat)
    requires n <= |rows| && OccurrencesIn(rows, v, n) >= 1
    ensures i < n && rows[i].value == v
  {
    if rows[n - 1].value == v {
      i := n - 1;
    } else {
      i := OccurrenceWitness(rows, v, n - 1);
    }
  }

  /** Row `i` is repeated exactly when some other row has the same value. */
  lemma RepeatedMeansOtherRow(rows: seq<Detail>, i: nat)
    requires i < |rows|
    ensures Repeated(rows, i) <==> exists j :: 0 <= j < |rows| && j != i && rows[j].value == rows[i].value
  {
    if Repeated(rows, i) {
      var j := OtherOccurrence(rows, rows[i].value, i, |rows|);
    }
    if j :| 0 <= j < |rows| && j != i && rows[j].value == rows[i].value {
      if i < j {
        TwoOccurrences(rows, rows[i].value, i, j, |rows|);
      } else {
        TwoOccurrences(rows, rows[i].value, j, i, |rows|);
      }
    }
  }

  lemma {:induction false} OtherOccurrence(rows: seq<Detail>, v: Option<real>, i: nat, n: nat) returns (j: nat)
    requires i < |rows| && n <= |rows| && OccurrencesIn(rows, v, n) >= 2
    ensures j < n && j != i && rows[j].value == v
  {
    if rows[n - 1].value == v && n - 1 != i {
      j := n - 1;
    } else if rows[n - 1].value == v {
      j := OccurrenceWitness(rows, v, n - 1);
    } else {
      j := OtherOccurrence(rows, v, i, n - 1);
    }
  }

  // ---------------------------------------------------------------- Type 2 and Type 3 masks

  /** `strftime('%d.%m')` of a reading date: day and month; a missing date
      gives a missing text. */
  function DayMonth(d: Option<CalendarDate>): Option<(int, int)>
  {
    match d
    case Some(x) => Some((x.day, x.month))
    case None => None
  }

  function PairKey(r: Detail): (Option<real>, Option<(int, int)>)
  {
    (r.value, DayMonth(r.date))
  }

  function PairOccurrencesIn(rows: seq<Detail>, k: (Option<real>, Option<(int, int)>), n: nat): nat
    requires n <= |rows|
  {
    if n == 0 then 0
    else PairOccurrencesIn(rows, k, n - 1) + (if PairKey(rows[n - 1]) == k then 1 else 0)
  }

  /** Row `i` belongs to `type_2_mask`: another row has the same value and
      the same day and month. */
  predicate Type2Row(rows: seq<Detail>, i: nat)
    requires i < |rows|
  {
    PairOccurrencesIn(rows, PairKey(rows[i]), |rows|) >= 2
  }

  /** Row `i` belongs to `type_3_mask` as written: the repeated mask, minus
      `type_1_mask` (which is the same repeated mask), minus `type_2_mask`. */
  predicate Type3Row(rows: seq<Detail>, i: nat)
    requires i < |rows|
  {
    var type1Mask := Repeated(rows, i);
    Repeated(rows, i) && !type1Mask && !Type2Row(rows, i)
  }

  /** Rows sharing value and day-month share the value. */
  lemma {:induction false} PairOccurrencesBound(rows: seq<Detail>, r: Detail, n: nat)
    requires n <= |rows|
    ensures PairOccurrencesIn(rows, PairKey(r), n) <= OccurrencesIn(rows, r.value, n)
  {
    if n > 0 {
      PairOccurrencesBound(rows, r, n - 1);
    }
  }

  /** Every Type 2 row is also a repeated-value row. */
  lemma Type2IsRepeated(rows: seq<Detail>, i: nat)
    requires i < |rows| && Type2Row(rows, i)
    ensures Repeated(rows, i)
  {
    PairOccurrencesBound(rows, rows[i], |rows|);
  }

  /** `mask[:n].sum()` for the Type 2 and Type 3 masks. */
  function Type2CountIn(rows: seq<Detail>, n: nat): nat
    requires n <= |rows|
  {
    if n == 0 then 0 else Type2CountIn(rows, n - 1) + (if Type2Row(rows, n - 1) then 1 else 0)
  }

  function Type3CountIn(rows: seq<Detail>, n: nat): nat
    requires n <= |rows|
  {
    if n == 0 then 0 else Type3CountIn(rows, n - 1) + (if Type3Row(rows, n - 1) then 1 else 0)
  }

  /** The Type 3 mask as written is empty on every table. */
  lemma {:induction false} Type3AlwaysEmpty(rows: seq<Detail>, n: nat)
    requires n <= |rows|
    ensures Type3CountIn(rows, n) == 0
  {
    if n > 0 {
      Type3AlwaysEmpty(rows, n - 1);
    }
  }

  // ---------------------------------------------------------------- sorting a group by date

  /** Order of `sort_values` on a date column: chronological (by
      `DayNumberOrder` the same as by day number), missing dates last. */
  predicate DateLeq(a: Option<CalendarDate>, b: Option<CalendarDate>)
  {
    match a
    case None => b.None?
    case Some(x) => b.None? || !Before(b.value, x)
  }

  predicate SortedDates(ds: seq<Option<CalendarDate>>)
  {
    forall i, j :: 0 <= i < j < |ds| ==> DateLeq(ds[i], ds[j])
  }

  lemma DateLeqTotal(a: Option<CalendarDate>, b: Option<CalendarDate>)
    ensures DateLeq(a, b) || DateLeq(b, a)
  {
  }

  lemma DateLeqTransitive(a: Option<CalendarDate>, b: Option<CalendarDate>, c: Option<CalendarDate>)
    requires DateLeq(a, b) && DateLeq(b, c)
    ensures DateLeq(a, c)
  {
  }

  /** Dates that are each no later than the other are the same date. */
  lemma DateLeqAntisymmetric(a: Option<CalendarDate>, b: Option<CalendarDate>)
    requires DateLeq(a, b) && DateLeq(b, a)
    ensures a == b
  {
  }

  function InsertDate(d: Option<CalendarDate>, ds: seq<Option<CalendarDate>>): (r: seq<Option<CalendarDate>>)
    requires SortedDates(ds)
    ensures SortedDates(r)
    ensures multiset(r) == multiset(ds) + multiset{d}
  {
    if ds == [] then [d]
    else if DateLeq(d, ds[0]) then
      assert forall j :: 0 <= j < |ds| ==> DateLeq(d, ds[j]) by {
        forall j | 0 <= j < |ds| ensures DateLeq(d, ds[j]) {
          if j > 0 { DateLeqTransitive(d, ds[0], ds[j]); }
        }
      }
      [d] + ds
    else
      var rest := InsertDate(d, ds[1..]);
      assert ds == [ds[0]] + ds[1..];
      HeadBeforeInserted(d, ds, rest);
      [ds[0]] + rest
  }

  /** When `d` goes after the head of `ds`, the head stays no later than
      everything the insertion into the tail produces. */
  lemma HeadBeforeInserted(d: Option<CalendarDate>, ds: seq<Option<CalendarDate>>, rest: seq<Option<CalendarDate>>)
    requires SortedDates(ds) && ds != [] && !DateLeq(d, ds[0])
    requires multiset(rest) == multiset(ds[1..]) + multiset{d}
    ensures forall j :: 0 <= j < |rest| ==> DateLeq(ds[0], rest[j])
  {
    DateLeqTotal(d, ds[0]);
    forall j | 0 <= j < |rest| ensures DateLeq(ds[0], rest[j]) {
      assert rest[j] in multiset(rest);
      if rest[j] != d {
        assert rest[j] in multiset(ds[1..]);
        var k :| 0 <= k < |ds[1..]| && ds[1..][k] == rest[j];
        assert ds[k + 1] == rest[j];
      }
    }
  }

  /** `sort_values` on the dates of one value group. */
  function SortDates(ds: seq<Option<CalendarDate>>): (r: seq<Option<CalendarDate>>)
    ensures SortedDates(r)
    ensures multiset(r) == multiset(ds)
  {
    if ds == [] then []
    else
      assert ds == [ds[0]] + ds[1..];
      InsertDate(ds[0], SortDates(ds[1..]))
  }

  /** Sorting by date has one possible outcome: two sorted arrangements of
      the same dates are equal, so the sort algorithm does not matter. */
  lemma {:induction false} SortedUnique(a: seq<Option<CalendarDate>>, b: seq<Option<CalendarDate>>)
    requires SortedDates(a) && SortedDates(b) && multiset(a) == multiset(b)
    ensures a == b
  {
    assert |a| == |b| by { assert |a| == |multiset(a)| == |multiset(b)| == |b|; }
    if a != [] {
      assert a[0] == b[0] by {
        assert b[0] in multiset(b) && a[0] in multiset(a);
        SortedHeadFirst(a, b[0]);
        SortedHeadFirst(b, a[0]);
        DateLeqAntisymmetric(a[0], b[0]);
      }
      assert multiset(a[1..]) == multiset(b[1..]) by {
        TailMultiset(a);
        TailMultiset(b);
      }
      SortedTail(a);
      SortedTail(b);
      SortedUnique(a[1..], b[1..]);
      assert a == [a[0]] + a[1..] && b == [b[0]] + b[1..];
    }
  }

  /** The first date of a sorted sequence is no later than any of its dates. */
  lemma SortedHeadFirst(a: seq<Option<CalendarDate>>, x: Option<CalendarDate>)
    requires SortedDates(a) && x in multiset(a)
    ensures DateLeq(a[0], x)
  {
    var k :| 0 <= k < |a| && a[k] == x;
    if k > 0 {
      assert DateLeq(a[0], a[k]);
    }
  }

  lemma TailMultiset(a: seq<Option<CalendarDate>>)
    requires a != []
    ensures multiset(a[1..]) == multiset(a) - multiset{a[0]}
  {
    assert a == [a[0]] + a[1..];
  }

  lemma SortedTail(a: seq<Option<CalendarDate>>)
    requires SortedDates(a) && a != []
    ensures SortedDates(a[1..])
  {
    forall i, j | 0 <= i < j < |a[1..]| ensures DateLeq(a[1..][i], a[1..][j]) {
      assert a[1..][i] == a[i + 1] && a[1..][j] == a[j + 1];
    }
  }

  // ---------------------------------------------------------------- Type 1

  /** Two consecutive dates of a sorted group are counted when both exist
      and are at most 31 days apart (a missing date makes `.days` NaN). */
  predicate Close(a: Option<CalendarDate>, b: Option<CalendarDate>)
  {
    a.Some? && b.Some? && DayNumber(b.value) - DayNumber(a.value) <= 31
  }

  /** Number of consecutive pairs among the first `n` dates that are close. */
  function CloseAdjacentIn(ds: seq<Option<CalendarDate>>, n: nat): (c: nat)
    requires 1 <= n <= |ds|
    ensures c <= n - 1
  {
    if n == 1 then 0
    else CloseAdjacentIn(ds, n - 1) + (if Close(ds[n - 2], ds[n - 1]) then 1 else 0)
  }

  /** Dates of the rows whose value is `v`, among the first `n` rows. */
  function GroupDatesIn(rows: seq<Detail>, v: real, n: nat): (ds: seq<Option<CalendarDate>>)
    requires n <= |rows|
    ensures |ds| == OccurrencesIn(rows, Some(v), n)
    ensures forall d :: d in ds <==> exists i :: 0 <= i < n && rows[i].value == Some(v) && rows[i].date == d
  {
    if n == 0 then []
    else GroupDatesIn(rows, v, n - 1) + (if rows[n - 1].value == Some(v) then [rows[n - 1].date] else [])
  }

  /** The group of value `v` in `type_1_pairs`, sorted by date. */
  function SortedGroup(rows: seq<Detail>, v: real): (ds: seq<Option<CalendarDate>>)
    ensures |ds| == Occurrences(rows, Some(v))
    ensures SortedDates(ds)
    ensures forall d :: d in ds <==> exists i :: 0 <= i < |rows| && rows[i].value == Some(v) && rows[i].date == d
  {
    var g := GroupDatesIn(rows, v, |rows|);
    var r := SortDates(g);
    assert |r| == |multiset(r)| == |multiset(g)| == |g|;
    assert forall d :: d in r <==> d in g by {
      forall d ensures d in r <==> d in g {
        assert d in r <==> d in multiset(r);
        assert d in g <==> d in multiset(g);
      }
    }
    r
  }

  /** Type 1 pairs of one group. */
  function GroupClose(rows: seq<Detail>, v: real): nat
  {
    var ds := SortedGroup(rows, v);
    if |ds| == 0 then 0 else CloseAdjacentIn(ds, |ds|)
  }

  /** The distinct present values of the first `n` rows, in order of first occurrence. */
  function PresentValuesIn(rows: seq<Detail>, n: nat): (vs: seq<real>)
    requires n <= |rows|
    ensures forall i, j :: 0 <= i < j < |vs| ==> vs[i] != vs[j]
    ensures forall v :: v in vs <==> OccurrencesIn(rows, Some(v), n) >= 1
  {
    if n == 0 then []
    else
      var p := PresentValuesIn(rows, n - 1);
      var x := rows[n - 1].value;
      if x.Some? && x.value !in p then p + [x.value] else p
  }

  /** The keys of `type_1_pairs.groupby('Текущее потребление, Гкал')`:
      present values occurring at least twice (`groupby` drops the missing key). */
  function KeepRepeated(rows: seq<Detail>, vs: seq<real>): (r: seq<real>)
    requires forall i, j :: 0 <= i < j < |vs| ==> vs[i] != vs[j]
    ensures forall i, j :: 0 <= i < j < |r| ==> r[i] != r[j]
    ensures forall v :: v in r <==> v in vs && Occurrences(rows, Some(v)) >= 2
  {
    if vs == [] then []
    else
      var vs' := vs[..|vs| - 1];
      var p := KeepRepeated(rows, vs');
      var v := vs[|vs| - 1];
      assert vs == vs' + [v];
      assert v !in vs' by {
        forall k | 0 <= k < |vs'| ensures vs'[k] != v { assert vs'[k] == vs[k]; }
      }
      if Occurrences(rows, Some(v)) >= 2 then p + [v] else p
  }

  function RepeatedValues(rows: seq<Detail>): (r: seq<real>)
    ensures forall i, j :: 0 <= i < j < |r| ==> r[i] != r[j]
    ensures forall v :: v in r <==> Occurrences(rows, Some(v)) >= 2
  {
    KeepRepeated(rows, PresentValuesIn(rows, |rows|))
  }

  /** Type 1 pairs summed over the listed value groups. */
  function SumClose(rows: seq<Detail>, vs: seq<real>): nat
  {
    if vs == [] then 0 else SumClose(rows, vs[..|vs| - 1]) + GroupClose(rows, vs[|vs| - 1])
  }

  lemma GroupAtLeastTwo(rows: seq<Detail>, groups: seq<real>, g: nat)
    requires groups == RepeatedValues(rows) && g < |groups|
    ensures |SortedGroup(rows, groups[g])| >= 2
  {
    assert groups[g] in groups;
  }

  lemma SumCloseStep(rows: seq<Detail>, groups: seq<real>, g: nat)
    requires g < |groups|
    ensures SumClose(rows, groups[..g + 1]) == SumClose(rows, groups[..g]) + GroupClose(rows, groups[g])
  {
    assert groups[..g + 1][..g] == groups[..g];
  }

  /** The sum over a concatenation of value lists is the sum of the two sums. */
  lemma {:induction false} SumCloseConcat(rows: seq<Detail>, a: seq<real>, b: seq<real>)
    ensures SumClose(rows, a + b) == SumClose(rows, a) + SumClose(rows, b)
    decreases |b|
  {
    if b == [] {
      assert a + b == a;
    } else {
      var b' := b[..|b| - 1];
      assert (a + b)[..|a + b| - 1] == a + b';
      assert (a + b)[|a + b| - 1] == b[|b| - 1];
      SumCloseConcat(rows, a, b');
    }
  }

  /** The order in which the value groups are visited does not change the
      sum: pandas visits them in ascending value order (main.py:591), the
      model in first-occurrence order, and both give the same count. */
  lemma {:induction false} SumClosePermutation(rows: seq<Detail>, vs: seq<real>, ws: seq<real>)
    requires multiset(vs) == multiset(ws)
    ensures SumClose(rows, vs) == SumClose(rows, ws)
    decreases |vs|
  {
    if vs == [] {
      assert |ws| == |multiset(ws)| == 0;
    } else {
      var vs', x := vs[..|vs| - 1], vs[|vs| - 1];
      assert vs == vs' + [x];
      assert x in multiset(ws);
      var k :| 0 <= k < |ws| && ws[k] == x;
      var pre, post := ws[..k], ws[k + 1..];
      assert ws == pre + [x] + post;
      assert multiset(vs') == multiset(vs) - multiset{x};
      assert multiset(ws) == multiset(pre + post) + multiset{x} by {
        assert ws == (pre + post)[..k] + [x] + (pre + post)[k..];
        assert multiset(ws) == multiset((pre + post)[..k]) + multiset{x} + multiset((pre + post)[k..]);
        assert (pre + post) == (pre + post)[..k] + (pre + post)[k..];
      }
      SumClosePermutation(rows, vs', pre + post);
      SumCloseConcat(rows, pre, post);
      SumCloseConcat(rows, pre + [x], post);
      SumCloseConcat(rows, pre, [x]);
      assert SumClose(rows, [x]) == GroupClose(rows, x) by {
        assert [x][..0] == [];
      }
    }
  }

  /** The Type 1 count: close date-adjacent pairs over all value groups,
      visited in first-occurrence order; by `SumClosePermutation` any other
      order, such as pandas' ascending one, gives the same count. */
  function Type1Count(rows: seq<Detail>): nat
  {
    SumClose(rows, RepeatedValues(rows))
  }

  // ---------------------------------------------------------------- bound on the Type 1 count

  /** Rows among the first `n` whose value is present and repeated. */
  function RepeatedPresentIn(rows: seq<Detail>, n: nat): nat
    requires n <= |rows|
  {
    if n == 0 then 0
    else RepeatedPresentIn(rows, n - 1) + (if rows[n - 1].value.Some? && Repeated(rows, n - 1) then 1 else 0)
  }

  /** Rows among the first `n` whose value is one of `vs`. */
  function RowsWithValueIn(rows: seq<Detail>, vs: seq<real>, n: nat): nat
    requires n <= |rows|
  {
    if n == 0 then 0
    else RowsWithValueIn(rows, vs, n - 1) + (if rows[n - 1].value.Some? && rows[n - 1].value.value in vs then 1 else 0)
  }

  function SumOccurrences(rows: seq<Detail>, vs: seq<real>): nat
  {
    if vs == [] then 0 else SumOccurrences(rows, vs[..|vs| - 1]) + Occurrences(rows, Some(vs[|vs| - 1]))
  }

  /** Adding a new value to the list adds exactly its rows. */
  lemma {:induction false} RowsWithValueSnoc(rows: seq<Detail>, vs: seq<real>, v: real, n: nat)
    requires n <= |rows| && v !in vs
    ensures RowsWithValueIn(rows, vs + [v], n) == RowsWithValueIn(rows, vs, n) + OccurrencesIn(rows, Some(v), n)
  {
    if n > 0 {
      RowsWithValueSnoc(rows, vs, v, n - 1);
    }
  }

  /** Over distinct values, the group sizes add up to the rows carrying those values. */
  lemma {:induction false} SumOccurrencesRows(rows: seq<Detail>, vs: seq<real>)
    requires forall i, j :: 0 <= i < j < |vs| ==> vs[i] != vs[j]
    ensures SumOccurrences(rows, vs) == RowsWithValueIn(rows, vs, |rows|)
  {
    if vs == [] {
      RowsWithNoValue(rows, |rows|);
    } else {
      var vs', v := vs[..|vs| - 1], vs[|vs| - 1];
      assert vs == vs' + [v];
      assert v !in vs' by {
        forall k | 0 <= k < |vs'| ensures vs'[k] != v { assert vs'[k] == vs[k]; }
      }
      SumOccurrencesRows(rows, vs');
      RowsWithValueSnoc(rows, vs', v, |rows|);
    }
  }

  lemma {:induction false} RowsWithNoValue(rows: seq<Detail>, n: nat)
    requires n <= |rows|
    ensures RowsWithValueIn(rows, [], n) == 0
  {
    if n > 0 {
      RowsWithNoValue(rows, n - 1);
    }
  }

  /** The rows carrying a repeated value's group key are the rows with a
      present, repeated value. */
  lemma {:induction false} RepeatedRowsCounted(rows: seq<Detail>, n: nat)
    requires n <= |rows|
    ensures RowsWithValueIn(rows, RepeatedValues(rows), n) == RepeatedPresentIn(rows, n)
  {
    if n > 0 {
      RepeatedRowsCounted(rows, n - 1);
    }
  }

  /** Each group contributes at most one pair fewer than it has rows. */
  lemma {:induction false} SumCloseBound(rows: seq<Detail>, vs: seq<real>)
    requires forall v :: v in vs ==> Occurrences(rows, Some(v)) >= 1
    ensures SumClose(rows, vs) + |vs| <= SumOccurrences(rows, vs)
  {
    if vs != [] {
      var vs' := vs[..|vs| - 1];
      assert forall v :: v in vs' ==> v in vs;
      SumCloseBound(rows, vs');
      assert vs[|vs| - 1] in vs;
    }
  }

  /** The Type 1 count never exceeds the number of rows with a present,
      repeated value minus the number of distinct such values. */
  lemma Type1Bound(rows: seq<Detail>)
    ensures Type1Count(rows) + |RepeatedValues(rows)| <= RepeatedPresentIn(rows, |rows|)
  {
    var vs := RepeatedValues(rows);
    SumCloseBound(rows, vs);
    SumOccurrencesRows(rows, vs);
    RepeatedRowsCounted(rows, |rows|);
  }

  // ---------------------------------------------------------------- Type 3 as evidently intended

  /** Another reading of the same present value lies within 31 days of row
      `i` (both dates present): the rows the Type 1 rule is about. */
  predicate CloseRepeat(rows: seq<Detail>, i: nat)
    requires i < |rows|
  {
    rows[i].value.Some? && rows[i].date.Some? &&
    exists j :: 0 <= j < |rows| && j != i && rows[j].value == rows[i].value && rows[j].date.Some? &&
      -31 <= DayNumber(rows[j].date.value) - DayNumber(rows[i].date.value) <= 31
  }

  /** Type 3 as described ("same value only, dates completely different"):
      a repeated row that is neither in a close repeat nor in a Type 2 match. */
  predicate Type3IntendedRow(rows: seq<Detail>, i: nat)
    requires i < |rows|
  {
    Repeated(rows, i) && !CloseRepeat(rows, i) && !Type2Row(rows, i)
  }

  function Type3IntendedCountIn(rows: seq<Detail>, n: nat): nat
    requires n <= |rows|
  {
    if n == 0 then 0 else Type3IntendedCountIn(rows, n - 1) + (if Type3IntendedRow(rows, n - 1) then 1 else 0)
  }

  /** With the intended Type 3 mask every repeated row is in exactly one
      class: a close repeat (Type 1), a day-and-month match (Type 2) or
      neither (Type 3); and each class lies inside the repeated rows. */
  lemma RepeatedRowClassified(rows: seq<Detail>, i: nat)
    requires i < |rows|
    ensures Repeated(rows, i) <==> CloseRepeat(rows, i) || Type2Row(rows, i) || Type3IntendedRow(rows, i)
    ensures Type3IntendedRow(rows, i) ==> !CloseRepeat(rows, i) && !Type2Row(rows, i)
  {
    RepeatedMeansOtherRow(rows, i);
    if Type2Row(rows, i) {
      Type2IsRepeated(rows, i);
    }
  }

  // ---------------------------------------------------------------- worked examples

  function Day(y: int, m: int, d: int): Option<CalendarDate>
    requires Valid(Date(y, m, d))
  {
    Some(Date(y, m, d))
  }

  /** Two readings of the same value form one Type 1 pair when they are at
      most 31 days apart, and none otherwise. */
  lemma TwoReadingsOfOneValue(d1: CalendarDate, d2: CalendarDate, v: real)
    requires !Before(d2, d1)
    ensures Type1Count([Detail(Some(d1), Some(v)), Detail(Some(d2), Some(v))]) ==
      if DayNumber(d2) - DayNumber(d1) <= 31 then 1 else 0
  {
    var rows := [Detail(Some(d1), Some(v)), Detail(Some(d2), Some(v))];
    var ds: seq<Option<CalendarDate>> := [Some(d1), Some(d2)];
    TwoReadingsGroup(Some(d1), Some(d2), v);
    assert SortedGroup(rows, v) == ds by {
      assert SortedDates(ds);
      SortedUnique(SortDates(ds), ds);
    }
    SingleValueType1(rows, v);
    assert GroupClose(rows, v) == CloseAdjacentIn(ds, 2);
    assert CloseAdjacentIn(ds, 2) == if Close(ds[0], ds[1]) then 1 else 0;
  }

  /** With one repeated value, the Type 1 count is that value's group count. */
  lemma SingleValueType1(rows: seq<Detail>, v: real)
    requires RepeatedValues(rows) == [v]
    ensures Type1Count(rows) == GroupClose(rows, v)
  {
    assert [v][..0] == [] && [v][0] == v;
    assert SumClose(rows, []) == 0;
    assert SumClose(rows, [v]) == GroupClose(rows, v);
  }

  /** Two readings of one value make one value group holding both dates. */
  lemma TwoReadingsGroup(d1: Option<CalendarDate>, d2: Option<CalendarDate>, v: real)
    ensures var rows := [Detail(d1, Some(v)), Detail(d2, Some(v))];
      RepeatedValues(rows) == [v] && GroupDatesIn(rows, v, 2) == [d1, d2]
  {
    var rows := [Detail(d1, Some(v)), Detail(d2, Some(v))];
    TwoReadingsValues(rows, v);
    assert KeepRepeated(rows, [v]) == [v] by {
      assert [v][..0] == [] && [v][0] == v;
      assert KeepRepeated(rows, []) == [];
    }
    assert GroupDatesIn(rows, v, 1) == [d1];
  }

  /** Two rows of value `v`: it is their one present value and occurs twice. */
  lemma TwoReadingsValues(rows: seq<Detail>, v: real)
    requires |rows| == 2 && rows[0].value == Some(v) && rows[1].value == Some(v)
    ensures Occurrences(rows, Some(v)) == 2 && PresentValuesIn(rows, 2) == [v]
  {
    assert OccurrencesIn(rows, Some(v), 1) == 1;
    assert PresentValuesIn(rows, 1) == [v];
  }

  /** Two readings of 10.0 on 15 January and 10 February 2021 are 26 days
      apart: one Type 1 pair. */
  lemma Type1Example()
    ensures Type1Count([Detail(Day(2021, 1, 15), Some(10.0)), Detail(Day(2021, 2, 10), Some(10.0))]) == 1
  {
    TwoReadingsOfOneValue(Date(2021, 1, 15), Date(2021, 2, 10), 10.0);
    JanuaryToFebruaryGap();
  }

  /** Readings of 5.0 on 10 March 2020 and 10 March 2021 mark two Type 2
      rows, shown as one pair, and form no Type 1 pair. */
  lemma Type2Example()
    ensures var rows := [Detail(Day(2020, 3, 10), Some(5.0)), Detail(Day(2021, 3, 10), Some(5.0))];
      Type2CountIn(rows, 2) == 2 && ReportedPairs(Type2CountIn(rows, 2)) == 1 && Type1Count(rows) == 0
  {
    assert DayMonth(Day(2020, 3, 10)) == DayMonth(Day(2021, 3, 10));
    SameDayPair(Day(2020, 3, 10), Day(2021, 3, 10), 5.0);
    TwoReadingsOfOneValue(Date(2020, 3, 10), Date(2021, 3, 10), 5.0);
    assert DayNumber(Date(2021, 3, 10)) - DayNumber(Date(2020, 3, 10)) == 365;
  }

  /** Two readings of one value on the same day and month mark both rows as Type 2. */
  lemma SameDayPair(d1: Option<CalendarDate>, d2: Option<CalendarDate>, v: real)
    requires DayMonth(d1) == DayMonth(d2)
    ensures Type2CountIn([Detail(d1, Some(v)), Detail(d2, Some(v))], 2) == 2
  {
    var rows := [Detail(d1, Some(v)), Detail(d2, Some(v))];
    assert PairKey(rows[0]) == PairKey(rows[1]);
    assert PairOccurrencesIn(rows, PairKey(rows[0]), 1) == 1;
    assert Type2Row(rows, 0) && Type2Row(rows, 1);
    assert Type2CountIn(rows, 1) == 1;
  }

  /** Readings of 7.0 on 1 January 2019 and 20 November 2022 share only the
      value. The Type 3 figure as written is 0; the intended mask marks both
      rows, one pair. */
  lemma Type3Example()
    ensures var rows := [Detail(Day(2019, 1, 1), Some(7.0)), Detail(Day(2022, 11, 20), Some(7.0))];
      Type3CountIn(rows, 2) == 0 && Type3IntendedCountIn(rows, 2) == 2 &&
      ReportedPairs(Type3IntendedCountIn(rows, 2)) == 1
  {
    var rows := [Detail(Day(2019, 1, 1), Some(7.0)), Detail(Day(2022, 11, 20), Some(7.0))];
    Type3AlwaysEmpty(rows, 2);
    assert Occurrences(rows, Some(7.0)) == 2;
    assert PairOccurrencesIn(rows, PairKey(rows[0]), 2) == 1;
    assert PairOccurrencesIn(rows, PairKey(rows[1]), 2) == 1;
    var gap := DayNumber(Date(2022, 11, 20)) - DayNumber(Date(2019, 1, 1));
    assert gap > 31;
    assert !CloseRepeat(rows, 0);
    assert !CloseRepeat(rows, 1);
  }

  // ---------------------------------------------------------------- the analysis

  /** The nested loop of main.py:589-595: for every value group, the counter
      goes up once per consecutive pair of dates at most 31 days apart. */
  method CountType1(rows: seq<Detail>) returns (type1: nat)
    ensures type1 == Type1Count(rows)
  {
    var groups := RepeatedValues(rows);
    type1 := 0;
    var g := 0;
    while g < |groups|
      invariant 0 <= g <= |groups|
      invariant type1 == SumClose(rows, groups[..g])
    {
      var group := SortedGroup(rows, groups[g]);
      GroupAtLeastTwo(rows, groups, g);
      var close := CountCloseInGroup(group);
      type1 := type1 + close;
      SumCloseStep(rows, groups, g);
      g := g + 1;
    }
    assert groups[..g] == groups;
  }

  /** The inner loop of main.py:592-595 over one group's sorted dates. */
  method CountCloseInGroup(group: seq<Option<CalendarDate>>) returns (close: nat)
    requires |group| >= 1
    ensures close == CloseAdjacentIn(group, |group|)
  {
    close := 0;
    var i := 1;
    while i < |group|
      invariant 1 <= i <= |group|
      invariant close == CloseAdjacentIn(group, i)
    {
      if Close(group[i - 1], group[i]) {
        close := close + 1;
      }
      i := i + 1;
    }
  }

  /** `analyze_anomalies`: the Type 1 count and the sizes of the Type 2 and
      Type 3 masks. */
  method AnalyzeAnomalies(rows: seq<Detail>) returns (type1: nat, type2: nat, type3: nat)
    ensures type1 == Type1Count(rows)
    ensures type2 == Type2CountIn(rows, |rows|)
    ensures type3 == Type3CountIn(rows, |rows|) == 0
  {
    type1 := CountType1(rows);

    type2 := Type2CountIn(rows, |rows|);
    type3 := Type3CountIn(rows, |rows|);
    Type3AlwaysEmpty(rows, |rows|);
  }

  /** The figures shown for Types 2 and 3 are mask sizes divided by two
      (each matching pair marks two rows). */
  function ReportedPairs(maskSize: nat): (pairs: nat)
    ensures 2 * pairs <= maskSize < 2 * pairs + 2
  {
    maskSize / 2
  }
}
