/** The consumption-deviation page (main.py:841-1056): the object file is
    cleaned, filtered to a slice, every row of the slice gets its deviation
    from the slice mean in percent, a summary row with the mean is appended,
    and rows beyond ±25 % are singled out and coloured. */
module Deviation {
  import opened Common
  import opened Text

  // ---------------------------------------------------------------- loading

  /** A line of the object file as read: every cell as text, or missing. */
  datatype RawObject = RawObject(
    address: Option<string>,       // Адрес объекта
    objectType: Option<string>,    // Тип объекта
    category: Option<string>,      // Категория здания
    floors: Option<string>,        // Этажность объекта
    built: Option<string>,         // Дата постройки
    area: Option<string>,          // Общая площадь объекта
    hotWaterKind: Option<string>,  // Вид энерг-а ГВС
    consumption: Option<string>,   // Текущее потребление, Гкал
    year: Option<string>,          // Год
    month: Option<string>,         // Месяц
    latitude: Option<string>,      // Широта
    longitude: Option<string>)     // Долгота

  /** A cleaned line: the key columns are present and numeric. */
  datatype ObjectRow = ObjectRow(
    address: Option<string>,
    objectType: Option<string>,
    category: Option<string>,
    floors: real,
    built: int,
    area: real,
    hotWater: string,              // ГВС ИТП да/нет
    consumption: real,
    year: int,
    month: int,
    latitude: Option<real>,
    longitude: Option<real>)

  /** 'да' exactly when the hot-water kind is text containing "ГВС-ИТП". */
  function HotWaterFlag(kind: Option<string>): (r: string)
    ensures r == "да" <==> kind.Some? && Contains(kind.value, "ГВС-ИТП")
    ensures r == "да" || r == "нет"
  {
    if kind.Some? && Contains(kind.value, "ГВС-ИТП") then "да" else "нет"
  }

  /** `astype(str)` of a cell: a missing cell prints as "nan". */
  function CellText(c: Option<string>): string
  {
    match c
    case Some(s) => s
    case None => "nan"
  }

  /** `pd.to_numeric(cell.astype(str).str.replace(',', '.'), errors='coerce')`. */
  function NumericCell(c: Option<string>): Option<real>
  {
    ParseNumber(ReplaceChar(CellText(c), ',', '.'))
  }

  /** A missing cell stays missing. */
  lemma MissingCellStaysMissing()
    ensures NumericCell(None) == None
  {
    var nan := ReplaceChar("nan", ',', '.');
    assert nan == "nan";
    assert DotIndex(nan) == 3;
    assert !AllDigits(nan[..3]);
  }

  /** A decimal written with a comma reads as that decimal. */
  lemma CommaDecimalCell(whole: string, frac: string)
    requires AllDigits(whole) && AllDigits(frac) && |whole| > 0
    ensures NumericCell(Some(whole + "," + frac)) ==
      Some(DigitsValue(whole) as real + DigitsValue(frac) as real / Pow10(|frac|) as real)
  {
    assert CellText(Some(whole + "," + frac)) == whole + "," + frac;
    CommaDecimal(whole, frac);
  }

  /** A column of the frame: text as read, or numbers after conversion. */
  datatype Column = TextColumn(cells: seq<Option<string>>) | NumberColumn(values: seq<Option<real>>)

  /** The columns main.py:857-858 converts. */
  const NumericColumns: seq<string> :=
    ["Этажность объекта", "Общая площадь объекта", "Текущее потребление, Гкал", "Широта", "Долгота"]

  /** The conversion of one column. A column that already holds numbers
      prints and reads back as the same numbers. */
  function NumericColumn(c: Column): (r: Column)
    ensures r.NumberColumn?
    ensures c.TextColumn? ==> (|r.values| == |c.cells| &&
      forall i :: 0 <= i < |c.cells| ==> r.values[i] == NumericCell(c.cells[i]))
    ensures c.NumberColumn? ==> r == c
  {
    match c
    case TextColumn(cells) => NumberColumn(seq(|cells|, i requires 0 <= i < |cells| => NumericCell(cells[i])))
    case NumberColumn(_) => c
  }

  /** Converting a converted column again changes nothing. */
  lemma NumericColumnIdempotent(c: Column)
    ensures NumericColumn(NumericColumn(c)) == NumericColumn(c)
  {
  }

  /** The loop of main.py:857-862: each numeric column of the frame is
      replaced by its conversion, and every other column is left as it was.
      A missing column raises, and the page then works with no data (None). */
  method ConvertNumericColumns(frame: map<string, Column>) returns (out: Option<map<string, Column>>)
    ensures out.Some? <==> forall c :: c in NumericColumns ==> c in frame
    ensures out.Some? ==> (out.value.Keys == frame.Keys &&
      forall c :: c in frame ==> out.value[c] == if c in NumericColumns then NumericColumn(frame[c]) else frame[c])
  {
    var df := frame;
    for k := 0 to |NumericColumns|
      invariant df.Keys == frame.Keys
      invariant forall j :: 0 <= j < k ==> NumericColumns[j] in frame
      invariant forall c :: c in frame ==>
        df[c] == if c in NumericColumns[..k] then NumericColumn(frame[c]) else frame[c]
    {
      var col := NumericColumns[k];
      if col !in df {
        return None;
      }
      NumericColumnIdempotent(frame[col]);
      df := df[col := NumericColumn(df[col])];
      assert NumericColumns[..k + 1] == NumericColumns[..k] + [col];
    }
    assert NumericColumns[..|NumericColumns|] == NumericColumns;
    return Some(df);
  }

  /** The five numeric columns of the object file as read, one text cell per
      line: the frame that the loop of main.py:857-862 converts. */
  function NumericFrame(raw: seq<RawObject>): map<string, Column>
  {
    map[NumericColumns[0] := TextColumn(seq(|raw|, i requires 0 <= i < |raw| => raw[i].floors)),
        NumericColumns[1] := TextColumn(seq(|raw|, i requires 0 <= i < |raw| => raw[i].area)),
        NumericColumns[2] := TextColumn(seq(|raw|, i requires 0 <= i < |raw| => raw[i].consumption)),
        NumericColumns[3] := TextColumn(seq(|raw|, i requires 0 <= i < |raw| => raw[i].latitude)),
        NumericColumns[4] := TextColumn(seq(|raw|, i requires 0 <= i < |raw| => raw[i].longitude))]
  }

  /** `pd.to_numeric(..., errors='coerce').astype('Int64')` of one cell: a
      whole number, a missing cell, or a fraction, which cannot be cast. */
  datatype WholeCell = Whole(n: int) | MissingWhole | Fractional

  function WholeCellOf(c: Option<string>): (r: WholeCell)
    ensures r.Whole? <==> ParseNumber(CellText(c)).Some? && ParseNumber(CellText(c)).value.Floor as real == ParseNumber(CellText(c)).value
    ensures r.Whole? ==> ParseNumber(CellText(c)) == Some(r.n as real)
    ensures r.Fractional? <==> ParseNumber(CellText(c)).Some? && ParseNumber(CellText(c)).value.Floor as real != ParseNumber(CellText(c)).value
    ensures r.MissingWhole? <==> ParseNumber(CellText(c)).None?
  {
    match ParseNumber(CellText(c))
    case None => MissingWhole
    case Some(v) => if v == v.Floor as real then Whole(v.Floor) else Fractional
  }

  predicate CannotCast(r: RawObject)
  {
    WholeCellOf(r.year).Fractional? || WholeCellOf(r.month).Fractional?
  }

  /** One line after conversion, or None when `dropna` removes it (a key
      column is missing). The year of construction comes from the date
      parser `builtYear`. */
  function CleanObject(r: RawObject, builtYear: string -> Option<int>): Option<ObjectRow>
  {
    var floors, area, consumption := NumericCell(r.floors), NumericCell(r.area), NumericCell(r.consumption);
    var built := if r.built.Some? then builtYear(r.built.value) else None;
    var year, month := WholeCellOf(r.year), WholeCellOf(r.month);
    if floors.Some? && built.Some? && area.Some? && year.Whole? && month.Whole? && consumption.Some? then
      Some(ObjectRow(r.address, r.objectType, r.category, floors.value, built.value, area.value,
        HotWaterFlag(r.hotWaterKind), consumption.value, year.n, month.n,
        NumericCell(r.latitude), NumericCell(r.longitude)))
    else None
  }

  function Kept(o: Option<ObjectRow>): seq<ObjectRow>
  {
    if o.Some? then [o.value] else []
  }

  /** The complete lines, cleaned, in file order. */
  function CompleteObjects(raw: seq<RawObject>, builtYear: string -> Option<int>): (rows: seq<ObjectRow>)
    ensures |rows| <= |raw|
  {
    if raw == [] then []
    else CompleteObjects(raw[..|raw| - 1], builtYear) + Kept(CleanObject(raw[|raw| - 1], builtYear))
  }

  lemma {:induction false} CompleteObjectsKeeps(raw: seq<RawObject>, builtYear: string -> Option<int>, i: nat)
    requires i < |raw| && CleanObject(raw[i], builtYear).Some?
    ensures CleanObject(raw[i], builtYear).value in CompleteObjects(raw, builtYear)
  {
    var rest := raw[..|raw| - 1];
    var tail := Kept(CleanObject(raw[|raw| - 1], builtYear));
    assert CompleteObjects(raw, builtYear) == CompleteObjects(rest, builtYear) + tail;
    if i < |rest| {
      assert rest[i] == raw[i];
      CompleteObjectsKeeps(rest, builtYear, i);
    } else {
      var o := CleanObject(raw[i], builtYear);
      assert i == |raw| - 1;
      assert tail == Kept(o);
    }
  }

  lemma {:induction false} CompleteObjectsOrigin(raw: seq<RawObject>, builtYear: string -> Option<int>, x: ObjectRow)
    requires x in CompleteObjects(raw, builtYear)
    ensures exists i :: 0 <= i < |raw| && CleanObject(raw[i], builtYear) == Some(x)
  {
    var rest := raw[..|raw| - 1];
    var tail := Kept(CleanObject(raw[|raw| - 1], builtYear));
    assert CompleteObjects(raw, builtYear) == CompleteObjects(rest, builtYear) + tail;
    if x in CompleteObjects(rest, builtYear) {
      CompleteObjectsOrigin(rest, builtYear, x);
      var i :| 0 <= i < |rest| && CleanObject(rest[i], builtYear) == Some(x);
      assert raw[i] == rest[i];
    } else {
      assert x in tail;
    }
  }

  /** The column-wise conversion and the line-wise cleaning agree: cell `i` of
      each converted numeric column is the number that `CleanObject` reads
      from line `i`, and a kept line carries exactly those numbers. */
  lemma ConvertedColumnsMatchCleanObject(raw: seq<RawObject>, builtYear: string -> Option<int>, i: nat)
    requires i < |raw|
    ensures var f := NumericFrame(raw);
      (forall c :: c in NumericColumns ==> c in f) &&
      NumericColumn(f[NumericColumns[0]]).values[i] == NumericCell(raw[i].floors) &&
      NumericColumn(f[NumericColumns[1]]).values[i] == NumericCell(raw[i].area) &&
      NumericColumn(f[NumericColumns[2]]).values[i] == NumericCell(raw[i].consumption) &&
      NumericColumn(f[NumericColumns[3]]).values[i] == NumericCell(raw[i].latitude) &&
      NumericColumn(f[NumericColumns[4]]).values[i] == NumericCell(raw[i].longitude)
    ensures var f := NumericFrame(raw);
      CleanObject(raw[i], builtYear).Some? ==>
        var o := CleanObject(raw[i], builtYear).value;
        NumericColumn(f[NumericColumns[0]]).values[i] == Some(o.floors) &&
        NumericColumn(f[NumericColumns[1]]).values[i] == Some(o.area) &&
        NumericColumn(f[NumericColumns[2]]).values[i] == Some(o.consumption) &&
        NumericColumn(f[NumericColumns[3]]).values[i] == o.latitude &&
        NumericColumn(f[NumericColumns[4]]).values[i] == o.longitude
  {
    var f := NumericFrame(raw);
    assert forall c :: c in NumericColumns ==> c in f;
  }

  /** Every cleaned line has a hot-water flag of 'да' or 'нет'. */
  lemma CleanedFlags(raw: seq<RawObject>, builtYear: string -> Option<int>)
    ensures forall x :: x in CompleteObjects(raw, builtYear) ==> x.hotWater == "да" || x.hotWater == "нет"
  {
    forall x | x in CompleteObjects(raw, builtYear) ensures x.hotWater == "да" || x.hotWater == "нет" {
      CompleteObjectsOrigin(raw, builtYear, x);
    }
  }

  /** `load_data_1` (main.py:841-888): no rows at all when a year or month
      cannot be cast to a whole number, otherwise the complete lines. */
  function LoadObjects(raw: seq<RawObject>, builtYear: string -> Option<int>): seq<ObjectRow>
  {
    if exists i :: 0 <= i < |raw| && CannotCast(raw[i]) then []
    else CompleteObjects(raw, builtYear)
  }

  /** Every loaded row is the cleaned form of a line of the file; every line
      with all key columns readable is loaded unless the cast fails. */
  lemma LoadObjectsRows(raw: seq<RawObject>, builtYear: string -> Option<int>, i: nat, x: ObjectRow)
    ensures x in LoadObjects(raw, builtYear) ==>
      exists k :: 0 <= k < |raw| && CleanObject(raw[k], builtYear) == Some(x)
    ensures (i < |raw| && CleanObject(raw[i], builtYear) == Some(x) &&
      forall k :: 0 <= k < |raw| ==> !CannotCast(raw[k])) ==> x in LoadObjects(raw, builtYear)
  {
    if x in LoadObjects(raw, builtYear) {
      CompleteObjectsOrigin(raw, builtYear, x);
    }
    if i < |raw| && CleanObject(raw[i], builtYear) == Some(x) && forall k :: 0 <= k < |raw| ==> !CannotCast(raw[k]) {
      CompleteObjectsKeeps(raw, builtYear, i);
    }
  }

  // ---------------------------------------------------------------- the slice

  /** The filter widgets: three inclusive ranges, an optional year and
      month, and the hot-water choice 'Все', 'да' or 'нет'. */
  datatype Filters = Filters(
    floors: (int, int), area: (int, int), built: (int, int),
    year: Option<int>, month: Option<int>, hotWater: string)

  /** `if consumption_year:` — no choice and the choice 0 both leave the column unfiltered. */
  predicate Chosen(v: Option<int>)
  {
    v.Some? && v.value != 0
  }

  /** The query of main.py:932-944 for one row. */
  predicate InSlice(f: Filters, x: ObjectRow)
  {
    f.floors.0 as real <= x.floors <= f.floors.1 as real &&
    f.area.0 as real <= x.area <= f.area.1 as real &&
    f.built.0 <= x.built <= f.built.1 &&
    (Chosen(f.year) ==> x.year == f.year.value) &&
    (Chosen(f.month) ==> x.month == f.month.value) &&
    (f.hotWater != "Все" ==> x.hotWater == f.hotWater)
  }

  function Slice(rows: seq<ObjectRow>, f: Filters): (r: seq<ObjectRow>)
    ensures forall x :: x in r <==> x in rows && InSlice(f, x)
    ensures |r| <= |rows|
  {
    Filter(rows, x => InSlice(f, x))
  }

  /** With the hot-water choice set to 'да' and to 'нет' the two slices
      together are the slice for 'Все'. */
  lemma {:induction false} HotWaterSplitsSlice(rows: seq<ObjectRow>, f: Filters)
    requires forall x :: x in rows ==> x.hotWater == "да" || x.hotWater == "нет"
    ensures |Slice(rows, f.(hotWater := "да"))| + |Slice(rows, f.(hotWater := "нет"))| == |Slice(rows, f.(hotWater := "Все"))|
  {
    if rows != [] {
      HotWaterSplitsSlice(rows[..|rows| - 1], f);
    }
  }

  // ---------------------------------------------------------------- deviation

  function Sum(xs: seq<real>): real
  {
    if xs == [] then 0.0 else Sum(xs[..|xs| - 1]) + xs[|xs| - 1]
  }

  function Consumptions(rows: seq<ObjectRow>): (cs: seq<real>)
    ensures |cs| == |rows| && forall i :: 0 <= i < |rows| ==> cs[i] == rows[i].consumption
  {
    seq(|rows|, i requires 0 <= i < |rows| => rows[i].consumption)
  }

  /** `.mean()` of the consumption column of a non-empty slice. */
  function Mean(rows: seq<ObjectRow>): real
    requires rows != []
  {
    Sum(Consumptions(rows)) / |rows| as real
  }

  /** Round half to even to a whole number (`numpy.round`, Python `round`). */
  function RoundHalfEven(x: real): (n: int)
    ensures -0.5 <= n as real - x <= 0.5
  {
    var f := x.Floor;
    var d := x - f as real;
    if d < 0.5 then f else if d > 0.5 then f + 1 else if f % 2 == 0 then f else f + 1
  }

  /** `.round(2)` / `round(x, 2)` on exact values. */
  function Round2(x: real): (r: real)
    ensures -0.005 <= r - x <= 0.005
  {
    RoundHalfEven(x * 100.0) as real / 100.0
  }

  /** The exact deviation of a consumption from the mean, in percent. */
  function RawDeviation(v: real, mean: real): real
    requires mean != 0.0
  {
    (v - mean) / mean * 100.0
  }

  /** The value of 'Отклонение от среднего в %' for consumption `v`
      (main.py:966-972): rounded to two decimals, or 0 when the mean is 0. */
  function DeviationOf(v: real, mean: real): (d: real)
    ensures mean == 0.0 ==> d == 0.0
    ensures mean != 0.0 ==> -0.005 <= d - RawDeviation(v, mean) <= 0.005
  {
    if mean != 0.0 then Round2(RawDeviation(v, mean)) else 0.0
  }

  /** A row of the result table: a row of the slice with its deviation, or
      the appended summary row "Среднее значение" with the rounded mean and
      deviation 0. */
  datatype ResultRow = Data(row: ObjectRow, deviation: real) | Average(consumption: real)

  const AverageLabel: string := "Среднее значение"

  /** main.py:962-992: nothing for an empty slice; otherwise the slice with
      deviations followed by the summary row. */
  function ResultTable(slice: seq<ObjectRow>): (r: seq<ResultRow>)
    ensures slice == [] ==> r == []
    ensures slice != [] ==> |r| == |slice| + 1 && r[|slice|] == Average(Round2(Mean(slice)))
    ensures slice != [] ==> forall i :: 0 <= i < |slice| ==>
      r[i] == Data(slice[i], DeviationOf(slice[i].consumption, Mean(slice)))
  {
    if slice == [] then []
    else
      var m := Mean(slice);
      seq(|slice|, i requires 0 <= i < |slice| => Data(slice[i], DeviationOf(slice[i].consumption, m))) + [Average(Round2(m))]
  }

  /** Exact deviations from a non-zero mean cancel out: they sum to 0. */
  lemma RawDeviationsCancel(slice: seq<ObjectRow>)
    requires slice != [] && Mean(slice) != 0.0
    ensures var m := Mean(slice);
      Sum(seq(|slice|, i requires 0 <= i < |slice| => RawDeviation(slice[i].consumption, m))) == 0.0
  {
    var m := Mean(slice);
    var cs := Consumptions(slice);
    var ds := seq(|slice|, i requires 0 <= i < |slice| => RawDeviation(slice[i].consumption, m));
    var es := seq(|cs|, i requires 0 <= i < |cs| => cs[i] - m);
    assert Sum(es) == 0.0 by {
      MeanTimesCount(Sum(cs), |slice| as real);
      SumOfDifferences(cs, m, es);
    }
    ScaledDifferences(cs, m, es, ds);
    SumScaled(es, 100.0 / m, ds);
    ZeroFactor(Sum(ds), Sum(es), 100.0 / m);
  }

  /** The mean times the number of rows gives back the sum. */
  lemma MeanTimesCount(total: real, n: real)
    requires n != 0.0
    ensures n * (total / n) == total
  {
  }

  /** Each raw deviation is the difference from the mean, times 100 / mean. */
  lemma ScaledDifferences(cs: seq<real>, m: real, es: seq<real>, ds: seq<real>)
    requires m != 0.0 && |es| == |cs| && |ds| == |cs|
    requires forall i :: 0 <= i < |cs| ==> es[i] == cs[i] - m
    requires forall i :: 0 <= i < |cs| ==> ds[i] == RawDeviation(cs[i], m)
    ensures forall i :: 0 <= i < |cs| ==> ds[i] == es[i] * (100.0 / m)
  {
    forall i | 0 <= i < |cs| ensures ds[i] == es[i] * (100.0 / m) {
      ScaledDifference(cs[i], m, es[i]);
    }
  }

  lemma ScaledDifference(v: real, m: real, e: real)
    requires m != 0.0 && e == v - m
    ensures RawDeviation(v, m) == e * (100.0 / m)
  {
  }

  /** A product with a zero factor is zero. */
  lemma ZeroFactor(s: real, x: real, k: real)
    requires s == x * k && x == 0.0
    ensures s == 0.0
  {
  }

  /** The differences from `m` sum to the total minus `m` once per value. */
  lemma {:induction false} SumOfDifferences(cs: seq<real>, m: real, es: seq<real>)
    requires |es| == |cs|
    requires forall i :: 0 <= i < |cs| ==> es[i] == cs[i] - m
    ensures Sum(es) == Sum(cs) - |cs| as real * m
  {
    if cs != [] {
      var n := |cs| - 1;
      SumOfDifferences(cs[..n], m, es[..n]);
      Distribute(n as real, 1.0, m);
    }
  }

  /** Scaling every value scales the sum. */
  lemma {:induction false} SumScaled(es: seq<real>, k: real, ds: seq<real>)
    requires |ds| == |es|
    requires forall i :: 0 <= i < |es| ==> ds[i] == es[i] * k
    ensures Sum(ds) == Sum(es) * k
  {
    if es != [] {
      var n := |es| - 1;
      SumScaled(es[..n], k, ds[..n]);
      Distribute(Sum(es[..n]), es[n], k);
    }
  }

  lemma Distribute(a: real, b: real, k: real)
    ensures a * k + b * k == (a + b) * k
  {
  }

  /** Consumptions 100, 150 and 200 have mean 150 and deviations -33.33,
      0 and 33.33; the summary row shows 150. */
  lemma DeviationExample(x: ObjectRow)
    ensures var slice := [x.(consumption := 100.0), x.(consumption := 150.0), x.(consumption := 200.0)];
      ResultTable(slice) == [Data(slice[0], -33.33), Data(slice[1], 0.0), Data(slice[2], 33.33), Average(150.0)]
  {
    var slice := [x.(consumption := 100.0), x.(consumption := 150.0), x.(consumption := 200.0)];
    assert Consumptions(slice) == [100.0, 150.0, 200.0];
    assert Sum([100.0, 150.0, 200.0]) == 450.0 by {
      assert [100.0, 150.0, 200.0][..2] == [100.0, 150.0];
      assert [100.0, 150.0][..1] == [100.0];
    }
    assert Mean(slice) == 150.0;
    assert RawDeviation(100.0, 150.0) * 100.0 == -10000.0 / 3.0;
    assert (-10000.0 / 3.0).Floor == -3334;
    assert Round2(RawDeviation(100.0, 150.0)) == -33.33;
    assert RawDeviation(200.0, 150.0) * 100.0 == 10000.0 / 3.0;
    assert (10000.0 / 3.0).Floor == 3333;
    assert Round2(RawDeviation(200.0, 150.0)) == 33.33;
    assert Round2(RawDeviation(150.0, 150.0)) == 0.0;
    assert Round2(150.0) == 150.0;
  }

  // ---------------------------------------------------------------- anomalies

  /** 'Адрес объекта' after `fillna('')`. */
  function AddressText(r: ResultRow): string
  {
    match r
    case Data(x, _) => if x.address.Some? then x.address.value else ""
    case Average(_) => AverageLabel
  }

  function DeviationCell(r: ResultRow): real
  {
    match r
    case Data(_, d) => d
    case Average(_) => 0.0
  }

  predicate NotAverage(r: ResultRow)
  {
    AddressText(r) != AverageLabel
  }

  predicate IsHigh(r: ResultRow)
  {
    NotAverage(r) && DeviationCell(r) > 25.0
  }

  predicate IsLow(r: ResultRow)
  {
    NotAverage(r) && DeviationCell(r) < -25.0
  }

  /** main.py:1034-1041: the rows other than "Среднее значение" whose
      deviation is above 25 % and below -25 %. */
  function HighAnomalies(table: seq<ResultRow>): seq<ResultRow>
  {
    Filter(Filter(table, NotAverage), (r: ResultRow) => DeviationCell(r) > 25.0)
  }

  function LowAnomalies(table: seq<ResultRow>): seq<ResultRow>
  {
    Filter(Filter(table, NotAverage), (r: ResultRow) => DeviationCell(r) < -25.0)
  }

  /** The summary row is never an anomaly; no row is both high and low; an
      anomaly is a row of the slice whose deviation is strictly beyond 25 %. */
  lemma AnomaliesAreSliceRows(slice: seq<ObjectRow>, r: ResultRow)
    ensures r in HighAnomalies(ResultTable(slice)) <==> r in ResultTable(slice) && IsHigh(r)
    ensures r in LowAnomalies(ResultTable(slice)) <==> r in ResultTable(slice) && IsLow(r)
    ensures r in HighAnomalies(ResultTable(slice)) || r in LowAnomalies(ResultTable(slice)) ==> r.Data? && r.row in slice
    ensures !(r in HighAnomalies(ResultTable(slice)) && r in LowAnomalies(ResultTable(slice)))
  {
    var t := ResultTable(slice);
    if r in t && r.Data? {
      var i :| 0 <= i < |t| && t[i] == r;
      assert i < |slice| && r.row == slice[i];
    }
  }

  /** The anomaly counts: as many high rows as slice rows with address other
      than "Среднее значение" and deviation above 25 %, and likewise low. */
  lemma AnomalyCounts(table: seq<ResultRow>)
    ensures |HighAnomalies(table)| == Count(table, IsHigh)
    ensures |LowAnomalies(table)| == Count(table, IsLow)
    ensures |HighAnomalies(table)| + |LowAnomalies(table)| <= |table|
  {
    CountFilterOfFilter(table, NotAverage, (r: ResultRow) => DeviationCell(r) > 25.0, IsHigh);
    CountFilterOfFilter(table, NotAverage, (r: ResultRow) => DeviationCell(r) < -25.0, IsLow);
    HighLowCount(table);
  }

  lemma {:induction false} CountFilterOfFilter<T>(s: seq<T>, p: T -> bool, q: T -> bool, pq: T -> bool)
    requires forall x :: pq(x) == (p(x) && q(x))
    ensures |Filter(Filter(s, p), q)| == Count(s, pq)
  {
    if s != [] {
      var s' := s[..|s| - 1];
      CountFilterOfFilter(s', p, q, pq);
      FilterConcat(Filter(s', p), if p(s[|s| - 1]) then [s[|s| - 1]] else [], q);
    }
  }

  lemma {:induction false} HighLowCount(table: seq<ResultRow>)
    ensures Count(table, IsHigh) + Count(table, IsLow) <= |table|
  {
    if table != [] {
      HighLowCount(table[..|table| - 1]);
    }
  }

  /** A high row's exact deviation is at least 25.005 %, and every slice row
      whose exact deviation exceeds 25.005 % is high; likewise below -25. */
  lemma ThresholdsOnExactDeviation(v: real, mean: real)
    requires mean != 0.0
    ensures DeviationOf(v, mean) > 25.0 ==> RawDeviation(v, mean) >= 25.005
    ensures RawDeviation(v, mean) > 25.005 ==> DeviationOf(v, mean) > 25.0
    ensures DeviationOf(v, mean) < -25.0 ==> RawDeviation(v, mean) <= -25.005
    ensures RawDeviation(v, mean) < -25.005 ==> DeviationOf(v, mean) < -25.0
  {
    var x := RawDeviation(v, mean);
    var n := RoundHalfEven(x * 100.0);
    assert DeviationOf(v, mean) == n as real / 100.0;
  }

  /** With a zero mean no row is an anomaly. */
  lemma ZeroMeanNoAnomalies(slice: seq<ObjectRow>)
    requires slice != [] && Mean(slice) == 0.0
    ensures HighAnomalies(ResultTable(slice)) == [] && LowAnomalies(ResultTable(slice)) == []
  {
    var t := ResultTable(slice);
    forall r | r in t ensures DeviationCell(r) == 0.0 {
      var i :| 0 <= i < |t| && t[i] == r;
      if i < |slice| {
        assert r == Data(slice[i], DeviationOf(slice[i].consumption, 0.0));
      }
    }
    FilterNone(Filter(t, NotAverage), (r: ResultRow) => DeviationCell(r) > 25.0);
    FilterNone(Filter(t, NotAverage), (r: ResultRow) => DeviationCell(r) < -25.0);
  }

  // ---------------------------------------------------------------- styles

  const LowStyle: string := "background-color: #FFCCCC"
  const HighStyle: string := "background-color: #CCFFCC"

  /** `apply_styles` (main.py:995-1007): the colour of a whole row. */
  function StyleOf(r: ResultRow): string
  {
    if AddressText(r) == AverageLabel then ""
    else if DeviationCell(r) < -25.0 then LowStyle
    else if DeviationCell(r) > 25.0 then HighStyle
    else ""
  }

  /** The colouring agrees with the anomaly lists: a row is red exactly when
      it is a low anomaly and green exactly when it is a high one. */
  lemma StylesMatchAnomalies(table: seq<ResultRow>, i: nat)
    requires i < |table|
    ensures StyleOf(table[i]) == LowStyle <==> table[i] in LowAnomalies(table)
    ensures StyleOf(table[i]) == HighStyle <==> table[i] in HighAnomalies(table)
    ensures StyleOf(table[i]) == "" <==> table[i] !in LowAnomalies(table) && table[i] !in HighAnomalies(table)
  {
  }
}
