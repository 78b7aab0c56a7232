/** The temperature page's preparation (main.py:650-704): each reading date
    is moved back one calendar month and written as "MM-YYYY", the readings
    are left-joined with the monthly temperatures on that text, rows without
    a temperature are dropped, and the key is read back as the first day of
    its month. */
module Period {
  import opened Common
  import opened Text
  import opened Dates

  /** A date pandas can hold as a timestamp (its range is roughly
      1677-09-21 to 2262-04-11), taken here in whole years. */
  type Stamp = d: CalendarDate | 1678 <= d.year <= 2261 witness Date(2000, 1, 1)

  /** A line of the usage file after date parsing (NaT is None). */
  datatype Usage = Usage(meterId: Option<string>, date: Option<Stamp>, consumption: Option<real>)

  /** A line of the temperature file: the month text and the temperature. */
  datatype Temperature = Temperature(month: Option<string>, temperature: Option<real>)

  /** A usage line with its period key in place of the date ('Дата_Показания')
      and the temperature the merge attached. */
  datatype Merged = Merged(meterId: Option<string>, key: Option<string>, consumption: Option<real>, temperature: Option<real>)

  /** A row of the analysis table: every cell present, the period as the
      first day of its month. */
  datatype AnalysisRow = AnalysisRow(meterId: string, period: CalendarDate, consumption: real, temperature: real)

  // ---------------------------------------------------------------- the key

  /** `%m`: the month with two digits. */
  function Pad2(m: nat): (r: string)
    requires 1 <= m <= 12
    ensures |r| == 2 && AllDigits(r) && DigitsValue(r) == m
  {
    NatToStringValue(m);
    if m < 10 then
      var r := "0" + NatToString(m);
      assert r[..1] == "0" && DigitsValue(r[..1]) == 0;
      r
    else
      var r := NatToString(m);
      assert r[..1] == NatToString(m / 10);
      r
  }

  /** `%Y`: a year of the timestamp range has four digits. */
  lemma YearDigits(y: nat)
    requires 1000 <= y <= 9999
    ensures |NatToString(y)| == 4
  {
    assert NatToString(y) == NatToString(y / 10) + [('0' as int + y % 10) as char];
    assert NatToString(y / 10) == NatToString(y / 100) + [('0' as int + (y / 10) % 10) as char];
    assert NatToString(y / 100) == NatToString(y / 1000) + [('0' as int + (y / 100) % 10) as char];
  }

  /** `strftime('%m-%Y')` of the first day of a month. */
  function MonthText(year: nat, month: nat): (r: string)
    requires 1 <= month <= 12
  {
    Pad2(month) + "-" + NatToString(year)
  }

  /** `(to_datetime(date) - DateOffset(months=1)).dt.strftime('%m-%Y')`:
      the month before the reading's, as text; NaT stays missing. */
  function PeriodKey(date: Option<Stamp>): Option<string>
  {
    match date
    case None => None
    case Some(d) =>
      var p := ShiftBackOneMonth(d);
      Some(MonthText(p.year, p.month))
  }

  /** `to_datetime(key, format='%m-%Y', errors='coerce')`: a month of one or
      two digits, a dash and a four-digit year give the first day of that
      month; anything else is missing. */
  function ParseMonthText(s: string): (r: Option<CalendarDate>)
    ensures r.Some? ==> r.value.day == 1
  {
    var dash := if |s| == 7 then 2 else 1;
    if (|s| == 7 || |s| == 6) && s[dash] == '-' && AllDigits(s[..dash]) && AllDigits(s[dash + 1..]) then
      var m, y := DigitsValue(s[..dash]), DigitsValue(s[dash + 1..]);
      if 1 <= m <= 12 then var d: CalendarDate := Date(y, m, 1); Some(d) else None
    else None
  }

  /** Reading the written month back gives the first day of that month. */
  lemma MonthTextRoundTrip(year: nat, month: nat)
    requires 1000 <= year <= 9999 && 1 <= month <= 12
    ensures var d: CalendarDate := Date(year, month, 1); ParseMonthText(MonthText(year, month)) == Some(d)
  {
    var s := MonthText(year, month);
    YearDigits(year);
    NatToStringValue(year);
    assert s[..2] == Pad2(month);
    assert s[3..] == NatToString(year);
  }

  /** Different months are written differently. */
  lemma MonthTextInjective(y1: nat, m1: nat, y2: nat, m2: nat)
    requires 1000 <= y1 <= 9999 && 1 <= m1 <= 12 && 1000 <= y2 <= 9999 && 1 <= m2 <= 12
    requires MonthText(y1, m1) == MonthText(y2, m2)
    ensures y1 == y2 && m1 == m2
  {
    MonthTextRoundTrip(y1, m1);
    MonthTextRoundTrip(y2, m2);
  }

  /** The first day of the month before `d`'s. */
  function FirstOfPreviousMonth(d: CalendarDate): (e: CalendarDate)
    ensures e.day == 1 && MonthIndex(e.year, e.month) == MonthIndex(d.year, d.month) - 1
  {
    if d.month == 1 then Date(d.year - 1, 12, 1) else Date(d.year, d.month - 1, 1)
  }

  /** A reading of month m of year y gets the key of month m - 1 of year y,
      and one of January the key of December of year y - 1; the key reads
      back as the first day of that month. */
  lemma PeriodKeyIsPreviousMonth(d: Stamp)
    ensures var e := FirstOfPreviousMonth(d);
      PeriodKey(Some(d)) == Some(MonthText(e.year, e.month)) && ParseMonthText(PeriodKey(Some(d)).value) == Some(e)
    ensures d.month == 1 ==> PeriodKey(Some(d)) == Some(MonthText(d.year - 1, 12))
    ensures d.month != 1 ==> PeriodKey(Some(d)) == Some(MonthText(d.year, d.month - 1))
  {
    ShiftBackMonth(d);
    var p := ShiftBackOneMonth(d);
    MonthTextRoundTrip(p.year, p.month);
  }

  /** Readings of the same calendar month get the same key, readings of
      different months different keys. */
  lemma PeriodKeySameMonth(a: Stamp, b: Stamp)
    ensures PeriodKey(Some(a)) == PeriodKey(Some(b)) <==> a.year == b.year && a.month == b.month
  {
    var pa, pb := ShiftBackOneMonth(a), ShiftBackOneMonth(b);
    if PeriodKey(Some(a)) == PeriodKey(Some(b)) {
      MonthTextInjective(pa.year, pa.month, pb.year, pb.month);
    }
  }

  lemma Year2024()
    ensures NatToString(2024) == "2024" && NatToString(2023) == "2023"
  {
    assert NatToString(2) == "2" && NatToString(20) == "20" && NatToString(202) == "202";
  }

  /** 15 March 2024 belongs to the February 2024 period. */
  lemma PeriodKeyMarch()
    ensures PeriodKey(Some(Date(2024, 3, 15))) == Some("02-2024")
  {
    var d: Stamp := Date(2024, 3, 15);
    assert ShiftBackOneMonth(d) == Date(2024, 2, 15);
    assert PeriodKey(Some(d)) == Some(MonthText(2024, 2));
    Year2024();
    assert Pad2(2) == "02";
    assert MonthText(2024, 2) == "02" + "-" + "2024" == "02-2024";
  }

  /** 10 January 2024 belongs to the December 2023 period. */
  lemma PeriodKeyJanuary()
    ensures PeriodKey(Some(Date(2024, 1, 10))) == Some("12-2023")
  {
    var d: Stamp := Date(2024, 1, 10);
    assert ShiftBackOneMonth(d) == Date(2023, 12, 10);
    assert PeriodKey(Some(d)) == Some(MonthText(2023, 12));
    Year2024();
    assert Pad2(12) == "12" by { assert NatToString(1) == "1"; }
    assert MonthText(2023, 12) == "12" + "-" + "2023" == "12-2023";
  }

  // ---------------------------------------------------------------- the merge

  /** The usage line with its key in place of the date. */
  function Keyed(u: Usage): Merged
  {
    Merged(u.meterId, PeriodKey(u.date), u.consumption, None)
  }

  /** Temperatures of every temperature row whose month text equals `k`, in
      file order (pandas merges a missing key with a missing key). */
  function TemperaturesFor(k: Option<string>, temps: seq<Temperature>): (r: seq<Option<real>>)
    ensures |r| <= |temps|
  {
    if temps == [] then []
    else
      var rest := TemperaturesFor(k, temps[..|temps| - 1]);
      var t := temps[|temps| - 1];
      rest + (if t.month == k then [t.temperature] else [])
  }

  /** Every matching temperature row is found. */
  lemma {:induction false} TemperaturesForComplete(k: Option<string>, temps: seq<Temperature>, j: nat)
    requires j < |temps| && temps[j].month == k
    ensures temps[j].temperature in TemperaturesFor(k, temps)
  {
    var rest := temps[..|temps| - 1];
    if j < |rest| {
      assert rest[j] == temps[j];
      TemperaturesForComplete(k, rest, j);
    }
  }

  /** Every found temperature comes from a matching temperature row. */
  lemma {:induction false} TemperaturesForSound(k: Option<string>, temps: seq<Temperature>, t: Option<real>)
    requires t in TemperaturesFor(k, temps)
    ensures exists j :: 0 <= j < |temps| && temps[j].month == k && temps[j].temperature == t
  {
    var rest := temps[..|temps| - 1];
    if t in TemperaturesFor(k, rest) {
      TemperaturesForSound(k, rest, t);
      var j :| 0 <= j < |rest| && rest[j].month == k && rest[j].temperature == t;
      assert temps[j] == rest[j];
    } else {
      assert temps[|temps| - 1].temperature == t;
    }
  }

  /** The rows one usage line contributes to the left merge. */
  function MergeOne(u: Usage, temps: seq<Temperature>): (out: seq<Merged>)
    ensures |out| >= 1
    ensures forall k :: 0 <= k < |out| ==> out[k] == Keyed(u).(temperature := out[k].temperature)
  {
    var ts := TemperaturesFor(PeriodKey(u.date), temps);
    if ts == [] then [Keyed(u)]
    else seq(|ts|, i requires 0 <= i < |ts| => Keyed(u).(temperature := ts[i]))
  }

  /** `usage_df.merge(temp_df, on='Дата_Показания', how='left')`. */
  function MergeTemperatures(usage: seq<Usage>, temps: seq<Temperature>): (out: seq<Merged>)
    ensures |out| >= |usage|
  {
    if usage == [] then []
    else MergeOne(usage[0], temps) + MergeTemperatures(usage[1..], temps)
  }

  predicate HasTemperature(m: Merged)
  {
    m.temperature.Some?
  }

  /** main.py:665-681: keyed, merged, and rows without a temperature dropped. */
  function WithTemperature(usage: seq<Usage>, temps: seq<Temperature>): seq<Merged>
  {
    Filter(MergeTemperatures(usage, temps), HasTemperature)
  }

  lemma {:induction false} MergeTemperaturesMember(usage: seq<Usage>, temps: seq<Temperature>, m: Merged, i: nat)
    requires i < |usage| && m in MergeOne(usage[i], temps)
    ensures m in MergeTemperatures(usage, temps)
  {
    if i > 0 {
      MergeTemperaturesMember(usage[1..], temps, m, i - 1);
    }
  }

  lemma {:induction false} MergeTemperaturesOrigin(usage: seq<Usage>, temps: seq<Temperature>, m: Merged)
    requires m in MergeTemperatures(usage, temps)
    ensures exists i :: 0 <= i < |usage| && m in MergeOne(usage[i], temps)
  {
    if m !in MergeOne(usage[0], temps) {
      MergeTemperaturesOrigin(usage[1..], temps, m);
      var i :| 0 <= i < |usage[1..]| && m in MergeOne(usage[1..][i], temps);
      assert usage[1..][i] == usage[i + 1];
    }
  }

  /** A usage line and a temperature row of the same month with a
      temperature give a row of the table. */
  lemma WithTemperatureComplete(usage: seq<Usage>, temps: seq<Temperature>, i: nat, j: nat)
    requires i < |usage| && j < |temps|
    requires temps[j].month == PeriodKey(usage[i].date) && temps[j].temperature.Some?
    ensures Keyed(usage[i]).(temperature := temps[j].temperature) in WithTemperature(usage, temps)
  {
    var u := usage[i];
    var m := Keyed(u).(temperature := temps[j].temperature);
    TemperaturesForComplete(PeriodKey(u.date), temps, j);
    var ts := TemperaturesFor(PeriodKey(u.date), temps);
    var k :| 0 <= k < |ts| && ts[k] == temps[j].temperature;
    assert MergeOne(u, temps)[k] == m;
    MergeTemperaturesMember(usage, temps, m, i);
  }

  /** Every row of the table has a temperature, taken from a temperature row
      whose month text is the key of a usage line that the row repeats. */
  lemma WithTemperatureSound(usage: seq<Usage>, temps: seq<Temperature>, m: Merged)
    requires m in WithTemperature(usage, temps)
    ensures m.temperature.Some?
    ensures exists i, j :: (0 <= i < |usage| && 0 <= j < |temps| &&
      temps[j].month == PeriodKey(usage[i].date) && temps[j].temperature == m.temperature &&
      m == Keyed(usage[i]).(temperature := m.temperature))
  {
    MergeTemperaturesOrigin(usage, temps, m);
    var i :| 0 <= i < |usage| && m in MergeOne(usage[i], temps);
    var u := usage[i];
    var ts := TemperaturesFor(PeriodKey(u.date), temps);
    assert ts != [] && m.temperature in ts;
    TemperaturesForSound(PeriodKey(u.date), temps, m.temperature);
  }

  // ---------------------------------------------------------------- the analysis table

  /** `load_data`'s `dropna()` on the four columns followed by the parse of
      the key and the drop of unparsed keys. */
  function AnalysisTable(merged: seq<Merged>): (r: seq<AnalysisRow>)
    ensures forall x :: x in r ==> x.period.day == 1
  {
    if merged == [] then []
    else
      var rest := AnalysisTable(merged[..|merged| - 1]);
      var m := merged[|merged| - 1];
      if m.meterId.Some? && m.key.Some? && m.consumption.Some? && m.temperature.Some? then
        match ParseMonthText(m.key.value)
        case Some(p) => rest + [AnalysisRow(m.meterId.value, p, m.consumption.value, m.temperature.value)]
        case None => rest
      else rest
  }

  lemma {:induction false} AnalysisTableComplete(merged: seq<Merged>, k: nat, p: CalendarDate)
    requires k < |merged|
    requires merged[k].meterId.Some? && merged[k].key.Some? && merged[k].consumption.Some? && merged[k].temperature.Some?
    requires ParseMonthText(merged[k].key.value) == Some(p)
    ensures AnalysisRow(merged[k].meterId.value, p, merged[k].consumption.value, merged[k].temperature.value)
      in AnalysisTable(merged)
  {
    var rest := merged[..|merged| - 1];
    if k < |rest| {
      assert rest[k] == merged[k];
      AnalysisTableComplete(rest, k, p);
    }
  }

  /** The row a merged line becomes when all four cells are present and its key parses to `p`. */
  predicate AnalysedFrom(m: Merged, p: CalendarDate, x: AnalysisRow)
  {
    m.meterId.Some? && m.key.Some? && m.consumption.Some? && m.temperature.Some? &&
    ParseMonthText(m.key.value) == Some(p) &&
    x == AnalysisRow(m.meterId.value, p, m.consumption.value, m.temperature.value)
  }

  /** Every row of the analysis table comes from a merged line with all four
      cells present and a readable key: nothing else enters the table. */
  lemma {:induction false} AnalysisTableSound(merged: seq<Merged>, x: AnalysisRow)
    requires x in AnalysisTable(merged)
    ensures exists k, p :: 0 <= k < |merged| && AnalysedFrom(merged[k], p, x)
  {
    var rest := merged[..|merged| - 1];
    var m := merged[|merged| - 1];
    if x in AnalysisTable(rest) {
      AnalysisTableSound(rest, x);
      var k, p :| 0 <= k < |rest| && AnalysedFrom(rest[k], p, x);
      assert merged[k] == rest[k];
    } else {
      var p := ParseMonthText(m.key.value).value;
      assert AnalysedFrom(merged[|merged| - 1], p, x);
    }
  }

  /** The table the temperature page analyses (main.py:650-704). */
  function TemperatureTable(usage: seq<Usage>, temps: seq<Temperature>): seq<AnalysisRow>
  {
    AnalysisTable(WithTemperature(usage, temps))
  }

  /** A merged row with every cell present and a readable key is in the analysis table. */
  lemma MergedRowAnalysed(merged: seq<Merged>, m: Merged, p: CalendarDate)
    requires m in merged
    requires m.meterId.Some? && m.key.Some? && m.consumption.Some? && m.temperature.Some?
    requires ParseMonthText(m.key.value) == Some(p)
    ensures AnalysisRow(m.meterId.value, p, m.consumption.value, m.temperature.value) in AnalysisTable(merged)
  {
    var k :| 0 <= k < |merged| && merged[k] == m;
    AnalysisTableComplete(merged, k, p);
  }

  /** A complete usage line whose period has a temperature reaches the
      analysis table, dated the first day of the month before its reading. */
  lemma TemperatureTableKeepsMatchedReadings(usage: seq<Usage>, temps: seq<Temperature>, i: nat, j: nat)
    requires i < |usage| && j < |temps|
    requires usage[i].meterId.Some? && usage[i].date.Some? && usage[i].consumption.Some?
    requires temps[j].month == PeriodKey(usage[i].date) && temps[j].temperature.Some?
    ensures AnalysisRow(usage[i].meterId.value, FirstOfPreviousMonth(usage[i].date.value), usage[i].consumption.value, temps[j].temperature.value)
        in TemperatureTable(usage, temps)
  {
    var d := usage[i].date.value;
    var e := FirstOfPreviousMonth(d);
    var m := Keyed(usage[i]).(temperature := temps[j].temperature);
    var w := WithTemperature(usage, temps);
    assert m in w by { WithTemperatureComplete(usage, temps, i, j); }
    assert ParseMonthText(m.key.value) == Some(e) by { PeriodKeyIsPreviousMonth(d); }
    MergedRowAnalysed(w, m, e);
  }
}
