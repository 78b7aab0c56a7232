/** Reading cleanup: dropping meter ids that hold a comma (the zero-consumption
    page, main.py:205-208), and `process_data`'s removal of undated rows, date
    parsing and three-key deduplication (main.py:365-374). */
module Cleanup {
  import opened Common
  import opened Dates

  /** One line of the meter-reading export as read from the file. */
  datatype RawReading = RawReading(
    meterId: Option<string>,      // № ОДПУ
    address: Option<string>,      // Адрес объекта
    objectType: Option<string>,   // Тип объекта
    dateText: Option<string>,     // Дата текущего показания, unparsed
    consumption: Option<real>,    // Текущее потребление, Гкал
    month: Option<int>)           // Месяц

  /** A reading after `pd.to_datetime(..., errors='coerce')`: the date is
      missing (NaT) when the text could not be parsed. */
  datatype Reading = Reading(
    meterId: Option<string>,
    address: Option<string>,
    objectType: Option<string>,
    date: Option<CalendarDate>,
    consumption: Option<real>)

  // ---------------------------------------------------------------- comma filter

  /** `astype(str)` of a meter id: a missing id prints as "nan". */
  function MeterText(id: Option<string>): string
  {
    match id
    case Some(s) => s
    case None => "nan"
  }

  /** `.astype(str).str.contains(',')` for one row. */
  predicate HasCommaId(r: RawReading)
  {
    ',' in MeterText(r.meterId)
  }

  predicate NoCommaId(r: RawReading)
  {
    !HasCommaId(r)
  }

  /** The comma filter of main.py:205-208. Without the meter-id column the
      table is left as it is and an error is shown instead of a count (None). */
  function DropCommaIds(rows: seq<RawReading>, hasMeterColumn: bool): (r: (seq<RawReading>, Option<nat>))
    ensures hasMeterColumn ==> forall x :: x in r.0 ==> x in rows && ',' !in MeterText(x.meterId)
    ensures hasMeterColumn ==> forall x :: x in rows && ',' !in MeterText(x.meterId) ==> x in r.0
    ensures hasMeterColumn ==> r.1 == Some(Count(rows, HasCommaId)) && r.1 == Some(|rows| - |r.0|)
    ensures !hasMeterColumn ==> r == (rows, None)
  {
    if hasMeterColumn then
      var kept := Filter(rows, NoCommaId);
      var removed := Count(rows, HasCommaId);
      FilterCount(rows, NoCommaId);
      CountComplement(rows, HasCommaId, NoCommaId);
      (kept, Some(removed))
    else (rows, None)
  }

  /** Surviving rows keep their relative order: the filter of a table split
      in two is the filter of the first part followed by that of the second. */
  lemma DropCommaIdsKeepsOrder(a: seq<RawReading>, b: seq<RawReading>)
    ensures DropCommaIds(a + b, true).0 == DropCommaIds(a, true).0 + DropCommaIds(b, true).0
  {
    FilterConcat(a, b, NoCommaId);
  }

  // ---------------------------------------------------------------- process_data

  predicate HasDateText(r: RawReading)
  {
    r.dateText.Some?
  }

  /** `df[~df['Дата текущего показания'].isna()]` (main.py:367). */
  function DropUndated(rows: seq<RawReading>): (r: seq<RawReading>)
    ensures forall x :: x in r ==> x in rows && x.dateText.Some?
    ensures forall x :: x in rows && x.dateText.Some? ==> x in r
    ensures |r| + Count(rows, (x: RawReading) => x.dateText.None?) == |rows|
  {
    FilterCount(rows, HasDateText);
    CountComplement(rows, HasDateText, (x: RawReading) => x.dateText.None?);
    Filter(rows, HasDateText)
  }

  /** `pd.to_datetime(..., errors='coerce')` applied to the date column; the
      library's multi-format parser is the parameter `parse`. */
  function ParseDates(rows: seq<RawReading>, parse: string -> Option<CalendarDate>): (r: seq<Reading>)
    requires forall x :: x in rows ==> x.dateText.Some?
    ensures |r| == |rows|
    ensures forall i :: 0 <= i < |rows| ==>
      r[i] == Reading(rows[i].meterId, rows[i].address, rows[i].objectType,
                      parse(rows[i].dateText.value), rows[i].consumption)
  {
    seq(|rows|, i requires 0 <= i < |rows| =>
      var x := rows[i];
      Reading(x.meterId, x.address, x.objectType, parse(x.dateText.value), x.consumption))
  }

  /** The deduplication key: meter id, reading date, consumption. */
  function ReadingKey(r: Reading): (Option<string>, Option<CalendarDate>, Option<real>)
  {
    (r.meterId, r.date, r.consumption)
  }

  /** `drop_duplicates(subset=['№ ОДПУ', 'Дата текущего показания',
      'Текущее потребление, Гкал'])` (main.py:374): the first row of every
      key; rows differing in any key field all survive. */
  function DedupReadings(rows: seq<Reading>): (r: seq<Reading>)
    ensures |r| <= |rows|
    ensures forall i, j :: 0 <= i < j < |r| ==> ReadingKey(r[i]) != ReadingKey(r[j])
    ensures KeysOf(r, ReadingKey) == KeysOf(rows, ReadingKey)
    ensures forall i :: 0 <= i < |r| ==>
      ReadingKey(r[i]) in KeysOf(rows, ReadingKey) &&
      r[i] == rows[FirstIndex(rows, ReadingKey, ReadingKey(r[i]))]
  {
    DedupFirst(rows, ReadingKey)
  }

  /** The kept readings are in the order of their keys' first occurrences. */
  lemma DedupReadingsKeepsOrder(rows: seq<Reading>, i: nat, j: nat)
    requires i < j < |DedupReadings(rows)|
    ensures var r := DedupReadings(rows);
      ReadingKey(r[i]) in KeysOf(rows, ReadingKey) && ReadingKey(r[j]) in KeysOf(rows, ReadingKey) &&
      FirstIndex(rows, ReadingKey, ReadingKey(r[i])) < FirstIndex(rows, ReadingKey, ReadingKey(r[j]))
  {
    DedupKeepsOrder(rows, ReadingKey, i, j);
  }

  /** Deduplicating the deduplicated table changes nothing. */
  lemma DedupReadingsIdempotent(rows: seq<Reading>)
    ensures DedupReadings(DedupReadings(rows)) == DedupReadings(rows)
  {
    DedupIdempotent(rows, ReadingKey);
  }

  /** The dated rows of the export with their dates parsed, in file order:
      the table that `drop_duplicates` runs on at main.py:374. */
  function ParsedDated(rows: seq<RawReading>, parse: string -> Option<CalendarDate>): (r: seq<Reading>)
    ensures |r| <= |rows|
    ensures forall i :: 0 <= i < |r| ==>
      exists x :: x in rows && x.dateText.Some? &&
        r[i] == Reading(x.meterId, x.address, x.objectType, parse(x.dateText.value), x.consumption)
    ensures forall x :: x in rows && x.dateText.Some? ==>
      (x.meterId, parse(x.dateText.value), x.consumption) in KeysOf(r, ReadingKey)
  {
    var dated := DropUndated(rows);
    var parsed := ParseDates(dated, parse);
    assert forall i :: 0 <= i < |parsed| ==> dated[i] in rows && dated[i].dateText.Some?;
    forall x | x in rows && x.dateText.Some?
      ensures (x.meterId, parse(x.dateText.value), x.consumption) in KeysOf(parsed, ReadingKey)
    {
      var i :| 0 <= i < |dated| && dated[i] == x;
      assert ReadingKey(parsed[i]) == (x.meterId, parse(x.dateText.value), x.consumption);
    }
    parsed
  }

  /** `process_data`'s table of unique readings (`df_unique`, main.py:365-374):
      undated rows dropped, dates parsed, duplicates on the three-key removed.
      Every output row is the parsed form of a dated input row, namely the
      first one with its key; every dated input row's key is kept. */
  function UniqueReadings(rows: seq<RawReading>, parse: string -> Option<CalendarDate>): (r: seq<Reading>)
    ensures |r| <= |rows|
    ensures forall i, j :: 0 <= i < j < |r| ==> ReadingKey(r[i]) != ReadingKey(r[j])
    ensures forall x :: x in rows && x.dateText.Some? ==>
      (x.meterId, parse(x.dateText.value), x.consumption) in KeysOf(r, ReadingKey)
    ensures forall i :: 0 <= i < |r| ==>
      exists x :: x in rows && x.dateText.Some? &&
        r[i] == Reading(x.meterId, x.address, x.objectType, parse(x.dateText.value), x.consumption)
    ensures var p := ParsedDated(rows, parse);
      forall i :: 0 <= i < |r| ==>
        ReadingKey(r[i]) in KeysOf(p, ReadingKey) && r[i] == p[FirstIndex(p, ReadingKey, ReadingKey(r[i]))]
  {
    var parsed := ParsedDated(rows, parse);
    var unique := DedupReadings(parsed);
    assert forall i :: 0 <= i < |unique| ==> unique[i] in parsed by {
      forall i | 0 <= i < |unique| ensures unique[i] in parsed {
        assert ReadingKey(unique[i]) in KeysOf(parsed, ReadingKey);
      }
    }
    unique
  }
}
