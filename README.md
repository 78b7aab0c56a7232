# Meter-reading anomaly pipelines, modelled in Dafny

This project models the record-processing logic of `main.py`, a Streamlit
application that looks for anomalies in heat-meter (ОДПУ) readings. The
widgets, files and charts are stripped away. What remains is a set of
deterministic transformations over tables of readings. Each is modelled here
over `seq` values of datatypes whose cells are `Option`s, since a missing
pandas cell (NaN, NaT) is `None`.

The modules follow the pipelines of the application:

- `Common` (common.dfy): generic table operations:
  - boolean-mask selection (`Filter`);
  - counting;
  - `drop_duplicates(keep='first')` (`DedupFirst`).
- `Text` (text.dfy): string operations the pipelines rely on:
  - Python's `str.strip()` and `str.lower()`;
  - substring tests;
  - `str.replace(',', '.')`;
  - the decimal grammar `pd.to_numeric` accepts;
  - decimal rendering of whole numbers;
  - Python's code-point order of strings.
- `Dates` (dates.dfy): proleptic Gregorian calendar dates:
  - a day number whose differences are pandas' `.days`;
  - the one-month step back of `DateOffset(months=1)`.
- `Cleanup` (cleanup.dfy):
  - the comma filter on meter ids (first page);
  - `process_data`'s removal of undated rows, date parsing and three-key deduplication (second page).
- `Registry` (registry.dfy): the zero-consumption page:
  - registry deduplication;
  - address normalisation and the left join;
  - `fillna(0)` and the heating-season flag.
- `Temporal` (temporal.dfy): `analyze_anomalies` for one meter:
  - the Type 1 count (a nested loop, modelled as two methods with loop invariants);
  - the Type 2 and Type 3 masks;
  - the figures reported for them.
- `Meters` (meters.dfy): `process_data`'s per-meter lists of dates with repeated consumption, sorted.
- `Period` (period.dfy): the temperature page:
  - the month-lag key `MM-YYYY`;
  - the left join with temperatures, keeping rows that have a temperature;
  - the analysis table.
- `Deviation` (deviation.dfy): the deviation page:
  - numeric cleanup of the object file (the column loop is a method);
  - the slice filters;
  - the deviation from the slice mean in percent;
  - the appended "Среднее значение" row;
  - the ±25 % anomaly lists and the row colouring.
- `Report` (report.dfy): `format_anomaly_report`:
  - counts per (object type, building category) in pandas' sorted group order;
  - the report text, built by a loop as in the source.

Library date parsing (`pd.to_datetime` with inferred formats) is a function
parameter (`parse`, `builtYear`) or an already-parsed `Option` date.
Consumption and the other numbers are exact reals. `.round(2)` is round-half-even on exact values.

## Model

| member | source | states |
|---|---|---|
| Common.Filter | main.py:207 | boolean-mask selection keeps exactly the rows satisfying the mask and no more rows than the input |
| Common.DedupFirst | main.py:374 | `drop_duplicates(keep='first')`: distinct keys, the same key set as the input, and each kept row is the first row of the input with its key |
| Common.DedupKeepsOrder | main.py:374 | kept rows appear in the order of their keys' first occurrences |
| Common.DedupIdempotent | main.py:374 | deduplicating twice is deduplicating once |
| Common.DedupDistinct | main.py:215 | a table whose keys are already distinct is left unchanged |
| Common.CountComplement | main.py:238 | rows satisfying a mask and rows satisfying its negation together are all rows |
| Cleanup.DropCommaIds | main.py:205-210 | with the meter column: the kept rows are exactly the input rows whose printed id has no comma, and the reported count is the number of comma rows, which equals the number of rows removed; without the column, the table is unchanged and nothing is counted |
| Cleanup.DropCommaIdsKeepsOrder | main.py:207 | the filter distributes over concatenation, so surviving rows keep their relative order |
| Cleanup.DropUndated | main.py:367 | exactly the rows with a date are kept; kept plus undated rows are all rows |
| Cleanup.ParseDates | main.py:370-371 | each row gets the parser's result for its date text (missing when unparsable); meter id, address, object type and consumption unchanged, row count unchanged |
| Cleanup.DedupReadings | main.py:374 | no two kept rows share (meter id, date, consumption); every key of the input survives; each kept row is the first with its key |
| Cleanup.DedupReadingsKeepsOrder | main.py:374 | kept rows are in the order of their keys' first occurrences |
| Cleanup.DedupReadingsIdempotent | main.py:374 | applying the three-key deduplication twice equals applying it once |
| Cleanup.ParsedDated | main.py:367-371 | every row is the parsed form of a dated input row, and every dated input row's key is present |
| Cleanup.UniqueReadings | main.py:365-374 | after dropping undated rows, parsing and deduplicating, keys are distinct, every dated input row's key is present, and every kept row is the parsed form of a dated input row, the first parsed row with its key |
| Text.TrimSpec | main.py:218-219 | `strip()` removes a whitespace prefix and suffix only, and the result neither starts nor ends with whitespace |
| Text.TrimFramed | main.py:218-219 | stripping whitespace-framed text with no whitespace at its ends returns that text |
| Text.TrimPadding | main.py:218-219 | extra surrounding whitespace does not change the result of `strip()` |
| Text.Lower | main.py:218-219 | `lower()` maps each character separately and keeps the length |
| Text.LowerTrimCommute | main.py:218-219 | lowering and stripping commute, because lowering keeps whitespace |
| Text.NormalizeIgnoresCase | main.py:218-219 | addresses equal after lowering normalise to the same key |
| Text.NormalizeIgnoresPadding | main.py:218-219 | surrounding whitespace does not change the normalised address |
| Text.NormalizeIdempotent | main.py:218-219 | normalising an address twice is normalising it once |
| Text.ReplaceChar | main.py:860 | `str.replace(',', '.')` replaces each comma by a dot and changes nothing else |
| Text.ParseDotted | main.py:859-862 | a dotted decimal with a non-empty integer part parses to integer part plus fraction digits over 10^(number of digits) |
| Text.CommaDecimal | main.py:859-862 | a comma decimal parses, after comma-to-dot, to the same value as the dotted form |
| Text.NatToStringValue | main.py:1054 | the decimal rendering of a count reads back as that count |
| Text.ParseRendered | main.py:859-862 | a whole number printed by `astype(str)` parses back to itself |
| Text.LessTransitive | main.py:1048-1050 | the string order used to sort groups is transitive |
| Text.LessTotal | main.py:1048-1050 | any two different strings are ordered one way or the other |
| Dates.DaysInMonth | main.py:666 | month lengths are 28 to 31 days |
| Dates.YearLength | main.py:593-594 | consecutive years are 365 or 366 days apart in the day numbering |
| Dates.DayNumberOrder | main.py:587-594 | comparing dates equals comparing day numbers, and equal day numbers are equal dates, so `.days` differences follow the calendar |
| Dates.ShiftBackOneMonth | main.py:666 | `DateOffset(months=1)` subtracted lands in the previous month, on the same day or clamped to that month's last day |
| Dates.ShiftBackMonth | main.py:666 | January steps back to December of the previous year; any other month to the month before in the same year |
| Dates.JanuaryToFebruaryGap | main.py:593-594 | 15 January to 10 February 2021 is 26 days |
| Registry.NormalizeReadings | main.py:218 | each reading's address is replaced by its stripped, lower-cased form; nothing else changes |
| Registry.NormalizeRegistry | main.py:219 | each registry row's address is replaced by its stripped, lower-cased form |
| Registry.Matches | main.py:222 | a reading has no registry match exactly when its address is not among the registry's addresses |
| Registry.MatchesComplete | main.py:222 | every registry row with the reading's address contributes a match |
| Registry.MatchesSound | main.py:222 | every match comes from a registry row with that address |
| Registry.JoinOne | main.py:222 | a left join yields at least one output row per reading, each carrying that reading |
| Registry.LeftJoinMember | main.py:222 | every joined row is the join of one of the input readings |
| Registry.LeftJoinCovers | main.py:222 | every join result of every reading is in the output |
| Registry.NormalizedKeysOfDedup | main.py:215-219 | deduplicating by raw address does not change the set of normalised addresses |
| Registry.MergeKeepsEveryReading | main.py:215-222 | every normalised reading appears in the merge; it appears with empty registry columns exactly when no registry address normalises to its own; it appears with every first-of-its-raw-address registry row that matches |
| Registry.UnmatchedReading | main.py:215-222 | a reading is joined with empty registry columns exactly when its address is not among the normalised registry addresses |
| Registry.FirstRawAddressJoined | main.py:215-222 | a registry row first of its raw address whose normalised address is the reading's is joined to it |
| Registry.MergeComparesNormalizedAddresses | main.py:218-222 | every matched output row pairs a reading with a registry row whose normalised address is the reading's normalised address |
| Registry.JoinedFromRegistry | main.py:222 | every matched row of a left join comes from a reading and a registry row with equal addresses |
| Registry.MergeDependsOnlyOnNormalizedAddress | main.py:218-222 | two readings whose addresses normalise alike are merged into tables of the same length with the same registry columns row by row |
| Registry.RawDedupDuplicatesReadings | main.py:215-222 | as written: two registry addresses differing only in case or padding survive deduplication and both match one reading, so that reading appears twice |
| Registry.TwoRawAddressesKept | main.py:215-219 | two different raw addresses both survive deduplication and are then normalised |
| Registry.MatchesBoth | main.py:222 | a reading matching two registry rows gets both, in registry order |
| Registry.CaseVariantAddresses | main.py:218-219 | "Main St 5" and "main st 5" differ raw but normalise to the same key |
| Registry.MatchesUnique | main.py:222 | against a registry with distinct addresses, a reading has at most one match |
| Registry.LeftJoinOneEach | main.py:222 | against a registry with distinct addresses, the left join has one row per reading, in reading order |
| Registry.DedupMatchesFirst | main.py:215 | after deduplication a reading matches only the first registry row with its address, or nothing |
| Registry.MatchesSingle | main.py:222 | with distinct addresses, the match of an address is that address's one registry row |
| Registry.MergeNormalizedFirstOneRowPerReading | main.py:215-222 | corrected order (normalise, then deduplicate): exactly one output row per reading, in order, matched with the first registry row of its normalised address or with nothing |
| Registry.FlagZeroConsumption | main.py:225-232 | filled consumption is a present reading unchanged and 0 for a missing one, so it is 0 exactly when it was missing or 0; the flag holds exactly when it is 0 and the month is one of 10, 11, 12, 1, 2, 3, 4 |
| Registry.HeatingSeasonExamples | main.py:229-232 | zero in November is flagged, zero in July is not, a missing reading in January is flagged |
| Registry.FlagCounts | main.py:239 | the counts of flagged and of unflagged rows, which together are all rows |
| Temporal.RepeatedMeansOtherRow | main.py:586 | a row is in `duplicated(keep=False)` exactly when another row has the same consumption |
| Temporal.Type2IsRepeated | main.py:600 | every Type 2 row is also a repeated-value row |
| Temporal.Type3AlwaysEmpty | main.py:604-606 | as written, the Type 3 mask is empty on every table |
| Temporal.ReportedPairs | main.py:623-628 | the figure shown is the mask size divided by two, rounded down |
| Temporal.InsertDate | main.py:587-588 | inserting a date into a date-sorted list keeps it sorted and adds exactly that date |
| Temporal.SortDates | main.py:587-588 | `sort_values` by date: the result is sorted (missing dates last) and a permutation of the input |
| Temporal.SortedUnique | main.py:587-588 | two sorted arrangements of the same dates are equal, so the group order does not depend on the sort algorithm |
| Temporal.PresentValuesIn | main.py:591 | the group keys: distinct, and exactly the values that occur |
| Temporal.RepeatedValues | main.py:586-591 | the groups of the repeated rows: distinct values, exactly those occurring at least twice |
| Temporal.CloseAdjacentIn | main.py:592-595 | the count of close consecutive pairs in a group of n dates is at most n - 1 |
| Temporal.SortedGroup | main.py:587-591 | a value's group is sorted by date, holds as many dates as rows carry that value, and its dates are exactly the dates of those rows |
| Temporal.GroupAtLeastTwo | main.py:591 | every group of repeated values has at least two dates |
| Temporal.Type1Bound | main.py:586-595 | the Type 1 count never exceeds rows with a repeated value minus distinct repeated values |
| Temporal.TwoReadingsOfOneValue | main.py:589-595 | two readings of one value count 1 when at most 31 days apart and 0 otherwise |
| Temporal.TwoReadingsGroup | main.py:587-591 | two readings of one value form one group holding both dates |
| Temporal.SameDayPair | main.py:598-601 | two readings of one value on the same day and month both enter the Type 2 mask |
| Temporal.Type1Example | main.py:589-595 | equal readings on 15 January and 10 February count one Type 1 pair |
| Temporal.Type2Example | main.py:598-601 | equal readings on 10 March of consecutive years: Type 2 mask of 2, reported as 1, and no Type 1 pair |
| Temporal.Type3Example | main.py:603-606 | equal readings years apart: as written Type 3 is 0; the intended mask holds both rows, reported as 1 |
| Temporal.RepeatedRowClassified | main.py:603-605 | corrected Type 3: a repeated row is close-in-date, same-day-and-month, or Type 3, and Type 3 rows are neither of the others |
| Temporal.CountType1 | main.py:589-595 | the outer loop over value groups returns the Type 1 count |
| Temporal.SumCloseConcat | main.py:589-595 | the Type 1 sum over two lists of value groups is the sum of the two sums |
| Temporal.SumClosePermutation | main.py:591 | the Type 1 count does not depend on the order in which the value groups are visited, so pandas' ascending order and the model's first-occurrence order give the same count |
| Temporal.CountCloseInGroup | main.py:592-595 | the inner loop counts the consecutive dates of one group at most 31 days apart |
| Temporal.AnalyzeAnomalies | main.py:580-608 | returns the Type 1 count and the Type 2 and Type 3 mask sizes; the Type 3 size is always 0 |
| Meters.MeterRows | main.py:385 | the rows of one meter are exactly the table's rows carrying that meter id |
| Meters.DuplicateGroups | main.py:380-385 | the rows kept are exactly those of meters having some consumption value twice; rows without a meter id are dropped |
| Meters.DateLists | main.py:391-404 | one list per meter among the picked rows, holding that meter's picked dates, sorted |
| Meters.ListedMetersRepeat | main.py:380-394 | every listed meter has a value repeated among its own rows |
| Meters.ListedDateHasRow | main.py:391-404 | every listed date is the date of a picked row of that meter |
| Meters.PickedDateListed | main.py:391-404 | every picked row's date is in its meter's list |
| Meters.PerMeterListSound | main.py:391-404 | corrected per-meter pick: each listed date belongs to a row whose value the same meter read twice |
| Meters.PerMeterListComplete | main.py:391-404 | corrected per-meter pick: each such row's date is listed for its meter |
| Meters.PerMeterListed | main.py:391-404 | corrected per-meter pick: a date is listed for a meter exactly when a row of that meter on that date holds a value the meter read at least twice |
| Meters.PerMeterPickedAsWritten | main.py:385-392 | every row picked per meter is also picked as written, so the lists as written contain the intended ones |
| Meters.CrossMeterRepeat | main.py:392 | as written, meter A's reading of 7 is picked because meter B read 7; per meter it is not |
| Meters.CrossMeterListedAsWritten | main.py:391-404 | as written, 10 March 2021 is listed for meter A |
| Meters.CrossMeterNotListedPerMeter | main.py:391-404 | per meter, A is listed but 10 March 2021 is not among its dates |
| Period.Pad2 | main.py:667 | `%m` is two digits whose value is the month |
| Period.YearDigits | main.py:667 | `%Y` of a four-digit year has four characters |
| Period.MonthTextRoundTrip | main.py:700-702 | reading `MM-YYYY` back with format `%m-%Y` gives the first day of that month |
| Period.MonthTextInjective | main.py:667 | different months give different keys |
| Period.ParseMonthText | main.py:700-702 | a parsed key is the first of a month; unparsable text is missing |
| Period.FirstOfPreviousMonth | main.py:665-667 | the first day of the month before the reading's |
| Period.PeriodKeyIsPreviousMonth | main.py:665-667 | the key of a reading is the previous month's text, which parses back to that month's first day; January gives December of the previous year |
| Period.PeriodKeySameMonth | main.py:665-667 | two readings share a key exactly when they are in the same month of the same year |
| Period.PeriodKeyMarch | main.py:665-667 | 15 March 2024 gets the key "02-2024" |
| Period.PeriodKeyJanuary | main.py:665-667 | 10 January 2024 gets the key "12-2023" |
| Period.TemperaturesForComplete | main.py:680 | every temperature row with the reading's key is matched |
| Period.TemperaturesForSound | main.py:680 | every match comes from a temperature row with that key |
| Period.MergeOne | main.py:680 | a left join keeps each usage line at least once, with only the temperature added |
| Period.MergeTemperaturesMember | main.py:680 | every join result of every usage line is in the merge |
| Period.MergeTemperaturesOrigin | main.py:680 | every merged row is the join result of some usage line |
| Period.WithTemperatureComplete | main.py:680-681 | a usage line with a temperature row of its key and a present temperature survives the `notna` filter with that temperature |
| Period.WithTemperatureSound | main.py:680-681 | every surviving row has a temperature, taken from a temperature row whose month is the key of the usage line it came from |
| Period.AnalysisTable | main.py:696-704 | every analysis row's period is the first of a month |
| Period.AnalysisTableComplete | main.py:696-704 | a merged row with every cell present and a parsable key yields its analysis row |
| Period.AnalysisTableSound | main.py:696-704 | every analysis row comes from a merged row with all four cells present whose key parses to the row's period, so `dropna` and the key parse let nothing else through |
| Period.TemperatureTableKeepsMatchedReadings | main.py:665-704 | a complete reading with a matching temperature reaches the analysis table, dated to the first of its previous month |
| Deviation.HotWaterFlag | main.py:851-853 | 'да' exactly when the hot-water kind is text containing "ГВС-ИТП", otherwise 'нет' |
| Deviation.MissingCellStaysMissing | main.py:859-862 | a missing cell prints as "nan" and parses back as missing |
| Deviation.CommaDecimalCell | main.py:859-862 | a comma decimal cell becomes the number it denotes |
| Deviation.NumericColumn | main.py:859-862 | converting a text column converts each cell; a numeric column is unchanged |
| Deviation.NumericColumnIdempotent | main.py:858-862 | converting a column twice is converting it once |
| Deviation.ConvertNumericColumns | main.py:856-862 | the loop fails (None) exactly when one of the five columns is absent; otherwise it converts exactly those five columns and leaves every other column as it was |
| Deviation.ConvertedColumnsMatchCleanObject | main.py:857-862 | cell i of each converted numeric column is the number read from line i, and a line kept by the cleaning carries exactly those numbers, so the column-wise conversion and the line-wise cleaning agree |
| Deviation.WholeCellOf | main.py:872-873 | a cell is whole exactly when its text parses to an integral number, which is then the result; fractional exactly when it parses to a non-integral number; missing exactly when it does not parse |
| Deviation.CompleteObjects | main.py:876-883 | `dropna` keeps no more rows than it is given |
| Deviation.CompleteObjectsKeeps | main.py:876-883 | every row with all key columns readable is kept |
| Deviation.CompleteObjectsOrigin | main.py:876-883 | every kept row is the cleaned form of an input row |
| Deviation.CleanedFlags | main.py:851-853 | every loaded row's flag is 'да' or 'нет' |
| Deviation.LoadObjectsRows | main.py:841-888 | every loaded row comes from a line of the file; every complete line is loaded unless a fractional year or month makes the cast fail (then the table is empty) |
| Deviation.Slice | main.py:932-944 | the slice is exactly the rows within the three inclusive ranges and matching the chosen year, month and hot-water flag |
| Deviation.HotWaterSplitsSlice | main.py:941-942 | the 'да' slice and the 'нет' slice together are as large as the 'Все' slice |
| Deviation.Consumptions | main.py:966 | the consumption column of the slice, row by row |
| Deviation.RoundHalfEven | main.py:970 | rounding moves a value by at most one half |
| Deviation.Round2 | main.py:970 | `.round(2)` moves a value by at most 0.005 |
| Deviation.DeviationOf | main.py:966-972 | with mean 0 every deviation is 0; otherwise it is (v - mean) / mean * 100 rounded to within 0.005 |
| Deviation.ResultTable | main.py:962-992 | empty for an empty slice; otherwise each slice row with its deviation, in order, then the summary row with the rounded mean |
| Deviation.RawDeviationsCancel | main.py:966-970 | with a non-zero mean, the exact deviations of a slice sum to 0 |
| Deviation.DeviationExample | main.py:966-990 | consumptions 100, 150, 200 give deviations -33.33, 0, 33.33 and a summary row of 150 |
| Deviation.AnomaliesAreSliceRows | main.py:1034-1041 | the high and low lists are the table rows above 25 and below -25; the summary row is never among them; no row is in both |
| Deviation.AnomalyCounts | main.py:1034-1041 | the lists' sizes are the counts of high and low rows, and together they do not exceed the table |
| Deviation.ThresholdsOnExactDeviation | main.py:1036-1041 | the strict thresholds on the rounded deviation correspond to thresholds on the exact deviation, within the rounding margin |
| Deviation.ZeroMeanNoAnomalies | main.py:967-972 | with a zero mean no row is an anomaly |
| Deviation.StylesMatchAnomalies | main.py:997-1009 | a row is coloured red exactly when it is a low anomaly and green exactly when it is a high one |
| Report.KeyLessTransitive | main.py:1048-1050 | the group order on (type, category) keys is transitive |
| Report.KeyLessTotal | main.py:1048-1050 | any two different keys are ordered |
| Report.Tally | main.py:1048-1050 | counting one more row keeps the groups in ascending key order |
| Report.TallyTotal | main.py:1048-1050 | counting one more row adds exactly one to the total |
| Report.TallyKeys | main.py:1048-1050 | counting one more row adds its key and no other |
| Report.TallyLookup | main.py:1048-1050 | counting one more row adds one to its key's count and leaves every other count alone |
| Report.GroupCounts | main.py:1048-1050 | `groupby(...).size()`: keys ascending, every count at least 1, counts summing to the number of rows, and the keys are exactly those occurring |
| Report.GroupCountsLookup | main.py:1048-1050 | every key's count is the number of rows with that key |
| Report.GroupLine | main.py:1048-1055 | each line of the grouping counts exactly the rows with its key, at least one |
| Report.ReportLines | main.py:1051-1055 | one report line per group, in the groups' order |
| Report.ReportText | main.py:1045-1056 | the report is the fixed "no anomalies" sentence exactly when there are no anomalies |
| Report.FormatAnomalyReport | main.py:1045-1056 | the loop's text is the report text: the fixed sentence when there are no anomalies; otherwise one line per group, in key order, joined by newlines |
| Report.AnomalySection | main.py:1030-1063 | nothing for an empty slice; otherwise the reports on the rows more than 25 % above and more than 25 % below the slice mean, each being the fixed sentence when its list is empty |

## Left out

- The Streamlit interface (widgets, `st.cache_data`, `st.stop`, messages, downloads) and all file input and output (`read_csv`, `read_excel`, encodings, CSV export) are not modelled. Tables enter as sequences of rows.
- Maps, charts and the monthly resample (main.py:93-176, 721-800, 1077-1204) are display only and are left out.
- The `styler.render.max_elements` check (main.py:1021-1023) is a display limit and is left out.
- The `address_info` merge at the end of `process_data` (main.py:406-419) only attaches address columns to the lists and is left out.
- The rendering of dates as 'DD-MM-YYYY' text in `process_data` (main.py:388) is left out. The lists hold dates, and sorting them by text parsed back equals sorting them by date. NaT dates are placed last.
- The 'Дата без года' column (main.py:598) is not stored. The Type 2 mask compares (day, month) pairs directly.
- The order in which the per-meter lists appear is not modelled. They form a map keyed by meter id.
- Library date parsing with inferred formats (`pd.to_datetime(..., errors='coerce')`, `.dt.year`) is a parameter of the model, not a definition.
- Text.LowerChar: ASCII, basic Cyrillic (with Ё and the U+0400–U+040F range) and the Latin-1 capitals U+00C0–U+00DE other than U+00D7 are lower-cased. The rest of Unicode case mapping is out of scope.
- Floating point is not modelled. Consumption is an exact real and `.round(2)` is round-half-even on the exact value.
- Text.ParseNumber: the numeric grammar covers signed decimals (`12`, `12.5`, `.5`, `-3`). Exponents, `inf`, `nan` text and surrounding whitespace, which `pd.to_numeric` also accepts, are not covered.
- Period.PeriodKey: dates are limited to years 1678-2261, inside pandas' timestamp range. Its exact bounds to the day are not modelled.
- Period.ParseMonthText: the temperature file's month column is assumed to be text in the same `MM-YYYY` form. An Excel date cell in that column is not modelled.
- Deviation.ConvertNumericColumns: a missing numeric column makes the whole load fail (as pandas raises `KeyError`). The other columns read by name (year, month, hot-water kind, and the build date 'Дата постройки') are assumed present. When 'Дата постройки' is absent, main.py:865 skips its conversion but the `dropna` at main.py:876-883 raises `KeyError` and the load returns an empty table; that case is not modelled, because every object row carries a build-date cell.
- Registry.FlagCounts: `value_counts()` (main.py:239) lists its entries by descending frequency and omits a flag value that never occurs. The model returns the two counts in a fixed order, including a zero count; the entry order and the omission are display only (main.py:241).
- Deviation.LoadObjects: a fractional year or month makes `astype('Int64')` raise. The model returns the empty table that the `except` branch returns, and does not model the error message.

## Findings

| source | as written | input that shows it | evidently intended | confidence | as-written member | corrected member |
|---|---|---|---|---|---|---|
| main.py:604-605 | the Type 3 mask subtracts `type_1_mask`, which is the repeated-value mask itself, so the mask is always empty | two readings of 7.0 on 1 January 2019 and 20 November 2022 | repeated rows that are neither close in date (≤ 31 days to a neighbour) nor same day-and-month | not executed | Temporal.Type3AlwaysEmpty, Temporal.Type3Example | Temporal.RepeatedRowClassified, Temporal.Type3Example |
| main.py:215-219 | the registry is deduplicated on the raw address and normalised afterwards, so addresses differing only in case or padding both stay | registry addresses "Main St 5" and "main st 5" and a reading at "main st 5" | normalise first, then deduplicate, so each reading matches at most one registry row | not executed | Registry.RawDedupDuplicatesReadings, Registry.CaseVariantAddresses | Registry.MergeNormalizedFirstOneRowPerReading |
| main.py:392 | `duplicated(keep=False)` runs over all meters together, so a value read once by one meter is picked because another meter read it | meter A reads 5, 5, 7 (7 on 10 March 2021), meter B reads 7, 7 | repeated values within each meter | not executed | Meters.CrossMeterRepeat, Meters.CrossMeterListedAsWritten | Meters.PerMeterListed, Meters.CrossMeterNotListedPerMeter |
