/** `format_anomaly_report` (main.py:1045-1056): the anomalies of one kind
    are counted per (object type, building category), the groups in
    ascending key order, one line each, or a fixed sentence when there are
    none. */
module Report {
  import opened Common
  import opened Text
  import opened Deviation

  /** A (type, category) key, both after `fillna('')`. */
  type Key = (string, string)

  /** One row of `groupby([...]).size()`: the key and how many rows have it. */
  datatype Group = Group(key: Key, count: nat)

  function CellOrEmpty(c: Option<string>): string
  {
    if c.Some? then c.value else ""
  }

  /** The grouping key of a row of the result table. */
  function GroupKey(r: ResultRow): Key
  {
    match r
    case Data(x, _) => (CellOrEmpty(x.objectType), CellOrEmpty(x.category))
    case Average(_) => ("", "")
  }

  /** pandas' group order: by type, then by category, as Python compares strings. */
  predicate KeyLess(a: Key, b: Key)
  {
    Less(a.0, b.0) || (a.0 == b.0 && Less(a.1, b.1))
  }

  lemma KeyLessIrreflexive(a: Key)
    ensures !KeyLess(a, a)
  {
    LessIrreflexive(a.0);
    LessIrreflexive(a.1);
  }

  lemma KeyLessTransitive(a: Key, b: Key, c: Key)
    requires KeyLess(a, b) && KeyLess(b, c)
    ensures KeyLess(a, c)
  {
    if Less(a.0, b.0) && Less(b.0, c.0) {
      LessTransitive(a.0, b.0, c.0);
    } else if a.0 == b.0 && b.0 == c.0 {
      LessTransitive(a.1, b.1, c.1);
    }
  }

  lemma KeyLessTotal(a: Key, b: Key)
    requires a != b
    ensures KeyLess(a, b) || KeyLess(b, a)
  {
    if a.0 != b.0 {
      LessTotal(a.0, b.0);
    } else {
      LessTotal(a.1, b.1);
    }
  }

  /** Keys strictly ascending from each group to the next. */
  predicate Ascending(g: seq<Group>)
  {
    forall i :: 0 <= i < |g| - 1 ==> KeyLess(g[i].key, g[i + 1].key)
  }

  predicate Positive(g: seq<Group>)
  {
    forall i :: 0 <= i < |g| ==> g[i].count >= 1
  }

  /** The number of rows counted under key `k`. */
  function Lookup(g: seq<Group>, k: Key): nat
  {
    if g == [] then 0 else (if g[0].key == k then g[0].count else 0) + Lookup(g[1..], k)
  }

  /** All rows counted. */
  function Total(g: seq<Group>): nat
  {
    if g == [] then 0 else g[0].count + Total(g[1..])
  }

  function GroupKeys(g: seq<Group>): set<Key>
  {
    set i | 0 <= i < |g| :: g[i].key
  }

  lemma GroupKeysCons(x: Group, g: seq<Group>)
    ensures GroupKeys([x] + g) == {x.key} + GroupKeys(g)
  {
    var t := [x] + g;
    forall k | k in GroupKeys(t) ensures k in {x.key} + GroupKeys(g) {
      var i :| 0 <= i < |t| && t[i].key == k;
      if i > 0 { assert t[i] == g[i - 1]; }
    }
    forall k | k in GroupKeys(g) ensures k in GroupKeys(t) {
      var i :| 0 <= i < |g| && g[i].key == k;
      assert t[i + 1] == g[i];
    }
    assert t[0] == x;
  }

  /** One more row with key `k`: its group's count goes up by one, or a
      group of one is inserted in key order. */
  function Tally(g: seq<Group>, k: Key): (r: seq<Group>)
    requires Ascending(g)
    ensures Ascending(r) && |r| >= 1
    ensures r[0].key == k || (g != [] && r[0].key == g[0].key)
  {
    if g == [] then [Group(k, 1)]
    else if g[0].key == k then [Group(k, g[0].count + 1)] + g[1..]
    else if KeyLess(k, g[0].key) then [Group(k, 1)] + g
    else
      KeyLessTotal(k, g[0].key);
      [g[0]] + Tally(g[1..], k)
  }

  /** Tallying counts exactly one more row. */
  lemma {:induction false} TallyTotal(g: seq<Group>, k: Key)
    requires Ascending(g)
    ensures Total(Tally(g, k)) == Total(g) + 1
  {
    if g != [] && g[0].key != k && !KeyLess(k, g[0].key) {
      TallyTotal(g[1..], k);
      assert Tally(g, k)[1..] == Tally(g[1..], k);
    }
  }

  /** Tallying adds the key `k` and no other. */
  lemma {:induction false} TallyKeys(g: seq<Group>, k: Key)
    requires Ascending(g)
    ensures GroupKeys(Tally(g, k)) == GroupKeys(g) + {k}
  {
    if g != [] {
      assert g == [g[0]] + g[1..];
      GroupKeysCons(g[0], g[1..]);
      if g[0].key == k {
        GroupKeysCons(Group(k, g[0].count + 1), g[1..]);
      } else if KeyLess(k, g[0].key) {
        GroupKeysCons(Group(k, 1), g);
      } else {
        TallyKeys(g[1..], k);
        GroupKeysCons(g[0], Tally(g[1..], k));
      }
    }
  }

  /** Tallying keeps every count at least one. */
  lemma {:induction false} TallyPositive(g: seq<Group>, k: Key)
    requires Ascending(g) && Positive(g)
    ensures Positive(Tally(g, k))
  {
    if g != [] && g[0].key != k && !KeyLess(k, g[0].key) {
      TallyPositive(g[1..], k);
      assert Tally(g, k)[1..] == Tally(g[1..], k);
    }
  }

  /** Tallying a row with key `k` adds one to the count of `k` and leaves
      every other key's count as it was. */
  lemma {:induction false} TallyLookup(g: seq<Group>, k: Key, k': Key)
    requires Ascending(g)
    ensures Lookup(Tally(g, k), k') == Lookup(g, k') + (if k' == k then 1 else 0)
  {
    if g != [] && g[0].key != k && !KeyLess(k, g[0].key) {
      TallyLookup(g[1..], k, k');
      var r := Tally(g, k);
      assert r[1..] == Tally(g[1..], k);
    }
  }

  /** `df.groupby(['Тип объекта', 'Категория здания']).size()`. */
  function GroupCounts(rows: seq<ResultRow>): (g: seq<Group>)
    ensures Ascending(g) && Positive(g)
    ensures Total(g) == |rows|
    ensures GroupKeys(g) == KeysOf(rows, GroupKey)
  {
    if rows == [] then []
    else
      var rest := rows[..|rows| - 1];
      assert rows == rest + [rows[|rows| - 1]];
      KeysOfSnoc(rest, rows[|rows| - 1], GroupKey);
      var g' := GroupCounts(rest);
      TallyTotal(g', GroupKey(rows[|rows| - 1]));
      TallyKeys(g', GroupKey(rows[|rows| - 1]));
      TallyPositive(g', GroupKey(rows[|rows| - 1]));
      Tally(g', GroupKey(rows[|rows| - 1]))
  }

  /** How many rows have key `k`. */
  function RowsWithKey(rows: seq<ResultRow>, k: Key): nat
  {
    Count(rows, (r: ResultRow) => GroupKey(r) == k)
  }

  /** Every key's count in the grouping is the number of rows with that key. */
  lemma {:induction false} GroupCountsLookup(rows: seq<ResultRow>, k: Key)
    ensures Lookup(GroupCounts(rows), k) == RowsWithKey(rows, k)
  {
    if rows != [] {
      var rest := rows[..|rows| - 1];
      GroupCountsLookup(rest, k);
      TallyLookup(GroupCounts(rest), GroupKey(rows[|rows| - 1]), k);
    }
  }

  /** In ascending groups the first key is below every later one. */
  lemma {:induction false} AscendingHeadLeast(g: seq<Group>, j: nat)
    requires Ascending(g) && 0 < j < |g|
    ensures KeyLess(g[0].key, g[j].key)
  {
    if j > 1 {
      AscendingHeadLeast(g[1..], j - 1);
      KeyLessTransitive(g[0].key, g[1].key, g[j].key);
    }
  }

  /** A key absent from the groups has count 0. */
  lemma {:induction false} LookupAbsent(g: seq<Group>, k: Key)
    requires k !in GroupKeys(g)
    ensures Lookup(g, k) == 0
  {
    if g != [] {
      assert GroupKeys(g) == {g[0].key} + GroupKeys(g[1..]);
      LookupAbsent(g[1..], k);
    }
  }

  /** In ascending groups the count stored at a position is the key's count. */
  lemma {:induction false} LookupAt(g: seq<Group>, i: nat)
    requires Ascending(g) && i < |g|
    ensures Lookup(g, g[i].key) == g[i].count
  {
    if i == 0 {
      forall j | 0 <= j < |g[1..]| ensures g[1..][j].key != g[0].key {
        AscendingHeadLeast(g, j + 1);
        KeyLessIrreflexive(g[0].key);
      }
      LookupAbsent(g[1..], g[0].key);
    } else {
      AscendingHeadLeast(g, i);
      KeyLessIrreflexive(g[0].key);
      LookupAt(g[1..], i - 1);
    }
  }

  /** Each line of the grouping counts exactly the rows with its key, and
      only keys that occur get a line. */
  lemma GroupLine(rows: seq<ResultRow>, i: nat)
    requires i < |GroupCounts(rows)|
    ensures var g := GroupCounts(rows)[i];
      g.count == RowsWithKey(rows, g.key) && g.count >= 1 && g.key in KeysOf(rows, GroupKey)
  {
    var g := GroupCounts(rows);
    LookupAt(g, i);
    GroupCountsLookup(rows, g[i].key);
  }

  // ---------------------------------------------------------------- the report text

  /** f"- {type} - {category} - {count} шт." */
  function ReportLine(g: Group): string
  {
    "- " + g.key.0 + " - " + g.key.1 + " - " + NatToString(g.count) + " шт."
  }

  /** `"\n".join(lines)`. */
  function JoinLines(lines: seq<string>): string
  {
    if lines == [] then ""
    else if |lines| == 1 then lines[0]
    else lines[0] + "\n" + JoinLines(lines[1..])
  }

  function NoneFound(kind: string): string
  {
    "Аномалий " + kind + " не обнаружено"
  }

  /** One report line per group, in the groups' order. */
  function ReportLines(g: seq<Group>): (lines: seq<string>)
    ensures |lines| == |g|
    ensures forall k :: 0 <= k < |g| ==> lines[k] == ReportLine(g[k])
  {
    if g == [] then [] else [ReportLine(g[0])] + ReportLines(g[1..])
  }

  /** Joined lines start with the first line's first character. */
  lemma JoinLinesHead(lines: seq<string>)
    requires lines != [] && lines[0] != []
    ensures JoinLines(lines) != [] && JoinLines(lines)[0] == lines[0][0]
  {
  }

  /** The text of the report on one kind of anomaly: the fixed sentence
      exactly when there are no anomalies, otherwise the group lines. */
  function ReportText(anomalies: seq<ResultRow>, kind: string): (text: string)
    ensures anomalies == [] <==> text == NoneFound(kind)
  {
    if anomalies == [] then NoneFound(kind)
    else
      var lines := ReportLines(GroupCounts(anomalies));
      assert |lines| >= 1 && lines[0][0] == '-' by {
        assert GroupCounts(anomalies) != [];
      }
      JoinLinesHead(lines);
      assert NoneFound(kind)[0] != '-';
      JoinLines(lines)
  }

  /** `format_anomaly_report(df, anomaly_type)`: the fixed sentence when
      there are no anomalies, otherwise one line per group in key order,
      whose counts add up to the number of anomalies. */
  method FormatAnomalyReport(anomalies: seq<ResultRow>, kind: string) returns (text: string)
    ensures anomalies == [] ==> text == NoneFound(kind)
    ensures anomalies != [] ==> exists lines: seq<string> ::
      |lines| == |GroupCounts(anomalies)| >= 1 && text == JoinLines(lines) &&
      forall k :: 0 <= k < |lines| ==> lines[k] == ReportLine(GroupCounts(anomalies)[k])
    ensures text == ReportText(anomalies, kind)
  {
    if anomalies == [] {
      return NoneFound(kind);
    }
    var grouped := GroupCounts(anomalies);
    var report: seq<string> := [];
    for i := 0 to |grouped|
      invariant |report| == i
      invariant forall k :: 0 <= k < i ==> report[k] == ReportLine(grouped[k])
    {
      report := report + [ReportLine(grouped[i])];
    }
    assert report == ReportLines(grouped);
    assert grouped != [];
    if report != [] {
      text := JoinLines(report);
    } else {
      text := NoneFound(kind);
    }
  }

  /** The anomaly section of the page (main.py:1030-1068): nothing for an
      empty slice, otherwise the reports on the high and the low rows. */
  method AnomalySection(slice: seq<ObjectRow>) returns (reports: Option<(string, string)>)
    ensures slice == [] <==> reports.None?
    ensures reports.Some? && HighAnomalies(ResultTable(slice)) == [] ==>
      reports.value.0 == NoneFound("высокого потребления")
    ensures reports.Some? && LowAnomalies(ResultTable(slice)) == [] ==>
      reports.value.1 == NoneFound("низкого потребления")
    ensures slice != [] ==> reports == Some((
      ReportText(HighAnomalies(ResultTable(slice)), "высокого потребления"),
      ReportText(LowAnomalies(ResultTable(slice)), "низкого потребления")))
  {
    var table := ResultTable(slice);
    if table == [] {
      return None;
    }
    var high := FormatAnomalyReport(HighAnomalies(table), "высокого потребления");
    var low := FormatAnomalyReport(LowAnomalies(table), "низкого потребления");
    return Some((high, low));
  }
}
