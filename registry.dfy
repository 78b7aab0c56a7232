/** The zero-consumption page (main.py:205-232): the building registry is
    deduplicated by address, both address columns are stripped and
    lower-cased, the readings are left-joined with the registry on that
    address, missing consumption becomes 0, and a reading is flagged when it
    is 0 in a heating-season month. */
module Registry {
  import opened Common
  import opened Text
  import opened Cleanup

  /** A registry row: its address and the rest of its columns (`D`), which
      the pipeline only carries along. */
  datatype Building<D> = Building(address: Option<string>, details: D)

  /** A row of the merged table: the reading and the matched registry
      columns, or None where no registry row matched. */
  datatype Joined<D> = Joined(reading: RawReading, building: Option<D>)

  function AddressOf<D>(b: Building<D>): Option<string>
  {
    b.address
  }

  /** `.str.strip().str.lower()` on an address cell; a missing cell stays missing. */
  function NormalizeCell(a: Option<string>): Option<string>
  {
    match a
    case Some(s) => Some(Normalize(s))
    case None => None
  }

  function NormalizeReadings(rows: seq<RawReading>): (r: seq<RawReading>)
    ensures |r| == |rows|
    ensures forall i :: 0 <= i < |rows| ==> r[i] == rows[i].(address := NormalizeCell(rows[i].address))
  {
    seq(|rows|, i requires 0 <= i < |rows| => rows[i].(address := NormalizeCell(rows[i].address)))
  }

  function NormalizeRegistry<D>(bs: seq<Building<D>>): (r: seq<Building<D>>)
    ensures |r| == |bs|
    ensures forall i :: 0 <= i < |bs| ==> r[i] == bs[i].(address := NormalizeCell(bs[i].address))
  {
    seq(|bs|, i requires 0 <= i < |bs| => bs[i].(address := NormalizeCell(bs[i].address)))
  }

  /** Registry columns of every registry row whose address equals `a`, in
      registry order. */
  function Matches<D>(a: Option<string>, registry: seq<Building<D>>): (r: seq<D>)
    ensures r == [] <==> a !in KeysOf(registry, AddressOf)
  {
    if registry == [] then []
    else
      var rest := Matches(a, registry[..|registry| - 1]);
      var b := registry[|registry| - 1];
      assert registry == registry[..|registry| - 1] + [b];
      KeysOfSnoc(registry[..|registry| - 1], b, AddressOf);
      rest + (if b.address == a then [b.details] else [])
  }

  /** Every registry row with the address is matched. */
  lemma {:induction false} MatchesComplete<D>(a: Option<string>, registry: seq<Building<D>>, k: nat)
    requires k < |registry| && registry[k].address == a
    ensures registry[k].details in Matches(a, registry)
  {
    var rest := registry[..|registry| - 1];
    if k < |rest| {
      assert rest[k] == registry[k];
      MatchesComplete(a, rest, k);
    }
  }

  /** Every matched entry comes from a registry row with that address. */
  lemma {:induction false} MatchesSound<D>(a: Option<string>, registry: seq<Building<D>>, d: D)
    requires d in Matches(a, registry)
    ensures exists m :: 0 <= m < |registry| && registry[m].address == a && registry[m].details == d
  {
    var rest := registry[..|registry| - 1];
    if d in Matches(a, rest) {
      MatchesSound(a, rest, d);
      var m :| 0 <= m < |rest| && rest[m].address == a && rest[m].details == d;
      assert registry[m] == rest[m];
    } else {
      assert registry[|registry| - 1].details == d;
    }
  }

  /** The rows one reading contributes to a left join. */
  function JoinOne<D>(r: RawReading, registry: seq<Building<D>>): (out: seq<Joined<D>>)
    ensures |out| >= 1
    ensures forall k :: 0 <= k < |out| ==> out[k].reading == r
  {
    var ms := Matches(r.address, registry);
    if ms == [] then [Joined(r, None)]
    else seq(|ms|, i requires 0 <= i < |ms| => Joined(r, Some(ms[i])))
  }

  /** `pd.merge(left, right, on='Адрес объекта', how='left')`: for each left
      row in order, one row per matching right row, or one row with missing
      right columns when nothing matches. */
  function LeftJoin<D>(rows: seq<RawReading>, registry: seq<Building<D>>): (out: seq<Joined<D>>)
    ensures |out| >= |rows|
  {
    if rows == [] then []
    else JoinOne(rows[0], registry) + LeftJoin(rows[1..], registry)
  }

  /** The merge of main.py:215-222 as written: the registry is deduplicated
      on the raw address, then both sides are normalised and joined. */
  function MergeRegistry<D>(readings: seq<RawReading>, registry: seq<Building<D>>): seq<Joined<D>>
  {
    LeftJoin(NormalizeReadings(readings), NormalizeRegistry(DedupFirst(registry, AddressOf)))
  }

  // ---------------------------------------------------------------- join properties

  lemma {:induction false} LeftJoinMember<D>(rows: seq<RawReading>, registry: seq<Building<D>>, j: Joined<D>)
    requires j in LeftJoin(rows, registry)
    ensures j in JoinOne(j.reading, registry) && j.reading in rows
  {
    if rows != [] {
      var one := JoinOne(rows[0], registry);
      assert LeftJoin(rows, registry) == one + LeftJoin(rows[1..], registry);
      if j in one {
        var k :| 0 <= k < |one| && one[k] == j;
      } else {
        LeftJoinMember(rows[1..], registry, j);
      }
    }
  }

  lemma {:induction false} LeftJoinCovers<D>(rows: seq<RawReading>, registry: seq<Building<D>>, i: nat, j: Joined<D>)
    requires i < |rows| && j in JoinOne(rows[i], registry)
    ensures j in LeftJoin(rows, registry)
  {
    var rest := LeftJoin(rows[1..], registry);
    assert LeftJoin(rows, registry) == JoinOne(rows[0], registry) + rest;
    if i > 0 {
      assert rows[1..][i - 1] == rows[i];
      LeftJoinCovers(rows[1..], registry, i - 1, j);
      assert j in rest;
    }
  }

  /** Deduplicating the registry on the raw address keeps every normalised
      address it had. */
  lemma NormalizedKeysOfDedup<D>(registry: seq<Building<D>>, a: Option<string>)
    ensures a in KeysOf(NormalizeRegistry(DedupFirst(registry, AddressOf)), AddressOf) <==>
      a in KeysOf(NormalizeRegistry(registry), AddressOf)
  {
    var dd := DedupFirst(registry, AddressOf);
    if a in KeysOf(NormalizeRegistry(dd), AddressOf) {
      DedupKeyFromRegistry(registry, a);
    }
    if a in KeysOf(NormalizeRegistry(registry), AddressOf) {
      RegistryKeySurvivesDedup(registry, a);
    }
  }

  lemma DedupKeyFromRegistry<D>(registry: seq<Building<D>>, a: Option<string>)
    requires a in KeysOf(NormalizeRegistry(DedupFirst(registry, AddressOf)), AddressOf)
    ensures a in KeysOf(NormalizeRegistry(registry), AddressOf)
  {
    var dd := DedupFirst(registry, AddressOf);
    var nd := NormalizeRegistry(dd);
    var k :| 0 <= k < |nd| && AddressOf(nd[k]) == a;
    var f := FirstIndex(registry, AddressOf, AddressOf(dd[k]));
    assert dd[k] == registry[f];
    assert AddressOf(NormalizeRegistry(registry)[f]) == a;
  }

  lemma RegistryKeySurvivesDedup<D>(registry: seq<Building<D>>, a: Option<string>)
    requires a in KeysOf(NormalizeRegistry(registry), AddressOf)
    ensures a in KeysOf(NormalizeRegistry(DedupFirst(registry, AddressOf)), AddressOf)
  {
    var dd := DedupFirst(registry, AddressOf);
    var nr := NormalizeRegistry(registry);
    var k :| 0 <= k < |nr| && AddressOf(nr[k]) == a;
    var raw := AddressOf(registry[k]);
    assert raw in KeysOf(registry, AddressOf);
    assert raw in KeysOf(dd, AddressOf);
    var m :| 0 <= m < |dd| && AddressOf(dd[m]) == raw;
    assert AddressOf(NormalizeRegistry(dd)[m]) == a;
  }

  /** Every reading reaches the merged table, normalised. It carries no
      registry columns exactly when no registry row has the same normalised
      address; otherwise it is paired with every registry row that is the
      first of its raw address and has the same normalised address. */
  lemma MergeKeepsEveryReading<D>(readings: seq<RawReading>, registry: seq<Building<D>>, i: nat)
    requires i < |readings|
    ensures var r := readings[i].(address := NormalizeCell(readings[i].address));
      var out := MergeRegistry(readings, registry);
      (exists j :: j in out && j.reading == r) &&
      (Joined(r, None) in out <==> r.address !in KeysOf(NormalizeRegistry(registry), AddressOf)) &&
      (forall k :: (0 <= k < |registry| && NormalizeCell(registry[k].address) == r.address &&
        FirstIndex(registry, AddressOf, AddressOf(registry[k])) == k) ==>
        Joined(r, Some(registry[k].details)) in out)
  {
    var rows := NormalizeReadings(readings);
    var reg := NormalizeRegistry(DedupFirst(registry, AddressOf));
    var r := rows[i];
    var out := LeftJoin(rows, reg);
    assert exists j :: j in out && j.reading == r by {
      var one := JoinOne(r, reg);
      LeftJoinCovers(rows, reg, i, one[0]);
    }
    assert Joined(r, None) in out <==> r.address !in KeysOf(NormalizeRegistry(registry), AddressOf) by {
      UnmatchedReading(rows, registry, i);
    }
    forall k | 0 <= k < |registry| && NormalizeCell(registry[k].address) == r.address &&
        FirstIndex(registry, AddressOf, AddressOf(registry[k])) == k
      ensures Joined(r, Some(registry[k].details)) in out
    {
      FirstRawAddressJoined(rows, registry, i, k);
    }
  }

  /** A reading is kept without registry columns exactly when no registry
      row has its normalised address. */
  lemma UnmatchedReading<D>(rows: seq<RawReading>, registry: seq<Building<D>>, i: nat)
    requires i < |rows|
    ensures Joined(rows[i], None) in LeftJoin(rows, NormalizeRegistry(DedupFirst(registry, AddressOf))) <==>
      rows[i].address !in KeysOf(NormalizeRegistry(registry), AddressOf)
  {
    var reg := NormalizeRegistry(DedupFirst(registry, AddressOf));
    var r := rows[i];
    var one := JoinOne(r, reg);
    NormalizedKeysOfDedup(registry, r.address);
    if Matches(r.address, reg) == [] {
      LeftJoinCovers(rows, reg, i, Joined(r, None));
    }
    if Joined(r, None) in LeftJoin(rows, reg) {
      LeftJoinMember(rows, reg, Joined(r, None));
      var k :| 0 <= k < |one| && one[k] == Joined(r, None);
    }
  }

  lemma FirstRawAddressJoined<D>(rows: seq<RawReading>, registry: seq<Building<D>>, i: nat, k: nat)
    requires i < |rows| && k < |registry|
    requires NormalizeCell(registry[k].address) == rows[i].address
    requires FirstIndex(registry, AddressOf, AddressOf(registry[k])) == k
    ensures Joined(rows[i], Some(registry[k].details)) in LeftJoin(rows, NormalizeRegistry(DedupFirst(registry, AddressOf)))
  {
    var dd := DedupFirst(registry, AddressOf);
    var reg := NormalizeRegistry(dd);
    var r := rows[i];
    assert AddressOf(registry[k]) in KeysOf(registry, AddressOf);
    assert AddressOf(registry[k]) in KeysOf(dd, AddressOf);
    var m :| 0 <= m < |dd| && AddressOf(dd[m]) == AddressOf(registry[k]);
    assert dd[m] == registry[k];
    assert reg[m].address == r.address;
    MatchesComplete(r.address, reg, m);
    var ms := Matches(r.address, reg);
    var n :| 0 <= n < |ms| && ms[n] == registry[k].details;
    var one := JoinOne(r, reg);
    assert one[n] == Joined(r, Some(registry[k].details));
    LeftJoinCovers(rows, reg, i, one[n]);
  }

  /** Only normalised addresses are compared: a merged row carries the
      columns of a registry row whose stripped, lower-cased address equals the
      reading's stripped, lower-cased address. */
  lemma MergeComparesNormalizedAddresses<D>(readings: seq<RawReading>, registry: seq<Building<D>>, j: Joined<D>)
    requires j in MergeRegistry(readings, registry) && j.building.Some?
    ensures exists x, b :: (x in readings && b in registry &&
      j.reading == x.(address := NormalizeCell(x.address)) &&
      NormalizeCell(b.address) == NormalizeCell(x.address) && b.details == j.building.value)
  {
    var rows := NormalizeReadings(readings);
    var deduped := DedupFirst(registry, AddressOf);
    var reg := NormalizeRegistry(deduped);
    JoinedFromRegistry(rows, reg, j);
    var k, m :| 0 <= k < |rows| && rows[k] == j.reading && 0 <= m < |reg| &&
      reg[m].address == j.reading.address && reg[m].details == j.building.value;
    var x := readings[k];
    var b := deduped[m];
    assert b in registry by {
      var f := FirstIndex(registry, AddressOf, AddressOf(b));
      assert b == registry[f];
    }
    assert NormalizeCell(b.address) == NormalizeCell(x.address);
  }

  /** A merged row with registry columns pairs a left row with a right row
      of the same address. */
  lemma JoinedFromRegistry<D>(rows: seq<RawReading>, reg: seq<Building<D>>, j: Joined<D>)
    requires j in LeftJoin(rows, reg) && j.building.Some?
    ensures exists k, m :: (0 <= k < |rows| && rows[k] == j.reading && 0 <= m < |reg| &&
      reg[m].address == j.reading.address && reg[m].details == j.building.value)
  {
    LeftJoinMember(rows, reg, j);
    var k :| 0 <= k < |rows| && rows[k] == j.reading;
    var ms := Matches(j.reading.address, reg);
    var one := JoinOne(j.reading, reg);
    var n :| 0 <= n < |one| && one[n] == j;
    assert ms[n] == j.building.value;
    MatchesSound(j.reading.address, reg, j.building.value);
  }

  /** Merging a single reading joins its normalised form with the registry. */
  lemma MergeSingle<D>(x: RawReading, registry: seq<Building<D>>)
    ensures MergeRegistry([x], registry) ==
      JoinOne(x.(address := NormalizeCell(x.address)), NormalizeRegistry(DedupFirst(registry, AddressOf)))
  {
    var reg := NormalizeRegistry(DedupFirst(registry, AddressOf));
    var rows := NormalizeReadings([x]);
    assert rows[1..] == [];
    assert LeftJoin(rows, reg) == JoinOne(rows[0], reg) + LeftJoin(rows[1..], reg);
  }

  /** Two readings whose addresses agree after stripping and lower-casing are
      joined to the same registry rows: the merged tables have the same
      length and the same registry columns row by row. */
  lemma MergeDependsOnlyOnNormalizedAddress<D>(x: RawReading, y: RawReading, registry: seq<Building<D>>)
    requires NormalizeCell(x.address) == NormalizeCell(y.address)
    ensures |MergeRegistry([x], registry)| == |MergeRegistry([y], registry)|
    ensures forall k :: 0 <= k < |MergeRegistry([x], registry)| ==>
      MergeRegistry([x], registry)[k].building == MergeRegistry([y], registry)[k].building
  {
    MergeSingle(x, registry);
    MergeSingle(y, registry);
  }

  // ---------------------------------------------------------------- duplicate registry addresses

  /** Deduplicating on the raw address keeps registry rows whose addresses
      differ only in case or padding; after normalisation both match the same
      reading, which then appears twice in the merged table. */
  lemma RawDedupDuplicatesReadings<D>(r: RawReading, s1: string, s2: string, d1: D, d2: D)
    requires s1 != s2 && Normalize(s1) == Normalize(s2)
    requires r.address.Some? && Normalize(r.address.value) == Normalize(s1)
    ensures |MergeRegistry([r], [Building(Some(s1), d1), Building(Some(s2), d2)])| == 2
  {
    var registry := [Building(Some(s1), d1), Building(Some(s2), d2)];
    var a := Some(Normalize(s1));
    var reg := [Building(a, d1), Building(a, d2)];
    assert NormalizeRegistry(DedupFirst(registry, AddressOf)) == reg by {
      TwoRawAddressesKept(s1, s2, d1, d2);
    }
    var r' := r.(address := a);
    assert NormalizeReadings([r]) == [r'];
    assert |JoinOne(r', reg)| == 2 by {
      MatchesBoth(a, d1, d2);
    }
    assert LeftJoin([r'], reg) == JoinOne(r', reg) + LeftJoin([], reg) by {
      assert [r'][1..] == [];
    }
  }

  /** Two different raw addresses both survive deduplication on the raw
      address, and are then normalised. */
  lemma TwoRawAddressesKept<D>(s1: string, s2: string, d1: D, d2: D)
    requires s1 != s2
    ensures var registry := [Building(Some(s1), d1), Building(Some(s2), d2)];
      NormalizeRegistry(DedupFirst(registry, AddressOf)) ==
        [Building(Some(Normalize(s1)), d1), Building(Some(Normalize(s2)), d2)]
  {
    var registry := [Building(Some(s1), d1), Building(Some(s2), d2)];
    assert DedupFirst(registry, AddressOf) == registry by {
      assert DistinctKeys(registry, AddressOf);
      DedupDistinct(registry, AddressOf);
    }
  }

  lemma MatchesBoth<D>(a: Option<string>, d1: D, d2: D)
    ensures Matches(a, [Building(a, d1), Building(a, d2)]) == [d1, d2]
  {
    var reg := [Building(a, d1), Building(a, d2)];
    assert reg[..1] == [Building(a, d1)];
    assert reg[..1][..0] == [];
  }

  /** "Main St 5" and "main st 5" are different raw addresses with the same
      normalised form. */
  lemma CaseVariantAddresses()
    ensures "Main St 5" != "main st 5"
    ensures Normalize("Main St 5") == "main st 5" == Normalize("main st 5")
  {
    assert "Main St 5"[0] != "main st 5"[0];
    NoPaddingTrim("Main St 5");
    NoPaddingTrim("main st 5");
    LowerExample();
    LowerExampleFixed();
  }

  lemma NoPaddingTrim(s: string)
    requires s != [] && !IsSpace(s[0]) && !IsSpace(s[|s| - 1])
    ensures Trim(s) == s
  {
    TrimFramed("", s, "");
    assert "" + s + "" == s;
  }

  lemma LowerExample()
    ensures Lower("Main St 5") == "main st 5"
  {
    var l := Lower("Main St 5");
    assert l[0] == 'm' && l[5] == 's';
  }

  lemma LowerExampleFixed()
    ensures Lower("main st 5") == "main st 5"
  {
    LowerKeepsLowercase("main st 5");
  }

  /** Lower-casing leaves digits, spaces and small Latin letters alone. */
  lemma LowerKeepsLowercase(s: string)
    requires forall i :: 0 <= i < |s| ==> s[i] == ' ' || '0' <= s[i] <= '9' || 'a' <= s[i] <= 'z'
    ensures Lower(s) == s
  {
    var r := Lower(s);
    forall i | 0 <= i < |s| ensures r[i] == s[i] {
    }
  }

  /** The merge with the registry deduplicated after normalisation, so that
      one normalised address maps to one registry row. */
  function MergeRegistryNormalizedFirst<D>(readings: seq<RawReading>, registry: seq<Building<D>>): seq<Joined<D>>
  {
    LeftJoin(NormalizeReadings(readings), DedupFirst(NormalizeRegistry(registry), AddressOf))
  }

  /** With distinct registry addresses at most one registry row matches. */
  lemma {:induction false} MatchesUnique<D>(a: Option<string>, registry: seq<Building<D>>)
    requires DistinctKeys(registry, AddressOf)
    ensures |Matches(a, registry)| <= 1
  {
    if registry != [] {
      var rest := registry[..|registry| - 1];
      var b := registry[|registry| - 1];
      assert DistinctKeys(rest, AddressOf);
      MatchesUnique(a, rest);
      assert registry == rest + [b];
      if b.address == a {
        forall k | 0 <= k < |rest| ensures AddressOf(rest[k]) != a {
          assert registry[k] == rest[k];
        }
      }
    }
  }

  lemma {:induction false} LeftJoinOneEach<D>(rows: seq<RawReading>, registry: seq<Building<D>>)
    requires DistinctKeys(registry, AddressOf)
    ensures |LeftJoin(rows, registry)| == |rows|
    ensures forall i :: 0 <= i < |rows| ==> LeftJoin(rows, registry)[i] == JoinOne(rows[i], registry)[0]
  {
    if rows != [] {
      MatchesUnique(rows[0].address, registry);
      LeftJoinOneEach(rows[1..], registry);
    }
  }

  /** In a registry deduplicated on its (normalised) address, an address
      matches exactly the first registry row that has it, if any. */
  lemma DedupMatchesFirst<D>(a: Option<string>, norm: seq<Building<D>>)
    ensures Matches(a, DedupFirst(norm, AddressOf)) ==
      if a in KeysOf(norm, AddressOf) then [norm[FirstIndex(norm, AddressOf, a)].details] else []
  {
    var reg := DedupFirst(norm, AddressOf);
    if a in KeysOf(norm, AddressOf) {
      var first := norm[FirstIndex(norm, AddressOf, a)];
      DedupRowOf(norm, a);
      var k :| 0 <= k < |reg| && reg[k] == first;
      assert DistinctKeys(reg, AddressOf);
      MatchesSingle(a, reg, k);
    } else {
      assert a !in KeysOf(reg, AddressOf);
    }
  }

  /** The first registry row of each address survives deduplication. */
  lemma DedupRowOf<D>(norm: seq<Building<D>>, a: Option<string>)
    requires a in KeysOf(norm, AddressOf)
    ensures exists k :: (0 <= k < |DedupFirst(norm, AddressOf)| &&
      DedupFirst(norm, AddressOf)[k] == norm[FirstIndex(norm, AddressOf, a)])
  {
    var reg := DedupFirst(norm, AddressOf);
    assert a in KeysOf(reg, AddressOf);
    var k :| 0 <= k < |reg| && AddressOf(reg[k]) == a;
    assert reg[k] == norm[FirstIndex(norm, AddressOf, a)];
  }

  /** In a registry with distinct addresses, the one row with the address is the only match. */
  lemma MatchesSingle<D>(a: Option<string>, reg: seq<Building<D>>, k: nat)
    requires DistinctKeys(reg, AddressOf) && k < |reg| && reg[k].address == a
    ensures Matches(a, reg) == [reg[k].details]
  {
    MatchesUnique(a, reg);
    MatchesComplete(a, reg, k);
    var ms := Matches(a, reg);
    var n :| 0 <= n < |ms| && ms[n] == reg[k].details;
    assert |ms| == 1 && n == 0;
  }

  /** Deduplicating after normalisation gives exactly one merged row per
      reading, in reading order; its registry columns are those of the first
      registry row with the same normalised address, or missing when there
      is none. */
  lemma MergeNormalizedFirstOneRowPerReading<D>(readings: seq<RawReading>, registry: seq<Building<D>>)
    ensures var out := MergeRegistryNormalizedFirst(readings, registry);
      var norm := NormalizeRegistry(registry);
      |out| == |readings| &&
      forall i :: 0 <= i < |readings| ==>
        out[i].reading == readings[i].(address := NormalizeCell(readings[i].address)) &&
        (if NormalizeCell(readings[i].address) in KeysOf(norm, AddressOf)
         then out[i].building == Some(registry[FirstIndex(norm, AddressOf, NormalizeCell(readings[i].address))].details)
         else out[i].building.None?)
  {
    var rows := NormalizeReadings(readings);
    var norm := NormalizeRegistry(registry);
    var reg := DedupFirst(norm, AddressOf);
    LeftJoinOneEach(rows, reg);
    forall i | 0 <= i < |readings|
      ensures LeftJoin(rows, reg)[i] == JoinOne(rows[i], reg)[0]
      ensures Matches(rows[i].address, reg) ==
        if rows[i].address in KeysOf(norm, AddressOf) then [norm[FirstIndex(norm, AddressOf, rows[i].address)].details] else []
    {
      DedupMatchesFirst(rows[i].address, norm);
    }
  }

  // ---------------------------------------------------------------- heating-season flag

  /** `fillna(0)` of the consumption column. */
  function FillZero(c: Option<real>): real
  {
    match c
    case Some(v) => v
    case None => 0.0
  }

  /** `Месяц.isin([10, 11, 12, 1, 2, 3, 4])`; a missing month is not in the list. */
  predicate InHeatingSeason(month: Option<int>)
  {
    month.Some? && month.value in [10, 11, 12, 1, 2, 3, 4]
  }

  /** A merged row with its filled consumption and the flag
      'Аномалия_нулевое_потребление_в_ОП'. */
  datatype Flagged<D> = Flagged(row: Joined<D>, consumption: real, zeroInSeason: bool)

  /** main.py:225-232: consumption filled with 0 and the zero-in-heating-season
      flag set on every merged row. */
  function FlagZeroConsumption<D>(rows: seq<Joined<D>>): (r: seq<Flagged<D>>)
    ensures |r| == |rows|
    ensures forall i :: 0 <= i < |rows| ==> r[i].row == rows[i]
    ensures forall i :: 0 <= i < |rows| ==>
      (r[i].consumption == 0.0 <==> rows[i].reading.consumption.None? || rows[i].reading.consumption == Some(0.0))
    ensures forall i :: 0 <= i < |rows| && rows[i].reading.consumption.Some? ==>
      r[i].consumption == rows[i].reading.consumption.value
    ensures forall i :: 0 <= i < |rows| ==>
      (r[i].zeroInSeason <==>
        r[i].consumption == 0.0 && rows[i].reading.month.Some? &&
        (1 <= rows[i].reading.month.value <= 4 || 10 <= rows[i].reading.month.value <= 12))
  {
    seq(|rows|, i requires 0 <= i < |rows| =>
      var c := FillZero(rows[i].reading.consumption);
      Flagged(rows[i], c, c == 0.0 && InHeatingSeason(rows[i].reading.month)))
  }

  /** Zero in November is flagged; zero in July is not; a missing reading in
      January counts as zero and is flagged. */
  lemma HeatingSeasonExamples(r: RawReading)
    ensures var j: Joined<int> := Joined(r.(consumption := Some(0.0), month := Some(11)), None);
      FlagZeroConsumption([j])[0].zeroInSeason
    ensures var j: Joined<int> := Joined(r.(consumption := Some(0.0), month := Some(7)), None);
      !FlagZeroConsumption([j])[0].zeroInSeason
    ensures var j: Joined<int> := Joined(r.(consumption := None, month := Some(1)), None);
      FlagZeroConsumption([j])[0].zeroInSeason
  {
  }

  /** The counts behind `value_counts()` of the flag column: the number of
      flagged and of unflagged rows, which together are all rows. */
  function FlagCounts<D>(rows: seq<Flagged<D>>): (c: (nat, nat))
    ensures c.0 == |Filter(rows, IsFlagged)| && c.1 == |Filter(rows, IsNotFlagged)|
    ensures c.0 + c.1 == |rows|
  {
    FilterCount(rows, IsFlagged);
    FilterCount(rows, IsNotFlagged);
    CountComplement(rows, IsFlagged, IsNotFlagged);
    (Count(rows, IsFlagged), Count(rows, IsNotFlagged))
  }

  predicate IsFlagged<D>(f: Flagged<D>)
  {
    f.zeroInSeason
  }

  predicate IsNotFlagged<D>(f: Flagged<D>)
  {
    !f.zeroInSeason
  }

  /** The whole computation of main.py:205-232 on a reading table and a registry. */
  function ZeroConsumptionTable<D>(readings: seq<RawReading>, hasMeterColumn: bool, registry: seq<Building<D>>): seq<Flagged<D>>
  {
    FlagZeroConsumption(MergeRegistry(DropCommaIds(readings, hasMeterColumn).0, registry))
  }
}
