/** The city selector of cities_weather.py (`select_cities`): a chain of
    data-frame steps over the populated-places table and the weather
    provider's city catalog, a call of the weather client for the selected
    IDs, and a clear-sky filter over the result.

    The two tables are inputs (the files are not read), and so are the HTTP
    answers the weather client receives. */
module CitySelector {
  import opened Wrappers
  import opened Seqs
  import opened WeatherClient

  /** A point geometry; carried along, never inspected. */
  datatype Point = Point(lon: real, lat: real)

  /** A row of the populated-places table. */
  datatype PlaceRecord = PlaceRecord(nameascii: string, isoA2: string, popMax: int, geometry: Point)

  /** A row of the provider's city catalog. */
  datatype CityIdRecord = CityIdRecord(name: string, country: string, id: int)

  /** A row of the inner join of the two tables. */
  datatype JoinedCity = JoinedCity(place: PlaceRecord, city: CityIdRecord)

  /** A cell of the `clouds` column once NaN has been filled: a percentage,
      or the sentinel text. */
  datatype Cell = Num(n: int) | Text(t: string)

  /** A selected row with its weather columns attached and filled. */
  datatype SelectedCity = SelectedCity(row: JoinedCity, weather: string, weatherDescription: string, clouds: Cell)

  /** A row of the returned table: the `nameascii` and `clouds` columns. */
  datatype ClearCity = ClearCity(nameascii: string, clouds: Cell)

  /** The value `fillna` writes into every absent cell. */
  const NoData: string := "No data"

  /** The main category that selects a city. */
  const ClearSky: string := "Clear"

  function NameOf(row: JoinedCity): string
  {
    row.place.nameascii
  }

  // ---------------------------------------------------------------------
  // Step 1: sort the places by `pop_max`, largest first.

  predicate PopDescending(s: seq<PlaceRecord>)
  {
    forall i, j :: 0 <= i < j < |s| ==> s[i].popMax >= s[j].popMax
  }

  function InsertByPop(p: PlaceRecord, s: seq<PlaceRecord>): (r: seq<PlaceRecord>)
    ensures multiset(r) == multiset(s) + multiset{p}
  {
    if s == [] || p.popMax >= s[0].popMax then
      [p] + s
    else
      assert s == [s[0]] + s[1..];
      [s[0]] + InsertByPop(p, s[1..])
  }

  lemma {:induction false} InsertByPopSorted(p: PlaceRecord, s: seq<PlaceRecord>)
    requires PopDescending(s)
    ensures PopDescending(InsertByPop(p, s))
  {
    if s != [] && p.popMax < s[0].popMax {
      var tail := s[1..];
      assert PopDescending(tail) by {
        forall i, j | 0 <= i < j < |tail| ensures tail[i].popMax >= tail[j].popMax {
          assert tail[i] == s[i + 1] && tail[j] == s[j + 1];
        }
      }
      InsertByPopSorted(p, tail);
      HeadBoundsInsert(p, s);
      var rest := InsertByPop(p, tail);
      var r := InsertByPop(p, s);
      assert r == [s[0]] + rest;
      forall i, j | 0 <= i < j < |r| ensures r[i].popMax >= r[j].popMax {
        if i == 0 {
          assert r[j] == rest[j - 1];
        } else {
          assert r[i] == rest[i - 1] && r[j] == rest[j - 1];
        }
      }
    }
  }

  /** When `p` goes behind the head, the head bounds everything after it. */
  lemma HeadBoundsInsert(p: PlaceRecord, s: seq<PlaceRecord>)
    requires PopDescending(s) && s != [] && p.popMax < s[0].popMax
    ensures forall j :: 0 <= j < |InsertByPop(p, s[1..])| ==>
      s[0].popMax >= InsertByPop(p, s[1..])[j].popMax
  {
    var tail := s[1..];
    var rest := InsertByPop(p, tail);
    forall j | 0 <= j < |rest| ensures s[0].popMax >= rest[j].popMax {
      assert rest[j] in multiset(rest);
      if rest[j] != p {
        assert rest[j] in multiset(tail);
        var k :| 0 <= k < |tail| && tail[k] == rest[j];
        assert s[k + 1] == rest[j];
      }
    }
  }

  /** `sort_values('pop_max', ascending=False)`. Ties keep their input order
      here; the source's sort does not promise any order among ties, and no
      property below depends on it. */
  function SortByPop(s: seq<PlaceRecord>): (r: seq<PlaceRecord>)
    ensures PopDescending(r)
    ensures multiset(r) == multiset(s)
  {
    if s == [] then []
    else
      assert s == [s[0]] + s[1..];
      InsertByPopSorted(s[0], SortByPop(s[1..]));
      InsertByPop(s[0], SortByPop(s[1..]))
  }

  // ---------------------------------------------------------------------
  // Step 2: inner join on `nameascii == name`, in the order of the left
  // table, and for one left row in the order of the catalog.

  function Matches(p: PlaceRecord, catalog: seq<CityIdRecord>): (r: seq<JoinedCity>)
    ensures forall x :: x in r <==> x.place == p && x.city in catalog && p.nameascii == x.city.name
  {
    if catalog == [] then []
    else
      (if catalog[0].name == p.nameascii then [JoinedCity(p, catalog[0])] else []) +
        Matches(p, catalog[1..])
  }

  /** `merge(how='inner', left_on='nameascii', right_on='name')`. */
  function Merge(places: seq<PlaceRecord>, catalog: seq<CityIdRecord>): (r: seq<JoinedCity>)
    ensures forall x :: x in r <==>
      x.place in places && x.city in catalog && x.place.nameascii == x.city.name
  {
    if places == [] then []
    else Matches(places[0], catalog) + Merge(places[1..], catalog)
  }

  predicate PopAtLeast(a: JoinedCity, b: JoinedCity)
  {
    a.place.popMax >= b.place.popMax
  }

  /** The rows are in descending order of population. */
  predicate RowsPopDescending(rows: seq<JoinedCity>)
  {
    OrderedBy(PopAtLeast, rows)
  }

  /** The join keeps the population order of the sorted table. */
  lemma {:induction false} MergeKeepsPopOrder(places: seq<PlaceRecord>, catalog: seq<CityIdRecord>)
    requires PopDescending(places)
    ensures RowsPopDescending(Merge(places, catalog))
  {
    if places != [] {
      var m := Matches(places[0], catalog);
      var rest := Merge(places[1..], catalog);
      assert PopDescending(places[1..]) by {
        forall i, j | 0 <= i < j < |places[1..]| ensures places[1..][i].popMax >= places[1..][j].popMax {
          assert places[1..][i] == places[i + 1] && places[1..][j] == places[j + 1];
        }
      }
      MergeKeepsPopOrder(places[1..], catalog);
      var r := m + rest;
      forall i, j | 0 <= i < j < |r| ensures PopAtLeast(r[i], r[j]) {
        if j < |m| {
          assert r[i] in m && r[j] in m;
        } else if i < |m| {
          assert r[i] in m;
          assert r[j] == rest[j - |m|];
          assert rest[j - |m|] in rest;
          assert r[j].place in places[1..];
          var k :| 0 <= k < |places[1..]| && places[1..][k] == r[j].place;
          assert places[k + 1] == r[j].place;
        } else {
          assert r[i] == rest[i - |m|] && r[j] == rest[j - |m|];
        }
      }
    }
  }

  // ---------------------------------------------------------------------
  // Step 3: keep the rows whose two country codes agree.

  predicate CountryMatches(row: JoinedCity)
  {
    row.place.isoA2 == row.city.country
  }

  // ---------------------------------------------------------------------
  // Step 4: `drop_duplicates(subset='nameascii', keep='first')`.

  /** The rows whose name is not in `seen` and did not occur earlier. */
  function DedupAfter(rows: seq<JoinedCity>, seen: set<string>): (r: seq<JoinedCity>)
    ensures forall x :: x in r ==> x in rows && NameOf(x) !in seen
    ensures forall i, j :: 0 <= i < j < |r| ==> NameOf(r[i]) != NameOf(r[j])
  {
    if rows == [] then []
    else if NameOf(rows[0]) in seen then DedupAfter(rows[1..], seen)
    else
      var rest := DedupAfter(rows[1..], seen + {NameOf(rows[0])});
      assert forall j :: 0 <= j < |rest| ==> rest[j] in rest;
      [rows[0]] + rest
  }

  /** `drop_duplicates(subset='nameascii', keep='first')`: a row is kept
      exactly when it is the first row with its name; the kept rows keep
      their order and carry pairwise distinct names. */
  function DropDuplicates(rows: seq<JoinedCity>): (r: seq<JoinedCity>)
    ensures forall x :: x in r <==> FirstWithName(rows, NameOf(x)) == Some(x)
    ensures IsSubsequence(r, rows)
    ensures forall i, j :: 0 <= i < j < |r| ==> NameOf(r[i]) != NameOf(r[j])
    ensures r == FirstOccurrences(rows, {})
  {
    DedupKeepsFirst(rows, {});
    DedupIsSubsequence(rows, {});
    DedupIsFirstOccurrences(rows, {});
    DedupAfter(rows, {})
  }

  /** No row before index `i` carries the name of row `i`. */
  predicate FirstOfName(rows: seq<JoinedCity>, i: int)
    requires 0 <= i < |rows|
  {
    forall j :: 0 <= j < i ==> NameOf(rows[j]) != NameOf(rows[i])
  }

  /** A reference definition of `keep='first'`, read from the end of the
      table: `rows` restricted, in order, to the indices i that are first
      with their name and whose name is not in `seen`. */
  function FirstOccurrences(rows: seq<JoinedCity>, seen: set<string>): seq<JoinedCity>
    decreases |rows|
  {
    if rows == [] then []
    else
      var n := |rows| - 1;
      FirstOccurrences(rows[..n], seen) +
        (if NameOf(rows[n]) !in seen && FirstOfName(rows, n) then [rows[n]] else [])
  }

  /** Reading the reference definition from the front: the first row is kept
      exactly when its name is new, and then its name is seen for the rest. */
  lemma {:induction false} FirstOccurrencesFront(h: JoinedCity, t: seq<JoinedCity>, seen: set<string>)
    ensures FirstOccurrences([h] + t, seen) ==
      if NameOf(h) in seen then FirstOccurrences(t, seen)
      else [h] + FirstOccurrences(t, seen + {NameOf(h)})
    decreases |t|
  {
    var rows := [h] + t;
    if t == [] {
      assert rows[..0] == [];
      assert FirstOfName(rows, 0);
    } else {
      var m := |t| - 1;
      assert rows[..m + 1] == [h] + t[..m];
      FirstOccurrencesFront(h, t[..m], seen);
      assert FirstOfName(rows, m + 1) <==> NameOf(h) != NameOf(t[m]) && FirstOfName(t, m) by {
        assert rows[0] == h && rows[m + 1] == t[m];
        if FirstOfName(rows, m + 1) {
          forall j | 0 <= j < m ensures NameOf(t[j]) != NameOf(t[m]) {
            assert rows[j + 1] == t[j];
          }
        }
        if NameOf(h) != NameOf(t[m]) && FirstOfName(t, m) {
          forall j | 0 <= j < m + 1 ensures NameOf(rows[j]) != NameOf(rows[m + 1]) {
            if j > 0 {
              assert rows[j] == t[j - 1];
            }
          }
        }
      }
      assert rows[m + 1] == t[m];
    }
  }

  /** Deduplication from the front agrees with the reference definition. */
  lemma {:induction false} DedupIsFirstOccurrences(rows: seq<JoinedCity>, seen: set<string>)
    ensures DedupAfter(rows, seen) == FirstOccurrences(rows, seen)
    decreases |rows|
  {
    if rows != [] {
      var h, t := rows[0], rows[1..];
      assert rows == [h] + t;
      FirstOccurrencesFront(h, t, seen);
      if NameOf(h) in seen {
        DedupIsFirstOccurrences(t, seen);
      } else {
        DedupIsFirstOccurrences(t, seen + {NameOf(h)});
      }
    }
  }

  /** The first row carrying `name`, if any. */
  function FirstWithName(rows: seq<JoinedCity>, name: string): Option<JoinedCity>
  {
    if rows == [] then None
    else if NameOf(rows[0]) == name then Some(rows[0])
    else FirstWithName(rows[1..], name)
  }

  /** A row survives deduplication exactly when its name is new and it is the
      first row with that name. */
  lemma {:induction false} DedupKeepsFirst(rows: seq<JoinedCity>, seen: set<string>)
    ensures forall x :: x in DedupAfter(rows, seen) <==>
      NameOf(x) !in seen && FirstWithName(rows, NameOf(x)) == Some(x)
  {
    if rows != [] {
      var h := rows[0];
      if NameOf(h) in seen {
        DedupKeepsFirst(rows[1..], seen);
      } else {
        DedupKeepsFirst(rows[1..], seen + {NameOf(h)});
      }
    }
  }

  /** Deduplication keeps rows in their order. */
  lemma {:induction false} DedupIsSubsequence(rows: seq<JoinedCity>, seen: set<string>)
    ensures IsSubsequence(DedupAfter(rows, seen), rows)
  {
    if rows != [] {
      var h := rows[0];
      if NameOf(h) in seen {
        DedupIsSubsequence(rows[1..], seen);
      } else {
        DedupIsSubsequence(rows[1..], seen + {NameOf(h)});
        assert DedupAfter(rows, seen)[0] == h;
        assert DedupAfter(rows, seen)[1..] == DedupAfter(rows[1..], seen + {NameOf(h)});
      }
    }
  }

  /** Every name of the table has a first row. */
  lemma {:induction false} FirstWithNameExists(rows: seq<JoinedCity>, x: JoinedCity)
    requires x in rows
    ensures FirstWithName(rows, NameOf(x)).Some?
  {
    if rows[0] != x {
      FirstWithNameExists(rows[1..], x);
    }
  }

  /** In a table sorted by population, the first row with a name has the
      largest population among the rows with that name. */
  lemma {:induction false} FirstWithNameHasMaxPop(rows: seq<JoinedCity>, y: JoinedCity)
    requires RowsPopDescending(rows) && y in rows
    ensures FirstWithName(rows, NameOf(y)).Some?
    ensures FirstWithName(rows, NameOf(y)).value.place.popMax >= y.place.popMax
  {
    if NameOf(rows[0]) == NameOf(y) {
      var k :| 0 <= k < |rows| && rows[k] == y;
      if k > 0 {
        assert PopAtLeast(rows[0], rows[k]);
      }
    } else {
      assert RowsPopDescending(rows[1..]) by {
        forall i, j | 0 <= i < j < |rows[1..]| ensures PopAtLeast(rows[1..][i], rows[1..][j]) {
          assert rows[1..][i] == rows[i + 1] && rows[1..][j] == rows[j + 1];
        }
      }
      FirstWithNameHasMaxPop(rows[1..], y);
    }
  }

  // ---------------------------------------------------------------------
  // Step 5: `clear_dataset[0:selection]`, with Python's slice bounds.

  /** The end of the slice `[0:stop]` over `n` rows: a negative stop counts
      from the end, and the result is clamped to `0..n`. */
  function SliceStop(stop: int, n: nat): nat
  {
    if stop < 0 then (if n + stop < 0 then 0 else n + stop)
    else if stop < n then stop
    else n
  }

  function Take(rows: seq<JoinedCity>, selection: int): (r: seq<JoinedCity>)
    ensures |r| <= |rows| && r == rows[..|r|]
    ensures selection >= 0 ==> |r| == if selection < |rows| then selection else |rows|
    ensures selection < 0 ==> |r| == if |rows| + selection < 0 then 0 else |rows| + selection
  {
    rows[..SliceStop(selection, |rows|)]
  }

  // ---------------------------------------------------------------------
  // The data frames of `select_cities` up to the weather request.

  /** `fulldataset`: the sorted places joined with the catalog. */
  function FullDataset(places: seq<PlaceRecord>, catalog: seq<CityIdRecord>): seq<JoinedCity>
  {
    Merge(SortByPop(places), catalog)
  }

  /** `full_dataset`: the joined rows whose country codes agree. */
  function CountryChecked(places: seq<PlaceRecord>, catalog: seq<CityIdRecord>): seq<JoinedCity>
  {
    Filter(CountryMatches, FullDataset(places, catalog))
  }

  /** `clear_dataset`: one row per name. */
  function ClearDataset(places: seq<PlaceRecord>, catalog: seq<CityIdRecord>): seq<JoinedCity>
  {
    DropDuplicates(CountryChecked(places, catalog))
  }

  /** `sel_dataset`: the first `selection` rows. */
  function SelDataset(places: seq<PlaceRecord>, catalog: seq<CityIdRecord>, selection: int): seq<JoinedCity>
  {
    Take(ClearDataset(places, catalog), selection)
  }

  function CityIdOf(row: JoinedCity): int
  {
    row.city.id
  }

  /** `id_list`: the provider IDs of the selection, in order. */
  function IdList(sel: seq<JoinedCity>): (ids: seq<int>)
    ensures |ids| == |sel|
    ensures forall i :: 0 <= i < |sel| ==> ids[i] == sel[i].city.id
  {
    Map(CityIdOf, sel)
  }

  /** The checked rows are in population order. */
  lemma CountryCheckedPopOrder(places: seq<PlaceRecord>, catalog: seq<CityIdRecord>)
    ensures RowsPopDescending(CountryChecked(places, catalog))
  {
    MergeKeepsPopOrder(SortByPop(places), catalog);
    FilterIsSubsequence(CountryMatches, FullDataset(places, catalog));
    SubsequenceKeepsOrder(PopAtLeast, CountryChecked(places, catalog), FullDataset(places, catalog));
  }

  /** Every row that survives the country check pairs a place with a catalog
      entry of the same name and the same country, and every such pair
      survives it. */
  lemma CountryCheckedRows(places: seq<PlaceRecord>, catalog: seq<CityIdRecord>)
    ensures forall p, c :: JoinedCity(p, c) in CountryChecked(places, catalog) <==>
      p in places && c in catalog && p.nameascii == c.name && p.isoA2 == c.country
  {
    var sorted := SortByPop(places);
    assert forall p :: p in sorted <==> p in places by {
      forall p ensures p in sorted <==> p in places {
        assert p in sorted <==> p in multiset(sorted);
        assert p in places <==> p in multiset(places);
      }
    }
  }

  /** Every selected row joins a place and a catalog entry of the same name
      and country; the names are pairwise distinct; and the rows are in
      descending order of population. */
  lemma SelDatasetRows(places: seq<PlaceRecord>, catalog: seq<CityIdRecord>, selection: int)
    ensures var sel := SelDataset(places, catalog, selection);
      && (forall row :: row in sel ==>
            row.place in places && row.city in catalog &&
            row.place.nameascii == row.city.name && row.place.isoA2 == row.city.country)
      && (forall i, j :: 0 <= i < j < |sel| ==> NameOf(sel[i]) != NameOf(sel[j]))
      && RowsPopDescending(sel)
  {
    var checked := CountryChecked(places, catalog);
    var clear := ClearDataset(places, catalog);
    var sel := SelDataset(places, catalog, selection);
    CountryCheckedRows(places, catalog);
    CountryCheckedPopOrder(places, catalog);
    DedupIsSubsequence(checked, {});
    SubsequenceKeepsOrder(PopAtLeast, clear, checked);
    PrefixIsSubsequence(clear, |sel|);
    SubsequenceKeepsOrder(PopAtLeast, sel, clear);
    forall row | row in sel
      ensures row.place in places && row.city in catalog
      ensures row.place.nameascii == row.city.name && row.place.isoA2 == row.city.country
    {
      SubsequenceMembers(sel, clear);
      assert row in checked;
      assert JoinedCity(row.place, row.city) == row;
    }
  }

  /** Deduplication keeps, for each name, the row with the largest
      population: no qualifying place with that name has more. */
  lemma SelDatasetKeepsMostPopulated(
    places: seq<PlaceRecord>, catalog: seq<CityIdRecord>, selection: int,
    row: JoinedCity, p: PlaceRecord, c: CityIdRecord)
    requires row in SelDataset(places, catalog, selection)
    requires p in places && c in catalog
    requires p.nameascii == c.name == row.place.nameascii && p.isoA2 == c.country
    ensures p.popMax <= row.place.popMax
  {
    var checked := CountryChecked(places, catalog);
    var clear := ClearDataset(places, catalog);
    CountryCheckedRows(places, catalog);
    CountryCheckedPopOrder(places, catalog);
    DedupKeepsFirst(checked, {});
    assert row in clear;
    var y := JoinedCity(p, c);
    assert y in checked;
    FirstWithNameHasMaxPop(checked, y);
  }

  /** A qualifying name is missing from the selection only when the
      selection already holds `selection` rows. */
  lemma SelDatasetMissesOnlyWhenFull(
    places: seq<PlaceRecord>, catalog: seq<CityIdRecord>, selection: int,
    p: PlaceRecord, c: CityIdRecord)
    requires selection >= 0
    requires p in places && c in catalog && p.nameascii == c.name && p.isoA2 == c.country
    requires forall row :: row in SelDataset(places, catalog, selection) ==> NameOf(row) != p.nameascii
    ensures |SelDataset(places, catalog, selection)| == selection
  {
    var checked := CountryChecked(places, catalog);
    var clear := ClearDataset(places, catalog);
    CountryCheckedRows(places, catalog);
    var y := JoinedCity(p, c);
    assert y in checked;
    FirstWithNameExists(checked, y);
    var x := FirstWithName(checked, p.nameascii).value;
    FirstNameMatches(checked, p.nameascii);
    DedupKeepsFirst(checked, {});
    assert x in clear;
  }

  /** The selection holds the most populated qualifying cities: a qualifying
      place whose name was not selected is no more populous than any
      selected row. */
  lemma SelDatasetIsMostPopulated(
    places: seq<PlaceRecord>, catalog: seq<CityIdRecord>, selection: int,
    p: PlaceRecord, c: CityIdRecord, s: JoinedCity)
    requires p in places && c in catalog && p.nameascii == c.name && p.isoA2 == c.country
    requires forall row :: row in SelDataset(places, catalog, selection) ==> NameOf(row) != p.nameascii
    requires s in SelDataset(places, catalog, selection)
    ensures s.place.popMax >= p.popMax
  {
    var checked := CountryChecked(places, catalog);
    var clear := ClearDataset(places, catalog);
    var sel := SelDataset(places, catalog, selection);
    CountryCheckedRows(places, catalog);
    CountryCheckedPopOrder(places, catalog);
    var y := JoinedCity(p, c);
    assert y in checked;
    FirstWithNameHasMaxPop(checked, y);
    var x := FirstWithName(checked, p.nameascii).value;
    FirstNameMatches(checked, p.nameascii);
    DedupKeepsFirst(checked, {});
    DedupIsSubsequence(checked, {});
    SubsequenceKeepsOrder(PopAtLeast, clear, checked);
    assert x in clear;
    assert sel == clear[..|sel|];
    var i :| 0 <= i < |sel| && sel[i] == s;
    var k :| 0 <= k < |clear| && clear[k] == x;
    assert clear[i] == s;
    assert PopAtLeast(clear[i], clear[k]);
  }

  lemma {:induction false} FirstNameMatches(rows: seq<JoinedCity>, name: string)
    ensures FirstWithName(rows, name).Some? ==> NameOf(FirstWithName(rows, name).value) == name
  {
    if rows != [] && NameOf(rows[0]) != name {
      FirstNameMatches(rows[1..], name);
    }
  }

  // ---------------------------------------------------------------------
  // Attaching the weather columns, `fillna('No data')`, and the clear-sky
  // filter.

  function FillText(v: Option<string>): string
  {
    match v
    case None => NoData
    case Some(s) => s
  }

  function FillClouds(v: Option<int>): Cell
  {
    match v
    case None => Text(NoData)
    case Some(n) => Num(n)
  }

  /** The weather columns have one entry per selected row. */
  predicate ColumnsFit(sel: seq<JoinedCity>, w: WeatherBatch)
  {
    |w.weathMain| == |sel| && |w.weathDesc| == |sel| && |w.cloudCov| == |sel|
  }

  /** `sel_dataset` with the columns `weather`, `weather_description` and
      `clouds` assigned position by position, then filled: row i keeps the
      i-th selected row; its weather is "Clear" exactly when the i-th main
      category was; every absent cell holds the sentinel, and every present
      cell is kept (a cloud cover as a number). */
  function WithWeather(sel: seq<JoinedCity>, w: WeatherBatch): (r: seq<SelectedCity>)
    requires ColumnsFit(sel, w)
    ensures |r| == |sel|
    ensures forall i :: 0 <= i < |sel| ==>
      && r[i].row == sel[i]
      && (r[i].weather == ClearSky <==> w.weathMain[i] == Some(ClearSky))
      && (w.weathMain[i].None? ==> r[i].weather == NoData)
      && (w.weathMain[i].Some? ==> r[i].weather == w.weathMain[i].value)
      && (w.weathDesc[i].None? ==> r[i].weatherDescription == NoData)
      && (w.weathDesc[i].Some? ==> r[i].weatherDescription == w.weathDesc[i].value)
      && (w.cloudCov[i].None? <==> r[i].clouds == Text(NoData))
      && (w.cloudCov[i].Some? ==> r[i].clouds == Num(w.cloudCov[i].value))
  {
    assert NoData != ClearSky by {
      assert |NoData| != |ClearSky|;
    }
    seq(|sel|, i requires 0 <= i < |sel| =>
      SelectedCity(sel[i], FillText(w.weathMain[i]), FillText(w.weathDesc[i]), FillClouds(w.cloudCov[i])))
  }

  predicate IsClear(c: SelectedCity)
  {
    c.weather == ClearSky
  }

  function Project(c: SelectedCity): ClearCity
  {
    ClearCity(c.row.place.nameascii, c.clouds)
  }

  /** `final_dataset[['nameascii', 'clouds']]`: the clear rows, projected,
      in the order of the selection (a subsequence of the projected
      selection), so no more rows than were selected. */
  function FinalDataset(sel: seq<JoinedCity>, w: WeatherBatch): (r: seq<ClearCity>)
    requires ColumnsFit(sel, w)
    ensures IsSubsequence(r, Map(Project, WithWeather(sel, w)))
    ensures |r| <= |sel|
  {
    var ww := WithWeather(sel, w);
    FilterIsSubsequence(IsClear, ww);
    MapKeepsSubsequence(Project, Filter(IsClear, ww), ww);
    SubsequenceLength(Map(Project, Filter(IsClear, ww)), Map(Project, ww));
    Map(Project, Filter(IsClear, ww))
  }

  /** A row is returned exactly when some selected row had main category
      "Clear"; it carries that row's name and its (filled) cloud cover. An
      absent category became "No data" and so never selects a row. */
  lemma FinalDatasetRows(sel: seq<JoinedCity>, w: WeatherBatch)
    requires ColumnsFit(sel, w)
    ensures forall row :: row in FinalDataset(sel, w) <==>
      exists i :: 0 <= i < |sel| && w.weathMain[i] == Some(ClearSky) &&
        row == ClearCity(NameOf(sel[i]), FillClouds(w.cloudCov[i]))
  {
    forall row ensures row in FinalDataset(sel, w) <==>
      exists i :: 0 <= i < |sel| && w.weathMain[i] == Some(ClearSky) &&
        row == ClearCity(NameOf(sel[i]), FillClouds(w.cloudCov[i]))
    {
      if row in FinalDataset(sel, w) {
        ReturnedRowIsClear(sel, w, row);
      }
      if exists i :: 0 <= i < |sel| && w.weathMain[i] == Some(ClearSky) && row == ClearCity(NameOf(sel[i]), FillClouds(w.cloudCov[i])) {
        var i :| 0 <= i < |sel| && w.weathMain[i] == Some(ClearSky) &&
          row == ClearCity(NameOf(sel[i]), FillClouds(w.cloudCov[i]));
        ClearRowIsReturned(sel, w, i);
      }
    }
  }

  /** Row i of the filled selection, projected. */
  lemma ProjectedRow(sel: seq<JoinedCity>, w: WeatherBatch, i: int)
    requires ColumnsFit(sel, w) && 0 <= i < |sel|
    ensures Project(WithWeather(sel, w)[i]) == ClearCity(NameOf(sel[i]), FillClouds(w.cloudCov[i]))
    ensures IsClear(WithWeather(sel, w)[i]) <==> w.weathMain[i] == Some(ClearSky)
  {
  }

  lemma ReturnedRowIsClear(sel: seq<JoinedCity>, w: WeatherBatch, row: ClearCity)
    requires ColumnsFit(sel, w) && row in FinalDataset(sel, w)
    ensures exists i :: (0 <= i < |sel| && w.weathMain[i] == Some(ClearSky) &&
      row == ClearCity(NameOf(sel[i]), FillClouds(w.cloudCov[i])))
  {
    var ww := WithWeather(sel, w);
    var kept := Filter(IsClear, ww);
    var k :| 0 <= k < |kept| && Map(Project, kept)[k] == row;
    assert kept[k] in kept;
    var i :| 0 <= i < |ww| && ww[i] == kept[k];
    ProjectedRow(sel, w, i);
  }

  lemma ClearRowIsReturned(sel: seq<JoinedCity>, w: WeatherBatch, i: int)
    requires ColumnsFit(sel, w) && 0 <= i < |sel| && w.weathMain[i] == Some(ClearSky)
    ensures ClearCity(NameOf(sel[i]), FillClouds(w.cloudCov[i])) in FinalDataset(sel, w)
  {
    var ww := WithWeather(sel, w);
    var kept := Filter(IsClear, ww);
    ProjectedRow(sel, w, i);
    assert ww[i] in ww;
    var k :| 0 <= k < |kept| && kept[k] == ww[i];
    assert Map(Project, kept)[k] == Project(ww[i]);
  }

  predicate DifferentNames(a: ClearCity, b: ClearCity)
  {
    a.nameascii != b.nameascii
  }

  /** A selection with distinct names yields a table with distinct names. */
  lemma FinalDatasetDistinct(sel: seq<JoinedCity>, w: WeatherBatch)
    requires ColumnsFit(sel, w)
    requires forall i, j :: 0 <= i < j < |sel| ==> NameOf(sel[i]) != NameOf(sel[j])
    ensures forall i, j :: 0 <= i < j < |FinalDataset(sel, w)| ==>
      FinalDataset(sel, w)[i].nameascii != FinalDataset(sel, w)[j].nameascii
  {
    var all := Map(Project, WithWeather(sel, w));
    assert OrderedBy(DifferentNames, all);
    SubsequenceKeepsOrder(DifferentNames, FinalDataset(sel, w), all);
    assert forall i, j :: 0 <= i < j < |FinalDataset(sel, w)| ==>
      DifferentNames(FinalDataset(sel, w)[i], FinalDataset(sel, w)[j]);
  }

  /** Read against the HTTP answers: a selected city is returned exactly
      when its request succeeded with main category "Clear", and then with
      the `clouds.all` of that answer (never the sentinel). */
  lemma FinalDatasetFromResponses(sel: seq<JoinedCity>, responses: seq<Response>)
    requires |responses| == |sel| && WeatherOf(responses).Success?
    ensures ColumnsFit(sel, WeatherOf(responses).value)
    ensures forall row :: row in FinalDataset(sel, WeatherOf(responses).value) <==>
      exists i :: 0 <= i < |sel| && responses[i].status == HttpOk &&
        responses[i].main == ClearSky &&
        row == ClearCity(NameOf(sel[i]), Num(responses[i].cloudsAll))
  {
    var w := WeatherOf(responses).value;
    FinalDatasetRows(sel, w);
    forall i | 0 <= i < |sel|
      ensures w.weathMain[i] == Some(ClearSky) <==>
        responses[i].status == HttpOk && responses[i].main == ClearSky
      ensures w.weathMain[i] == Some(ClearSky) ==> FillClouds(w.cloudCov[i]) == Num(responses[i].cloudsAll)
    {
    }
  }

  // ---------------------------------------------------------------------
  // The whole of `select_cities`.

  /** Selects the most populated cities, requests their weather, and returns
      the name and cloud cover of those reporting a clear sky. `responses[i]`
      answers the request for the i-th selected city. The call raises (a
      Failure) when the weather client does. */
  method SelectCities(
    places: seq<PlaceRecord>, catalog: seq<CityIdRecord>, selection: int, responses: seq<Response>)
    returns (r: Result<seq<ClearCity>, WeatherError>, log: seq<Diagnostic>)
    requires |responses| == |SelDataset(places, catalog, selection)|
    ensures log == Diagnostics(IdList(SelDataset(places, catalog, selection)), responses)
    ensures r.Failure? <==> |responses| == 0 || responses[|responses| - 1].dt.None?
    ensures r.Failure? ==> WeatherOf(responses) == Failure(r.error)
    ensures r.Success? ==>
      var sel := SelDataset(places, catalog, selection);
      && ColumnsFit(sel, WeatherOf(responses).value)
      && r.value == FinalDataset(sel, WeatherOf(responses).value)
    ensures r.Success? ==>
      var sel := SelDataset(places, catalog, selection);
      && |r.value| <= |sel|
      && (selection >= 0 ==> |r.value| <= selection)
      && (forall i, j :: 0 <= i < j < |r.value| ==> r.value[i].nameascii != r.value[j].nameascii)
      && (forall row :: row in r.value <==>
            exists i :: 0 <= i < |sel| && responses[i].status == HttpOk &&
              responses[i].main == ClearSky &&
              row == ClearCity(NameOf(sel[i]), Num(responses[i].cloudsAll)))
  {
    var sel := SelDataset(places, catalog, selection);
    var weather;
    weather, log := GetWeather(IdList(sel), responses);
    match weather {
      case Failure(e) =>
        r := Failure(e);
      case Success(w) =>
        FinalDatasetFromResponses(sel, responses);
        SelDatasetRows(places, catalog, selection);
        FinalDatasetDistinct(sel, w);
        r := Success(FinalDataset(sel, w));
    }
  }
}
