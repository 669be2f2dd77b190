/**
 * The record store: the observation table and the location table, with the
 * queries the cache manager runs against them. The observation table has no
 * uniqueness constraint of its own; `(zip, year, month, day)` is only the key
 * the cache manager looks rows up by. The location table is unique on zip.
 */
module Store {
  import opened Wrappers
  import opened Dates
  import opened Sorting
  import opened Records

  /** A cached geocoding result. */
  datatype Location = Location(
    lat: real, lon: real,
    placeName: Option<string>, stateName: Option<string>, stateCode: Option<string>, countyName: Option<string>)

  /**
   * A stored observation: its key columns, its date and the eight variable
   * columns. `values` has exactly the eight variables as keys; a NULL column
   * is `None`.
   */
  datatype Observation = Observation(
    zip: string, lat: real, lon: real, date: Date,
    year: int, month: int, day: int,
    values: map<VarName, Option<real>>)

  datatype Key = Key(zip: string, year: int, month: int, day: int)

  datatype Database = Database(weather: seq<Observation>, locations: map<string, Location>)

  const EmptyDatabase: Database := Database([], map[])

  function KeyOf(o: Observation): Key {
    Key(o.zip, o.year, o.month, o.day)
  }

  function Keys(rows: seq<Observation>): set<Key> {
    set i | 0 <= i < |rows| :: KeyOf(rows[i])
  }

  /** The number of rows stored under `k`. */
  function Count(rows: seq<Observation>, k: Key): nat {
    if rows == [] then 0
    else (if KeyOf(rows[0]) == k then 1 else 0) + Count(rows[1..], k)
  }

  predicate NoDuplicateKeys(rows: seq<Observation>) {
    forall i, j :: 0 <= i < j < |rows| ==> KeyOf(rows[i]) != KeyOf(rows[j])
  }

  // ----- cache_weather_data -----

  /**
   * The eight variable columns of a fetched row (`row.get(name)`): a
   * variable the row lacks is NULL, and variables without a column are dropped.
   */
  function StoredValues(values: map<VarName, Option<real>>): (r: map<VarName, Option<real>>)
    ensures r.Keys == StoredVariables
    ensures forall v :: v in StoredVariables && v in values ==> r[v] == values[v]
    ensures forall v :: v in StoredVariables && v !in values ==> r[v] == None
  {
    map v | v in StoredVariables :: if v in values then values[v] else None
  }

  /**
   * The observation `cache_weather_data` builds from a fetched row, as
   * written: the key year is the row's loop year, the key month and day are
   * those of the row's date.
   */
  function ObservationAsWritten(zip: string, lat: real, lon: real, row: DayRow): (o: Observation)
    ensures KeyOf(o) == Key(zip, row.year, row.date.month, row.date.day)
    ensures o.date == row.date && o.lat == lat && o.lon == lon
    ensures o.date == Date(o.year, o.month, o.day) <==> row.date.year == row.year
    ensures o.values.Keys == StoredVariables
  {
    Observation(zip, lat, lon, row.date, row.year, row.date.month, row.date.day, StoredValues(row.values))
  }

  /**
   * The corrected observation: the key year is the calendar year of the
   * row's date, so the key always names the day whose weather is stored.
   */
  function ObservationOf(zip: string, lat: real, lon: real, row: DayRow): (o: Observation)
    ensures o.year == o.date.year && o.month == o.date.month && o.day == o.date.day
    ensures o.date == row.date && o.zip == zip && o.lat == lat && o.lon == lon
    ensures o.values.Keys == StoredVariables
  {
    Observation(zip, lat, lon, row.date, row.date.year, row.date.month, row.date.day, StoredValues(row.values))
  }

  /** The two agree on every row whose loop year is its calendar year. */
  lemma ObservationCorrectionOnlyForWrappedDays(zip: string, lat: real, lon: real, row: DayRow)
    ensures ObservationOf(zip, lat, lon, row) == ObservationAsWritten(zip, lat, lon, row) <==> row.year == row.date.year
  {
  }

  function ObservationsAsWritten(zip: string, lat: real, lon: real, rows: seq<DayRow>): (r: seq<Observation>)
    ensures |r| == |rows|
    ensures forall i :: 0 <= i < |r| ==> r[i] == ObservationAsWritten(zip, lat, lon, rows[i])
  {
    seq(|rows|, i requires 0 <= i < |rows| => ObservationAsWritten(zip, lat, lon, rows[i]))
  }

  function Observations(zip: string, lat: real, lon: real, rows: seq<DayRow>): (r: seq<Observation>)
    ensures |r| == |rows|
    ensures forall i :: 0 <= i < |r| ==> r[i] == ObservationOf(zip, lat, lon, rows[i])
  {
    seq(|rows|, i requires 0 <= i < |rows| => ObservationOf(zip, lat, lon, rows[i]))
  }

  /** The candidates whose key is not in `existing`, in order. */
  function NewRows(existing: set<Key>, candidates: seq<Observation>): (r: seq<Observation>)
    ensures forall i :: 0 <= i < |r| ==> KeyOf(r[i]) !in existing
    ensures forall o :: o in r <==> o in candidates && KeyOf(o) !in existing
  {
    if candidates == [] then []
    else
      var rest := NewRows(existing, candidates[1..]);
      assert candidates == [candidates[0]] + candidates[1..];
      if KeyOf(candidates[0]) in existing then rest else [candidates[0]] + rest
  }

  /**
   * Insert-if-absent: every candidate whose key is not already stored is
   * appended. The existence check sees the table as it was before the batch
   * (the session does not flush pending rows before querying).
   */
  function InsertAbsent(rows: seq<Observation>, candidates: seq<Observation>): (r: seq<Observation>)
    ensures |rows| <= |r| && r[..|rows|] == rows
    ensures Keys(r) == Keys(rows) + Keys(candidates)
    ensures forall o :: multiset(r[|rows|..])[o] == if KeyOf(o) in Keys(rows) then 0 else multiset(candidates)[o]
  {
    var added := NewRows(Keys(rows), candidates);
    KeysAppend(rows, added);
    NewRowsKeys(Keys(rows), candidates);
    assert (rows + added)[..|rows|] == rows;
    assert (rows + added)[|rows|..] == added;
    forall o
      ensures multiset(added)[o] == if KeyOf(o) in Keys(rows) then 0 else multiset(candidates)[o]
    {
      NewRowsMultiset(Keys(rows), candidates, o);
    }
    rows + added
  }

  /** The new rows are the candidates with an unknown key, each as often as it is offered. */
  lemma {:induction false} NewRowsMultiset(existing: set<Key>, candidates: seq<Observation>, o: Observation)
    ensures multiset(NewRows(existing, candidates))[o] == if KeyOf(o) in existing then 0 else multiset(candidates)[o]
  {
    if candidates != [] {
      NewRowsMultiset(existing, candidates[1..], o);
      assert candidates == [candidates[0]] + candidates[1..];
    }
  }

  lemma KeysAppend(a: seq<Observation>, b: seq<Observation>)
    ensures Keys(a + b) == Keys(a) + Keys(b)
  {
    forall k | k in Keys(a + b) ensures k in Keys(a) + Keys(b) {
      var i :| 0 <= i < |a + b| && KeyOf((a + b)[i]) == k;
      if i >= |a| {
        assert (a + b)[i] == b[i - |a|];
      }
    }
    forall k | k in Keys(b) ensures k in Keys(a + b) {
      var i :| 0 <= i < |b| && KeyOf(b[i]) == k;
      assert (a + b)[|a| + i] == b[i];
    }
    forall k | k in Keys(a) ensures k in Keys(a + b) {
      var i :| 0 <= i < |a| && KeyOf(a[i]) == k;
      assert (a + b)[i] == a[i];
    }
  }

  lemma {:induction false} NewRowsKeys(existing: set<Key>, candidates: seq<Observation>)
    ensures Keys(NewRows(existing, candidates)) == Keys(candidates) - existing
  {
    if candidates == [] {
    } else {
      var c := candidates[0];
      var tail := candidates[1..];
      NewRowsKeys(existing, tail);
      assert candidates == [c] + tail;
      KeysAppend([c], tail);
      assert Keys([c]) == {KeyOf(c)};
      if KeyOf(c) !in existing {
        KeysAppend([c], NewRows(existing, tail));
      }
    }
  }

  /** The loop of `cache_weather_data`, one candidate at a time. */
  method InsertAbsentLoop(rows: seq<Observation>, candidates: seq<Observation>) returns (result: seq<Observation>)
    ensures result == InsertAbsent(rows, candidates)
  {
    var before := Keys(rows);
    result := rows;
    var i := 0;
    while i < |candidates|
      invariant 0 <= i <= |candidates|
      invariant result == rows + NewRows(before, candidates[..i])
    {
      NewRowsSnoc(before, candidates[..i], candidates[i]);
      assert candidates[..i + 1] == candidates[..i] + [candidates[i]];
      if KeyOf(candidates[i]) !in before {
        result := result + [candidates[i]];
      }
      i := i + 1;
    }
    assert candidates[..i] == candidates;
  }

  lemma {:induction false} NewRowsSnoc(existing: set<Key>, candidates: seq<Observation>, c: Observation)
    ensures NewRows(existing, candidates + [c]) ==
            NewRows(existing, candidates) + (if KeyOf(c) in existing then [] else [c])
  {
    if candidates == [] {
      assert candidates + [c] == [c];
      assert [c][1..] == [];
    } else {
      assert (candidates + [c])[1..] == candidates[1..] + [c];
      NewRowsSnoc(existing, candidates[1..], c);
    }
  }

  lemma {:induction false} CountAppend(a: seq<Observation>, b: seq<Observation>, k: Key)
    ensures Count(a + b, k) == Count(a, k) + Count(b, k)
  {
    if a == [] {
      assert a + b == b;
    } else {
      assert (a + b)[1..] == a[1..] + b;
      CountAppend(a[1..], b, k);
    }
  }

  lemma {:induction false} CountAbsent(rows: seq<Observation>, k: Key)
    requires forall i :: 0 <= i < |rows| ==> KeyOf(rows[i]) != k
    ensures Count(rows, k) == 0
  {
    if rows != [] {
      CountAbsent(rows[1..], k);
    }
  }

  /** A key already stored keeps exactly the rows it had: a batch never duplicates it. */
  lemma InsertAbsentNeverDuplicatesStored(rows: seq<Observation>, candidates: seq<Observation>, k: Key)
    requires k in Keys(rows)
    ensures Count(InsertAbsent(rows, candidates), k) == Count(rows, k)
  {
    var added := NewRows(Keys(rows), candidates);
    CountAppend(rows, added, k);
    CountAbsent(added, k);
  }

  /**
   * A table free of duplicate keys stays so after a batch whose own keys
   * are distinct.
   */
  lemma InsertAbsentKeepsKeysUnique(rows: seq<Observation>, candidates: seq<Observation>)
    requires NoDuplicateKeys(rows)
    requires NoDuplicateKeys(candidates)
    ensures NoDuplicateKeys(InsertAbsent(rows, candidates))
  {
    var added := NewRows(Keys(rows), candidates);
    NewRowsNoDuplicates(Keys(rows), candidates);
    var r := rows + added;
    forall i, j | 0 <= i < j < |r|
      ensures KeyOf(r[i]) != KeyOf(r[j])
    {
      if j >= |rows| {
        assert r[j] == added[j - |rows|];
        if i < |rows| {
          assert KeyOf(r[i]) in Keys(rows);
        } else {
          assert r[i] == added[i - |rows|];
        }
      }
    }
  }

  lemma {:induction false} NewRowsNoDuplicates(existing: set<Key>, candidates: seq<Observation>)
    requires NoDuplicateKeys(candidates)
    ensures NoDuplicateKeys(NewRows(existing, candidates))
  {
    if candidates != [] {
      NewRowsNoDuplicates(existing, candidates[1..]);
      var rest := NewRows(existing, candidates[1..]);
      forall j | 0 <= j < |rest|
        ensures KeyOf(candidates[0]) != KeyOf(rest[j])
      {
        assert rest[j] in candidates[1..];
        var m :| 0 <= m < |candidates[1..]| && candidates[1..][m] == rest[j];
        assert candidates[m + 1] == rest[j];
      }
    }
  }

  /** Persisting the same batch twice stores nothing the second time. */
  lemma InsertAbsentIdempotent(rows: seq<Observation>, candidates: seq<Observation>)
    ensures InsertAbsent(InsertAbsent(rows, candidates), candidates) == InsertAbsent(rows, candidates)
  {
    var once := InsertAbsent(rows, candidates);
    NewRowsAllKnown(Keys(once), candidates);
  }

  lemma {:induction false} NewRowsAllKnown(existing: set<Key>, candidates: seq<Observation>)
    requires Keys(candidates) <= existing
    ensures NewRows(existing, candidates) == []
  {
    if candidates != [] {
      assert KeyOf(candidates[0]) in Keys(candidates);
      assert Keys(candidates[1..]) <= Keys(candidates) by {
        forall k | k in Keys(candidates[1..]) ensures k in Keys(candidates) {
          var i :| 0 <= i < |candidates[1..]| && KeyOf(candidates[1..][i]) == k;
          assert candidates[1..][i] == candidates[i + 1];
        }
      }
      NewRowsAllKnown(existing, candidates[1..]);
    }
  }

  /** Against an empty key set every candidate is new. */
  lemma {:induction false} NewRowsOfEmpty(candidates: seq<Observation>)
    ensures NewRows({}, candidates) == candidates
  {
    if candidates != [] {
      NewRowsOfEmpty(candidates[1..]);
      assert candidates == [candidates[0]] + candidates[1..];
    }
  }

  /**
   * Two rows with the same new key in one batch are both inserted, because
   * the check only sees the rows stored before the batch.
   */
  lemma InsertAbsentDuplicateWithinBatch(o: Observation)
    ensures Count(InsertAbsent([], [o, o]), KeyOf(o)) == 2
  {
    var none: seq<Observation> := [];
    assert Keys(none) == {};
    assert [o, o][1..] == [o];
    assert [o][1..] == [];
    assert NewRows({}, [o]) == [o];
    assert NewRows({}, [o, o]) == [o, o];
    assert InsertAbsent(none, [o, o]) == [o, o];
    assert [o, o][1..] == [o];
    assert Count([o], KeyOf(o)) == 1;
  }

  /** `cache_weather_data` with the corrected key year: the location table is untouched. */
  function CacheWeatherData(st: Database, zip: string, lat: real, lon: real, rows: seq<DayRow>): (r: Database)
    ensures r.locations == st.locations
    ensures |st.weather| <= |r.weather| && r.weather[..|st.weather|] == st.weather
    ensures Keys(r.weather) == Keys(st.weather) + Keys(Observations(zip, lat, lon, rows))
    ensures forall o :: multiset(r.weather[|st.weather|..])[o] ==
              if KeyOf(o) in Keys(st.weather) then 0 else multiset(Observations(zip, lat, lon, rows))[o]
  {
    Database(InsertAbsent(st.weather, Observations(zip, lat, lon, rows)), st.locations)
  }

  /** `cache_weather_data` as written. */
  function CacheWeatherDataAsWritten(st: Database, zip: string, lat: real, lon: real, rows: seq<DayRow>): (r: Database)
    ensures r.locations == st.locations
    ensures |st.weather| <= |r.weather| && r.weather[..|st.weather|] == st.weather
    ensures Keys(r.weather) == Keys(st.weather) + Keys(ObservationsAsWritten(zip, lat, lon, rows))
    ensures forall o :: multiset(r.weather[|st.weather|..])[o] ==
              if KeyOf(o) in Keys(st.weather) then 0 else multiset(ObservationsAsWritten(zip, lat, lon, rows))[o]
  {
    Database(InsertAbsent(st.weather, ObservationsAsWritten(zip, lat, lon, rows)), st.locations)
  }

  // ----- get_cached_weather_data -----

  predicate Matches(o: Observation, zip: string, month: int, day: int) {
    o.zip == zip && o.month == month && o.day == day
  }

  /** The years stored for one zip and month/day. */
  function CachedYears(rows: seq<Observation>, zip: string, month: int, day: int): set<int> {
    set i | 0 <= i < |rows| && Matches(rows[i], zip, month, day) :: rows[i].year
  }

  /** The rows of one zip and month/day whose year is in the range, in table order. */
  function MatchingRows(rows: seq<Observation>, zip: string, month: int, day: int,
                        startYear: int, endYear: int): (r: seq<Observation>)
    ensures forall i :: 0 <= i < |r| ==> Matches(r[i], zip, month, day) && startYear <= r[i].year <= endYear
    ensures forall o :: o in r <==> o in rows && Matches(o, zip, month, day) && startYear <= o.year <= endYear
  {
    if rows == [] then []
    else
      assert rows == [rows[0]] + rows[1..];
      (if Matches(rows[0], zip, month, day) && startYear <= rows[0].year <= endYear then [rows[0]] else [])
      + MatchingRows(rows[1..], zip, month, day, startYear, endYear)
  }

  lemma {:induction false} MatchingRowsMultiset(rows: seq<Observation>, zip: string, month: int, day: int,
                                                startYear: int, endYear: int, o: Observation)
    ensures multiset(MatchingRows(rows, zip, month, day, startYear, endYear))[o] ==
            if Matches(o, zip, month, day) && startYear <= o.year <= endYear then multiset(rows)[o] else 0
  {
    if rows != [] {
      MatchingRowsMultiset(rows[1..], zip, month, day, startYear, endYear, o);
      assert rows == [rows[0]] + rows[1..];
    }
  }

  function YearsOf(rows: seq<Observation>): set<int> {
    set i | 0 <= i < |rows| :: rows[i].year
  }

  predicate ObsYearLe(a: Observation, b: Observation) {
    a.year <= b.year
  }

  lemma ObsYearLeIsTotalPreorder()
    ensures TotalPreorder(ObsYearLe)
  {
  }

  /**
   * `get_cached_weather_data`: the stored rows of one zip and month/day in
   * the year range, ordered by year, but only when every requested year is
   * stored; one missing year makes the whole lookup a miss.
   */
  function CachedWeather(st: Database, zip: string, month: int, day: int,
                         startYear: int, endYear: int): (r: Option<seq<Observation>>)
    ensures r.Some? <==> forall y :: startYear <= y <= endYear ==> y in CachedYears(st.weather, zip, month, day)
    ensures r.Some? ==> Sorted(r.value, ObsYearLe)
    ensures r.Some? ==> forall o :: multiset(r.value)[o] ==
                          (if Matches(o, zip, month, day) && startYear <= o.year <= endYear then multiset(st.weather)[o] else 0)
  {
    var found := MatchingRows(st.weather, zip, month, day, startYear, endYear);
    var years := YearsOf(found);
    ObsYearLeIsTotalPreorder();
    forall o
      ensures multiset(found)[o] ==
              (if Matches(o, zip, month, day) && startYear <= o.year <= endYear then multiset(st.weather)[o] else 0)
    {
      MatchingRowsMultiset(st.weather, zip, month, day, startYear, endYear, o);
    }
    CachedYearsInRange(st.weather, found, zip, month, day, startYear, endYear);
    if forall y :: startYear <= y <= endYear ==> y in years then Some(SortBy(found, ObsYearLe)) else None
  }

  /** Within the range, the years of the matching rows are the stored years. */
  lemma CachedYearsInRange(rows: seq<Observation>, found: seq<Observation>, zip: string, month: int, day: int,
                           startYear: int, endYear: int)
    requires found == MatchingRows(rows, zip, month, day, startYear, endYear)
    ensures forall y :: startYear <= y <= endYear ==>
              (y in YearsOf(found) <==> y in CachedYears(rows, zip, month, day))
  {
    forall y | startYear <= y <= endYear
      ensures y in YearsOf(found) <==> y in CachedYears(rows, zip, month, day)
    {
      if y in CachedYears(rows, zip, month, day) {
        var i :| 0 <= i < |rows| && Matches(rows[i], zip, month, day) && rows[i].year == y;
        assert rows[i] in found;
      }
      if y in YearsOf(found) {
        var j :| 0 <= j < |found| && found[j].year == y;
        assert found[j] in rows;
      }
    }
  }

  // ----- the key year of a stored observation -----

  /** Every observation's key names the day whose weather it holds. */
  predicate Coherent(rows: seq<Observation>) {
    forall i :: 0 <= i < |rows| ==> rows[i].date == Date(rows[i].year, rows[i].month, rows[i].day)
  }

  /** Persisting with the corrected key year keeps the table coherent. */
  lemma CacheWeatherDataKeepsCoherent(st: Database, zip: string, lat: real, lon: real, rows: seq<DayRow>)
    ensures Coherent(st.weather) ==> Coherent(CacheWeatherData(st, zip, lat, lon, rows).weather)
  {
    if !Coherent(st.weather) {
      return;
    }
    var candidates := Observations(zip, lat, lon, rows);
    var added := NewRows(Keys(st.weather), candidates);
    var r := st.weather + added;
    assert CacheWeatherData(st, zip, lat, lon, rows).weather == r;
    forall i | 0 <= i < |r|
      ensures r[i].date == Date(r[i].year, r[i].month, r[i].day)
    {
      if i >= |st.weather| {
        assert r[i] == added[i - |st.weather|];
        assert r[i] in candidates;
        var j :| 0 <= j < |candidates| && candidates[j] == r[i];
      } else {
        assert r[i] == st.weather[i];
      }
    }
  }

  /** One row whose key does not name its date makes the table incoherent. */
  lemma IncoherentRow(rows: seq<Observation>, o: Observation)
    requires o in rows && o.date != Date(o.year, o.month, o.day)
    ensures !Coherent(rows)
  {
    var i :| 0 <= i < |rows| && rows[i] == o;
  }

  /**
   * On a coherent table a cache hit for one month and day returns, for
   * every year in the range, observations dated that very day.
   */
  lemma CachedWeatherOnCoherentIsExact(st: Database, zip: string, month: int, day: int, startYear: int, endYear: int)
    requires Coherent(st.weather)
    requires CachedWeather(st, zip, month, day, startYear, endYear).Some?
    ensures forall o :: o in CachedWeather(st, zip, month, day, startYear, endYear).value ==>
              o.zip == zip && o.date == Date(o.year, month, day) && startYear <= o.year <= endYear
  {
    var found := CachedWeather(st, zip, month, day, startYear, endYear).value;
    forall o | o in found
      ensures o.zip == zip && o.date == Date(o.year, month, day) && startYear <= o.year <= endYear
    {
      assert multiset(found)[o] > 0;
      assert o in st.weather;
      var i :| 0 <= i < |st.weather| && st.weather[i] == o;
    }
  }

  /** A row appended by persistence is in the table afterwards. */
  lemma AppendedRowIsStored(before: seq<Observation>, after: seq<Observation>, o: Observation)
    requires |before| <= |after|
    requires multiset(after[|before|..])[o] > 0
    ensures o in after
  {
    assert o in after[|before|..];
    var i :| 0 <= i < |after[|before|..]| && after[|before|..][i] == o;
    assert after[|before| + i] == o;
  }

  /**
   * A stored row is served: a one-year lookup of its own zip, month, day
   * and key year hits, and any hit over a range holding its key year
   * returns it.
   */
  lemma StoredRowIsServed(st: Database, o: Observation, startYear: int, endYear: int)
    requires o in st.weather
    requires startYear <= o.year <= endYear
    ensures CachedWeather(st, o.zip, o.month, o.day, o.year, o.year).Some?
    ensures var hit := CachedWeather(st, o.zip, o.month, o.day, startYear, endYear);
            hit.Some? ==> o in hit.value
  {
    var i :| 0 <= i < |st.weather| && st.weather[i] == o;
    assert Matches(st.weather[i], o.zip, o.month, o.day);
    assert o.year in CachedYears(st.weather, o.zip, o.month, o.day);
    var hit := CachedWeather(st, o.zip, o.month, o.day, startYear, endYear);
    if hit.Some? {
      assert multiset(hit.value)[o] == multiset(st.weather)[o];
    }
  }

  /**
   * As written, a day past New Year of a wrapped range (loop year 2020,
   * date 2021-01-02) is stored under key year 2020, so a later lookup of
   * January 2 for 2020 alone is a hit that returns the 2021 observation.
   */
  lemma AsWrittenStoresWrappedDayUnderLoopYear(zip: string, lat: real, lon: real, values: map<VarName, Option<real>>)
    ensures var row := DayRow(2020, Date(2021, 1, 2), lat, lon, values);
            var st := CacheWeatherDataAsWritten(EmptyDatabase, zip, lat, lon, [row]);
            var hit := CachedWeather(st, zip, 1, 2, 2020, 2020);
            hit.Some? && |hit.value| == 1 && hit.value[0].date == Date(2021, 1, 2) && hit.value[0].year == 2020
            && !Coherent(st.weather)
  {
    var row := DayRow(2020, Date(2021, 1, 2), lat, lon, values);
    var o := ObservationAsWritten(zip, lat, lon, row);
    var none: seq<Observation> := [];
    assert ObservationsAsWritten(zip, lat, lon, [row]) == [o];
    assert Keys(none) == {};
    assert NewRows({}, [o]) == [o];
    var st := CacheWeatherDataAsWritten(EmptyDatabase, zip, lat, lon, [row]);
    assert st.weather == [o];
    SingleRowHit(st, o, zip, 1, 2, 2020);
  }

  /** A table holding one matching row answers a one-year lookup with exactly that row. */
  lemma SingleRowHit(st: Database, o: Observation, zip: string, month: int, day: int, year: int)
    requires st.weather == [o]
    requires Matches(o, zip, month, day) && o.year == year
    ensures CachedWeather(st, zip, month, day, year, year) == Some([o])
  {
    assert year in CachedYears(st.weather, zip, month, day);
    var hit := CachedWeather(st, zip, month, day, year, year).value;
    assert multiset(hit) == multiset{o} by {
      forall x ensures multiset(hit)[x] == multiset{o}[x] {
        assert multiset(st.weather)[x] == multiset{o}[x];
      }
    }
    assert |hit| == 1;
    assert hit[0] in multiset(hit);
  }

  /** With the corrected key year the same day is stored under 2021, and the 2020 lookup misses. */
  lemma CorrectedStoresWrappedDayUnderItsYear(zip: string, lat: real, lon: real, values: map<VarName, Option<real>>)
    ensures var row := DayRow(2020, Date(2021, 1, 2), lat, lon, values);
            var st := CacheWeatherData(EmptyDatabase, zip, lat, lon, [row]);
            CachedWeather(st, zip, 1, 2, 2020, 2020).None? && CachedWeather(st, zip, 1, 2, 2021, 2021).Some?
  {
    var row := DayRow(2020, Date(2021, 1, 2), lat, lon, values);
    var o := ObservationOf(zip, lat, lon, row);
    var none: seq<Observation> := [];
    assert Observations(zip, lat, lon, [row]) == [o];
    assert Keys(none) == {};
    assert NewRows({}, [o]) == [o];
    var st := CacheWeatherData(EmptyDatabase, zip, lat, lon, [row]);
    assert st.weather == [o];
    assert CachedYears(st.weather, zip, 1, 2) == {2021} by {
      assert Matches(st.weather[0], zip, 1, 2) && st.weather[0].year == 2021;
    }
    assert !(2020 in CachedYears(st.weather, zip, 1, 2));
    assert forall y :: 2021 <= y <= 2021 ==> y in CachedYears(st.weather, zip, 1, 2);
  }

  // ----- clear_cache -----

  /** Python truthiness of the optional zip argument. */
  predicate Truthy(zip: Option<string>) {
    zip.Some? && zip.value != ""
  }

  function WithoutZip(rows: seq<Observation>, zip: string): (r: seq<Observation>)
    ensures forall i :: 0 <= i < |r| ==> r[i].zip != zip
  {
    if rows == [] then []
    else (if rows[0].zip == zip then [] else [rows[0]]) + WithoutZip(rows[1..], zip)
  }

  /** The rows of one zip, in table order. */
  function OfZip(rows: seq<Observation>, zip: string): (r: seq<Observation>)
    ensures forall i :: 0 <= i < |r| ==> r[i].zip == zip
  {
    if rows == [] then []
    else (if rows[0].zip == zip then [rows[0]] else []) + OfZip(rows[1..], zip)
  }

  lemma {:induction false} OfZipWithoutOther(rows: seq<Observation>, zip: string, other: string)
    requires zip != other
    ensures OfZip(WithoutZip(rows, other), zip) == OfZip(rows, zip)
  {
    if rows != [] {
      OfZipWithoutOther(rows[1..], zip, other);
      var tail := WithoutZip(rows[1..], other);
      if rows[0].zip != other {
        var kept := [rows[0]] + tail;
        assert WithoutZip(rows, other) == kept;
        assert kept[0] == rows[0] && kept[1..] == tail;
        assert OfZip(kept, zip) == (if rows[0].zip == zip then [rows[0]] else []) + OfZip(tail, zip);
      } else {
        assert WithoutZip(rows, other) == tail;
      }
    }
  }

  /**
   * `clear_cache`: with a zip, drops that zip's observations and location;
   * without one (or with an empty one), empties both tables.
   */
  function ClearCache(st: Database, zip: Option<string>): (r: Database)
    ensures !Truthy(zip) ==> r == EmptyDatabase
    ensures Truthy(zip) ==> forall i :: 0 <= i < |r.weather| ==> r.weather[i].zip != zip.value
    ensures Truthy(zip) ==> zip.value !in r.locations
    ensures Truthy(zip) ==> forall z :: z != zip.value ==> OfZip(r.weather, z) == OfZip(st.weather, z)
    ensures Truthy(zip) ==> forall z :: z != zip.value ==>
              (z in r.locations <==> z in st.locations) && (z in r.locations ==> r.locations[z] == st.locations[z])
  {
    if Truthy(zip) then
      var z := zip.value;
      forall other | other != z
        ensures OfZip(WithoutZip(st.weather, z), other) == OfZip(st.weather, other)
      {
        OfZipWithoutOther(st.weather, other, z);
      }
      Database(WithoutZip(st.weather, z), st.locations - {z})
    else
      EmptyDatabase
  }

  lemma {:induction false} MatchingRowsWithoutOther(rows: seq<Observation>, zip: string, other: string,
                                                    month: int, day: int, startYear: int, endYear: int)
    requires zip != other
    ensures MatchingRows(WithoutZip(rows, other), zip, month, day, startYear, endYear) ==
            MatchingRows(rows, zip, month, day, startYear, endYear)
  {
    if rows != [] {
      MatchingRowsWithoutOther(rows[1..], zip, other, month, day, startYear, endYear);
      var tail := WithoutZip(rows[1..], other);
      if rows[0].zip != other {
        var kept := [rows[0]] + tail;
        assert WithoutZip(rows, other) == kept;
        assert kept[0] == rows[0] && kept[1..] == tail;
      } else {
        assert WithoutZip(rows, other) == tail;
      }
    }
  }

  lemma CachedYearsWithoutOther(rows: seq<Observation>, zip: string, other: string, month: int, day: int)
    requires zip != other
    ensures CachedYears(WithoutZip(rows, other), zip, month, day) == CachedYears(rows, zip, month, day)
  {
    var kept := WithoutZip(rows, other);
    forall y | y in CachedYears(rows, zip, month, day)
      ensures y in CachedYears(kept, zip, month, day)
    {
      var i :| 0 <= i < |rows| && Matches(rows[i], zip, month, day) && rows[i].year == y;
      WithoutZipKeeps(rows, other, i);
      var j :| 0 <= j < |kept| && kept[j] == rows[i];
    }
    forall y | y in CachedYears(kept, zip, month, day)
      ensures y in CachedYears(rows, zip, month, day)
    {
      var j :| 0 <= j < |kept| && Matches(kept[j], zip, month, day) && kept[j].year == y;
      WithoutZipSubset(rows, other, j);
      var i :| 0 <= i < |rows| && rows[i] == kept[j];
    }
  }

  lemma {:induction false} WithoutZipKeeps(rows: seq<Observation>, zip: string, i: int)
    requires 0 <= i < |rows| && rows[i].zip != zip
    ensures rows[i] in WithoutZip(rows, zip)
  {
    if i > 0 {
      WithoutZipKeeps(rows[1..], zip, i - 1);
    }
  }

  lemma {:induction false} WithoutZipSubset(rows: seq<Observation>, zip: string, j: int)
    requires 0 <= j < |WithoutZip(rows, zip)|
    ensures WithoutZip(rows, zip)[j] in rows
  {
    if rows != [] {
      var tail := WithoutZip(rows[1..], zip);
      if rows[0].zip == zip {
        WithoutZipSubset(rows[1..], zip, j);
      } else if j > 0 {
        assert WithoutZip(rows, zip) == [rows[0]] + tail;
        WithoutZipSubset(rows[1..], zip, j - 1);
      }
    }
  }

  /** Clearing one zip leaves every other zip's cached lookups as they were. */
  lemma ClearKeepsOtherLookups(st: Database, cleared: string, zip: string, month: int, day: int,
                               startYear: int, endYear: int)
    requires cleared != "" && zip != cleared
    ensures CachedWeather(ClearCache(st, Some(cleared)), zip, month, day, startYear, endYear) ==
            CachedWeather(st, zip, month, day, startYear, endYear)
  {
    MatchingRowsWithoutOther(st.weather, zip, cleared, month, day, startYear, endYear);
    CachedYearsWithoutOther(st.weather, zip, cleared, month, day);
  }

  // ----- get_cache_stats -----

  datatype CacheStats = CacheStats(
    weatherRecords: nat, locationsCached: nat, uniqueZips: nat,
    minYear: Option<int>, maxYear: Option<int>)

  function Zips(rows: seq<Observation>): set<string> {
    set i | 0 <= i < |rows| :: rows[i].zip
  }

  lemma ZipsExtend(rows: seq<Observation>, i: int)
    requires 0 <= i < |rows|
    ensures Zips(rows[..i + 1]) == Zips(rows[..i]) + {rows[i].zip}
  {
    assert forall k :: 0 <= k < i ==> rows[..i + 1][k] == rows[..i][k];
    assert rows[..i + 1][i] == rows[i];
  }

  /**
   * `get_cache_stats`: row and location counts, the number of distinct zips
   * among the observations, and the least and greatest stored year (`None`
   * when there are no observations).
   */
  method GetCacheStats(st: Database) returns (s: CacheStats)
    ensures s.weatherRecords == |st.weather|
    ensures s.locationsCached == |st.locations|
    ensures s.uniqueZips == |Zips(st.weather)|
    ensures s.minYear.None? <==> st.weather == []
    ensures s.maxYear.None? <==> st.weather == []
    ensures s.minYear.Some? ==> exists i :: 0 <= i < |st.weather| && st.weather[i].year == s.minYear.value
    ensures s.minYear.Some? ==> forall i :: 0 <= i < |st.weather| ==> s.minYear.value <= st.weather[i].year
    ensures s.maxYear.Some? ==> exists i :: 0 <= i < |st.weather| && st.weather[i].year == s.maxYear.value
    ensures s.maxYear.Some? ==> forall i :: 0 <= i < |st.weather| ==> st.weather[i].year <= s.maxYear.value
  {
    var rows := st.weather;
    var zips: set<string> := {};
    var lo: Option<int> := None;
    var hi: Option<int> := None;
    var i := 0;
    while i < |rows|
      invariant 0 <= i <= |rows|
      invariant zips == Zips(rows[..i])
      invariant lo.None? <==> i == 0
      invariant hi.None? <==> i == 0
      invariant lo.Some? ==> exists k :: 0 <= k < i && rows[k].year == lo.value
      invariant lo.Some? ==> forall k :: 0 <= k < i ==> lo.value <= rows[k].year
      invariant hi.Some? ==> exists k :: 0 <= k < i && rows[k].year == hi.value
      invariant hi.Some? ==> forall k :: 0 <= k < i ==> rows[k].year <= hi.value
    {
      ZipsExtend(rows, i);
      zips := zips + {rows[i].zip};
      var y := rows[i].year;
      if lo.None? || y < lo.value {
        lo := Some(y);
      }
      if hi.None? || y > hi.value {
        hi := Some(y);
      }
      i := i + 1;
    }
    assert rows[..i] == rows;
    s := CacheStats(|rows|, |st.locations|, |zips|, lo, hi);
  }
}
