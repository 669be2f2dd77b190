/**
 * The weather cache: the location lookup and the four queries the
 * application runs, over a database, a geocoder and the weather archive.
 * Each query returns its reply together with the database after it, whether
 * it consulted the geocoder, and the archive calls it made.
 */
module Cache {
  import opened Wrappers
  import opened Dates
  import opened Intervals
  import opened Records
  import opened Client
  import opened Store

  /** What the geocoder reports for a zip; NaN coordinates are not modelled. */
  datatype GeoInfo = GeoInfo(
    latitude: Option<real>, longitude: Option<real>,
    placeName: Option<string>, stateName: Option<string>, stateCode: Option<string>, countyName: Option<string>)

  /** The geocoder, as an oracle: `None` when the zip is unknown or the lookup fails. */
  type Geocoder = string -> Option<GeoInfo>

  datatype Coords = Coords(lat: real, lon: real)

  /**
   * A query's reply: a value, Python's `None`, or an exception that
   * propagates out of the query.
   */
  datatype Reply<T> = Value(value: T) | Nothing | Raised

  /** The location lookup's reply and the database after it. */
  datatype Located = Located(reply: Reply<Coords>, db: Database, geocoded: bool)

  /** A query's reply, the database after it, and what it asked of the outside world. */
  datatype Outcome<T> = Outcome(reply: Reply<T>, db: Database, geocoded: bool, requests: seq<Request>)

  /** The geocoder's answer counts only when its latitude is truthy (neither missing nor zero). */
  predicate Usable(info: Option<GeoInfo>) {
    info.Some? && info.value.latitude.Some? && info.value.latitude.value != 0.0
  }

  /** A query that could not locate its zip fails the way the lookup did. */
  predicate SameFailure<T, U>(a: Reply<T>, b: Reply<U>) {
    (a.Nothing? && b.Nothing?) || (a.Raised? && b.Raised?)
  }

  function CoordsOf(loc: Location): Coords {
    Coords(loc.lat, loc.lon)
  }

  /** The other zips' locations are as they were. */
  ghost predicate OtherLocationsKept(before: map<string, Location>, after: map<string, Location>, zip: string) {
    forall z :: z != zip ==> (z in after <==> z in before) && (z in after ==> after[z] == before[z])
  }

  // ----- get_or_cache_location -----

  /**
   * `get_or_cache_location`: a cached location answers without the
   * geocoder; otherwise the geocoder's answer, when usable, is cached and
   * returned. A usable answer without a longitude violates the table's
   * not-null constraint at commit, which raises.
   */
  function GetOrCacheLocation(db: Database, geocode: Geocoder, zip: string): (r: Located)
    ensures r.db.weather == db.weather
    ensures r.geocoded <==> zip !in db.locations
    ensures zip in db.locations ==> r.reply == Value(CoordsOf(db.locations[zip])) && r.db == db
    ensures r.reply.Nothing? <==> zip !in db.locations && !Usable(geocode(zip))
    ensures r.reply.Raised? <==> zip !in db.locations && Usable(geocode(zip)) && geocode(zip).value.longitude.None?
    ensures !r.reply.Value? ==> r.db == db
    ensures r.reply.Value? ==> zip in r.db.locations && r.reply.value == CoordsOf(r.db.locations[zip])
    ensures r.reply.Value? && zip !in db.locations ==>
              r.reply.value == Coords(geocode(zip).value.latitude.value, geocode(zip).value.longitude.value)
    ensures r.reply.Value? && zip !in db.locations ==>
              var g := geocode(zip).value;
              r.db.locations == db.locations[zip := Location(g.latitude.value, g.longitude.value,
                                                             g.placeName, g.stateName, g.stateCode, g.countyName)]
    ensures OtherLocationsKept(db.locations, r.db.locations, zip)
  {
    if zip in db.locations then
      Located(Value(CoordsOf(db.locations[zip])), db, false)
    else
      var info := geocode(zip);
      if !Usable(info) then Located(Nothing, db, true)
      else if info.value.longitude.None? then Located(Raised, db, true)
      else
        var g := info.value;
        var loc := Location(g.latitude.value, g.longitude.value, g.placeName, g.stateName, g.stateCode, g.countyName);
        Located(Value(CoordsOf(loc)), Database(db.weather, db.locations[zip := loc]), true)
  }

  /**
   * Once a zip is located, looking it up again answers the same coordinates
   * from the cache, whatever the geocoder would now say.
   */
  lemma LocationLookupIsIdempotent(db: Database, geocode: Geocoder, later: Geocoder, zip: string)
    requires GetOrCacheLocation(db, geocode, zip).reply.Value?
    ensures var first := GetOrCacheLocation(db, geocode, zip);
            GetOrCacheLocation(first.db, later, zip) == Located(first.reply, first.db, false)
  {
  }

  /**
   * The persisting step of a query, as written: with the cache enabled, the
   * rows whose key is not yet stored are appended under the located
   * coordinates, keyed by their loop year.
   */
  function Persist(db: Database, useCache: bool, zip: string, c: Coords, rows: seq<DayRow>): (r: Database)
    ensures r.locations == db.locations
    ensures |db.weather| <= |r.weather| && r.weather[..|db.weather|] == db.weather
    ensures !useCache ==> r == db
    ensures useCache ==> Keys(r.weather) == Keys(db.weather) + Keys(ObservationsAsWritten(zip, c.lat, c.lon, rows))
    ensures useCache ==>
              forall o :: multiset(r.weather[|db.weather|..])[o] ==
                if KeyOf(o) in Keys(db.weather) then 0 else multiset(ObservationsAsWritten(zip, c.lat, c.lon, rows))[o]
  {
    if useCache then CacheWeatherDataAsWritten(db, zip, c.lat, c.lon, rows) else db
  }

  /**
   * The persisting step with the corrected key year: the same rows are
   * appended, keyed by the calendar year of their date, so the table keeps
   * every observation's key naming its own day.
   */
  function PersistCorrected(db: Database, useCache: bool, zip: string, c: Coords, rows: seq<DayRow>): (r: Database)
    ensures r.locations == db.locations
    ensures |db.weather| <= |r.weather| && r.weather[..|db.weather|] == db.weather
    ensures !useCache ==> r == db
    ensures useCache ==> Keys(r.weather) == Keys(db.weather) + Keys(Observations(zip, c.lat, c.lon, rows))
    ensures useCache ==>
              forall o :: multiset(r.weather[|db.weather|..])[o] ==
                if KeyOf(o) in Keys(db.weather) then 0 else multiset(Observations(zip, c.lat, c.lon, rows))[o]
    ensures Coherent(db.weather) ==> Coherent(r.weather)
  {
    CacheWeatherDataKeepsCoherent(db, zip, c.lat, c.lon, rows);
    if useCache then CacheWeatherData(db, zip, c.lat, c.lon, rows) else db
  }

  // ----- get_weather_data_for_date -----

  /** A single-date table: the stored observations of a cache hit, or the rows of a live query. */
  datatype DateTable = Cached(stored: seq<Observation>) | Live(rows: seq<DayRow>)

  /**
   * `get_weather_data_for_date`: with the cache enabled, a complete cached
   * answer is returned without geocoding or calling the archive; otherwise
   * the zip is located, the archive asked year by year, and a non-empty
   * table returned and, with the cache enabled, persisted.
   */
  function GetWeatherDataForDate(db: Database, geocode: Geocoder, fetch: Fetcher, zip: string,
                                 month: int, day: int, startYear: int, endYear: int, useCache: bool): (r: Outcome<DateTable>)
    // A complete hit answers from the table, and only a hit does.
    ensures useCache && CachedWeather(db, zip, month, day, startYear, endYear).Some? ==>
              r == Outcome(Value(Cached(CachedWeather(db, zip, month, day, startYear, endYear).value)), db, false, [])
    ensures r.reply.Value? && r.reply.value.Cached? ==>
              useCache && CachedWeather(db, zip, month, day, startYear, endYear) == Some(r.reply.value.stored)
    // Otherwise the zip is located, and a failed lookup is the reply.
    ensures !(useCache && CachedWeather(db, zip, month, day, startYear, endYear).Some?) ==>
              r.geocoded == GetOrCacheLocation(db, geocode, zip).geocoded
    ensures !(useCache && CachedWeather(db, zip, month, day, startYear, endYear).Some?) &&
            !GetOrCacheLocation(db, geocode, zip).reply.Value? ==>
              var loc := GetOrCacheLocation(db, geocode, zip);
              SameFailure(r.reply, loc.reply) && r.db == loc.db && r.requests == []
    // Once located, the reply is the client's table, persisted only with the cache on.
    ensures !(useCache && CachedWeather(db, zip, month, day, startYear, endYear).Some?) &&
            GetOrCacheLocation(db, geocode, zip).reply.Value? ==>
              var loc := GetOrCacheLocation(db, geocode, zip);
              var c := loc.reply.value;
              var f := DateAcrossYears(fetch, c.lat, c.lon, month, day, startYear, endYear);
              && r.requests == f.requests
              && (r.reply.Value? <==> f.table.Some?)
              && (f.table.Some? ==> r.reply == Value(Live(f.table.value)) && r.db == Persist(loc.db, useCache, zip, c, f.table.value))
              && (f.table.None? ==> r.reply.Nothing? && r.db == loc.db)
    // A live table holds exactly the answered years' rows.
    ensures r.reply.Value? && r.reply.value.Live? ==> GetOrCacheLocation(db, geocode, zip).reply.Value?
    ensures r.reply.Value? && r.reply.value.Live? && GetOrCacheLocation(db, geocode, zip).reply.Value? ==>
              var c := GetOrCacheLocation(db, geocode, zip).reply.value;
              && r.reply.value.rows != []
              && DateRowsExact(r.reply.value.rows, fetch, c.lat, c.lon, month, day, startYear, endYear)
    ensures |db.weather| <= |r.db.weather| && r.db.weather[..|db.weather|] == db.weather
    ensures !useCache || !r.reply.Value? ==> r.db.weather == db.weather
    ensures OtherLocationsKept(db.locations, r.db.locations, zip)
    ensures Coherent(db.weather) ==> Coherent(r.db.weather)
  {
    if useCache && CachedWeather(db, zip, month, day, startYear, endYear).Some? then
      Outcome(Value(Cached(CachedWeather(db, zip, month, day, startYear, endYear).value)), db, false, [])
    else
      LiveDateQuery(db, geocode, fetch, zip, month, day, startYear, endYear, useCache)
  }

  /** The single-date query past the cache: locate, ask the archive, persist. */
  function LiveDateQuery(db: Database, geocode: Geocoder, fetch: Fetcher, zip: string,
                         month: int, day: int, startYear: int, endYear: int, useCache: bool): (r: Outcome<DateTable>)
    ensures !r.reply.Value? || r.reply.value.Live?
    ensures r.geocoded == GetOrCacheLocation(db, geocode, zip).geocoded
    ensures !GetOrCacheLocation(db, geocode, zip).reply.Value? ==>
              var loc := GetOrCacheLocation(db, geocode, zip);
              SameFailure(r.reply, loc.reply) && r.db == loc.db && r.requests == []
    ensures GetOrCacheLocation(db, geocode, zip).reply.Value? ==>
              var loc := GetOrCacheLocation(db, geocode, zip);
              var c := loc.reply.value;
              var f := DateAcrossYears(fetch, c.lat, c.lon, month, day, startYear, endYear);
              && r.requests == f.requests
              && (r.reply.Value? <==> f.table.Some?)
              && (f.table.Some? ==> r.reply == Value(Live(f.table.value)) && r.db == Persist(loc.db, useCache, zip, c, f.table.value))
              && (f.table.None? ==> r.reply.Nothing? && r.db == loc.db)
    ensures r.reply.Value? ==> GetOrCacheLocation(db, geocode, zip).reply.Value?
    ensures r.reply.Value? && GetOrCacheLocation(db, geocode, zip).reply.Value? ==>
              var c := GetOrCacheLocation(db, geocode, zip).reply.value;
              && r.reply.value.rows != []
              && DateRowsExact(r.reply.value.rows, fetch, c.lat, c.lon, month, day, startYear, endYear)
    ensures |db.weather| <= |r.db.weather| && r.db.weather[..|db.weather|] == db.weather
    ensures !useCache || !r.reply.Value? ==> r.db.weather == db.weather
    ensures OtherLocationsKept(db.locations, r.db.locations, zip)
    ensures Coherent(db.weather) ==> Coherent(r.db.weather)
  {
    var loc := GetOrCacheLocation(db, geocode, zip);
    match loc.reply
    case Nothing => Outcome(Nothing, loc.db, loc.geocoded, [])
    case Raised => Outcome(Raised, loc.db, loc.geocoded, [])
    case Value(c) =>
      var f := DateAcrossYears(fetch, c.lat, c.lon, month, day, startYear, endYear);
      match f.table
      case None => Outcome(Nothing, loc.db, loc.geocoded, f.requests)
      case Some(rows) =>
        DateRowsPersistAlike(fetch, c.lat, c.lon, month, day, startYear, endYear, loc.db, zip);
        CacheWeatherDataKeepsCoherent(loc.db, zip, c.lat, c.lon, rows);
        Outcome(Value(Live(rows)), Persist(loc.db, useCache, zip, c, rows), loc.geocoded, f.requests)
  }

  /**
   * The single-date query tags each row with the year of its own date, so
   * persisting its rows stores the same observations whichever key year is
   * used.
   */
  lemma DateRowsPersistAlike(fetch: Fetcher, lat: real, lon: real, month: int, day: int,
                             startYear: int, endYear: int, db: Database, zip: string)
    requires DateAcrossYears(fetch, lat, lon, month, day, startYear, endYear).table.Some?
    ensures var rows := DateAcrossYears(fetch, lat, lon, month, day, startYear, endYear).table.value;
            CacheWeatherData(db, zip, lat, lon, rows) == CacheWeatherDataAsWritten(db, zip, lat, lon, rows)
  {
    var rows := DateAcrossYears(fetch, lat, lon, month, day, startYear, endYear).table.value;
    forall i | 0 <= i < |rows|
      ensures ObservationOf(zip, lat, lon, rows[i]) == ObservationAsWritten(zip, lat, lon, rows[i])
    {
      ObservationCorrectionOnlyForWrappedDays(zip, lat, lon, rows[i]);
    }
    assert Observations(zip, lat, lon, rows) == ObservationsAsWritten(zip, lat, lon, rows);
  }

  /**
   * A live single-date answer that covers every year of the range, once
   * persisted, makes the same query a cache hit: no geocoding, no archive
   * call, and every fetched row whose key was new is among the rows it
   * returns.
   */
  lemma CompleteAnswerWarmsCache(db: Database, geocode: Geocoder, later: Geocoder, fetch: Fetcher, laterFetch: Fetcher,
                                 zip: string, month: int, day: int, startYear: int, endYear: int)
    requires var r := GetWeatherDataForDate(db, geocode, fetch, zip, month, day, startYear, endYear, true);
             r.reply.Value? && r.reply.value.Live? &&
             forall y :: startYear <= y <= endYear ==> HasYear(r.reply.value.rows, y)
    ensures var r := GetWeatherDataForDate(db, geocode, fetch, zip, month, day, startYear, endYear, true);
            var again := GetWeatherDataForDate(r.db, later, laterFetch, zip, month, day, startYear, endYear, true);
            var c := GetOrCacheLocation(db, geocode, zip).reply.value;
            && again.reply.Value? && again.reply.value.Cached? && !again.geocoded && again.requests == []
            && forall i :: 0 <= i < |r.reply.value.rows| ==>
                 var o := ObservationAsWritten(zip, c.lat, c.lon, r.reply.value.rows[i]);
                 KeyOf(o) !in Keys(db.weather) ==> o in again.reply.value.stored
  {
    var r := GetWeatherDataForDate(db, geocode, fetch, zip, month, day, startYear, endYear, true);
    var loc := GetOrCacheLocation(db, geocode, zip);
    LiveAnswerPersisted(db, geocode, fetch, zip, month, day, startYear, endYear);
    PersistCoversYears(loc.db, zip, loc.reply.value, r.reply.value.rows, month, day, startYear, endYear);
    assert CachedWeather(r.db, zip, month, day, startYear, endYear).Some?;
    PersistedRowsAreServed(loc.db, zip, loc.reply.value, r.reply.value.rows, month, day, startYear, endYear);
  }

  /** A live single-date answer is persisted, and every row is dated the requested day of a year in range. */
  lemma LiveAnswerPersisted(db: Database, geocode: Geocoder, fetch: Fetcher,
                            zip: string, month: int, day: int, startYear: int, endYear: int)
    requires var r := GetWeatherDataForDate(db, geocode, fetch, zip, month, day, startYear, endYear, true);
             r.reply.Value? && r.reply.value.Live?
    ensures GetOrCacheLocation(db, geocode, zip).reply.Value?
    ensures var r := GetWeatherDataForDate(db, geocode, fetch, zip, month, day, startYear, endYear, true);
            var loc := GetOrCacheLocation(db, geocode, zip);
            var rows := r.reply.value.rows;
            && loc.db.weather == db.weather
            && r.db == Persist(loc.db, true, zip, loc.reply.value, rows)
            && forall i :: 0 <= i < |rows| ==>
                 rows[i].date == Date(rows[i].year, month, day) && startYear <= rows[i].year <= endYear
  {
  }

  /** Persisting rows of every year of a range, each dated that year's month/day, caches the range. */
  lemma PersistCoversYears(db: Database, zip: string, c: Coords, rows: seq<DayRow>,
                           month: int, day: int, startYear: int, endYear: int)
    requires forall i :: 0 <= i < |rows| ==> rows[i].date == Date(rows[i].year, month, day)
    requires forall y :: startYear <= y <= endYear ==> HasYear(rows, y)
    ensures forall y :: startYear <= y <= endYear ==>
              y in CachedYears(Persist(db, true, zip, c, rows).weather, zip, month, day)
  {
    var after := Persist(db, true, zip, c, rows).weather;
    var added := ObservationsAsWritten(zip, c.lat, c.lon, rows);
    forall y | startYear <= y <= endYear
      ensures y in CachedYears(after, zip, month, day)
    {
      assert HasYear(rows, y);
      var i :| 0 <= i < |rows| && rows[i].year == y;
      assert KeyOf(added[i]) == Key(zip, y, month, day);
      assert Key(zip, y, month, day) in Keys(added);
      KeyedYearIsCached(after, zip, y, month, day);
    }
  }

  /**
   * Every persisted row whose key was not stored before is returned by any
   * later hit over a range holding its year.
   */
  lemma PersistedRowsAreServed(db: Database, zip: string, c: Coords, rows: seq<DayRow>,
                               month: int, day: int, startYear: int, endYear: int)
    requires forall i :: 0 <= i < |rows| ==>
               rows[i].date == Date(rows[i].year, month, day) && startYear <= rows[i].year <= endYear
    ensures var hit := CachedWeather(Persist(db, true, zip, c, rows), zip, month, day, startYear, endYear);
            hit.Some? ==>
              forall i :: 0 <= i < |rows| ==>
                var o := ObservationAsWritten(zip, c.lat, c.lon, rows[i]);
                KeyOf(o) !in Keys(db.weather) ==> o in hit.value
  {
    forall i | 0 <= i < |rows|
      ensures var hit := CachedWeather(Persist(db, true, zip, c, rows), zip, month, day, startYear, endYear);
              var o := ObservationAsWritten(zip, c.lat, c.lon, rows[i]);
              hit.Some? && KeyOf(o) !in Keys(db.weather) ==> o in hit.value
    {
      PersistedRowIsServed(db, zip, c, rows, i, month, day, startYear, endYear);
    }
  }

  lemma PersistedRowIsServed(db: Database, zip: string, c: Coords, rows: seq<DayRow>, i: int,
                             month: int, day: int, startYear: int, endYear: int)
    requires 0 <= i < |rows|
    requires rows[i].date == Date(rows[i].year, month, day) && startYear <= rows[i].year <= endYear
    ensures var hit := CachedWeather(Persist(db, true, zip, c, rows), zip, month, day, startYear, endYear);
            var o := ObservationAsWritten(zip, c.lat, c.lon, rows[i]);
            hit.Some? && KeyOf(o) !in Keys(db.weather) ==> o in hit.value
  {
    var after := Persist(db, true, zip, c, rows);
    var added := ObservationsAsWritten(zip, c.lat, c.lon, rows);
    var o := ObservationAsWritten(zip, c.lat, c.lon, rows[i]);
    if KeyOf(o) !in Keys(db.weather) {
      assert added[i] == o;
      assert multiset(added)[o] > 0;
      AppendedRowIsStored(db.weather, after.weather, o);
      StoredRowIsServed(after, o, startYear, endYear);
    }
  }

  /**
   * July 4 for zip 10001 over 2020..2021 on an empty weather table, the zip
   * locatable and the archive answering both days: two calls, two rows in
   * year order, both persisted.
   */
  lemma JulyFourthScenario(db: Database, geocode: Geocoder, fetch: Fetcher)
    requires db.weather == []
    requires GetOrCacheLocation(db, geocode, "10001").reply.Value?
    requires var c := GetOrCacheLocation(db, geocode, "10001").reply.value;
             fetch(Request(c.lat, c.lon, Date(2020, 7, 4), Date(2020, 7, 4))).Some? &&
             fetch(Request(c.lat, c.lon, Date(2021, 7, 4), Date(2021, 7, 4))).Some?
    ensures var r := GetWeatherDataForDate(db, geocode, fetch, "10001", 7, 4, 2020, 2021, true);
            && r.reply.Value? && r.reply.value.Live?
            && |r.reply.value.rows| == 2
            && r.reply.value.rows[0].date == Date(2020, 7, 4)
            && r.reply.value.rows[1].date == Date(2021, 7, 4)
            && |r.requests| == 2
            && |r.db.weather| == 2
  {
    var zip := "10001";
    var loc := GetOrCacheLocation(db, geocode, zip);
    var c := loc.reply.value;
    assert Valid(Date(2020, 7, 4)) && Valid(Date(2021, 7, 4));
    TwoAnsweredYears(fetch, c.lat, c.lon, 7, 4, 2020);
    EmptyTableMisses(db, zip, 7, 4, 2020, 2021);
    var f := DateAcrossYears(fetch, c.lat, c.lon, 7, 4, 2020, 2021);
    var rows := f.table.value;
    var r := GetWeatherDataForDate(db, geocode, fetch, zip, 7, 4, 2020, 2021, true);
    assert r.reply == Value(Live(rows)) && r.db == Persist(loc.db, true, zip, c, rows) && r.requests == f.requests;
    PersistOnEmpty(loc.db, zip, c, rows);
  }

  lemma EmptyTableMisses(db: Database, zip: string, month: int, day: int, startYear: int, endYear: int)
    requires db.weather == [] && startYear <= endYear
    ensures CachedWeather(db, zip, month, day, startYear, endYear).None?
  {
    assert startYear !in CachedYears(db.weather, zip, month, day);
  }

  lemma PersistOnEmpty(db: Database, zip: string, c: Coords, rows: seq<DayRow>)
    requires db.weather == []
    ensures |Persist(db, true, zip, c, rows).weather| == |rows|
  {
    var none: seq<Observation> := [];
    assert Keys(none) == {};
    NewRowsOfEmpty(ObservationsAsWritten(zip, c.lat, c.lon, rows));
  }

  /** Two consecutive years both answered: two rows in year order and two calls. */
  lemma TwoAnsweredYears(fetch: Fetcher, lat: real, lon: real, month: int, day: int, y: int)
    requires DateAnswered(fetch, lat, lon, month, day, y) && DateAnswered(fetch, lat, lon, month, day, y + 1)
    ensures var f := DateAcrossYears(fetch, lat, lon, month, day, y, y + 1);
            && f.table.Some? && |f.table.value| == 2
            && f.table.value[0].date == Date(y, month, day)
            && f.table.value[1].date == Date(y + 1, month, day)
            && |f.requests| == 2
  {
    var f := DateAcrossYears(fetch, lat, lon, month, day, y, y + 1);
    TwoRows(f.table.value, fetch, lat, lon, month, day, y);
    TwoCalls(f.requests, lat, lon, month, day, y);
  }

  lemma TwoRows(rows: seq<DayRow>, fetch: Fetcher, lat: real, lon: real, month: int, day: int, y: int)
    requires DateRowsExact(rows, fetch, lat, lon, month, day, y, y + 1)
    requires DateAnswered(fetch, lat, lon, month, day, y) && DateAnswered(fetch, lat, lon, month, day, y + 1)
    ensures |rows| == 2 && rows[0].date == Date(y, month, day) && rows[1].date == Date(y + 1, month, day)
  {
    assert HasYear(rows, y) && HasYear(rows, y + 1);
    RowYearsSpread(rows, |rows| - 1);
    assert rows[0].year == y && rows[1].year == y + 1;
  }

  lemma TwoCalls(requests: seq<Request>, lat: real, lon: real, month: int, day: int, y: int)
    requires RequestsExact(requests, lat, lon, DateIntervals(month, day), y, y + 1)
    requires Valid(Date(y, month, day)) && Valid(Date(y + 1, month, day))
    ensures |requests| == 2
  {
    var intervals := DateIntervals(month, day);
    assert intervals(y).Some? && intervals(y + 1).Some?;
    assert IntervalRequest(lat, lon, intervals(y).value) in requests;
    RequestYearsSpread(requests, |requests| - 1);
  }

  /** Strictly increasing years spread at least one year per row. */
  lemma {:induction false} RowYearsSpread(rows: seq<DayRow>, k: int)
    requires forall i, j :: 0 <= i < j < |rows| ==> rows[i].year < rows[j].year
    requires 0 <= k < |rows|
    ensures rows[k].year >= rows[0].year + k
  {
    if k > 0 {
      RowYearsSpread(rows, k - 1);
    }
  }

  lemma {:induction false} RequestYearsSpread(requests: seq<Request>, k: int)
    requires forall i, j :: 0 <= i < j < |requests| ==> requests[i].start.year < requests[j].start.year
    requires 0 <= k < |requests|
    ensures requests[k].start.year >= requests[0].start.year + k
  {
    if k > 0 {
      RequestYearsSpread(requests, k - 1);
    }
  }

  lemma KeyedYearIsCached(rows: seq<Observation>, zip: string, year: int, month: int, day: int)
    requires Key(zip, year, month, day) in Keys(rows)
    ensures year in CachedYears(rows, zip, month, day)
  {
    var i :| 0 <= i < |rows| && KeyOf(rows[i]) == Key(zip, year, month, day);
    assert Matches(rows[i], zip, month, day);
  }

  // ----- get_weather_data_for_date_range_daily -----

  /**
   * `get_weather_data_for_date_range_daily`: always asks the archive (the
   * cache is never read), and with the cache enabled persists a non-empty
   * answer, keyed, as written, by each row's loop year.
   */
  function GetWeatherDataForDateRangeDaily(db: Database, geocode: Geocoder, fetch: Fetcher, zip: string,
                                           startMonth: int, startDay: int, endMonth: int, endDay: int,
                                           startYear: int, endYear: int, useCache: bool): (r: Outcome<seq<DayRow>>)
    ensures r.geocoded <==> zip !in db.locations
    ensures !GetOrCacheLocation(db, geocode, zip).reply.Value? ==>
              var loc := GetOrCacheLocation(db, geocode, zip);
              SameFailure(r.reply, loc.reply) && r.db == loc.db && r.requests == []
    ensures GetOrCacheLocation(db, geocode, zip).reply.Value? ==>
              var loc := GetOrCacheLocation(db, geocode, zip);
              var c := loc.reply.value;
              var f := DailyAcrossYears(fetch, c.lat, c.lon, startMonth, startDay, endMonth, endDay, startYear, endYear);
              && r.requests == f.requests
              && (r.reply.Value? <==> f.table.Some?)
              && (f.table.Some? ==>
                    && r.reply == Value(f.table.value) && f.table.value != []
                    && r.db == Persist(loc.db, useCache, zip, c, f.table.value))
              && (f.table.None? ==> r.reply.Nothing? && r.db == loc.db)
    ensures |db.weather| <= |r.db.weather| && r.db.weather[..|db.weather|] == db.weather
    ensures !useCache || !r.reply.Value? ==> r.db.weather == db.weather
    ensures r.db.locations == GetOrCacheLocation(db, geocode, zip).db.locations
  {
    var loc := GetOrCacheLocation(db, geocode, zip);
    match loc.reply
    case Nothing => Outcome(Nothing, loc.db, loc.geocoded, [])
    case Raised => Outcome(Raised, loc.db, loc.geocoded, [])
    case Value(c) =>
      var f := DailyAcrossYears(fetch, c.lat, c.lon, startMonth, startDay, endMonth, endDay, startYear, endYear);
      match f.table
      case None => Outcome(Nothing, loc.db, loc.geocoded, f.requests)
      case Some(rows) => Outcome(Value(rows), Persist(loc.db, useCache, zip, c, rows), loc.geocoded, f.requests)
  }

  /**
   * The daily range query with the corrected key year: the same reply and
   * calls, the same rows appended, but each keyed by the calendar year of
   * its date, so a table whose keys name their days keeps doing so.
   */
  function GetWeatherDataForDateRangeDailyCorrected(db: Database, geocode: Geocoder, fetch: Fetcher, zip: string,
                                                    startMonth: int, startDay: int, endMonth: int, endDay: int,
                                                    startYear: int, endYear: int, useCache: bool): (r: Outcome<seq<DayRow>>)
    ensures var w := GetWeatherDataForDateRangeDaily(db, geocode, fetch, zip, startMonth, startDay, endMonth, endDay,
                                                     startYear, endYear, useCache);
            r.reply == w.reply && r.requests == w.requests && r.geocoded == w.geocoded && r.db.locations == w.db.locations
    ensures GetOrCacheLocation(db, geocode, zip).reply.Value? && r.reply.Value? ==>
              var loc := GetOrCacheLocation(db, geocode, zip);
              r.db == PersistCorrected(loc.db, useCache, zip, loc.reply.value, r.reply.value)
    ensures |db.weather| <= |r.db.weather| && r.db.weather[..|db.weather|] == db.weather
    ensures !useCache || !r.reply.Value? ==> r.db.weather == db.weather
    ensures Coherent(db.weather) ==> Coherent(r.db.weather)
  {
    var loc := GetOrCacheLocation(db, geocode, zip);
    match loc.reply
    case Nothing => Outcome(Nothing, loc.db, loc.geocoded, [])
    case Raised => Outcome(Raised, loc.db, loc.geocoded, [])
    case Value(c) =>
      var f := DailyAcrossYears(fetch, c.lat, c.lon, startMonth, startDay, endMonth, endDay, startYear, endYear);
      match f.table
      case None => Outcome(Nothing, loc.db, loc.geocoded, f.requests)
      case Some(rows) => Outcome(Value(rows), PersistCorrected(loc.db, useCache, zip, c, rows), loc.geocoded, f.requests)
  }

  /**
   * As written, end to end: a daily query for December 28 to January 5 of
   * 2020 with the cache on, whose response holds 2021-01-02, stores that day
   * under key year 2020; a later single-date query for January 2, 2020 alone
   * is then a cache hit that returns the 2021 observation, and the table no
   * longer has every key naming its day.
   */
  lemma WrappedDailyThenDateHit(db: Database, geocode: Geocoder, fetch: Fetcher, zip: string, daily: Daily)
    requires db.weather == []
    requires GetOrCacheLocation(db, geocode, zip).reply.Value?
    requires var c := GetOrCacheLocation(db, geocode, zip).reply.value;
             fetch(Request(c.lat, c.lon, Date(2020, 12, 28), Date(2021, 1, 5))) == Some(daily)
    requires Date(2021, 1, 2) in daily.time
    ensures var d := GetWeatherDataForDateRangeDaily(db, geocode, fetch, zip, 12, 28, 1, 5, 2020, 2020, true);
            var q := GetWeatherDataForDate(d.db, geocode, fetch, zip, 1, 2, 2020, 2020, true);
            && d.reply.Value?
            && q.reply.Value? && q.reply.value.Cached? && !q.geocoded && q.requests == []
            && (exists o :: o in q.reply.value.stored && o.year == 2020 && o.date == Date(2021, 1, 2))
            && !Coherent(d.db.weather)
  {
    var d := GetWeatherDataForDateRangeDaily(db, geocode, fetch, zip, 12, 28, 1, 5, 2020, 2020, true);
    var o := WrappedDayStoredUnderLoopYear(db, geocode, fetch, zip, daily);
    StoredRowIsServed(d.db, o, 2020, 2020);
    IncoherentRow(d.db.weather, o);
  }

  /** The daily half of the scenario: the wrapped day is stored under key year 2020. */
  lemma WrappedDayStoredUnderLoopYear(db: Database, geocode: Geocoder, fetch: Fetcher, zip: string, daily: Daily)
    returns (o: Observation)
    requires db.weather == []
    requires GetOrCacheLocation(db, geocode, zip).reply.Value?
    requires var c := GetOrCacheLocation(db, geocode, zip).reply.value;
             fetch(Request(c.lat, c.lon, Date(2020, 12, 28), Date(2021, 1, 5))) == Some(daily)
    requires Date(2021, 1, 2) in daily.time
    ensures var d := GetWeatherDataForDateRangeDaily(db, geocode, fetch, zip, 12, 28, 1, 5, 2020, 2020, true);
            && d.reply.Value? && o in d.db.weather
            && o.zip == zip && o.year == 2020 && o.month == 1 && o.day == 2 && o.date == Date(2021, 1, 2)
  {
    var loc := GetOrCacheLocation(db, geocode, zip);
    var c := loc.reply.value;
    WrappedRangeExample();
    var k :| 0 <= k < |daily.time| && daily.time[k] == Date(2021, 1, 2);
    AnsweredDayIsInDailyTable(fetch, c.lat, c.lon, 12, 28, 1, 5, 2020, 2020, 2020, daily, k);
    var rows := DailyAcrossYears(fetch, c.lat, c.lon, 12, 28, 1, 5, 2020, 2020).table.value;
    var row := ExpandDays(daily, 2020, c.lat, c.lon)[k];
    o := ObservationAsWritten(zip, c.lat, c.lon, row);
    StoredAsWritten(loc.db, zip, c, rows, row);
  }

  /** On an empty weather table, every persisted row is stored, keyed as written. */
  lemma StoredAsWritten(db: Database, zip: string, c: Coords, rows: seq<DayRow>, row: DayRow)
    requires db.weather == []
    requires row in rows
    ensures ObservationAsWritten(zip, c.lat, c.lon, row) in Persist(db, true, zip, c, rows).weather
  {
    var after := Persist(db, true, zip, c, rows);
    var added := ObservationsAsWritten(zip, c.lat, c.lon, rows);
    var o := ObservationAsWritten(zip, c.lat, c.lon, row);
    var j :| 0 <= j < |rows| && rows[j] == row;
    assert added[j] == o;
    assert multiset(added)[o] > 0;
    assert Keys(db.weather) == {};
    AppendedRowIsStored(db.weather, after.weather, o);
  }

  /**
   * Corrected, end to end: after the daily query with the corrected key
   * year, any single-date hit on a table whose keys named their days
   * returns only observations dated the requested day of their year.
   */
  lemma CorrectedDailyThenDateIsExact(db: Database, geocode: Geocoder, later: Geocoder, fetch: Fetcher, laterFetch: Fetcher,
                                      zip: string, startMonth: int, startDay: int, endMonth: int, endDay: int,
                                      startYear: int, endYear: int, month: int, day: int, fromYear: int, toYear: int)
    requires Coherent(db.weather)
    ensures var d := GetWeatherDataForDateRangeDailyCorrected(db, geocode, fetch, zip, startMonth, startDay, endMonth, endDay,
                                                              startYear, endYear, true);
            var q := GetWeatherDataForDate(d.db, later, laterFetch, zip, month, day, fromYear, toYear, true);
            q.reply.Value? && q.reply.value.Cached? ==>
              forall o :: o in q.reply.value.stored ==> o.date == Date(o.year, month, day)
  {
    var d := GetWeatherDataForDateRangeDailyCorrected(db, geocode, fetch, zip, startMonth, startDay, endMonth, endDay,
                                                      startYear, endYear, true);
    var q := GetWeatherDataForDate(d.db, later, laterFetch, zip, month, day, fromYear, toYear, true);
    if q.reply.Value? && q.reply.value.Cached? {
      CachedWeatherOnCoherentIsExact(d.db, zip, month, day, fromYear, toYear);
    }
  }

  // ----- get_weather_data_for_date_range -----

  /**
   * `get_weather_data_for_date_range`: the aggregated range query, straight
   * from the archive; the weather table is neither read nor written.
   */
  function GetWeatherDataForDateRange(db: Database, geocode: Geocoder, fetch: Fetcher, zip: string,
                                      startMonth: int, startDay: int, endMonth: int, endDay: int,
                                      startYear: int, endYear: int, useCache: bool): (r: Outcome<seq<AggRow>>)
    ensures r.geocoded <==> zip !in db.locations
    ensures r.db == GetOrCacheLocation(db, geocode, zip).db
    ensures r.db.weather == db.weather
    ensures r.reply.Value? ==> GetOrCacheLocation(db, geocode, zip).reply.Value?
    ensures GetOrCacheLocation(db, geocode, zip).reply.Value? ==>
              var c := GetOrCacheLocation(db, geocode, zip).reply.value;
              var f := AggregateAcrossYears(fetch, c.lat, c.lon, startMonth, startDay, endMonth, endDay, startYear, endYear);
              && (r.reply.Value? <==> f.table.Some?)
              && (r.reply.Value? ==> Some(r.reply.value) == f.table && r.reply.value != [])
              && r.requests == f.requests
    ensures !GetOrCacheLocation(db, geocode, zip).reply.Value? ==>
              SameFailure(r.reply, GetOrCacheLocation(db, geocode, zip).reply) && r.requests == []
  {
    var loc := GetOrCacheLocation(db, geocode, zip);
    match loc.reply
    case Nothing => Outcome(Nothing, loc.db, loc.geocoded, [])
    case Raised => Outcome(Raised, loc.db, loc.geocoded, [])
    case Value(c) =>
      var f := AggregateAcrossYears(fetch, c.lat, c.lon, startMonth, startDay, endMonth, endDay, startYear, endYear);
      match f.table
      case None => Outcome(Nothing, loc.db, loc.geocoded, f.requests)
      case Some(rows) => Outcome(Value(rows), loc.db, loc.geocoded, f.requests)
  }

  // ----- get_weather_data_for_month -----

  /**
   * `get_weather_data_for_month`: every day of the month, straight from the
   * archive; the weather table is neither read nor written. A month outside
   * -11..12 raises once the zip is located.
   */
  function GetWeatherDataForMonth(db: Database, geocode: Geocoder, fetch: Fetcher, zip: string,
                                  month: int, startYear: int, endYear: int, useCache: bool): (r: Outcome<seq<DayRow>>)
    ensures r.geocoded <==> zip !in db.locations
    ensures r.db == GetOrCacheLocation(db, geocode, zip).db
    ensures r.db.weather == db.weather
    ensures r.reply.Value? ==> GetOrCacheLocation(db, geocode, zip).reply.Value? && -11 <= month <= 12
    ensures r.reply.Raised? <==>
              GetOrCacheLocation(db, geocode, zip).reply.Raised?
              || (GetOrCacheLocation(db, geocode, zip).reply.Value? && !(-11 <= month <= 12))
    ensures GetOrCacheLocation(db, geocode, zip).reply.Value? && -11 <= month <= 12 ==>
              var c := GetOrCacheLocation(db, geocode, zip).reply.value;
              var f := MonthAcrossYears(fetch, c.lat, c.lon, month, startYear, endYear).value;
              && (r.reply.Value? <==> f.table.Some?)
              && (r.reply.Value? ==> Some(r.reply.value) == f.table && r.reply.value != [])
              && r.requests == f.requests
    ensures !GetOrCacheLocation(db, geocode, zip).reply.Value? ==>
              SameFailure(r.reply, GetOrCacheLocation(db, geocode, zip).reply) && r.requests == []
    ensures r.requests != [] ==> 1 <= month <= 12
  {
    var loc := GetOrCacheLocation(db, geocode, zip);
    match loc.reply
    case Nothing => Outcome(Nothing, loc.db, loc.geocoded, [])
    case Raised => Outcome(Raised, loc.db, loc.geocoded, [])
    case Value(c) =>
      match MonthAcrossYears(fetch, c.lat, c.lon, month, startYear, endYear)
      case None => Outcome(Raised, loc.db, loc.geocoded, [])
      case Some(f) =>
        match f.table
        case None => Outcome(Nothing, loc.db, loc.geocoded, f.requests)
        case Some(rows) => Outcome(Value(rows), loc.db, loc.geocoded, f.requests)
  }

  /** The location lookup reads only the location table. */
  lemma LocationIgnoresStoredWeather(db1: Database, db2: Database, geocode: Geocoder, zip: string)
    requires db1.locations == db2.locations
    ensures GetOrCacheLocation(db1, geocode, zip).reply == GetOrCacheLocation(db2, geocode, zip).reply
    ensures GetOrCacheLocation(db1, geocode, zip).geocoded == GetOrCacheLocation(db2, geocode, zip).geocoded
  {
  }

  /**
   * The daily range query answers from the archive alone: two databases
   * with the same locations get the same reply and make the same calls,
   * whatever weather they hold.
   */
  lemma DailyIgnoresStoredWeather(db1: Database, db2: Database, geocode: Geocoder, fetch: Fetcher, zip: string,
                                  startMonth: int, startDay: int, endMonth: int, endDay: int,
                                  startYear: int, endYear: int, useCache: bool)
    requires db1.locations == db2.locations
    ensures var a := GetWeatherDataForDateRangeDaily(db1, geocode, fetch, zip, startMonth, startDay, endMonth, endDay, startYear, endYear, useCache);
            var b := GetWeatherDataForDateRangeDaily(db2, geocode, fetch, zip, startMonth, startDay, endMonth, endDay, startYear, endYear, useCache);
            a.reply == b.reply && a.requests == b.requests && a.geocoded == b.geocoded
  {
    LocationIgnoresStoredWeather(db1, db2, geocode, zip);
  }

  /** The same for the aggregated range query. */
  lemma RangeIgnoresStoredWeather(db1: Database, db2: Database, geocode: Geocoder, fetch: Fetcher, zip: string,
                                  startMonth: int, startDay: int, endMonth: int, endDay: int,
                                  startYear: int, endYear: int, useCache: bool)
    requires db1.locations == db2.locations
    ensures var a := GetWeatherDataForDateRange(db1, geocode, fetch, zip, startMonth, startDay, endMonth, endDay, startYear, endYear, useCache);
            var b := GetWeatherDataForDateRange(db2, geocode, fetch, zip, startMonth, startDay, endMonth, endDay, startYear, endYear, useCache);
            a.reply == b.reply && a.requests == b.requests && a.geocoded == b.geocoded
  {
    LocationIgnoresStoredWeather(db1, db2, geocode, zip);
  }

  /** The same for the month query. */
  lemma MonthIgnoresStoredWeather(db1: Database, db2: Database, geocode: Geocoder, fetch: Fetcher, zip: string,
                                  month: int, startYear: int, endYear: int, useCache: bool)
    requires db1.locations == db2.locations
    ensures var a := GetWeatherDataForMonth(db1, geocode, fetch, zip, month, startYear, endYear, useCache);
            var b := GetWeatherDataForMonth(db2, geocode, fetch, zip, month, startYear, endYear, useCache);
            a.reply == b.reply && a.requests == b.requests && a.geocoded == b.geocoded
  {
    LocationIgnoresStoredWeather(db1, db2, geocode, zip);
  }
}
