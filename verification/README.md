# Historical weather cache — a Dafny model

This project models the core of a small application. The application looks up
the historical daily weather of a US zip code for a given month/day, or a
month/day range, or a whole month, across a range of years. It keeps the
answers in a local database.

The model covers two parts:

- **The across-years client** (`OpenMeteoClient`). For each year it builds the
  date interval to request:
  - a single date;
  - a month/day range, which wraps into the next year when the end month/day
    comes before the start;
  - or a whole month, sized by a fixed table where February has 28 days.

  It asks the weather archive once per year and turns each response into rows.
  Depending on the query, each year gives one row, one row per day, or one
  aggregate row with min/max/mean/sum of every variable. Years whose dates
  cannot be built, or whose call fails, are skipped.
- **The cache manager** (`WeatherCache`):
  - the memoised location lookup;
  - the all-or-nothing cached lookup;
  - insert-if-absent persistence;
  - the four queries, including which ones read the weather table, write it,
    or do neither;
  - scoped clearing;
  - statistics.

The weather archive and the geocoder are oracles, i.e. total functions given as
parameters:

- `Records.Fetcher` maps a request to an optional response.
- `Cache.Geocoder` maps a zip to optional location information.

Every query returns an `Outcome`, which holds:

- its reply: a value, Python's `None`, or a raised exception;
- the database after the query;
- whether the geocoder was consulted;
- the archive calls made, in order.

So "no fetch" and "no geocoding" are statements about the outcome.

Modules, one file each:

| module | file | contents |
|---|---|---|
| `Wrappers` | `wrappers.dfy` | `Option` |
| `Dates` | `dates.dfy` | Gregorian dates for years 1..9999, as Python's `date` accepts them; the fixed month table; Python list indexing |
| `Intervals` | `intervals.dfy` | the per-year intervals of the range and month queries |
| `Sorting` | `sorting.dfy` | a stable insertion sort under a total preorder |
| `Aggregation` | `aggregation.dfy` | per-variable statistics over non-null values |
| `Records` | `records.dfy` | archive responses, requests, day rows, aggregate rows |
| `Client` | `client.dfy` | the four across-years queries |
| `Store` | `store.dfy` | the two tables, persistence, the cached lookup, clearing, statistics |
| `Cache` | `cache.dfy` | the location lookup and the four cache-manager queries |

Behaviour the model reproduces as the code has it:

- **Duplicate keys.** The weather table has no uniqueness constraint
  (`src/cache/models.py:15-22`). Persistence checks each row against the rows
  stored before the batch, because the session does not autoflush
  (`src/cache/models.py:98`). So two rows with the same new key in one batch
  are both stored (`Store.InsertAbsentDuplicateWithinBatch`). `(zip, year,
  month, day)` is only unique when a batch's own keys are distinct
  (`Store.InsertAbsentKeepsKeysUnique`).
- **Geocoder answers.** A geocoder answer is rejected only when its latitude is
  missing or zero (`src/cache/cache_manager.py:55`). A missing longitude is not
  checked there. It fails the table's not-null constraint at commit, which
  raises (`Cache.Reply.Raised`).
- **Empty year range.** With `start_year > end_year` the cached lookup is a hit
  with an empty table. The single-date query returns that table rather than
  `None`.
- **Key year of stored rows.** The queries persist as the code does, keying
  each row by its loop year (`Cache.Persist`). A single-date row is always
  dated in its loop year, so the single-date query keeps every key naming its
  day. The daily range query does not for wrapped ranges (see Findings). The
  corrected variants `Cache.PersistCorrected` and
  `Cache.GetWeatherDataForDateRangeDailyCorrected` key each row by its date's
  own year.
- **Month numbers.** The month query accepts months -11 to 0 through Python's
  negative indexing. It then finds no valid dates and returns `None`. Any
  other month outside 1..12 raises `IndexError`.

## Model

| member | source | states |
|---|---|---|
| Dates.MakeDate | src/api/weather_client.py:115 | the constructor succeeds exactly for valid Gregorian dates with years 1..9999, which is when Python's `date` does not raise `ValueError` |
| Dates.PyIndex | src/api/weather_client.py:344 | Python list indexing: defined exactly for indices in `-len..len-1`, negative ones counting from the end; otherwise `IndexError` |
| Dates.NonLeapDaysAgainstCalendar | src/api/weather_client.py:342-344 | the fixed day table never exceeds the calendar and equals it except for February of a leap year |
| Intervals.RangeInterval | src/api/weather_client.py:180-189 | the interval of a year starts on the start month/day of that year; its end is in `year + 1` exactly when the range wraps, otherwise in `year`; it is never reversed, and it is the first end month/day on or after the start; the year is skipped exactly when either date is invalid |
| Intervals.WrapsIffEndBeforeStart | src/api/weather_client.py:183-185 | the wrap test is exactly "end month/day sorts before start month/day" in the lexicographic date order |
| Intervals.WrappedRangeExample | src/api/weather_client.py:180-189 | December 28 to January 5 for 2020 is the interval 2020-12-28 to 2021-01-05 |
| Intervals.MonthDays | src/api/weather_client.py:343-344 | the month's day count exists exactly for months -11..12 and is the table entry for months 1..12 |
| Intervals.MonthInterval | src/api/weather_client.py:349-350 | the month interval runs from day 1 to the table's day count and exists exactly when both dates are valid |
| Intervals.MonthIntervalCoversMonth | src/api/weather_client.py:342-350 | for a calendar month the interval is the whole month, except that February 29 is never requested |
| Intervals.MonthBelowCalendar | src/api/weather_client.py:343-350 | months -11..0 pass the table lookup but build no interval in any year |
| Sorting.SortBy | src/api/weather_client.py:143-145 | the sorted table is ordered by the key and is a permutation of its input |
| Sorting.SortSortedIsIdentity | src/api/weather_client.py:143-145 | sorting rows already in key order leaves them as they are |
| Aggregation.NonNull | src/api/weather_client.py:297 | the filtered values are exactly the non-null ones, and there are never more of them than inputs |
| Aggregation.NonNullCounts | src/api/weather_client.py:297 | every non-null value is kept exactly as many times as it occurs |
| Aggregation.NonNullAppend | src/api/weather_client.py:297 | the filter keeps input order: filtering a concatenation concatenates the filtered parts |
| Aggregation.SumBetween | src/api/weather_client.py:299-304 | the sum of n values lies between n times their minimum and n times their maximum |
| Aggregation.Summarize | src/api/weather_client.py:297-304 | statistics exist exactly when some value is non-null; then the sum is Python's left-to-right `sum` of the non-null values, the mean is that sum divided by their count, min and max are values of the column with every non-null value between them, and min <= mean <= max |
| Aggregation.SummarizeExample | src/api/weather_client.py:297-304 | `[10, null, 20, 30]` gives min 10, max 30, mean 20, sum 60 |
| Client.FirstValues | src/api/weather_client.py:131-133 | a single-date row has a value for exactly the non-empty variable columns, and it is their first entry |
| Client.SingleDateFrom | src/api/weather_client.py:113-141 | the walk yields one row per year whose date exists and whose call succeeds, tagged with that year and dated that day, in year order; it makes one call per year whose date exists |
| Client.DateAcrossYears | src/api/weather_client.py:113-147 | the single-date query is `None` exactly when no year is answered; otherwise its rows are exactly those above, sorted by year; its calls are exactly one per valid year |
| Client.ExpandDays | src/api/weather_client.py:200-214 | one row per entry of `time`, each tagged with the loop year and dated by that entry; a variable has a value on day `idx` exactly when its column reaches `idx` |
| Client.ExpandTable | src/api/weather_client.py:222-228 | the day rows are sorted by (year, date); each year's rows are a permutation of that year's expansion; the result is `None` exactly when no year contributed |
| Client.DailyAcrossYears | src/api/weather_client.py:177-228 | the daily range query is the sorted expansion of every year's range response, with one call per year whose range exists |
| Client.AnsweredDayIsInDailyTable | src/api/weather_client.py:192-228 | every day of an answered year's response is in the daily table, tagged with that loop year |
| Client.WrappedDailyExample | src/api/weather_client.py:180-214 | December 28 to January 5 for 2020 makes the single call 2020-12-28..2021-01-05, and every row is tagged 2020 |
| Client.MonthAcrossYears | src/api/weather_client.py:343-386 | the month query raises exactly for months outside -11..12; otherwise it is the sorted expansion of every year's month response, and months below 1 make no call and give `None` |
| Client.MonthRequestsShape | src/api/weather_client.py:343-354 | every month call asks for day 1 to the table's day count of a calendar month, never February 29 |
| Client.VariableStats | src/api/weather_client.py:294-304 | statistics are emitted for exactly the variables with some non-null value; each is that column's summary: its sum is the sum of the non-null values, its mean that sum over their count, and its min and max are values of the column bounding every non-null value |
| Client.AggregateAcrossYears | src/api/weather_client.py:258-318 | one aggregate row per year whose range exists, whose call returns a non-empty `time` array and whose in-year end date exists, sorted by year; `num_days` is the length of `time`; `None` exactly when no year qualifies |
| Client.AggRowFromDates | src/api/weather_client.py:282-291 | the reported end is in the row's year, so for a wrapped range it precedes the reported start |
| Client.AggregateCallsMatchDaily | src/api/weather_client.py:258-275 | the aggregated and the daily range queries make the same archive calls |
| Client.WrappedLeapDayHasNoAggregate | src/api/weather_client.py:264-291 | a wrapped range ending February 29 never yields an aggregate row |
| Client.WrappedLeapDayHasDaily | src/api/weather_client.py:177-214 | the daily query over such a range yields rows when the archive answers |
| Store.ObservationAsWritten | src/cache/cache_manager.py:154-172 | as written: the observation is keyed by the row's loop year and its date's month and day, so the key names its date exactly when the loop year is the date's year; the eight variable columns are stored, a missing one as NULL |
| Store.ObservationOf | src/cache/cache_manager.py:154-161 | corrected: the observation is keyed by its date's own year, month and day, so its key always names its date |
| Store.InsertAbsent | src/cache/cache_manager.py:135-174 | persistence keeps every stored row in place and appends exactly the batch rows whose key is not yet stored, each as often as the batch holds it; the key set becomes the union of the stored and the batch keys |
| Store.InsertAbsentLoop | src/cache/cache_manager.py:135-174 | the row-by-row loop with existence checks against the pre-batch table computes the same table |
| Store.InsertAbsentNeverDuplicatesStored | src/cache/cache_manager.py:137-151 | a key already stored keeps exactly the rows it had |
| Store.InsertAbsentKeepsKeysUnique | src/cache/cache_manager.py:137-172 | a table without duplicate keys stays so after a batch whose keys are distinct |
| Store.InsertAbsentIdempotent | src/cache/cache_manager.py:135-174 | persisting the same batch again stores nothing |
| Store.InsertAbsentDuplicateWithinBatch | src/cache/cache_manager.py:137-172 | two rows with the same new key in one batch are both stored |
| Store.CacheWeatherData | src/cache/cache_manager.py:133-174 | with the corrected key year: locations are left alone, and the appended rows are exactly the observations built from the fetched rows whose key is not yet stored |
| Store.CacheWeatherDataAsWritten | src/cache/cache_manager.py:133-174 | as written: locations are left alone, and the appended rows are exactly the observations, keyed by the row's loop year, whose key is not yet stored |
| Store.CachedWeather | src/cache/cache_manager.py:93-117 | the lookup hits exactly when every requested year is stored for the zip and month/day; a hit is sorted by year and holds exactly the matching stored rows in the range |
| Store.CachedWeatherOnCoherentIsExact | src/cache/cache_manager.py:93-117 | on a table whose keys name their dates, every row of a hit is dated the requested month/day of a year in range |
| Store.CacheWeatherDataKeepsCoherent | src/cache/cache_manager.py:154-161 | persisting with the corrected key year keeps every key naming its own day, on a table where that held before |
| Store.StoredRowIsServed | src/cache/cache_manager.py:93-117 | a stored row makes the one-year lookup of its own zip, month, day and key year a hit, and is returned by any hit over a range holding that year |
| Store.AsWrittenStoresWrappedDayUnderLoopYear | src/cache/cache_manager.py:137-161 | as written, 2021-01-02 fetched in the 2020 loop year is stored under 2020, and a January 2, 2020 lookup returns it |
| Store.CorrectedStoresWrappedDayUnderItsYear | src/cache/cache_manager.py:154-161 | corrected, the same day is stored under 2021 and the 2020 lookup misses |
| Store.ClearCache | src/cache/cache_manager.py:371-378 | a truthy zip removes exactly that zip's observations and location and keeps every other zip's rows and location; a falsy zip empties both tables |
| Store.ClearKeepsOtherLookups | src/cache/cache_manager.py:371-373 | clearing one zip leaves every other zip's cached lookups unchanged |
| Store.GetCacheStats | src/cache/cache_manager.py:387-411 | the row count, the location count, the number of distinct zips, and the least and greatest stored year (`None` exactly when there are no rows) |
| Cache.GetOrCacheLocation | src/cache/cache_manager.py:49-71 | a cached zip answers its stored coordinates without geocoding; otherwise the geocoder is asked; an unusable answer returns `None` and writes nothing; a usable one is cached, with its place, state and county names, and returned; other zips' locations and the weather table never change |
| Cache.LocationLookupIsIdempotent | src/cache/cache_manager.py:49-51 | once located, a zip answers the same coordinates from the cache, whatever the geocoder would now say |
| Cache.Persist | src/cache/cache_manager.py:353-356 | with the cache enabled, exactly the fetched rows whose key (loop year, month, day) is not yet stored are appended and nothing else changes; disabled, nothing changes |
| Cache.PersistCorrected | src/cache/cache_manager.py:154-161 | the same with the key year of each row's date, which keeps a table whose keys name their days so |
| Cache.GetWeatherDataForDate | src/cache/cache_manager.py:331-360 | a cached reply is given exactly on a complete hit with the cache on, with no geocoding and no call; otherwise a failed location lookup is the reply, and once located the reply is a table exactly when the single-date query returns one, that table, persisted exactly when the cache is on; a table whose keys name their days keeps doing so |
| Cache.DateRowsPersistAlike | src/cache/cache_manager.py:353-356 | the single-date rows persist the same whichever key year is used |
| Cache.CompleteAnswerWarmsCache | src/cache/cache_manager.py:331-360 | a live answer covering every requested year makes the next identical query a cache hit with no geocoding and no call, returning every fetched observation whose key was new |
| Cache.TwoAnsweredYears | src/api/weather_client.py:113-147 | two consecutive answered years give exactly two rows in year order and two calls |
| Cache.JulyFourthScenario | src/cache/cache_manager.py:331-360 | July 4 for 10001 over 2020-2021 on an empty weather table makes two calls, returns two rows in year order and persists two rows |
| Cache.GetWeatherDataForDateRangeDaily | src/cache/cache_manager.py:206-226 | the daily range query never reads the weather table; a failed location lookup is the reply; once located the reply is a table exactly when the client returns one, that table, persisted (keyed by loop year) exactly when the cache is on |
| Cache.GetWeatherDataForDateRangeDailyCorrected | src/cache/cache_manager.py:217-226 | with the corrected key year the daily query gives the same reply and calls and keeps a table whose keys name their days so |
| Cache.WrappedDailyThenDateHit | src/cache/cache_manager.py:142-159 | as written, a December 28 to January 5 daily query for 2020 whose response holds 2021-01-02, then a January 2, 2020 single-date query: a cache hit with no call that returns the 2021 observation |
| Cache.CorrectedDailyThenDateIsExact | src/cache/cache_manager.py:93-117 | with the corrected daily query, every later single-date hit returns only observations dated the requested day of their year |
| Cache.GetWeatherDataForDateRange | src/cache/cache_manager.py:255-270 | the aggregated range query neither reads nor writes weather rows; its only effect on the database is location memoisation |
| Cache.GetWeatherDataForMonth | src/cache/cache_manager.py:293-306 | the month query neither reads nor writes weather rows; a failed location lookup is the reply, with no archive call; it raises exactly when the lookup raises or the month is outside -11..12 |
| Cache.LocationIgnoresStoredWeather | src/cache/cache_manager.py:49-71 | the location lookup's reply and whether it geocodes depend only on the location table |
| Cache.DailyIgnoresStoredWeather | src/cache/cache_manager.py:206-226 | the daily range query gives the same reply and calls on any two databases with the same locations |
| Cache.RangeIgnoresStoredWeather | src/cache/cache_manager.py:255-270 | the aggregated range query gives the same reply and calls on any two databases with the same locations |
| Cache.MonthIgnoresStoredWeather | src/cache/cache_manager.py:293-306 | the month query gives the same reply and calls on any two databases with the same locations |

## Left out

- HTTP request building, JSON decoding, the archive's error handling and the
  rate limiter are left out. The archive is the `Fetcher` oracle, and
  wall-clock spacing has no observable effect on results.
- The geocoder is left out. It is the `Geocoder` oracle, whose failures and
  unknown zips are `None`. Reals have no NaN, so a NaN coordinate is not
  modelled. A NaN latitude would be truthy and pass the check at
  `src/cache/cache_manager.py:55`.
- pandas and SQLAlchemy are left out:
  - tables are sequences of records, and the database is an immutable value;
  - the `id`, `created_at` and `raw_data` columns and the `to_dict` ISO
    formatting are omitted, so a cache hit returns the stored observations
    themselves;
  - sessions, commits and database errors other than the not-null failure of a
    missing longitude are not modelled.
- Floating point is left out. Weather values are `real`, and the mean is exact
  division.
- Sorting is modelled by one stable sort. The daily and month tables are
  sorted on two keys (`src/api/weather_client.py:226`, `:384`), which pandas
  does stably, as the model does. The single-date and aggregate tables are
  sorted on `year` alone (`:145`, `:316`) with a sort that is not stable, but
  their years are distinct, so there are no ties to order.
- `use_cache` is unused by the aggregated range and month queries, as in the
  code. The model accepts the parameter and ignores it.
- The presentation layer is not part of this model (`src/ui/app.py`,
  `main.py`).
- The geocoding module (`src/api/geocoding.py`) is not part of this model:
  the `Geocoder` methods `zip_to_coordinates` and `get_location_info` and the
  convenience function `get_coordinates_for_zip` that wraps the former are
  replaced by the `Geocoder` oracle parameter.
- `get_weather_dataframe` (`src/api/weather_client.py:388-434`) is left out:
  it only converts one archive response into a data frame, and no query of
  the core calls it.
- The convenience function `get_weather_for_zip_and_date`
  (`src/api/weather_client.py:437-464`) is left out: it geocodes through
  `get_coordinates_for_zip` and then calls the single-date query, which is
  modelled as `Client.DateAcrossYears`; the cached path
  `Cache.GetWeatherDataForDate` covers the same composition.

## Findings

| source | as written | input that shows it | evidently intended | confidence | as-written member | corrected member |
|---|---|---|---|---|---|---|
| src/cache/cache_manager.py:142-159 | a row's key year is its loop year `row["year"]`; for a wrapped range, days after New Year belong to the next calendar year | daily range December 28 to January 5 for 2020 with the cache on stores 2021-01-02 under (zip, 2020, 1, 2); a later single-date query for January 2, 2020 alone is then a cache hit returning 2021's weather | the key year is the calendar year of the row's date, as the single-date lookup assumes | medium; not executed | Cache.WrappedDailyThenDateHit | Cache.CorrectedDailyThenDateIsExact |
