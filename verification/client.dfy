/**
 * The across-years queries of the weather client. Each walks the years from
 * `startYear` to `endYear`, builds that year's date interval, asks the
 * archive once for it, and turns the response into rows; a year whose dates
 * cannot be constructed, or whose call fails, is skipped. A query yields
 * `None` when no year contributed a row.
 */
module Client {
  import opened Wrappers
  import opened Dates
  import opened Sorting
  import opened Aggregation
  import opened Intervals
  import opened Records

  /** The rows one walk over the years collected and the archive calls it made, in order. */
  datatype Run<T> = Run(rows: seq<T>, requests: seq<Request>)

  /** A query's table, `None` when no row was collected, and the archive calls made. */
  datatype Fetched<T> = Fetched(table: Option<seq<T>>, requests: seq<Request>)

  function Table<T>(rows: seq<T>): (r: Option<seq<T>>)
    ensures r.None? <==> rows == []
    ensures r.Some? ==> r.value == rows
  {
    if rows == [] then None else Some(rows)
  }

  function IntervalRequest(lat: real, lon: real, iv: Interval): Request {
    Request(lat, lon, iv.start, iv.end)
  }

  // ----- Orderings of the result tables -----

  /** `sort_values("year")` */
  predicate AggYearLe(a: AggRow, b: AggRow) {
    a.year <= b.year
  }

  predicate DayYearLe(a: DayRow, b: DayRow) {
    a.year <= b.year
  }

  /** `sort_values(["year", "date"])` */
  predicate YearDateLe(a: DayRow, b: DayRow) {
    a.year < b.year || (a.year == b.year && NotAfter(a.date, b.date))
  }

  lemma AggYearLeIsTotalPreorder()
    ensures TotalPreorder(AggYearLe)
  {
  }

  lemma DayYearLeIsTotalPreorder()
    ensures TotalPreorder(DayYearLe)
  {
  }

  lemma YearDateLeIsTotalPreorder()
    ensures TotalPreorder(YearDateLe)
  {
  }

  // ----- The archive calls of a walk over the years -----

  /** Every interval a year yields starts in that year. */
  ghost predicate StartsInOwnYear(intervals: int -> Option<Interval>) {
    forall y :: intervals(y).Some? ==> intervals(y).value.start.year == y
  }

  /**
   * `requests` is exactly one call per year of `[startYear, endYear]` whose
   * interval could be built, for that interval, in year order.
   */
  ghost predicate RequestsExact(requests: seq<Request>, lat: real, lon: real,
                                intervals: int -> Option<Interval>, startYear: int, endYear: int)
  {
    && (forall i :: 0 <= i < |requests| ==>
          && startYear <= requests[i].start.year <= endYear
          && requests[i].lat == lat && requests[i].lon == lon
          && intervals(requests[i].start.year) == Some(Interval(requests[i].start, requests[i].end)))
    && (forall i, j :: 0 <= i < j < |requests| ==> requests[i].start.year < requests[j].start.year)
    && (forall y :: startYear <= y <= endYear && intervals(y).Some? ==>
          IntervalRequest(lat, lon, intervals(y).value) in requests)
  }

  /** Prepending the call of `year` to an exact list for the later years. */
  lemma RequestsExactStep(here: seq<Request>, rest: seq<Request>, lat: real, lon: real,
                          intervals: int -> Option<Interval>, year: int, endYear: int)
    requires year <= endYear
    requires StartsInOwnYear(intervals)
    requires here == (if intervals(year).Some? then [IntervalRequest(lat, lon, intervals(year).value)] else [])
    requires RequestsExact(rest, lat, lon, intervals, year + 1, endYear)
    ensures RequestsExact(here + rest, lat, lon, intervals, year, endYear)
  {
    var all := here + rest;
    forall y | year <= y <= endYear && intervals(y).Some?
      ensures IntervalRequest(lat, lon, intervals(y).value) in all
    {
      if y == year {
        assert all[0] == IntervalRequest(lat, lon, intervals(y).value);
      } else {
        assert IntervalRequest(lat, lon, intervals(y).value) in rest;
      }
    }
  }

  // ----- Single date across years -----

  /** The one-day interval of `date(year, month, day)`, when that date exists. */
  function DateInterval(year: int, month: int, day: int): (r: Option<Interval>)
    ensures r.Some? <==> Valid(Date(year, month, day))
    ensures r.Some? ==> r.value == Interval(Date(year, month, day), Date(year, month, day))
  {
    match MakeDate(year, month, day)
    case None => None
    case Some(d) => Some(Interval(d, d))
  }

  function DateIntervals(month: int, day: int): int -> Option<Interval> {
    y => DateInterval(y, month, day)
  }

  /** The first value of every non-empty variable column (`values[0]`). */
  function FirstValues(daily: Daily): (m: map<VarName, Option<real>>)
    ensures forall v :: v in m <==> v in daily.columns && v != TimeKey && |daily.columns[v]| > 0
    ensures forall v :: v in m ==> m[v] == daily.columns[v][0]
  {
    map v | v in daily.columns && v != TimeKey && |daily.columns[v]| > 0 :: daily.columns[v][0]
  }

  /** The row a successful single-date call yields for the year `row.year`. */
  ghost predicate DateRowFrom(row: DayRow, fetch: Fetcher, lat: real, lon: real, month: int, day: int) {
    var q := Request(lat, lon, row.date, row.date);
    && row.date == Date(row.year, month, day)
    && Valid(row.date)
    && row.lat == lat && row.lon == lon
    && fetch(q).Some?
    && row.values == FirstValues(fetch(q).value)
  }

  /** Some row of `rows` is tagged with year `y`. */
  predicate HasYear(rows: seq<DayRow>, y: int) {
    exists i :: 0 <= i < |rows| && rows[i].year == y
  }

  function SingleDateYear(fetch: Fetcher, lat: real, lon: real, month: int, day: int, year: int): (r: Run<DayRow>)
  {
    match DateInterval(year, month, day)
    case None => Run([], [])
    case Some(iv) =>
      var q := IntervalRequest(lat, lon, iv);
      match fetch(q)
      case None => Run([], [q])
      case Some(daily) => Run([DayRow(year, iv.start, lat, lon, FirstValues(daily))], [q])
  }

  /** The call for `date(y, month, day)` exists and succeeds. */
  ghost predicate DateAnswered(fetch: Fetcher, lat: real, lon: real, month: int, day: int, y: int) {
    Valid(Date(y, month, day)) && fetch(Request(lat, lon, Date(y, month, day), Date(y, month, day))).Some?
  }

  /**
   * `rows` holds, in increasing year order, exactly one row for every year
   * of `[startYear, endYear]` whose date exists and whose call succeeds.
   */
  ghost predicate DateRowsExact(rows: seq<DayRow>, fetch: Fetcher, lat: real, lon: real,
                                month: int, day: int, startYear: int, endYear: int)
  {
    && (forall i :: 0 <= i < |rows| ==>
          startYear <= rows[i].year <= endYear && DateRowFrom(rows[i], fetch, lat, lon, month, day))
    && (forall i, j :: 0 <= i < j < |rows| ==> rows[i].year < rows[j].year)
    && (forall y :: startYear <= y <= endYear ==>
          (HasYear(rows, y) <==> DateAnswered(fetch, lat, lon, month, day, y)))
  }

  /**
   * The single-date walk over `[year, endYear]`: one row per year whose date
   * exists and whose call succeeds, in increasing year order.
   */
  function SingleDateFrom(fetch: Fetcher, lat: real, lon: real, month: int, day: int,
                          year: int, endYear: int): (r: Run<DayRow>)
    decreases endYear - year
    ensures DateRowsExact(r.rows, fetch, lat, lon, month, day, year, endYear)
    ensures RequestsExact(r.requests, lat, lon, DateIntervals(month, day), year, endYear)
  {
    if year > endYear then Run([], [])
    else
      var here := SingleDateYear(fetch, lat, lon, month, day, year);
      var rest := SingleDateFrom(fetch, lat, lon, month, day, year + 1, endYear);
      RequestsExactStep(here.requests, rest.requests, lat, lon, DateIntervals(month, day), year, endYear);
      SingleDateStep(fetch, lat, lon, month, day, year, endYear, rest.rows);
      Run(here.rows + rest.rows, here.requests + rest.requests)
  }

  /** Prepending the row of `year`, if any, to the rows of the later years. */
  lemma SingleDateStep(fetch: Fetcher, lat: real, lon: real, month: int, day: int,
                       year: int, endYear: int, rest: seq<DayRow>)
    requires year <= endYear
    requires DateRowsExact(rest, fetch, lat, lon, month, day, year + 1, endYear)
    ensures DateRowsExact(SingleDateYear(fetch, lat, lon, month, day, year).rows + rest,
                          fetch, lat, lon, month, day, year, endYear)
  {
    var here := SingleDateYear(fetch, lat, lon, month, day, year).rows;
    var rows := here + rest;
    assert |here| <= 1;
    assert forall i :: 0 <= i < |here| ==> here[i].year == year && DateRowFrom(here[i], fetch, lat, lon, month, day);
    assert HasYear(here, year) <==> DateAnswered(fetch, lat, lon, month, day, year) by {
      if here != [] {
        assert here[0].year == year;
      }
    }
    forall y | year <= y <= endYear
      ensures HasYear(rows, y) <==> DateAnswered(fetch, lat, lon, month, day, y)
    {
      HasYearAppend(here, rest, y);
      if y == year {
        assert !HasYear(rest, year);
      } else {
        assert !HasYear(here, y);
      }
    }
  }

  lemma HasYearAppend(a: seq<DayRow>, b: seq<DayRow>, y: int)
    ensures HasYear(a + b, y) <==> HasYear(a, y) || HasYear(b, y)
  {
    if HasYear(a, y) {
      var i :| 0 <= i < |a| && a[i].year == y;
      assert (a + b)[i] == a[i];
    }
    if HasYear(b, y) {
      var i :| 0 <= i < |b| && b[i].year == y;
      assert (a + b)[|a| + i] == b[i];
    }
    if HasYear(a + b, y) {
      var i :| 0 <= i < |a + b| && (a + b)[i].year == y;
      if i >= |a| {
        assert (a + b)[i] == b[i - |a|];
      } else {
        assert (a + b)[i] == a[i];
      }
    }
  }

  /**
   * `get_weather_for_date_across_years`: the weather of one month/day in
   * every year of the range, one row per year, sorted by year.
   */
  function DateAcrossYears(fetch: Fetcher, lat: real, lon: real, month: int, day: int,
                           startYear: int, endYear: int): (r: Fetched<DayRow>)
    ensures r.table.None? <==>
              forall y :: startYear <= y <= endYear ==> !DateAnswered(fetch, lat, lon, month, day, y)
    ensures r.table.Some? ==> DateRowsExact(r.table.value, fetch, lat, lon, month, day, startYear, endYear)
    ensures RequestsExact(r.requests, lat, lon, DateIntervals(month, day), startYear, endYear)
  {
    var run := SingleDateFrom(fetch, lat, lon, month, day, startYear, endYear);
    DayYearLeIsTotalPreorder();
    assert Sorted(run.rows, DayYearLe);
    SortSortedIsIdentity(run.rows, DayYearLe);
    DateRowsEmptyIff(run.rows, fetch, lat, lon, month, day, startYear, endYear);
    Fetched(Table(SortBy(run.rows, DayYearLe)), run.requests)
  }

  /** An exact single-date table is empty exactly when no year is answered. */
  lemma DateRowsEmptyIff(rows: seq<DayRow>, fetch: Fetcher, lat: real, lon: real,
                         month: int, day: int, startYear: int, endYear: int)
    requires DateRowsExact(rows, fetch, lat, lon, month, day, startYear, endYear)
    ensures rows == [] <==> forall y :: startYear <= y <= endYear ==> !DateAnswered(fetch, lat, lon, month, day, y)
  {
    if rows != [] {
      assert HasYear(rows, rows[0].year);
    }
  }

  // ----- Day rows of a range or a month -----

  function DayRowAt(daily: Daily, idx: nat, year: int, lat: real, lon: real): DayRow
    requires idx < |daily.time|
  {
    DayRow(year, daily.time[idx], lat, lon,
           map v | v in daily.columns && v != TimeKey && idx < |daily.columns[v]| :: daily.columns[v][idx])
  }

  /**
   * One row per entry of the response's `time` array, tagged with the loop
   * year; a variable has a value on day `idx` only when its column reaches `idx`.
   */
  function ExpandDays(daily: Daily, year: int, lat: real, lon: real): (r: seq<DayRow>)
    ensures |r| == |daily.time|
    ensures forall i :: 0 <= i < |r| ==>
              r[i].year == year && r[i].date == daily.time[i] && r[i].lat == lat && r[i].lon == lon
    ensures forall i, v :: 0 <= i < |r| ==>
              (v in r[i].values <==> v in daily.columns && v != TimeKey && i < |daily.columns[v]|)
    ensures forall i, v :: 0 <= i < |r| && v in r[i].values ==> r[i].values[v] == daily.columns[v][i]
  {
    seq(|daily.time|, i requires 0 <= i < |daily.time| => DayRowAt(daily, i, year, lat, lon))
  }

  /** The rows of the days tagged with year `y`, in order. */
  function WithYear(rows: seq<DayRow>, y: int): (r: seq<DayRow>)
    ensures forall i :: 0 <= i < |r| ==> r[i].year == y
    ensures |r| <= |rows|
  {
    if rows == [] then []
    else (if rows[0].year == y then [rows[0]] else []) + WithYear(rows[1..], y)
  }

  lemma {:induction false} WithYearAppend(a: seq<DayRow>, b: seq<DayRow>, y: int)
    ensures WithYear(a + b, y) == WithYear(a, y) + WithYear(b, y)
  {
    if a != [] {
      assert (a + b)[1..] == a[1..] + b;
      WithYearAppend(a[1..], b, y);
    } else {
      assert a + b == b;
    }
  }

  lemma {:induction false} WithYearAllTagged(rows: seq<DayRow>, t: int, y: int)
    requires forall i :: 0 <= i < |rows| ==> rows[i].year == t
    ensures WithYear(rows, y) == if t == y then rows else []
  {
    if rows != [] {
      WithYearAllTagged(rows[1..], t, y);
      assert rows == [rows[0]] + rows[1..];
    }
  }

  /** Filtering by year commutes with counting: it keeps exactly the rows tagged `y`. */
  lemma {:induction false} WithYearMultiset(rows: seq<DayRow>, y: int, x: DayRow)
    ensures multiset(WithYear(rows, y))[x] == if x.year == y then multiset(rows)[x] else 0
  {
    if rows != [] {
      WithYearMultiset(rows[1..], y, x);
      assert rows == [rows[0]] + rows[1..];
    }
  }

  /** Two orderings of the same rows have the same rows in each year. */
  lemma WithYearPermutation(a: seq<DayRow>, b: seq<DayRow>, y: int)
    requires multiset(a) == multiset(b)
    ensures multiset(WithYear(a, y)) == multiset(WithYear(b, y))
  {
    forall x
      ensures multiset(WithYear(a, y))[x] == multiset(WithYear(b, y))[x]
    {
      WithYearMultiset(a, y, x);
      WithYearMultiset(b, y, x);
    }
  }

  /** The rows one year contributes: the expansion of its response, when its interval exists and its call succeeds. */
  function ExpandYear(fetch: Fetcher, lat: real, lon: real, iv: Option<Interval>, year: int): (r: Run<DayRow>)
    ensures forall i :: 0 <= i < |r.rows| ==> r.rows[i].year == year
    ensures r.requests == if iv.Some? then [IntervalRequest(lat, lon, iv.value)] else []
  {
    match iv
    case None => Run([], [])
    case Some(i) =>
      var q := IntervalRequest(lat, lon, i);
      match fetch(q)
      case None => Run([], [q])
      case Some(daily) => Run(ExpandDays(daily, year, lat, lon), [q])
  }

  /** The walk over `[year, endYear]` of the range and month queries. */
  function ExpandFrom(fetch: Fetcher, lat: real, lon: real, intervals: int -> Option<Interval>,
                      year: int, endYear: int): (r: Run<DayRow>)
    requires StartsInOwnYear(intervals)
    decreases endYear - year
    ensures forall i :: 0 <= i < |r.rows| ==> year <= r.rows[i].year <= endYear
    ensures forall i, j :: 0 <= i < j < |r.rows| ==> r.rows[i].year <= r.rows[j].year
    ensures forall y :: year <= y <= endYear ==>
              WithYear(r.rows, y) == ExpandYear(fetch, lat, lon, intervals(y), y).rows
    ensures RequestsExact(r.requests, lat, lon, intervals, year, endYear)
  {
    if year > endYear then Run([], [])
    else
      var here := ExpandYear(fetch, lat, lon, intervals(year), year);
      var rest := ExpandFrom(fetch, lat, lon, intervals, year + 1, endYear);
      RequestsExactStep(here.requests, rest.requests, lat, lon, intervals, year, endYear);
      forall y | year <= y <= endYear
        ensures WithYear(here.rows + rest.rows, y) == if y == year then here.rows else WithYear(rest.rows, y)
      {
        CombineYears(here.rows, rest.rows, year, endYear, y);
      }
      ConcatYearsOrdered(here.rows, rest.rows, year, endYear);
      Run(here.rows + rest.rows, here.requests + rest.requests)
  }

  /** The rows tagged `y` of one year's rows followed by the later years' rows. */
  lemma CombineYears(here: seq<DayRow>, rest: seq<DayRow>, year: int, endYear: int, y: int)
    requires forall i :: 0 <= i < |here| ==> here[i].year == year
    requires forall i :: 0 <= i < |rest| ==> year + 1 <= rest[i].year <= endYear
    requires year <= y <= endYear
    ensures WithYear(here + rest, y) == if y == year then here else WithYear(rest, y)
  {
    WithYearAppend(here, rest, y);
    WithYearAllTagged(here, year, y);
    if y == year {
      NoRowOfYear(rest, year);
    }
  }

  /** One year's rows followed by the later years' rows stay in year order within the range. */
  lemma ConcatYearsOrdered(here: seq<DayRow>, rest: seq<DayRow>, year: int, endYear: int)
    requires forall i :: 0 <= i < |here| ==> here[i].year == year
    requires forall i :: 0 <= i < |rest| ==> year + 1 <= rest[i].year <= endYear
    requires forall i, j :: 0 <= i < j < |rest| ==> rest[i].year <= rest[j].year
    requires year <= endYear
    ensures forall i :: 0 <= i < |here + rest| ==> year <= (here + rest)[i].year <= endYear
    ensures forall i, j :: 0 <= i < j < |here + rest| ==> (here + rest)[i].year <= (here + rest)[j].year
  {
  }

  /** Rows all tagged after `y` have no row tagged `y`. */
  lemma {:induction false} NoRowOfYear(rows: seq<DayRow>, y: int)
    requires forall i :: 0 <= i < |rows| ==> rows[i].year > y
    ensures WithYear(rows, y) == []
  {
    if rows != [] {
      NoRowOfYear(rows[1..], y);
    }
  }

  /**
   * `r` is the sorted table of a walk over `intervals`: in `(year, date)`
   * order, every row tagged with a year of the range, and for each year the
   * expansion of that year's response, nothing more or less; `None` exactly
   * when no year contributed a row.
   */
  ghost predicate ExpandTableExact(r: Fetched<DayRow>, fetch: Fetcher, lat: real, lon: real,
                                   intervals: int -> Option<Interval>, startYear: int, endYear: int)
  {
    && (r.table.None? <==>
          forall y :: startYear <= y <= endYear ==> ExpandYear(fetch, lat, lon, intervals(y), y).rows == [])
    && (r.table.Some? ==>
          && Sorted(r.table.value, YearDateLe)
          && (forall i :: 0 <= i < |r.table.value| ==> startYear <= r.table.value[i].year <= endYear)
          && (forall y :: startYear <= y <= endYear ==>
                multiset(WithYear(r.table.value, y)) == multiset(ExpandYear(fetch, lat, lon, intervals(y), y).rows)))
    && RequestsExact(r.requests, lat, lon, intervals, startYear, endYear)
  }

  /** The walk of the range and month queries, sorted by `(year, date)`. */
  function ExpandTable(fetch: Fetcher, lat: real, lon: real, intervals: int -> Option<Interval>,
                       startYear: int, endYear: int): (r: Fetched<DayRow>)
    requires StartsInOwnYear(intervals)
    ensures ExpandTableExact(r, fetch, lat, lon, intervals, startYear, endYear)
  {
    var run := ExpandFrom(fetch, lat, lon, intervals, startYear, endYear);
    YearDateLeIsTotalPreorder();
    var sorted := SortBy(run.rows, YearDateLe);
    SortedRowsStayInRange(run.rows, sorted, startYear, endYear);
    forall y | startYear <= y <= endYear
      ensures multiset(WithYear(sorted, y)) == multiset(ExpandYear(fetch, lat, lon, intervals(y), y).rows)
    {
      WithYearPermutation(sorted, run.rows, y);
    }
    FirstRowHasItsYear(run.rows);
    Fetched(Table(sorted), run.requests)
  }

  /** A non-empty table has rows tagged with the year of its first row. */
  lemma FirstRowHasItsYear(rows: seq<DayRow>)
    ensures rows != [] ==> WithYear(rows, rows[0].year) != []
  {
  }

  lemma SortedRowsStayInRange(rows: seq<DayRow>, sorted: seq<DayRow>, startYear: int, endYear: int)
    requires multiset(sorted) == multiset(rows)
    requires forall i :: 0 <= i < |rows| ==> startYear <= rows[i].year <= endYear
    ensures forall i :: 0 <= i < |sorted| ==> startYear <= sorted[i].year <= endYear
  {
    forall i | 0 <= i < |sorted|
      ensures startYear <= sorted[i].year <= endYear
    {
      assert sorted[i] in multiset(rows);
    }
  }

  // ----- Daily rows of a month/day range -----

  function RangeIntervals(startMonth: int, startDay: int, endMonth: int, endDay: int): int -> Option<Interval> {
    y => RangeInterval(y, startMonth, startDay, endMonth, endDay)
  }

  lemma RangeIntervalsStartInOwnYear(startMonth: int, startDay: int, endMonth: int, endDay: int)
    ensures StartsInOwnYear(RangeIntervals(startMonth, startDay, endMonth, endDay))
  {
  }

  /**
   * `get_weather_for_date_range_daily`: every day of every year's range, each
   * row tagged with its loop year, sorted by `(year, date)`.
   */
  function DailyAcrossYears(fetch: Fetcher, lat: real, lon: real,
                            startMonth: int, startDay: int, endMonth: int, endDay: int,
                            startYear: int, endYear: int): (r: Fetched<DayRow>)
    ensures ExpandTableExact(r, fetch, lat, lon, RangeIntervals(startMonth, startDay, endMonth, endDay), startYear, endYear)
  {
    RangeIntervalsStartInOwnYear(startMonth, startDay, endMonth, endDay);
    ExpandTable(fetch, lat, lon, RangeIntervals(startMonth, startDay, endMonth, endDay), startYear, endYear)
  }

  /**
   * A December 28 to January 5 range for 2020 makes one call, for
   * 2020-12-28 to 2021-01-05, and every row it yields is tagged 2020.
   */
  lemma WrappedDailyExample(fetch: Fetcher, lat: real, lon: real)
    ensures DailyAcrossYears(fetch, lat, lon, 12, 28, 1, 5, 2020, 2020).requests ==
              [Request(lat, lon, Date(2020, 12, 28), Date(2021, 1, 5))]
    ensures var t := DailyAcrossYears(fetch, lat, lon, 12, 28, 1, 5, 2020, 2020).table;
            t.Some? ==> forall i :: 0 <= i < |t.value| ==> t.value[i].year == 2020
  {
    var r := DailyAcrossYears(fetch, lat, lon, 12, 28, 1, 5, 2020, 2020);
    var q := Request(lat, lon, Date(2020, 12, 28), Date(2021, 1, 5));
    WrappedRangeExample();
    assert RangeIntervals(12, 28, 1, 5)(2020) == Some(Interval(Date(2020, 12, 28), Date(2021, 1, 5)));
    assert q in r.requests;
    assert forall i :: 0 <= i < |r.requests| ==> r.requests[i].start.year == 2020;
  }

  /**
   * Every day of an answered year's response reaches the daily table, as
   * the row tagged with that loop year.
   */
  lemma AnsweredDayIsInDailyTable(fetch: Fetcher, lat: real, lon: real,
                                  startMonth: int, startDay: int, endMonth: int, endDay: int,
                                  startYear: int, endYear: int, y: int, daily: Daily, k: int)
    requires startYear <= y <= endYear
    requires RangeInterval(y, startMonth, startDay, endMonth, endDay).Some?
    requires fetch(IntervalRequest(lat, lon, RangeInterval(y, startMonth, startDay, endMonth, endDay).value)) == Some(daily)
    requires 0 <= k < |daily.time|
    ensures var t := DailyAcrossYears(fetch, lat, lon, startMonth, startDay, endMonth, endDay, startYear, endYear).table;
            t.Some? && ExpandDays(daily, y, lat, lon)[k] in t.value
  {
    var intervals := RangeIntervals(startMonth, startDay, endMonth, endDay);
    var t := DailyAcrossYears(fetch, lat, lon, startMonth, startDay, endMonth, endDay, startYear, endYear).table;
    var rows := ExpandYear(fetch, lat, lon, intervals(y), y).rows;
    assert rows == ExpandDays(daily, y, lat, lon);
    assert rows != [];
    var x := rows[k];
    assert multiset(rows)[x] > 0;
    WithYearMultiset(t.value, y, x);
  }

  // ----- Daily rows of a whole month -----

  function MonthIntervals(month: int, days: int): int -> Option<Interval> {
    y => MonthInterval(y, month, days)
  }

  lemma MonthIntervalsStartInOwnYear(month: int, days: int)
    ensures StartsInOwnYear(MonthIntervals(month, days))
  {
  }

  /**
   * `get_weather_for_month_across_years`: every day of the month in every
   * year, sorted by `(year, date)`, the month sized by the fixed non-leap
   * table. `None` is the `IndexError` of a month outside -11..12, raised
   * before any call.
   */
  function MonthAcrossYears(fetch: Fetcher, lat: real, lon: real, month: int,
                            startYear: int, endYear: int): (r: Option<Fetched<DayRow>>)
    ensures r.None? <==> !(-11 <= month <= 12)
    ensures r.Some? ==> ExpandTableExact(r.value, fetch, lat, lon, MonthIntervals(month, MonthDays(month).value), startYear, endYear)
    ensures r.Some? && month < 1 ==> r.value == Fetched(None, [])
    ensures r.Some? ==> forall i :: 0 <= i < |r.value.requests| ==>
              MonthRequest(r.value.requests[i], lat, lon, month)
  {
    match MonthDays(month)
    case None => None
    case Some(days) =>
      MonthIntervalsStartInOwnYear(month, days);
      var r := ExpandTable(fetch, lat, lon, MonthIntervals(month, days), startYear, endYear);
      MonthRequestsShape(r.requests, lat, lon, month, startYear, endYear);
      assert month < 1 ==> r.table.None?;
      Some(r)
  }

  /** The call for one month: its first day to its table day count, never February 29. */
  predicate MonthRequest(q: Request, lat: real, lon: real, month: int) {
    && 1 <= month <= 12
    && q.lat == lat && q.lon == lon
    && q.start == Date(q.start.year, month, 1)
    && q.end == Date(q.start.year, month, NonLeapDays[month - 1])
    && !(q.end.month == 2 && q.end.day == 29)
  }

  lemma MonthRequestsShape(requests: seq<Request>, lat: real, lon: real, month: int, startYear: int, endYear: int)
    requires -11 <= month <= 12
    requires RequestsExact(requests, lat, lon, MonthIntervals(month, MonthDays(month).value), startYear, endYear)
    ensures month < 1 ==> requests == []
    ensures forall i :: 0 <= i < |requests| ==> MonthRequest(requests[i], lat, lon, month)
  {
    var days := MonthDays(month).value;
    forall i | 0 <= i < |requests|
      ensures MonthRequest(requests[i], lat, lon, month)
    {
      var y := requests[i].start.year;
      assert MonthIntervals(month, days)(y) == Some(Interval(requests[i].start, requests[i].end));
      assert MonthInterval(y, month, days).Some?;
    }
    assert |requests| > 0 ==> MonthRequest(requests[0], lat, lon, month);
  }

  // ----- Aggregated range -----

  /**
   * The statistics of every variable that has at least one non-null value;
   * variables whose values are all null get no statistics.
   */
  function VariableStats(daily: Daily): (m: map<VarName, Stat>)
    ensures forall v :: v in m <==>
              v in daily.columns && v != TimeKey &&
              exists i :: 0 <= i < |daily.columns[v]| && daily.columns[v][i].Some?
    ensures forall v :: v in m ==>
              && m[v].min <= m[v].mean <= m[v].max
              && SumIsMeanTimes(m[v], |NonNull(daily.columns[v])|)
              && Some(m[v].min) in daily.columns[v] && Some(m[v].max) in daily.columns[v]
              && m[v].sum == Sum(NonNull(daily.columns[v]))
              && m[v].mean == m[v].sum / |NonNull(daily.columns[v])| as real
    ensures forall v, i :: v in m && 0 <= i < |daily.columns[v]| && daily.columns[v][i].Some? ==>
              m[v].min <= daily.columns[v][i].value <= m[v].max
    ensures forall v :: v in m ==> Summarize(daily.columns[v]) == Some(m[v])
  {
    map v | v in daily.columns && v != TimeKey && Summarize(daily.columns[v]).Some? :: Summarize(daily.columns[v]).value
  }

  /** The reported end: `end_date` when it is in `year`, otherwise `date(year, end_month, end_day)`. */
  function ReportedEnd(iv: Interval, year: int, endMonth: int, endDay: int): Option<Date> {
    if iv.end.year == year then Some(iv.end) else MakeDate(year, endMonth, endDay)
  }

  function AggYear(fetch: Fetcher, lat: real, lon: real,
                   startMonth: int, startDay: int, endMonth: int, endDay: int, year: int): (r: Run<AggRow>)
  {
    match RangeInterval(year, startMonth, startDay, endMonth, endDay)
    case None => Run([], [])
    case Some(iv) =>
      var q := IntervalRequest(lat, lon, iv);
      match fetch(q)
      case None => Run([], [q])
      case Some(daily) =>
        if |daily.time| == 0 then Run([], [q])
        else
          match ReportedEnd(iv, year, endMonth, endDay)
          case None => Run([], [q])
          case Some(dateEnd) =>
            Run([AggRow(year, iv.start, dateEnd, lat, lon, |daily.time|, VariableStats(daily))], [q])
  }

  /**
   * Year `y` yields an aggregate row: its interval exists, its call succeeds
   * with a non-empty `time` array, and `date(y, end_month, end_day)` exists.
   */
  ghost predicate AggAnswered(fetch: Fetcher, lat: real, lon: real,
                              startMonth: int, startDay: int, endMonth: int, endDay: int, y: int)
  {
    var iv := RangeInterval(y, startMonth, startDay, endMonth, endDay);
    && iv.Some?
    && fetch(IntervalRequest(lat, lon, iv.value)).Some?
    && |fetch(IntervalRequest(lat, lon, iv.value)).value.time| > 0
    && Valid(Date(y, endMonth, endDay))
  }

  /** The aggregate row a successful year yields. */
  ghost predicate AggRowFrom(row: AggRow, fetch: Fetcher, lat: real, lon: real,
                             startMonth: int, startDay: int, endMonth: int, endDay: int)
  {
    var iv := RangeInterval(row.year, startMonth, startDay, endMonth, endDay);
    && AggAnswered(fetch, lat, lon, startMonth, startDay, endMonth, endDay, row.year)
    && var daily := fetch(IntervalRequest(lat, lon, iv.value)).value;
    && row.numDays == |daily.time|
    && row.stats == VariableStats(daily)
    && row.dateStart == iv.value.start
    && row.dateEnd == Date(row.year, endMonth, endDay)
    && row.lat == lat && row.lon == lon
  }

  predicate HasAggYear(rows: seq<AggRow>, y: int) {
    exists i :: 0 <= i < |rows| && rows[i].year == y
  }

  /** Exactly one aggregate row per successful year of the range, in increasing year order. */
  ghost predicate AggRowsExact(rows: seq<AggRow>, fetch: Fetcher, lat: real, lon: real,
                               startMonth: int, startDay: int, endMonth: int, endDay: int,
                               startYear: int, endYear: int)
  {
    && (forall i :: 0 <= i < |rows| ==>
          && startYear <= rows[i].year <= endYear
          && AggRowFrom(rows[i], fetch, lat, lon, startMonth, startDay, endMonth, endDay))
    && (forall i, j :: 0 <= i < j < |rows| ==> rows[i].year < rows[j].year)
    && (forall y :: startYear <= y <= endYear ==>
          (HasAggYear(rows, y) <==> AggAnswered(fetch, lat, lon, startMonth, startDay, endMonth, endDay, y)))
  }

  function AggregateFrom(fetch: Fetcher, lat: real, lon: real,
                         startMonth: int, startDay: int, endMonth: int, endDay: int,
                         year: int, endYear: int): (r: Run<AggRow>)
    decreases endYear - year
    ensures AggRowsExact(r.rows, fetch, lat, lon, startMonth, startDay, endMonth, endDay, year, endYear)
    ensures RequestsExact(r.requests, lat, lon, RangeIntervals(startMonth, startDay, endMonth, endDay), year, endYear)
  {
    if year > endYear then Run([], [])
    else
      var here := AggYear(fetch, lat, lon, startMonth, startDay, endMonth, endDay, year);
      var rest := AggregateFrom(fetch, lat, lon, startMonth, startDay, endMonth, endDay, year + 1, endYear);
      RangeIntervalsStartInOwnYear(startMonth, startDay, endMonth, endDay);
      RequestsExactStep(here.requests, rest.requests, lat, lon,
                        RangeIntervals(startMonth, startDay, endMonth, endDay), year, endYear);
      AggregateStep(fetch, lat, lon, startMonth, startDay, endMonth, endDay, year, endYear, rest.rows);
      Run(here.rows + rest.rows, here.requests + rest.requests)
  }

  lemma HasAggYearAppend(a: seq<AggRow>, b: seq<AggRow>, y: int)
    ensures HasAggYear(a + b, y) <==> HasAggYear(a, y) || HasAggYear(b, y)
  {
    if HasAggYear(a, y) {
      var i :| 0 <= i < |a| && a[i].year == y;
      assert (a + b)[i] == a[i];
    }
    if HasAggYear(b, y) {
      var i :| 0 <= i < |b| && b[i].year == y;
      assert (a + b)[|a| + i] == b[i];
    }
    if HasAggYear(a + b, y) {
      var i :| 0 <= i < |a + b| && (a + b)[i].year == y;
      if i >= |a| {
        assert (a + b)[i] == b[i - |a|];
      } else {
        assert (a + b)[i] == a[i];
      }
    }
  }

  /** The row of `year`, if any, followed by the rows of the later years. */
  lemma AggregateStep(fetch: Fetcher, lat: real, lon: real,
                      startMonth: int, startDay: int, endMonth: int, endDay: int,
                      year: int, endYear: int, rest: seq<AggRow>)
    requires year <= endYear
    requires AggRowsExact(rest, fetch, lat, lon, startMonth, startDay, endMonth, endDay, year + 1, endYear)
    ensures AggRowsExact(AggYear(fetch, lat, lon, startMonth, startDay, endMonth, endDay, year).rows + rest,
                         fetch, lat, lon, startMonth, startDay, endMonth, endDay, year, endYear)
  {
    var here := AggYear(fetch, lat, lon, startMonth, startDay, endMonth, endDay, year).rows;
    var rows := here + rest;
    assert |here| <= 1;
    assert forall i :: 0 <= i < |here| ==>
             here[i].year == year && AggRowFrom(here[i], fetch, lat, lon, startMonth, startDay, endMonth, endDay);
    assert HasAggYear(here, year) <==> AggAnswered(fetch, lat, lon, startMonth, startDay, endMonth, endDay, year) by {
      if here != [] {
        assert here[0].year == year;
      }
    }
    forall y | year <= y <= endYear
      ensures HasAggYear(rows, y) <==> AggAnswered(fetch, lat, lon, startMonth, startDay, endMonth, endDay, y)
    {
      HasAggYearAppend(here, rest, y);
      if y == year {
        assert !HasAggYear(rest, year);
      } else {
        assert !HasAggYear(here, y);
      }
    }
  }

  /**
   * The dates an aggregate row reports: the start in its year, the end in its
   * year too, so before the start for a wrapped range and not before it otherwise.
   */
  predicate AggRowDates(row: AggRow, startMonth: int, startDay: int, endMonth: int, endDay: int) {
    && row.numDays > 0
    && row.dateStart == Date(row.year, startMonth, startDay)
    && row.dateEnd.year == row.year && Valid(row.dateEnd)
    && (Wraps(startMonth, startDay, endMonth, endDay) ==> Before(row.dateEnd, row.dateStart))
    && (!Wraps(startMonth, startDay, endMonth, endDay) ==> NotAfter(row.dateStart, row.dateEnd))
  }

  lemma AggRowFromDates(row: AggRow, fetch: Fetcher, lat: real, lon: real,
                        startMonth: int, startDay: int, endMonth: int, endDay: int)
    requires AggRowFrom(row, fetch, lat, lon, startMonth, startDay, endMonth, endDay)
    ensures AggRowDates(row, startMonth, startDay, endMonth, endDay)
  {
    var iv := RangeInterval(row.year, startMonth, startDay, endMonth, endDay).value;
    if !Wraps(startMonth, startDay, endMonth, endDay) {
      assert row.dateEnd == iv.end;
    }
  }

  /**
   * `get_weather_for_date_range_across_years`: one aggregate row per year,
   * sorted by year. `num_days` counts every day of the response, null or
   * not; the reported end always lies in the row's year, so for a wrapped
   * range it precedes the reported start.
   */
  function AggregateAcrossYears(fetch: Fetcher, lat: real, lon: real,
                                startMonth: int, startDay: int, endMonth: int, endDay: int,
                                startYear: int, endYear: int): (r: Fetched<AggRow>)
    ensures r.table.None? <==>
              forall y :: startYear <= y <= endYear ==>
                !AggAnswered(fetch, lat, lon, startMonth, startDay, endMonth, endDay, y)
    ensures r.table.Some? ==>
              AggRowsExact(r.table.value, fetch, lat, lon, startMonth, startDay, endMonth, endDay, startYear, endYear)
    ensures r.table.Some? ==> forall i :: 0 <= i < |r.table.value| ==>
              AggRowDates(r.table.value[i], startMonth, startDay, endMonth, endDay)
    ensures RequestsExact(r.requests, lat, lon, RangeIntervals(startMonth, startDay, endMonth, endDay), startYear, endYear)
  {
    var run := AggregateFrom(fetch, lat, lon, startMonth, startDay, endMonth, endDay, startYear, endYear);
    AggRowsFacts(run.rows, fetch, lat, lon, startMonth, startDay, endMonth, endDay, startYear, endYear);
    AggYearLeIsTotalPreorder();
    SortSortedIsIdentity(run.rows, AggYearLe);
    Fetched(Table(SortBy(run.rows, AggYearLe)), run.requests)
  }

  /**
   * An exact aggregate table is in year order, reports its dates as the
   * query does, and is empty exactly when no year is answered.
   */
  lemma AggRowsFacts(rows: seq<AggRow>, fetch: Fetcher, lat: real, lon: real,
                     startMonth: int, startDay: int, endMonth: int, endDay: int, startYear: int, endYear: int)
    requires AggRowsExact(rows, fetch, lat, lon, startMonth, startDay, endMonth, endDay, startYear, endYear)
    ensures Sorted(rows, AggYearLe)
    ensures forall i :: 0 <= i < |rows| ==> AggRowDates(rows[i], startMonth, startDay, endMonth, endDay)
    ensures rows == [] <==>
              forall y :: startYear <= y <= endYear ==>
                !AggAnswered(fetch, lat, lon, startMonth, startDay, endMonth, endDay, y)
  {
    forall i | 0 <= i < |rows|
      ensures AggRowDates(rows[i], startMonth, startDay, endMonth, endDay)
    {
      AggRowFromDates(rows[i], fetch, lat, lon, startMonth, startDay, endMonth, endDay);
    }
    if rows != [] {
      assert HasAggYear(rows, rows[0].year);
    }
  }

  /** The aggregated and the daily range queries make the same archive calls. */
  lemma AggregateCallsMatchDaily(fetch: Fetcher, lat: real, lon: real,
                                 startMonth: int, startDay: int, endMonth: int, endDay: int,
                                 startYear: int, endYear: int)
    ensures AggregateAcrossYears(fetch, lat, lon, startMonth, startDay, endMonth, endDay, startYear, endYear).requests ==
            DailyAcrossYears(fetch, lat, lon, startMonth, startDay, endMonth, endDay, startYear, endYear).requests
  {
    RangeIntervalsStartInOwnYear(startMonth, startDay, endMonth, endDay);
    AggregateCallsFrom(fetch, lat, lon, startMonth, startDay, endMonth, endDay, startYear, endYear);
  }

  lemma {:induction false} AggregateCallsFrom(fetch: Fetcher, lat: real, lon: real,
                                              startMonth: int, startDay: int, endMonth: int, endDay: int,
                                              year: int, endYear: int)
    requires StartsInOwnYear(RangeIntervals(startMonth, startDay, endMonth, endDay))
    ensures AggregateFrom(fetch, lat, lon, startMonth, startDay, endMonth, endDay, year, endYear).requests ==
            ExpandFrom(fetch, lat, lon, RangeIntervals(startMonth, startDay, endMonth, endDay), year, endYear).requests
    decreases endYear - year
  {
    if year <= endYear {
      AggregateCallsFrom(fetch, lat, lon, startMonth, startDay, endMonth, endDay, year + 1, endYear);
      AggregateFromCalls(fetch, lat, lon, startMonth, startDay, endMonth, endDay, year, endYear);
      ExpandFromCalls(fetch, lat, lon, RangeIntervals(startMonth, startDay, endMonth, endDay), year, endYear);
    }
  }

  /** The calls of the aggregate walk: this year's call, if any, then the later years'. */
  lemma AggregateFromCalls(fetch: Fetcher, lat: real, lon: real,
                           startMonth: int, startDay: int, endMonth: int, endDay: int, year: int, endYear: int)
    requires year <= endYear
    ensures var iv := RangeInterval(year, startMonth, startDay, endMonth, endDay);
            AggregateFrom(fetch, lat, lon, startMonth, startDay, endMonth, endDay, year, endYear).requests ==
            (if iv.Some? then [IntervalRequest(lat, lon, iv.value)] else []) +
            AggregateFrom(fetch, lat, lon, startMonth, startDay, endMonth, endDay, year + 1, endYear).requests
  {
  }

  /** The calls of the expanding walk: this year's call, if any, then the later years'. */
  lemma ExpandFromCalls(fetch: Fetcher, lat: real, lon: real, intervals: int -> Option<Interval>, year: int, endYear: int)
    requires StartsInOwnYear(intervals)
    requires year <= endYear
    ensures ExpandFrom(fetch, lat, lon, intervals, year, endYear).requests ==
            (if intervals(year).Some? then [IntervalRequest(lat, lon, intervals(year).value)] else []) +
            ExpandFrom(fetch, lat, lon, intervals, year + 1, endYear).requests
  {
  }

  /**
   * A wrapped range ending on February 29 never yields an aggregate row:
   * its end date needs `year + 1` to be a leap year and its reported end
   * needs `year` to be one, and two consecutive years never both are.
   */
  lemma WrappedLeapDayHasNoAggregate(fetch: Fetcher, lat: real, lon: real,
                                     startMonth: int, startDay: int, startYear: int, endYear: int)
    requires Wraps(startMonth, startDay, 2, 29)
    ensures AggregateAcrossYears(fetch, lat, lon, startMonth, startDay, 2, 29, startYear, endYear).table.None?
  {
    forall y | startYear <= y <= endYear
      ensures !AggAnswered(fetch, lat, lon, startMonth, startDay, 2, 29, y)
    {
      NoConsecutiveLeapYears(y);
    }
  }

  /**
   * The daily query over the same wrapped range does yield the days of a
   * year whose successor is a leap year, when the archive answers.
   */
  lemma WrappedLeapDayHasDaily(fetch: Fetcher, lat: real, lon: real, startMonth: int, startDay: int, y: int)
    requires Wraps(startMonth, startDay, 2, 29)
    requires RangeInterval(y, startMonth, startDay, 2, 29).Some?
    requires var q := IntervalRequest(lat, lon, RangeInterval(y, startMonth, startDay, 2, 29).value);
             fetch(q).Some? && |fetch(q).value.time| > 0
    ensures DailyAcrossYears(fetch, lat, lon, startMonth, startDay, 2, 29, y, y).table.Some?
  {
  }
}
