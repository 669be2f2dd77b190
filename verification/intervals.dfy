/**
 * The per-year request intervals: a month/day range that may wrap past New
 * Year, and a whole calendar month sized by the fixed non-leap table.
 */
module Intervals {
  import opened Wrappers
  import opened Dates

  datatype Interval = Interval(start: Date, end: Date)

  /** The range wraps into the next year: its end month/day sorts before its start month/day. */
  predicate Wraps(startMonth: int, startDay: int, endMonth: int, endDay: int) {
    endMonth < startMonth || (endMonth == startMonth && endDay < startDay)
  }

  /**
   * The interval requested for `year`: from `date(year, startMonth, startDay)`
   * to the end month/day in `year`, or in `year + 1` when the range wraps.
   * `None` when either date cannot be constructed, and the year is skipped.
   */
  function RangeInterval(year: int, startMonth: int, startDay: int, endMonth: int, endDay: int): (r: Option<Interval>)
    ensures r.None? <==>
              || !Valid(Date(year, startMonth, startDay))
              || (Wraps(startMonth, startDay, endMonth, endDay) && !Valid(Date(year + 1, endMonth, endDay)))
              || (!Wraps(startMonth, startDay, endMonth, endDay) && !Valid(Date(year, endMonth, endDay)))
    ensures r.Some? ==> r.value.start == Date(year, startMonth, startDay)
    ensures r.Some? ==> Valid(r.value.start) && Valid(r.value.end)
    ensures r.Some? ==> r.value.end.month == endMonth && r.value.end.day == endDay
    ensures r.Some? ==> (r.value.end.year == year + 1 <==> Wraps(startMonth, startDay, endMonth, endDay))
    ensures r.Some? ==> (r.value.end.year == year <==> !Wraps(startMonth, startDay, endMonth, endDay))
    // the interval is never reversed
    ensures r.Some? ==> NotAfter(r.value.start, r.value.end)
    // the end is the first end month/day falling on or after the start
    ensures r.Some? ==> forall y :: NotAfter(r.value.start, Date(y, endMonth, endDay)) ==>
                                      NotAfter(r.value.end, Date(y, endMonth, endDay))
  {
    match MakeDate(year, startMonth, startDay)
    case None => None
    case Some(start) =>
      var endYear := if Wraps(startMonth, startDay, endMonth, endDay) then year + 1 else year;
      match MakeDate(endYear, endMonth, endDay)
      case None => None
      case Some(end) => Some(Interval(start, end))
  }

  /** Wrapping is exactly "the end month/day comes before the start month/day within one year". */
  lemma WrapsIffEndBeforeStart(y: int, startMonth: int, startDay: int, endMonth: int, endDay: int)
    ensures Wraps(startMonth, startDay, endMonth, endDay) <==>
              Before(Date(y, endMonth, endDay), Date(y, startMonth, startDay))
  {
  }

  /** A December-to-January range requested for 2020 runs into 2021. */
  lemma WrappedRangeExample()
    ensures RangeInterval(2020, 12, 28, 1, 5) == Some(Interval(Date(2020, 12, 28), Date(2021, 1, 5)))
  {
  }

  /**
   * `days_in_month[month - 1]` with Python indexing: months 1 to 12 read the
   * table, months -11 to 0 read it from the end, and any other month raises
   * `IndexError` (`None`).
   */
  function MonthDays(month: int): (r: Option<int>)
    ensures r.Some? <==> -11 <= month <= 12
    ensures 1 <= month <= 12 ==> r == Some(NonLeapDays[month - 1])
  {
    PyIndex(NonLeapDays, month - 1)
  }

  /** The interval of a month query: `date(year, month, 1)` to `date(year, month, days)`. */
  function MonthInterval(year: int, month: int, days: int): (r: Option<Interval>)
    ensures r.Some? <==> Valid(Date(year, month, 1)) && Valid(Date(year, month, days))
    ensures r.Some? ==> r.value == Interval(Date(year, month, 1), Date(year, month, days))
  {
    match MakeDate(year, month, 1)
    case None => None
    case Some(start) =>
      match MakeDate(year, month, days)
      case None => None
      case Some(end) => Some(Interval(start, end))
  }

  /**
   * For a calendar month the month query asks for the whole month, except
   * that February 29 is never requested.
   */
  lemma MonthIntervalCoversMonth(year: int, month: int)
    requires 1 <= month <= 12
    requires MinYear <= year <= MaxYear
    ensures MonthDays(month).Some?
    ensures MonthInterval(year, month, MonthDays(month).value) ==
              Some(Interval(Date(year, month, 1), Date(year, month, NonLeapDays[month - 1])))
    ensures !(month == 2 && MonthDays(month).value == 29)
    ensures MonthDays(month).value == DaysInMonth(year, month) <==> !(month == 2 && IsLeap(year))
  {
    NonLeapDaysAgainstCalendar(year, month);
  }

  /** Months -11 to 0 pass the table lookup but no year has such a month. */
  lemma MonthBelowCalendar(year: int, month: int)
    requires -11 <= month <= 0
    ensures MonthDays(month).Some?
    ensures MonthInterval(year, month, MonthDays(month).value).None?
  {
  }
}
