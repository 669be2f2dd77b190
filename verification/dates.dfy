/**
 * Calendar dates as the Python `datetime.date` constructor accepts them:
 * proleptic Gregorian, years 1 through 9999.
 */
module Dates {
  import opened Wrappers

  /** `datetime.MINYEAR` and `datetime.MAXYEAR`. */
  const MinYear: int := 1
  const MaxYear: int := 9999

  datatype Date = Date(year: int, month: int, day: int)

  predicate IsLeap(y: int) {
    y % 4 == 0 && (y % 100 != 0 || y % 400 == 0)
  }

  function DaysInMonth(y: int, m: int): int
    requires 1 <= m <= 12
  {
    if m == 2 then (if IsLeap(y) then 29 else 28)
    else if m == 4 || m == 6 || m == 9 || m == 11 then 30
    else 31
  }

  /** The dates for which `date(year, month, day)` does not raise `ValueError`. */
  predicate Valid(d: Date) {
    && MinYear <= d.year <= MaxYear
    && 1 <= d.month <= 12
    && 1 <= d.day <= DaysInMonth(d.year, d.month)
  }

  /** `date(y, m, d)`: `None` stands for the `ValueError` it raises. */
  function MakeDate(y: int, m: int, d: int): (r: Option<Date>)
    ensures r.Some? <==> Valid(Date(y, m, d))
    ensures r.Some? ==> r.value == Date(y, m, d)
  {
    if Valid(Date(y, m, d)) then Some(Date(y, m, d)) else None
  }

  /** Chronological order: strictly earlier. */
  predicate Before(a: Date, b: Date) {
    a.year < b.year
    || (a.year == b.year && a.month < b.month)
    || (a.year == b.year && a.month == b.month && a.day < b.day)
  }

  /** Chronological order: earlier or the same day. */
  predicate NotAfter(a: Date, b: Date) {
    !Before(b, a)
  }

  /** The fixed day-count table of the month query; February always has 28 days. */
  const NonLeapDays: seq<int> := [31, 28, 31, 30, 31, 30, 31, 31, 30, 31, 30, 31]

  /** Python list indexing `s[i]`, negative indices counting from the end; `None` is `IndexError`. */
  function PyIndex<T>(s: seq<T>, i: int): (r: Option<T>)
    ensures r.Some? <==> -|s| <= i < |s|
    ensures 0 <= i < |s| ==> r == Some(s[i])
    ensures -|s| <= i < 0 ==> r == Some(s[|s| + i])
  {
    if 0 <= i < |s| then Some(s[i])
    else if -|s| <= i < 0 then Some(s[|s| + i])
    else None
  }

  /**
   * The fixed table agrees with the calendar for every month of every year
   * except February of a leap year, where it is one day short.
   */
  lemma NonLeapDaysAgainstCalendar(y: int, m: int)
    requires 1 <= m <= 12
    ensures NonLeapDays[m - 1] <= DaysInMonth(y, m)
    ensures NonLeapDays[m - 1] == DaysInMonth(y, m) <==> !(m == 2 && IsLeap(y))
  {
  }

  /** Two consecutive years are never both leap years. */
  lemma NoConsecutiveLeapYears(y: int)
    ensures !(IsLeap(y) && IsLeap(y + 1))
  {
  }
}
