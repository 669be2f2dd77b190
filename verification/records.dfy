/**
 * The values exchanged with the remote weather archive and the rows the
 * client builds from them.
 */
module Records {
  import opened Wrappers
  import opened Dates
  import opened Aggregation

  type VarName = string

  /** The key of the day-date array inside a response's `daily` object. */
  const TimeKey: VarName := "time"

  /** The eight variables the archive is asked for and the store keeps a column for. */
  const StoredVariables: set<VarName> := {
    "temperature_2m_max", "temperature_2m_min", "temperature_2m_mean",
    "precipitation_sum", "cloud_cover_mean", "wind_speed_10m_max",
    "wind_direction_10m_dominant", "relative_humidity_2m_mean"
  }

  /**
   * The `daily` object of a response: the `time` array of day dates and one
   * column per variable, nulls as `None`. A missing `time` array or a null
   * column is an empty sequence.
   */
  datatype Daily = Daily(time: seq<Date>, columns: map<VarName, seq<Option<real>>>)

  /** One call to the archive: a coordinate and an inclusive date interval. */
  datatype Request = Request(lat: real, lon: real, start: Date, end: Date)

  /**
   * The archive, as an oracle: `None` when the call fails or the response is
   * empty or has no `daily` object.
   */
  type Fetcher = Request -> Option<Daily>

  /**
   * One day's row: `year` is the year of the loop iteration that fetched it,
   * which is not the calendar year of `date` for days past New Year in a
   * wrapped range. A variable absent from `values` is a missing column.
   */
  datatype DayRow = DayRow(year: int, date: Date, lat: real, lon: real, values: map<VarName, Option<real>>)

  /**
   * One year's aggregate over a range: its reported start and end, the number
   * of days in the response, and the statistics of every variable that has at
   * least one non-null value.
   */
  datatype AggRow = AggRow(
    year: int, dateStart: Date, dateEnd: Date, lat: real, lon: real,
    numDays: nat, stats: map<VarName, Stat>)
}
