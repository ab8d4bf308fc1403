/** One row of the daily bike-rental table, restricted to the columns the dashboard reads. */
module Records {

  /** A day: `yr` is 0 for 2011 and 1 for 2012, `mnth` is 1..12, `weathersit` a weather
      code, `holiday` 0 or 1, `cnt` the day's total rentals. */
  datatype Record = Record(yr: int, mnth: int, weathersit: int, holiday: int, cnt: int)

  /** The columns a group-by can name. */
  datatype Column = Yr | Mnth | Weathersit | Holiday | Cnt

  function Field(r: Record, c: Column): int
  {
    match c
    case Yr => r.yr
    case Mnth => r.mnth
    case Weathersit => r.weathersit
    case Holiday => r.holiday
    case Cnt => r.cnt
  }

  /** The group key of a row for a group-by over `cols`: the tuple of those columns' values. */
  function KeyOf(cols: seq<Column>, r: Record): seq<int>
  {
    seq(|cols|, i requires 0 <= i < |cols| => Field(r, cols[i]))
  }
}
