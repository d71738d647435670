/**
 * The values the temperature heatmap works on: one decoded row of the daily
 * temperature file, the (year, month) key under which rows are grouped, and
 * the per-month summary shown in a matrix cell.
 */
module Records {

  datatype Option<T> = None | Some(value: T)

  /**
   * One row of the daily temperature file after its date has been decoded.
   * `month` is 0-based (January is 0), as the browser's date object returns it.
   */
  datatype DailyRecord = DailyRecord(
    year: int,
    month: int,
    day: int,
    maxTemperature: real,
    minTemperature: real)

  /** The grouping key that the scripts spell as the text `${year}-${month}`. */
  datatype MonthKey = MonthKey(year: int, month: int)

  function KeyOf(d: DailyRecord): MonthKey {
    MonthKey(d.year, d.month)
  }

  /** The summary of one (year, month): the hottest maximum and the coldest minimum. */
  datatype Bucket = Bucket(maxTemperature: real, minTemperature: real)

  /** The largest value of a non-empty sequence (what `d3.max` returns for numbers). */
  function SeqMax(s: seq<real>): (r: real)
    requires |s| > 0
    ensures r in s
    ensures forall i :: 0 <= i < |s| ==> s[i] <= r
  {
    if |s| == 1 then s[0]
    else
      var rest := SeqMax(s[1..]);
      if rest < s[0] then s[0] else rest
  }

  /** The smallest value of a non-empty sequence (what `d3.min` returns for numbers). */
  function SeqMin(s: seq<real>): (r: real)
    requires |s| > 0
    ensures r in s
    ensures forall i :: 0 <= i < |s| ==> r <= s[i]
  {
    if |s| == 1 then s[0]
    else
      var rest := SeqMin(s[1..]);
      if s[0] < rest then s[0] else rest
  }

  function MaxTemperatures(s: seq<DailyRecord>): seq<real> {
    seq(|s|, i requires 0 <= i < |s| => s[i].maxTemperature)
  }

  function MinTemperatures(s: seq<DailyRecord>): seq<real> {
    seq(|s|, i requires 0 <= i < |s| => s[i].minTemperature)
  }
}
