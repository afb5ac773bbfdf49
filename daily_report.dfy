/**
 * The up/down marker of `create_daily_report`: red when a quote's change is
 * negative, blue otherwise (including no change).
 */
module DailyReport {
  import opened DailyChange

  datatype Marker = Red | Blue

  function MarkerOf(change: real): Marker
  {
    if change < 0.0 then Red else Blue
  }

  /** The marker of a daily move is red exactly when the price fell since the previous close. */
  lemma MarkerShowsDirection(closes: seq<real>)
    requires |closes| > 0
    ensures MarkerOf(DailyMove(closes).change) == Red <==> |closes| > 1 && closes[|closes| - 1] < closes[|closes| - 2]
  {
  }
}
