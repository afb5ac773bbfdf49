/**
 * The daily-change rule that `get_stock_info_with_returns` applies to a stock and
 * `get_market_indices` applies to each market index: the current price is the
 * last close, the previous close is the one before it (or the current price when
 * there is only one), and the daily return is guarded against a zero previous
 * close.
 */
module DailyChange {

  /** The percentage move from `reference` to `current`: the division the source writes
      as `(current - reference) / reference * 100`. */
  function PercentChange(current: real, reference: real): (r: real)
    requires reference != 0.0
    ensures reference + r * reference / 100.0 == current
    ensures reference > 0.0 ==> (r > 0.0 <==> current > reference)
    ensures reference > 0.0 ==> (r < 0.0 <==> current < reference)
  {
    (current - reference) / reference * 100.0
  }

  /** The most recent close: `Close.iloc[-1]`. */
  function Current(closes: seq<real>): real
    requires |closes| > 0
  {
    closes[|closes| - 1]
  }

  /** `Close.iloc[-2]` when there are at least two closes, otherwise the current price. */
  function PreviousClose(closes: seq<real>): real
    requires |closes| > 0
  {
    if |closes| > 1 then closes[|closes| - 2] else closes[|closes| - 1]
  }

  /** A day's move: the absolute change and the percentage return. */
  datatype DayMove = DayMove(change: real, rate: real)

  /** The daily change and return of a non-empty series of closes. */
  function DailyMove(closes: seq<real>): (m: DayMove)
    requires |closes| > 0
    ensures |closes| == 1 ==> m.change == 0.0 && m.rate == 0.0
    ensures |closes| > 1 ==> closes[|closes| - 2] + m.change == closes[|closes| - 1]
    ensures |closes| > 1 && closes[|closes| - 2] != 0.0 ==>
      closes[|closes| - 2] + m.rate * closes[|closes| - 2] / 100.0 == closes[|closes| - 1]
    ensures |closes| > 1 && closes[|closes| - 2] == 0.0 ==> m.rate == 0.0
    ensures |closes| > 1 && closes[|closes| - 2] > 0.0 ==> (m.rate < 0.0 <==> m.change < 0.0)
  {
    var previous := PreviousClose(closes);
    var change := Current(closes) - previous;
    DayMove(change, if previous != 0.0 then PercentChange(Current(closes), previous) else 0.0)
  }
}
