/**
 * The multi-period return calculation of `get_stock_info_with_returns`: given one
 * year of daily closes for a symbol and the current calendar year, the daily,
 * weekly, monthly, year-to-date and yearly returns, each measured from its own
 * reference close and each falling back to 0 when the history is too short.
 */
module StockReturns {
  import opened Wrappers
  import opened PriceHistory
  import opened DailyChange

  /** The week reference is `Close.iloc[-7]`. */
  const WeekSessions: nat := 7
  /** The month reference is `Close.iloc[-30]`. */
  const MonthSessions: nat := 30
  /** The year return needs this many sessions ("roughly one year of trading days"). */
  const YearSessions: nat := 252

  /** `Close.iloc[-n]` when the series has at least `n` closes, otherwise no reference. */
  function ReferenceBack(closes: seq<real>, n: nat): Option<real>
    requires n > 0
  {
    if |closes| >= n then Some(closes[|closes| - n]) else None
  }

  function WeekReference(h: History): Option<real>
  {
    ReferenceBack(Closes(h), WeekSessions)
  }

  function MonthReference(h: History): Option<real>
  {
    ReferenceBack(Closes(h), MonthSessions)
  }

  /** The first close of the rows dated in the current year, if any. */
  function YtdReference(h: History, currentYear: int): Option<real>
  {
    var ytd := YearFilter(h, currentYear);
    if ytd == [] then None else Some(ytd[0].close)
  }

  /** The oldest close, `Close.iloc[0]`, once the history covers a trading year. */
  function YearReference(h: History): Option<real>
  {
    if |h| >= YearSessions then Some(h[0].close) else None
  }

  /**
   * The four unguarded divisions are defined: every reference close that the
   * calculation divides by is non-zero.
   */
  predicate DefinedReferences(h: History, currentYear: int)
  {
    && WeekReference(h) != Some(0.0)
    && MonthReference(h) != Some(0.0)
    && YtdReference(h, currentYear) != Some(0.0)
    && YearReference(h) != Some(0.0)
  }

  /** The return against an optional reference: 0 when there is none. */
  function PeriodReturn(current: real, reference: Option<real>): (r: real)
    requires reference != Some(0.0)
    ensures reference.None? ==> r == 0.0
    ensures reference.Some? ==> reference.value + r * reference.value / 100.0 == current
  {
    match reference
    case None => 0.0
    case Some(p) => PercentChange(current, p)
  }

  /** The report currency of a market: won for "KR", HKD for "HK", USD for anything else. */
  function CurrencyOf(market: string): string
  {
    if market == "KR" then "원" else if market == "HK" then "HKD" else "USD"
  }

  /** The record the source returns for one stock, with the numbers unformatted. */
  datatype StockInfo = StockInfo(
    name: string,
    price: real,
    change: real,
    rate: real,
    weekReturn: real,
    monthReturn: real,
    ytdReturn: real,
    yearReturn: real,
    currency: string)

  /** `get_stock_info_with_returns` once the history has been fetched. */
  function StockInfoOf(name: string, market: string, h: History, currentYear: int): (r: Option<StockInfo>)
    requires DefinedReferences(h, currentYear)
    ensures r.None? <==> h == []
    ensures r.Some? ==> r.value.name == name
    ensures r.Some? ==> r.value.price == h[|h| - 1].close
    ensures r.Some? && market == "KR" ==> r.value.currency == "원"
    ensures r.Some? && market == "HK" ==> r.value.currency == "HKD"
    ensures r.Some? && market != "KR" && market != "HK" ==> r.value.currency == "USD"
  {
    if h == [] then None
    else
      var closes := Closes(h);
      var current := Current(closes);
      var daily := DailyMove(closes);
      Some(StockInfo(
        name,
        current,
        daily.change,
        daily.rate,
        PeriodReturn(current, WeekReference(h)),
        PeriodReturn(current, MonthReference(h)),
        PeriodReturn(current, YtdReference(h, currentYear)),
        PeriodReturn(current, YearReference(h)),
        CurrencyOf(market)))
  }

  /**
   * A stock's daily change and return follow the same rule as a market index's:
   * measured from the second-to-last close, or flat for a one-row history.
   */
  lemma DailyFieldsOfStock(name: string, market: string, h: History, currentYear: int)
    requires h != [] && DefinedReferences(h, currentYear)
    ensures var info := StockInfoOf(name, market, h, currentYear).value;
      DayMove(info.change, info.rate) == DailyMove(Closes(h))
    ensures |h| == 1 ==> StockInfoOf(name, market, h, currentYear).value.change == 0.0
    ensures |h| == 1 ==> StockInfoOf(name, market, h, currentYear).value.rate == 0.0
    ensures |h| > 1 ==> h[|h| - 2].close + StockInfoOf(name, market, h, currentYear).value.change == h[|h| - 1].close
  {
  }

  /**
   * The week return is measured from the close six sessions before the current
   * one, and is 0 (not a return from the oldest close) for a shorter history.
   */
  lemma WeekReturnReference(name: string, market: string, h: History, currentYear: int)
    requires h != [] && DefinedReferences(h, currentYear)
    ensures var info := StockInfoOf(name, market, h, currentYear).value;
      && (|h| < WeekSessions ==> info.weekReturn == 0.0)
      && (|h| >= WeekSessions ==>
            var p := h[|h| - WeekSessions].close;
            p != 0.0 && p + info.weekReturn * p / 100.0 == h[|h| - 1].close)
  {
  }

  /**
   * The month return is measured from the close 29 sessions before the current
   * one, and is 0 for a history of fewer than 30 closes.
   */
  lemma MonthReturnReference(name: string, market: string, h: History, currentYear: int)
    requires h != [] && DefinedReferences(h, currentYear)
    ensures var info := StockInfoOf(name, market, h, currentYear).value;
      && (|h| < MonthSessions ==> info.monthReturn == 0.0)
      && (|h| >= MonthSessions ==>
            var p := h[|h| - MonthSessions].close;
            p != 0.0 && p + info.monthReturn * p / 100.0 == h[|h| - 1].close)
  {
  }

  /**
   * The year return is measured from the oldest close only when the history
   * holds at least 252 sessions, and is 0 otherwise.
   */
  lemma YearReturnReference(name: string, market: string, h: History, currentYear: int)
    requires h != [] && DefinedReferences(h, currentYear)
    ensures var info := StockInfoOf(name, market, h, currentYear).value;
      && (|h| < YearSessions ==> info.yearReturn == 0.0)
      && (|h| >= YearSessions ==>
            h[0].close != 0.0 && h[0].close + info.yearReturn * h[0].close / 100.0 == h[|h| - 1].close)
  {
  }

  /**
   * The year-to-date reference is the close of the first row, in date order,
   * dated in the current year, and there is none when no row is.
   */
  lemma YtdReferenceIsFirstOfYear(h: History, currentYear: int)
    ensures FirstIndexOfYear(h, currentYear).None? ==> YtdReference(h, currentYear).None?
    ensures FirstIndexOfYear(h, currentYear).Some? ==>
      YtdReference(h, currentYear) == Some(h[FirstIndexOfYear(h, currentYear).value].close)
  {
    YearFilterStartsAtFirstIndex(h, currentYear);
  }

  /**
   * The year-to-date return is measured from the first row, in date order, dated
   * in the current year; when no row is, it is 0.
   */
  // Not inductive: the attribute only stops Dafny's automatic induction on `h`,
  // which otherwise makes this proof run out of resources.
  lemma {:induction false} YtdReturnReference(name: string, market: string, h: History, currentYear: int)
    requires h != [] && DefinedReferences(h, currentYear)
    ensures FirstIndexOfYear(h, currentYear).None? ==>
      StockInfoOf(name, market, h, currentYear).value.ytdReturn == 0.0
    ensures FirstIndexOfYear(h, currentYear).Some? ==>
      var p := h[FirstIndexOfYear(h, currentYear).value].close;
      var info := StockInfoOf(name, market, h, currentYear).value;
      p != 0.0 && p + info.ytdReturn * p / 100.0 == h[|h| - 1].close
  {
    YtdReferenceIsFirstOfYear(h, currentYear);
    var info := StockInfoOf(name, market, h, currentYear).value;
    var ytd := YtdReference(h, currentYear);
    assert info.ytdReturn == PeriodReturn(h[|h| - 1].close, ytd);
    match FirstIndexOfYear(h, currentYear)
    case None =>
    case Some(i) =>
      assert ytd == Some(h[i].close);
  }

  /**
   * Only the recent window matters for the daily, weekly and monthly figures:
   * older rows prepended to a history of at least 30 sessions change none of
   * their reference closes.
   */
  lemma RecentWindowDecides(older: History, h: History)
    requires |h| >= MonthSessions
    ensures PreviousClose(Closes(older + h)) == PreviousClose(Closes(h))
    ensures Current(Closes(older + h)) == Current(Closes(h))
    ensures WeekReference(older + h) == WeekReference(h)
    ensures MonthReference(older + h) == MonthReference(h)
  {
    var n := |older + h|;
    assert (older + h)[n - 1] == h[|h| - 1];
    assert (older + h)[n - 2] == h[|h| - 2];
    assert (older + h)[n - WeekSessions] == h[|h| - WeekSessions];
    assert (older + h)[n - MonthSessions] == h[|h| - MonthSessions];
  }

  /**
   * Rows from other years prepended to a history do not move its year-to-date
   * reference.
   */
  lemma YtdIgnoresOtherYears(older: History, h: History, currentYear: int)
    requires forall j :: 0 <= j < |older| ==> older[j].year != currentYear
    ensures YtdReference(older + h, currentYear) == YtdReference(h, currentYear)
  {
    YearFilterAppend(older, h, currentYear);
    YearFilterStartsAtFirstIndex(older, currentYear);
    assert YearFilter(older, currentYear) == [];
    assert YearFilter(older + h, currentYear) == YearFilter(h, currentYear);
  }

  /** A history of positive closes makes every division of the calculation defined. */
  lemma PositiveClosesAreDefined(h: History, currentYear: int)
    requires forall i :: 0 <= i < |h| ==> h[i].close > 0.0
    ensures DefinedReferences(h, currentYear)
  {
    var ytd := YearFilter(h, currentYear);
    if ytd != [] {
      assert ytd[0] in h;
    }
  }

  /**
   * With ascending dates and the current row in the current year, the
   * year-to-date reference is the first close of the window that ends at the
   * current row.
   */
  lemma YtdWindowIsSuffix(h: History, currentYear: int)
    requires YearsAscending(h) && h != [] && h[|h| - 1].year == currentYear
    ensures exists i ::
      0 <= i < |h| && YearFilter(h, currentYear) == h[i..] && YtdReference(h, currentYear) == Some(h[i].close)
  {
    YearFilterOfAscendingIsSuffix(h, currentYear);
    var i := FirstIndexOfYear(h, currentYear).value;
    assert YearFilter(h, currentYear)[0] == h[i];
  }

  /**
   * Five sessions of the current year, closing at 100, 105, 110, 118 and 120:
   * the week, month and year returns are 0 because the history is too short (no
   * fall-back to the oldest close), while the year-to-date return is 20%.
   */
  lemma FiveSessionExample(currentYear: int)
    ensures var h := [DailyClose(currentYear, 100.0), DailyClose(currentYear, 105.0),
                      DailyClose(currentYear, 110.0), DailyClose(currentYear, 118.0),
                      DailyClose(currentYear, 120.0)];
      DefinedReferences(h, currentYear) &&
      var info := StockInfoOf("S", "US", h, currentYear).value;
      && info.change == 2.0
      && info.weekReturn == 0.0 && info.monthReturn == 0.0 && info.yearReturn == 0.0
      && info.ytdReturn == 20.0
  {
    var h := [DailyClose(currentYear, 100.0), DailyClose(currentYear, 105.0),
              DailyClose(currentYear, 110.0), DailyClose(currentYear, 118.0),
              DailyClose(currentYear, 120.0)];
    assert YearFilter(h, currentYear)[0] == h[0] by {
      YearFilterStartsAtFirstIndex(h, currentYear);
    }
    PositiveClosesAreDefined(h, currentYear);
  }
}
