# Stock report bot (yfinance version): the return calculation

This project models, in Dafny, the arithmetic core of `stock_bot_yfinance.py`, a
bot that builds a daily report of stock prices, market indices and exchange
rates and sends it to a Telegram chat. The parts modelled are pure:

- `get_stock_info_with_returns`: from one year of daily closes of a symbol and
  the current calendar year, the current price, the daily change and return,
  and the week, month, year-to-date and year returns (module `StockReturns`,
  on the history of module `PriceHistory`). The history is an input: each row
  is the year of its date and its closing price, in ascending date order.
- The daily-change rule, written once (module `DailyChange`) and used both for
  stocks and for the three market indices of `get_market_indices` (module
  `MarketIndices`, which also models which keys the `indices` dictionary gets).
- The cross rates of `get_exchange_rates`: won per 100 yen and won per Hong
  Kong dollar, with their guards and the `.get(code, 0)` defaults (module
  `ExchangeRates`).
- The red/blue up-down marker of `create_daily_report` (module `DailyReport`).

Prices and rates are Dafny `real`s, so the model has exact arithmetic and no
IEEE-754 rounding, infinities or NaN.

How the model reads the code:

- Reference closes are taken exactly at the code's offsets: `iloc[-2]` for the
  previous close, `iloc[-7]` for the week, `iloc[-30]` for the month and
  `iloc[0]` for the year, the last one only when there are at least 252 rows.
  A history too short for a period gives a return of 0 for that period; there
  is no fall-back to the oldest close. The year-to-date reference is the first
  row of the selection of rows dated in the current year; when there is none
  the return is 0. So the week reference lies six sessions before the current
  one and the month reference 29, and a history shorter than a period never
  falls back to an older close; `StockReturns.FiveSessionExample` shows this on
  a five-row history.
- Only the daily return is guarded against a zero denominator (the source
  tests the previous close for truth, i.e. non-zero). The week, month,
  year-to-date and year divisions are not guarded, so `StockInfoOf` requires
  `DefinedReferences`: each reference close it divides by is non-zero.
  `PositiveClosesAreDefined` shows that any history of positive closes meets
  it.
- The cross rates are guarded by `> 0`, not by non-zero: a negative yen or
  Hong Kong dollar quote gives 0.
- The report currency of a stock (`CurrencyOf`: won for "KR", HKD for "HK",
  USD otherwise) is part of the stock record.

## Model

| member | source | states |
|---|---|---|
| PriceHistory.YearFilter | stock_bot_yfinance.py:131 | the selection of the current year's rows is no longer than the history and keeps only rows of the history dated in that year |
| PriceHistory.YearFilterKeepsEveryRowOfYear | stock_bot_yfinance.py:131 | conversely, every row of the history dated in the year is kept by the selection |
| PriceHistory.FirstIndexOfYear | stock_bot_yfinance.py:131-133 | an independent search for the first row dated in a year: it is dated in that year, no earlier row is, and none means no row at all is |
| PriceHistory.YearFilterStartsAtFirstIndex | stock_bot_yfinance.py:131-133 | the year selection is empty exactly when the search finds nothing, and otherwise starts with the row the search finds |
| PriceHistory.YearFilterAppend | stock_bot_yfinance.py:131 | selecting a year distributes over concatenating histories |
| PriceHistory.YearFilterOfAscendingIsSuffix | stock_bot_yfinance.py:129-133 | with ascending dates and the last row in the year, the year's rows form the suffix that starts at the first of them |
| DailyChange.PercentChange | stock_bot_yfinance.py:113 | the percentage return recovers the current price from the reference, and for a positive reference it is positive or negative exactly when the price rose or fell |
| DailyChange.DailyMove | stock_bot_yfinance.py:105-113 | a one-close series has change and return 0; otherwise the change added to the second-to-last close gives the last close, and the return recovers the last close from the second-to-last when that is non-zero and is exactly 0 when it is zero; for a positive second-to-last close the return and the change have the same sign |
| StockReturns.PeriodReturn | stock_bot_yfinance.py:115-143 | a period with no reference has return 0; otherwise the return recovers the current price from the reference |
| StockReturns.StockInfoOf | stock_bot_yfinance.py:98-168 | no data exactly for an empty history; otherwise the record carries the given name and the last close as price, and its currency is won for market "KR", HKD for "HK" and USD for any other market |
| StockReturns.DailyFieldsOfStock | stock_bot_yfinance.py:102-113 | the stock's daily change and return are the shared daily move of its closes; a one-row history has change and return 0; otherwise the change is measured from the second-to-last close |
| StockReturns.WeekReturnReference | stock_bot_yfinance.py:115-120 | the week return is measured from the seventh close from the end when there are at least 7, and is 0 otherwise |
| StockReturns.MonthReturnReference | stock_bot_yfinance.py:122-127 | the month return is measured from the thirtieth close from the end when there are at least 30, and is 0 otherwise |
| StockReturns.YearReturnReference | stock_bot_yfinance.py:138-143 | the year return is measured from the oldest close when there are at least 252, and is 0 otherwise |
| StockReturns.YtdReferenceIsFirstOfYear | stock_bot_yfinance.py:129-136 | the year-to-date reference is the close of the first row dated in the current year, and is absent when no row is |
| StockReturns.YtdReturnReference | stock_bot_yfinance.py:129-136 | the YTD return is measured from the first row dated in the current year, and is 0 when no row is |
| StockReturns.RecentWindowDecides | stock_bot_yfinance.py:103-127 | rows prepended to a history of at least 30 closes change neither the current or previous close nor the week or month reference |
| StockReturns.YtdIgnoresOtherYears | stock_bot_yfinance.py:130-136 | rows of other years prepended to a history leave its YTD reference unchanged |
| StockReturns.PositiveClosesAreDefined | stock_bot_yfinance.py:118-141 | a history of positive closes makes all four unguarded divisions defined |
| StockReturns.YtdWindowIsSuffix | stock_bot_yfinance.py:129-136 | with ascending dates and the current row in the current year, the YTD rows are a suffix of the history and the reference is its first close |
| StockReturns.FiveSessionExample | stock_bot_yfinance.py:98-143 | on five closes 100, 105, 110, 118, 120 of the current year the change is 2, the week, month and year returns are 0 and the YTD return is 20 |
| MarketIndices.QuoteOf | stock_bot_yfinance.py:185-195 | an index has no quote exactly when its history is empty; otherwise its price is the last close, a one-close history has change and return 0, and otherwise the change added to the second-to-last close gives the price and the return recovers the price from that close when it is non-zero and is 0 when it is zero |
| MarketIndices.Indices | stock_bot_yfinance.py:176-232 | the dictionary holds only the three index keys, each exactly when that index's history is non-empty, with that index's quote |
| MarketIndices.IndexAndStockAgree | stock_bot_yfinance.py:186-189 | an index quote and a stock record built from the same closes agree on price, change and return |
| ExchangeRates.CrossRates | stock_bot_yfinance.py:69-74 | the dollar rate is the won quote; with a positive yen quote the won per 100 yen times the yen quote is 100 dollars in won, else 0; with a positive HKD quote the won per HKD times the HKD quote is one dollar in won, else 0 |
| ExchangeRates.ExchangeRatesOf | stock_bot_yfinance.py:63-80 | rates are returned exactly for HTTP status 200; the dollar rate is the table's won quote and a table without one gives all three rates 0; a positive yen quote times the won per 100 yen is 100 dollars in won, and a missing or non-positive yen quote gives 0; the same for the Hong Kong dollar without the factor 100 |
| ExchangeRates.PositiveQuotesGivePositiveRates | stock_bot_yfinance.py:73-74 | positive won, yen and HKD quotes give three positive rates |
| DailyReport.MarkerShowsDirection | stock_bot_yfinance.py:250 | the marker of a daily move is red exactly when there are at least two closes and the last is below the second-to-last |

## Left out

- Telegram sending (`send_telegram_message`): network I/O.
- The HTTP request and JSON decoding of `get_exchange_rates`: network I/O; the model takes the status code and the `usd` table as inputs. A response without a `usd` table, and every other exception, is not modelled.
- The `yf.Ticker(...).history(...)` calls: a foreign library; the histories are inputs to the model.
- The current year (`datetime.now().year`): a clock; it is an input.
- Formatting and rounding (`f"{x:+.2f}"`, `f"{x:,.0f}"`, `round(x, 2)`): they depend on floating-point formatting; the model returns the unformatted numbers.
- The text of the report assembled by `create_daily_report`, its loops over the watch lists and its `time.sleep` between fetches: presentation and process control. Stocks for which no data is returned are skipped there; that skipping is not modelled.
- DailyReport.MarkerOf: computed on the unformatted change, while the source reads the change back from its two-decimal text, so a change between -0.005 and 0 shows blue there and red here.
- StockReturns.StockInfoOf: requires every unguarded reference close to be non-zero, because floating-point division by zero (an infinity or NaN in the source) has no counterpart in real arithmetic.
- The blanket `except Exception` handlers, beyond the "no data" result for an empty history; partial results of `get_market_indices` after an exception are not modelled.
- Scheduling (`setup_schedule`), the polling loop, `input()` and the token checks at start-up: library glue and process control.
