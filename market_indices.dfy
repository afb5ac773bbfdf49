/**
 * `get_market_indices`: the KOSPI, S&P 500 and Hang Seng quotes, each built from
 * its five-day closes with the shared daily-change rule and present in the
 * result only when its history is non-empty.
 */
module MarketIndices {
  import opened Wrappers
  import opened PriceHistory
  import opened DailyChange
  import StockReturns

  /** One index entry, with the numbers unformatted. */
  datatype IndexQuote = IndexQuote(price: real, change: real, rate: real)

  /** The quote for one index's closes, or none when the history is empty. */
  function QuoteOf(closes: seq<real>): (q: Option<IndexQuote>)
    ensures q.None? <==> closes == []
    ensures q.Some? ==> q.value.price == closes[|closes| - 1]
    ensures |closes| == 1 ==> q.value.change == 0.0 && q.value.rate == 0.0
    ensures |closes| > 1 ==> closes[|closes| - 2] + q.value.change == q.value.price
    ensures |closes| > 1 && closes[|closes| - 2] != 0.0 ==>
      closes[|closes| - 2] + q.value.rate * closes[|closes| - 2] / 100.0 == q.value.price
    ensures |closes| > 1 && closes[|closes| - 2] == 0.0 ==> q.value.rate == 0.0
  {
    if closes == [] then None
    else
      var move := DailyMove(closes);
      Some(IndexQuote(Current(closes), move.change, move.rate))
  }

  /** The keys of the `indices` dictionary, one per index. */
  const Kospi := "kospi"
  const Sp500 := "sp500"
  const Hsi := "hsi"

  /** The `indices` dictionary that the three fetches fill in. */
  function Indices(kospi: seq<real>, sp500: seq<real>, hsi: seq<real>): (m: map<string, IndexQuote>)
    ensures m.Keys <= {Kospi, Sp500, Hsi}
    ensures Kospi in m <==> kospi != []
    ensures Sp500 in m <==> sp500 != []
    ensures Hsi in m <==> hsi != []
    ensures Kospi in m ==> Some(m[Kospi]) == QuoteOf(kospi)
    ensures Sp500 in m ==> Some(m[Sp500]) == QuoteOf(sp500)
    ensures Hsi in m ==> Some(m[Hsi]) == QuoteOf(hsi)
  {
    var withKospi := if kospi != [] then map[Kospi := QuoteOf(kospi).value] else map[];
    var withSp500 := if sp500 != [] then withKospi[Sp500 := QuoteOf(sp500).value] else withKospi;
    if hsi != [] then withSp500[Hsi := QuoteOf(hsi).value] else withSp500
  }

  /**
   * The one daily-change rule: an index quote and a stock record built from the
   * same closes report the same price, change and return.
   */
  lemma IndexAndStockAgree(name: string, market: string, h: History, currentYear: int)
    requires h != [] && StockReturns.DefinedReferences(h, currentYear)
    ensures var info := StockReturns.StockInfoOf(name, market, h, currentYear).value;
      QuoteOf(Closes(h)) == Some(IndexQuote(info.price, info.change, info.rate))
  {
    StockReturns.DailyFieldsOfStock(name, market, h, currentYear);
  }
}
