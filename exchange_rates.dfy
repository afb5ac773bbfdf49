/**
 * `get_exchange_rates`: the won per dollar, per 100 yen and per Hong Kong dollar,
 * computed from the provider's table of rates quoted per US dollar.
 */
module ExchangeRates {
  import opened Wrappers

  datatype Rates = Rates(usdKrw: real, jpyKrw: real, hkdKrw: real)

  /** `data['usd'].get(code, 0)`: the rate per dollar, 0 when the table lacks it. */
  function RateOrZero(usd: map<string, real>, code: string): real
  {
    if code in usd then usd[code] else 0.0
  }

  /**
   * The cross rates: won per 100 yen when the yen rate is positive, won per
   * Hong Kong dollar when that rate is positive, 0 otherwise.
   */
  function CrossRates(usd: map<string, real>): (r: Rates)
    ensures r.usdKrw == RateOrZero(usd, "krw")
    ensures RateOrZero(usd, "jpy") > 0.0 ==> r.jpyKrw * RateOrZero(usd, "jpy") == 100.0 * r.usdKrw
    ensures RateOrZero(usd, "jpy") <= 0.0 ==> r.jpyKrw == 0.0
    ensures RateOrZero(usd, "hkd") > 0.0 ==> r.hkdKrw * RateOrZero(usd, "hkd") == r.usdKrw
    ensures RateOrZero(usd, "hkd") <= 0.0 ==> r.hkdKrw == 0.0
  {
    var usdKrw := RateOrZero(usd, "krw");
    var jpy := RateOrZero(usd, "jpy");
    var hkd := RateOrZero(usd, "hkd");
    Rates(
      usdKrw,
      if jpy > 0.0 then usdKrw / jpy * 100.0 else 0.0,
      if hkd > 0.0 then usdKrw / hkd else 0.0)
  }

  /** The rates for a response: present only for HTTP status 200. */
  function ExchangeRatesOf(statusCode: int, usd: map<string, real>): (r: Option<Rates>)
    ensures r.Some? <==> statusCode == 200
    ensures r.Some? && "krw" in usd ==> r.value.usdKrw == usd["krw"]
    ensures r.Some? && "krw" !in usd ==> r.value == Rates(0.0, 0.0, 0.0)
    ensures r.Some? && "jpy" in usd && usd["jpy"] > 0.0 ==> r.value.jpyKrw * usd["jpy"] == 100.0 * r.value.usdKrw
    ensures r.Some? && ("jpy" !in usd || usd["jpy"] <= 0.0) ==> r.value.jpyKrw == 0.0
    ensures r.Some? && "hkd" in usd && usd["hkd"] > 0.0 ==> r.value.hkdKrw * usd["hkd"] == r.value.usdKrw
    ensures r.Some? && ("hkd" !in usd || usd["hkd"] <= 0.0) ==> r.value.hkdKrw == 0.0
  {
    if statusCode == 200 then Some(CrossRates(usd)) else None
  }

  /** With positive quotes for all three currencies, every cross rate is positive. */
  lemma PositiveQuotesGivePositiveRates(usd: map<string, real>)
    requires "krw" in usd && "jpy" in usd && "hkd" in usd
    requires usd["krw"] > 0.0 && usd["jpy"] > 0.0 && usd["hkd"] > 0.0
    ensures CrossRates(usd).usdKrw > 0.0 && CrossRates(usd).jpyKrw > 0.0 && CrossRates(usd).hkdKrw > 0.0
  {
  }
}
