/** `calcGatewayData`, in its two versions: the amount a payment gateway
    charges for an invoice, converted from the invoice currency to the
    gateway currency through the portal's exchange list.
    `MyfatoorahApiV2::calcGatewayData` rounds the converted amount to
    thousandths; `MyFatoorahPaymentEmbedded::calcGatewayData` rounds it up
    to hundredths (and formats it with `number_format`, which the model
    leaves out). Amounts are exact reals, not PHP doubles. */
module GatewayAmount {
  import opened Php
  import opened CurrencyList

  /** The `GatewayTotalAmount` and `GatewayCurrency` pair. */
  datatype GatewayData = GatewayData(totalAmount: real, currency: string)

  /** The value of the last entry for `code`, which is what a loop that
      assigns on every match leaves behind. */
  function LastRate(rates: seq<Rate>, code: string): (o: Option<real>)
    ensures o.None? <==> forall i :: 0 <= i < |rates| ==> rates[i].text != code
    ensures o.Some? ==> o.value in Values(rates)
    ensures o.Some? ==> LastIndexOf(rates, code).Some? && o.value == rates[LastIndexOf(rates, code).value].value
  {
    match LastIndexOf(rates, code)
    case None => None
    case Some(i) => Some(rates[i].value)
  }

  /** The loop of both versions: one pass over the list, remembering the
      value of every entry whose text is the invoice currency, and of every
      entry whose text is the gateway currency. */
  method LookupRates(allRates: seq<Rate>, currency: string, paymentCurrencyIso: string)
    returns (baseCurrencyRate: Option<real>, gatewayCurrencyRate: Option<real>)
    ensures baseCurrencyRate == LastRate(allRates, currency)
    ensures gatewayCurrencyRate == LastRate(allRates, paymentCurrencyIso)
  {
    baseCurrencyRate := None;
    gatewayCurrencyRate := None;
    for i := 0 to |allRates|
      invariant baseCurrencyRate == LastRate(allRates[..i], currency)
      invariant gatewayCurrencyRate == LastRate(allRates[..i], paymentCurrencyIso)
    {
      assert allRates[..i + 1][..i] == allRates[..i];
      if allRates[i].text == currency {
        baseCurrencyRate := Some(allRates[i].value);
      }
      if allRates[i].text == paymentCurrencyIso {
        gatewayCurrencyRate := Some(allRates[i].value);
      }
    }
    assert allRates[..|allRates|] == allRates;
  }

  /** `(int) ($totalAmount * 1000)`: the total in thousandths, truncated
      toward zero. */
  function Thousandths(totalAmount: real): (t: int)
    ensures 0.0 <= totalAmount ==> t as real <= totalAmount * 1000.0 < t as real + 1.0
    ensures totalAmount < 0.0 ==> t as real - 1.0 < totalAmount * 1000.0 <= t as real
  {
    TruncToInt(totalAmount * 1000.0)
  }

  predicate OnHundredths(x: real) {
    (x * 100.0).Floor as real == x * 100.0
  }

  predicate OnThousandths(x: real) {
    (x * 1000.0).Floor as real == x * 1000.0
  }

  /** `ceil(thousandths / baseRate / 10) / 100`: the total in the portal
      currency, rounded up to hundredths. */
  function BaseAmount(totalAmount: real, baseCurrencyRate: real): (b: real)
    requires baseCurrencyRate != 0.0
    ensures OnHundredths(b)
  {
    var c := Ceil(Thousandths(totalAmount) as real / baseCurrencyRate / 10.0);
    assert (c as real / 100.0) * 100.0 == c as real;
    c as real / 100.0
  }

  /** The base amount never falls below the exact conversion of the
      truncated total. */
  lemma BaseAmountCoversTotal(totalAmount: real, baseCurrencyRate: real)
    requires baseCurrencyRate != 0.0
    ensures BaseAmount(totalAmount, baseCurrencyRate) >= Thousandths(totalAmount) as real / baseCurrencyRate / 1000.0
  {
    var x := Thousandths(totalAmount) as real / baseCurrencyRate / 10.0;
    var c := Ceil(x);
    assert c as real / 100.0 >= x / 100.0;
    assert x / 100.0 == Thousandths(totalAmount) as real / baseCurrencyRate / 1000.0;
  }

  /** `ceil($x * 100) / 100`. */
  function CeilHundredths(x: real): (y: real)
    ensures x <= y < x + 0.01
    ensures OnHundredths(y)
  {
    var c := Ceil(x * 100.0);
    assert (c as real / 100.0) * 100.0 == c as real;
    c as real / 100.0
  }

  /** `round($x, 3)`. */
  function RoundThousandths(x: real): (y: real)
    ensures x - 0.0005 <= y <= x + 0.0005
    ensures OnThousandths(y)
  {
    var n := RoundHalfAwayFromZero(x * 1000.0);
    assert (n as real / 1000.0) * 1000.0 == n as real;
    n as real / 1000.0
  }

  /** The embedded-checkout amount once both rates are known:
      `ceil($baseAmount * $gatewayCurrencyRate * 100) / 100`. */
  function EmbeddedAmount(totalAmount: real, baseRate: real, gatewayRate: real): (a: real)
    requires baseRate != 0.0
    ensures OnHundredths(a)
  {
    CeilHundredths(BaseAmount(totalAmount, baseRate) * gatewayRate)
  }

  /** The `MyfatoorahApiV2` amount once both rates are known:
      `round($baseAmount * $gatewayCurrencyRate, 3)`. */
  function ApiAmount(totalAmount: real, baseRate: real, gatewayRate: real): (a: real)
    requires baseRate != 0.0
    ensures OnThousandths(a)
    ensures var exact := BaseAmount(totalAmount, baseRate) * gatewayRate;
            exact - 0.0005 <= a <= exact + 0.0005
  {
    RoundThousandths(BaseAmount(totalAmount, baseRate) * gatewayRate)
  }

  /** The embedded amount is never below the exact conversion of the
      truncated total, for a gateway rate that is not negative. */
  lemma EmbeddedAmountCoversTotal(totalAmount: real, baseRate: real, gatewayRate: real)
    requires baseRate != 0.0 && gatewayRate >= 0.0
    ensures EmbeddedAmount(totalAmount, baseRate, gatewayRate)
            >= Thousandths(totalAmount) as real / baseRate / 1000.0 * gatewayRate
  {
    var exact := Thousandths(totalAmount) as real / baseRate / 1000.0;
    var baseAmount := BaseAmount(totalAmount, baseRate);
    BaseAmountCoversTotal(totalAmount, baseRate);
    ScaleKeepsOrder(exact, baseAmount, gatewayRate);
  }

  lemma ScaleKeepsOrder(a: real, b: real, g: real)
    requires a <= b && g >= 0.0
    ensures a * g <= b * g
  {
  }

  /** The embedded-checkout gateway data: unchanged amount and currency
      when either currency is missing from the list; a division-by-zero
      engine error when the invoice currency's rate is 0; otherwise the
      gateway currency and the converted amount. */
  function EmbeddedGatewayData(totalAmount: real, currency: string, paymentCurrencyIso: string, allRates: seq<Rate>)
    : (r: Outcome<GatewayData>)
    ensures !r.Thrown?
    ensures LastRate(allRates, currency).None? || LastRate(allRates, paymentCurrencyIso).None? ==>
              r == Ok(GatewayData(totalAmount, currency))
    ensures var base, gateway := LastRate(allRates, currency), LastRate(allRates, paymentCurrencyIso);
            base.Some? && gateway.Some? ==>
              && (r.EngineError? <==> base.value == 0.0)
              && (r.Ok? ==> r.value == GatewayData(EmbeddedAmount(totalAmount, base.value, gateway.value), paymentCurrencyIso))
  {
    var base, gateway := LastRate(allRates, currency), LastRate(allRates, paymentCurrencyIso);
    if base.Some? && gateway.Some? then
      if base.value == 0.0 then EngineError
      else Ok(GatewayData(EmbeddedAmount(totalAmount, base.value, gateway.value), paymentCurrencyIso))
    else
      Ok(GatewayData(totalAmount, currency))
  }

  /** The gateway data of `MyfatoorahApiV2`: as above, with the amount
      rounded to the nearest thousandth. */
  function ApiGatewayData(totalAmount: real, currency: string, paymentCurrencyIso: string, allRates: seq<Rate>)
    : (r: Outcome<GatewayData>)
    ensures !r.Thrown?
    ensures LastRate(allRates, currency).None? || LastRate(allRates, paymentCurrencyIso).None? ==>
              r == Ok(GatewayData(totalAmount, currency))
    ensures var base, gateway := LastRate(allRates, currency), LastRate(allRates, paymentCurrencyIso);
            base.Some? && gateway.Some? ==>
              && (r.EngineError? <==> base.value == 0.0)
              && (r.Ok? ==> r.value == GatewayData(ApiAmount(totalAmount, base.value, gateway.value), paymentCurrencyIso))
  {
    var base, gateway := LastRate(allRates, currency), LastRate(allRates, paymentCurrencyIso);
    if base.Some? && gateway.Some? then
      if base.value == 0.0 then EngineError
      else Ok(GatewayData(ApiAmount(totalAmount, base.value, gateway.value), paymentCurrencyIso))
    else
      Ok(GatewayData(totalAmount, currency))
  }

  /** `MyFatoorahPaymentEmbedded::calcGatewayData`. */
  method CalcEmbeddedGatewayData(totalAmount: real, currency: string, paymentCurrencyIso: string, allRates: seq<Rate>)
    returns (r: Outcome<GatewayData>)
    ensures r == EmbeddedGatewayData(totalAmount, currency, paymentCurrencyIso, allRates)
  {
    var baseCurrencyRate, gatewayCurrencyRate := LookupRates(allRates, currency, paymentCurrencyIso);
    if baseCurrencyRate.Some? && gatewayCurrencyRate.Some? {
      if baseCurrencyRate.value == 0.0 {
        return EngineError;
      }
      var number := EmbeddedAmount(totalAmount, baseCurrencyRate.value, gatewayCurrencyRate.value);
      return Ok(GatewayData(number, paymentCurrencyIso));
    } else {
      return Ok(GatewayData(totalAmount, currency));
    }
  }

  /** `MyfatoorahApiV2::calcGatewayData`. */
  method CalcApiGatewayData(totalAmount: real, currency: string, paymentCurrencyIso: string, allRates: seq<Rate>)
    returns (r: Outcome<GatewayData>)
    ensures r == ApiGatewayData(totalAmount, currency, paymentCurrencyIso, allRates)
  {
    var baseCurrencyRate, gatewayCurrencyRate := LookupRates(allRates, currency, paymentCurrencyIso);
    if baseCurrencyRate.Some? && gatewayCurrencyRate.Some? {
      if baseCurrencyRate.value == 0.0 {
        return EngineError;
      }
      var amount := ApiAmount(totalAmount, baseCurrencyRate.value, gatewayCurrencyRate.value);
      return Ok(GatewayData(amount, paymentCurrencyIso));
    } else {
      return Ok(GatewayData(totalAmount, currency));
    }
  }

  // ---------------------------------------------------------------------
  // Worked cases
  // ---------------------------------------------------------------------

  /** The total is truncated to thousandths, not rounded, in both
      directions. */
  lemma TruncatedNotRounded()
    ensures Thousandths(1.2349) == 1234
    ensures Thousandths(-1.2349) == -1234
  {
  }

  /** Equal invoice and gateway currencies are still converted there and
      back: 10 KWD at a rate of 3 becomes 10.02 KWD. */
  lemma SameCurrencyStillConverts()
    ensures EmbeddedGatewayData(10.0, "KWD", "KWD", [Rate("KWD", 3.0)]) == Ok(GatewayData(10.02, "KWD"))
  {
    var rates := [Rate("KWD", 3.0)];
    assert LastRate(rates, "KWD") == Some(3.0);
    assert Thousandths(10.0) == 10000;
    assert Ceil(10000.0 / 3.0 / 10.0) == 334;
    assert BaseAmount(10.0, 3.0) == 3.34;
    assert Ceil(3.34 * 3.0 * 100.0) == 1002;
  }

  /** 100 in a currency of rate 0.3, paid through a gateway of rate 1.2:
      333.34 in the portal currency, 400.01 at the gateway. */
  lemma ConversionExample()
    ensures EmbeddedGatewayData(100.0, "AAA", "BBB", [Rate("AAA", 0.3), Rate("BBB", 1.2)])
            == Ok(GatewayData(400.01, "BBB"))
  {
    var rates := [Rate("AAA", 0.3), Rate("BBB", 1.2)];
    assert LastRate(rates, "AAA") == Some(0.3);
    assert LastRate(rates, "BBB") == Some(1.2);
    assert Thousandths(100.0) == 100000;
    assert Ceil(100000.0 / 0.3 / 10.0) == 33334;
    assert BaseAmount(100.0, 0.3) == 333.34;
    assert Ceil(333.34 * 1.2 * 100.0) == 40001;
  }

  /** A currency listed twice: the amount uses the later entry, while
      `getCurrencyRate` answers with the earlier one. */
  lemma LaterDuplicateWins()
    ensures LastRate([Rate("KWD", 1.0), Rate("KWD", 2.0)], "KWD") == Some(2.0)
    ensures GetCurrencyRate([Rate("KWD", 1.0), Rate("KWD", 2.0)], "KWD") == Ok(1.0)
  {
  }

  /** With one entry per currency, the loop finds exactly the rate
      `getCurrencyRate` reports. */
  lemma LastRateAgreesWithCurrencyRate(rates: seq<Rate>, code: string)
    requires forall i, j :: 0 <= i < j < |rates| && rates[i].text == code ==> rates[j].text != code
    ensures LastRate(rates, code).None? <==> GetCurrencyRate(rates, code).Thrown?
    ensures LastRate(rates, code).Some? ==> GetCurrencyRate(rates, code) == Ok(LastRate(rates, code).value)
  {
    FirstIsLastWhenUnique(rates, code);
  }
}
