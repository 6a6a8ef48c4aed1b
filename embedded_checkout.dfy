/** `MyFatoorahPaymentEmbedded`: the checkout buckets of the embedded
    payment page. `getCheckoutGateways` fetches the payment methods and the
    exchange list, attaches to every method the amount its gateway will
    charge, sorts the methods into buckets, keeps one Apple Pay gateway
    when the domain is registered, and memoises the buckets in a static
    field. The two fetches are parameters here. */
module EmbeddedCheckout {
  import opened Php
  import opened CurrencyList
  import opened GatewayAmount
  import opened Checkout

  // ---------------------------------------------------------------------
  // getOneApplePayGateway
  // ---------------------------------------------------------------------

  /** `array_search($currency, array_column($apGateways, 'PaymentCurrencyIso'))`:
      the position of the first gateway in that currency, or none. */
  function CurrencyIndex(apGateways: seq<Gateway>, currency: string): (o: Option<nat>)
    ensures o.None? <==> forall j :: 0 <= j < |apGateways| ==> apGateways[j].paymentCurrencyIso != currency
    ensures o.Some? ==> o.value < |apGateways| && apGateways[o.value].paymentCurrencyIso == currency
                        && forall j :: 0 <= j < o.value ==> apGateways[j].paymentCurrencyIso != currency
  {
    if apGateways == [] then None
    else if apGateways[0].paymentCurrencyIso == currency then Some(0)
    else
      match CurrencyIndex(apGateways[1..], currency)
      case None => None
      case Some(i) => Some(i + 1)
  }

  /** The portal's own currency, `$allRates[array_search('1', array_column($allRates, 'Value'))]->Text`:
      the first currency whose rate is 1; when there is none, `false` is
      used as the index and reads entry 0; an empty list gives null. */
  function BaseCurrency(allRates: seq<Rate>): (o: Option<string>)
    ensures allRates == [] <==> o.None?
    ensures o.Some? ==> exists i :: 0 <= i < |allRates| && allRates[i].text == o.value
    ensures (exists i :: 0 <= i < |allRates| && allRates[i].value == 1.0) ==>
              o.Some? && exists i :: 0 <= i < |allRates| && allRates[i].value == 1.0 && allRates[i].text == o.value
                                     && forall j :: 0 <= j < i ==> allRates[j].value != 1.0
    ensures allRates != [] && (forall i :: 0 <= i < |allRates| ==> allRates[i].value != 1.0) ==>
              o == Some(allRates[0].text)
  {
    if allRates == [] then None
    else
      var k := FirstWithValue(allRates, 1.0);
      if k < |allRates| then Some(allRates[k].text) else Some(allRates[0].text)
  }

  function FirstWithValue(allRates: seq<Rate>, value: real): (k: nat)
    ensures k <= |allRates|
    ensures k < |allRates| ==> allRates[k].value == value
    ensures forall j :: 0 <= j < k ==> allRates[j].value != value
  {
    if allRates == [] then 0
    else if allRates[0].value == value then 0
    else 1 + FirstWithValue(allRates[1..], value)
  }

  /** A search result PHP treats as found: an index that is not 0. */
  predicate TruthyIndex(o: Option<nat>) {
    o.Some? && o.value != 0
  }

  /** `getOneApplePayGateway`: the first gateway in the display currency,
      then the first in the portal currency, then the first gateway, then
      `[]`; a currency match at position 0 counts as not found. */
  function GetOneApplePayGateway(apGateways: seq<Gateway>, displayCurrency: string, allRates: seq<Rate>): (r: ApSlot)
    ensures apGateways == [] <==> r == ApList([])
    ensures apGateways != [] ==> r.ApOne? && r.gateway in apGateways
  {
    var displayCurrencyIndex := CurrencyIndex(apGateways, displayCurrency);
    if TruthyIndex(displayCurrencyIndex) then ApOne(apGateways[displayCurrencyIndex.value])
    else
      var defaultCurrency := BaseCurrency(allRates);
      var defaultCurrencyIndex := if defaultCurrency.Some? then CurrencyIndex(apGateways, defaultCurrency.value) else None;
      if TruthyIndex(defaultCurrencyIndex) then ApOne(apGateways[defaultCurrencyIndex.value])
      else if apGateways != [] then ApOne(apGateways[0])
      else ApList([])
  }

  /** When the first gateway is not in the display currency, the first
      gateway in the display currency wins. */
  lemma DisplayCurrencyPreferred(apGateways: seq<Gateway>, displayCurrency: string, allRates: seq<Rate>, j: nat)
    requires j < |apGateways| && apGateways[j].paymentCurrencyIso == displayCurrency
    requires apGateways[0].paymentCurrencyIso != displayCurrency
    ensures CurrencyIndex(apGateways, displayCurrency).Some?
    ensures GetOneApplePayGateway(apGateways, displayCurrency, allRates)
            == ApOne(apGateways[CurrencyIndex(apGateways, displayCurrency).value])
    ensures GetOneApplePayGateway(apGateways, displayCurrency, allRates).gateway.paymentCurrencyIso == displayCurrency
  {
  }

  /** When the display currency finds nothing truthy (no gateway is in it,
      or the first one is) and the first gateway is not in the portal
      currency, the first gateway in the portal currency wins. */
  lemma BaseCurrencyNext(apGateways: seq<Gateway>, displayCurrency: string, allRates: seq<Rate>, j: nat)
    requires !TruthyIndex(CurrencyIndex(apGateways, displayCurrency))
    requires BaseCurrency(allRates).Some?
    requires j < |apGateways| && apGateways[j].paymentCurrencyIso == BaseCurrency(allRates).value
    requires apGateways[0].paymentCurrencyIso != BaseCurrency(allRates).value
    ensures CurrencyIndex(apGateways, BaseCurrency(allRates).value).Some?
    ensures GetOneApplePayGateway(apGateways, displayCurrency, allRates)
            == ApOne(apGateways[CurrencyIndex(apGateways, BaseCurrency(allRates).value).value])
    ensures GetOneApplePayGateway(apGateways, displayCurrency, allRates).gateway.paymentCurrencyIso
            == BaseCurrency(allRates).value
  {
  }

  /** `array_search` finds nothing truthy exactly when no gateway is in the
      currency or the first one is. */
  lemma NothingTruthyFound(apGateways: seq<Gateway>, currency: string)
    ensures !TruthyIndex(CurrencyIndex(apGateways, currency)) <==>
              || (apGateways != [] && apGateways[0].paymentCurrencyIso == currency)
              || forall i :: 0 <= i < |apGateways| ==> apGateways[i].paymentCurrencyIso != currency
  {
  }

  /** When neither the display currency nor the portal currency finds
      anything truthy (no gateway is in it, or the first one is), the first
      gateway is chosen. */
  lemma FirstGatewayFallback(apGateways: seq<Gateway>, displayCurrency: string, allRates: seq<Rate>)
    requires apGateways != []
    requires || apGateways[0].paymentCurrencyIso == displayCurrency
             || forall i :: 0 <= i < |apGateways| ==> apGateways[i].paymentCurrencyIso != displayCurrency
    requires || BaseCurrency(allRates).None?
             || apGateways[0].paymentCurrencyIso == BaseCurrency(allRates).value
             || forall i :: 0 <= i < |apGateways| ==> apGateways[i].paymentCurrencyIso != BaseCurrency(allRates).value
    ensures GetOneApplePayGateway(apGateways, displayCurrency, allRates) == ApOne(apGateways[0])
  {
    assert !TruthyIndex(CurrencyIndex(apGateways, displayCurrency));
    if BaseCurrency(allRates).Some? {
      assert !TruthyIndex(CurrencyIndex(apGateways, BaseCurrency(allRates).value));
    }
  }

  /** A display currency shared by the first gateway and a later one finds
      position 0, which is falsy: with gateways in KWD, KWD and SAR, a KWD
      invoice and a portal in SAR, the SAR gateway is chosen. */
  lemma RepeatedDisplayCurrencyFallsThrough(kwd1: Gateway, kwd2: Gateway, sar: Gateway)
    requires kwd1.paymentCurrencyIso == "KWD" && kwd2.paymentCurrencyIso == "KWD" && sar.paymentCurrencyIso == "SAR"
    ensures GetOneApplePayGateway([kwd1, kwd2, sar], "KWD", [Rate("SAR", 1.0)]) == ApOne(sar)
  {
    BaseCurrencyNext([kwd1, kwd2, sar], "KWD", [Rate("SAR", 1.0)], 2);
    assert CurrencyIndex([kwd2, sar], "SAR") == Some(1) by {
      assert [kwd2, sar][1..] == [sar];
    }
  }

  /** A match at position 0 is not seen: with Apple Pay gateways in KWD and
      in SAR, a KWD invoice and a portal in SAR, the SAR gateway is chosen. */
  lemma FirstPositionMatchIgnored(kwd: Gateway, sar: Gateway)
    requires kwd.paymentCurrencyIso == "KWD" && sar.paymentCurrencyIso == "SAR"
    ensures GetOneApplePayGateway([kwd, sar], "KWD", [Rate("SAR", 1.0), Rate("KWD", 0.3)]) == ApOne(sar)
  {
    var ap := [kwd, sar];
    assert CurrencyIndex(ap, "KWD") == Some(0);
    assert FirstWithValue([Rate("SAR", 1.0), Rate("KWD", 0.3)], 1.0) == 0;
    assert CurrencyIndex(ap, "SAR") == Some(1);
  }

  // ---------------------------------------------------------------------
  // The gateway data of each fetched method
  // ---------------------------------------------------------------------

  /** How far the loop gets: the methods that received their
      `GatewayData`, and whether the next one ended the call with a
      division by zero. */
  datatype Enrichment = Enrichment(done: seq<Gateway>, failed: bool)

  function DataOf(g: Gateway, allRates: seq<Rate>): Outcome<GatewayData> {
    EmbeddedGatewayData(g.totalAmount, g.currencyIso, g.paymentCurrencyIso, allRates)
  }

  /** Each method in turn receives `calcGatewayData`'s result, until one
      rate of 0 stops the call. */
  function Enrich(gateways: seq<Gateway>, allRates: seq<Rate>): (e: Enrichment)
    ensures |e.done| <= |gateways|
    ensures forall i :: 0 <= i < |e.done| ==>
              DataOf(gateways[i], allRates).Ok? && e.done[i] == gateways[i].(gatewayData := Some(DataOf(gateways[i], allRates).value))
    ensures e.failed <==> |e.done| < |gateways|
    ensures e.failed ==> DataOf(gateways[|e.done|], allRates).EngineError?
  {
    if gateways == [] then Enrichment([], false)
    else
      var init, last := gateways[..|gateways| - 1], gateways[|gateways| - 1];
      var e := Enrich(init, allRates);
      assert forall i :: 0 <= i < |init| ==> init[i] == gateways[i];
      if e.failed then e
      else
        var data := DataOf(last, allRates);
        if data.Ok? then Enrichment(e.done + [last.(gatewayData := Some(data.value))], false)
        else Enrichment(e.done, true)
  }

  /** The buckets as stored while the loop runs: `ap` still a list. */
  function AsStored(b: Buckets): CheckoutGateways {
    CheckoutGateways(b.all, b.cards, b.form, ApList(b.ap))
  }

  /** The four buckets of a list, each its own selection. */
  lemma CategorizeIsSelect(gateways: seq<Gateway>, isAppleRegistered: bool)
    ensures Categorize(gateways, isAppleRegistered) ==
              Buckets(Select(gateways, isAppleRegistered, All), Select(gateways, isAppleRegistered, Cards),
                      Select(gateways, isAppleRegistered, Form), if isAppleRegistered then Select(gateways, true, Ap) else [])
  {
    CategorizeSelects(gateways, isAppleRegistered, All);
    CategorizeSelects(gateways, isAppleRegistered, Cards);
    CategorizeSelects(gateways, isAppleRegistered, Form);
    CategorizeSelects(gateways, isAppleRegistered, Ap);
    if !isAppleRegistered {
      UnregisteredHasNoApBucket(gateways);
    }
  }

  /** The buckets a completed call stores and returns. */
  function Filled(gateways: seq<Gateway>, displayCurrencyIso: string, isAppleRegistered: bool, allRates: seq<Rate>)
    : (r: CheckoutGateways)
    ensures var done := Enrich(gateways, allRates).done;
            && r.all == Select(done, isAppleRegistered, All)
            && r.cards == Select(done, isAppleRegistered, Cards)
            && r.form == Select(done, isAppleRegistered, Form)
            && r.ap == if isAppleRegistered then GetOneApplePayGateway(Select(done, true, Ap), displayCurrencyIso, allRates)
                       else ApList([])
  {
    var done := Enrich(gateways, allRates).done;
    CategorizeIsSelect(done, isAppleRegistered);
    var b := Categorize(Enrich(gateways, allRates).done, isAppleRegistered);
    if isAppleRegistered then CheckoutGateways(b.all, b.cards, b.form, GetOneApplePayGateway(b.ap, displayCurrencyIso, allRates))
    else AsStored(b)
  }

  function Failure<T>(o: Outcome<T>): (r: Outcome<CheckoutGateways>)
    requires !o.Ok?
    ensures !r.Ok? && r.Thrown? == o.Thrown?
  {
    if o.Thrown? then Thrown(o.message) else EngineError
  }

  // ---------------------------------------------------------------------
  // getCheckoutGateways and its static cache
  // ---------------------------------------------------------------------

  /** The state `getCheckoutGateways` keeps between calls. */
  class MyFatoorahPaymentEmbedded {
    /** `self::$checkoutGateways`: none while it is still null. Once set it
        is an array with four keys, which `empty` never considers empty. */
    var checkoutGateways: Option<CheckoutGateways>

    constructor()
      ensures checkoutGateways.None?
    {
      checkoutGateways := None;
    }

    /** `getCheckoutGateways`: the stored buckets if there are any;
        otherwise the methods and rates are fetched (`initiatePayment`,
        `getCurrencyRates`), each method receives its `GatewayData` and is
        placed, the field being rewritten at every step, and with Apple Pay
        registration the `ap` list is cut down to one gateway. */
    method GetCheckoutGateways(invoiceValue: real, displayCurrencyIso: string, isAppleRegistered: bool,
                               initiatePayment: (real, string) -> Outcome<seq<Gateway>>,
                               currencyRates: Outcome<seq<Rate>>)
      returns (r: Outcome<CheckoutGateways>)
      modifies this
      ensures old(checkoutGateways).Some? ==> r == Ok(old(checkoutGateways).value) && checkoutGateways == old(checkoutGateways)
      ensures old(checkoutGateways).None? && !initiatePayment(invoiceValue, displayCurrencyIso).Ok? ==>
                r == Failure(initiatePayment(invoiceValue, displayCurrencyIso)) && checkoutGateways.None?
      ensures old(checkoutGateways).None? && initiatePayment(invoiceValue, displayCurrencyIso).Ok? && !currencyRates.Ok? ==>
                r == Failure(currencyRates) && checkoutGateways.None?
      ensures old(checkoutGateways).None? && initiatePayment(invoiceValue, displayCurrencyIso).Ok? && currencyRates.Ok? ==>
                var gateways, allRates := initiatePayment(invoiceValue, displayCurrencyIso).value, currencyRates.value;
                var e := Enrich(gateways, allRates);
                && (e.failed ==> r == EngineError && checkoutGateways == Some(AsStored(Categorize(e.done, isAppleRegistered))))
                && (!e.failed ==> r == Ok(Filled(gateways, displayCurrencyIso, isAppleRegistered, allRates))
                                  && checkoutGateways == Some(r.value))
    {
      if checkoutGateways.Some? {
        return Ok(checkoutGateways.value);
      }
      var fetched := initiatePayment(invoiceValue, displayCurrencyIso);
      if !fetched.Ok? {
        return Failure(fetched);
      }
      var gateways := fetched.value;
      if !currencyRates.Ok? {
        return Failure(currencyRates);
      }
      var allRates := currencyRates.value;
      var buckets := NoBuckets;
      checkoutGateways := Some(AsStored(buckets));
      for i := 0 to |gateways|
        invariant !Enrich(gateways[..i], allRates).failed
        invariant buckets == Categorize(Enrich(gateways[..i], allRates).done, isAppleRegistered)
        invariant checkoutGateways == Some(AsStored(buckets))
      {
        var g := gateways[i];
        var data := CalcEmbeddedGatewayData(g.totalAmount, g.currencyIso, g.paymentCurrencyIso, allRates);
        if data.EngineError? {
          EnrichStopsAt(gateways, allRates, i);
          return EngineError;
        }
        EnrichStep(gateways, allRates, i);
        CategorizeSnoc(Enrich(gateways[..i], allRates).done, g.(gatewayData := Some(data.value)), isAppleRegistered);
        buckets := AddGatewayToCheckoutGateways(g.(gatewayData := Some(data.value)), buckets, isAppleRegistered);
        checkoutGateways := Some(AsStored(buckets));
      }
      assert gateways[..|gateways|] == gateways;
      if isAppleRegistered {
        checkoutGateways := Some(CheckoutGateways(buckets.all, buckets.cards, buckets.form,
                                                  GetOneApplePayGateway(buckets.ap, displayCurrencyIso, allRates)));
      }
      return Ok(checkoutGateways.value);
    }
  }

  /** A method that receives its data extends a clean prefix by one. */
  lemma EnrichStep(gateways: seq<Gateway>, allRates: seq<Rate>, i: nat)
    requires i < |gateways| && !Enrich(gateways[..i], allRates).failed
    requires DataOf(gateways[i], allRates).Ok?
    ensures Enrich(gateways[..i + 1], allRates)
            == Enrichment(Enrich(gateways[..i], allRates).done
                          + [gateways[i].(gatewayData := Some(DataOf(gateways[i], allRates).value))], false)
  {
    assert gateways[..i + 1][..i] == gateways[..i] && gateways[..i + 1][i] == gateways[i];
  }

  /** A failure after a clean prefix is where the whole enrichment stops. */
  lemma {:induction false} EnrichStopsAt(gateways: seq<Gateway>, allRates: seq<Rate>, i: nat)
    requires i < |gateways| && !Enrich(gateways[..i], allRates).failed
    requires DataOf(gateways[i], allRates).EngineError?
    ensures Enrich(gateways, allRates) == Enrichment(Enrich(gateways[..i], allRates).done, true)
    decreases |gateways|
  {
    if i < |gateways| - 1 {
      var init := gateways[..|gateways| - 1];
      assert init[..i] == gateways[..i] && init[i] == gateways[i];
      EnrichStopsAt(init, allRates, i);
    } else {
      assert gateways[..|gateways| - 1] == gateways[..i];
    }
  }

  // ---------------------------------------------------------------------
  // What the buckets guarantee
  // ---------------------------------------------------------------------

  /** Every gateway shown carries the amount its gateway charges. */
  lemma ListedGatewaysCarryData(gateways: seq<Gateway>, displayCurrencyIso: string, isAppleRegistered: bool,
                                allRates: seq<Rate>, g: Gateway)
    requires g in Filled(gateways, displayCurrencyIso, isAppleRegistered, allRates).all
    ensures g.gatewayData.Some?
    ensures DataOf(g, allRates) == Ok(g.gatewayData.value)
  {
    var done := Enrich(gateways, allRates).done;
    CategorizeSelects(done, isAppleRegistered, All);
    var i :| 0 <= i < |done| && done[i] == g;
  }

  /** Without Apple Pay registration the `ap` entry is the collected list,
      which is empty. */
  lemma UnregisteredApEmpty(gateways: seq<Gateway>, displayCurrencyIso: string, allRates: seq<Rate>)
    ensures Filled(gateways, displayCurrencyIso, false, allRates).ap == ApList([])
  {
    UnregisteredHasNoApBucket(Enrich(gateways, allRates).done);
  }

  /** With registration the `ap` entry is one Apple Pay gateway, or `[]`
      when there is none. */
  lemma RegisteredApIsOne(gateways: seq<Gateway>, displayCurrencyIso: string, allRates: seq<Rate>)
    ensures var slot := Filled(gateways, displayCurrencyIso, true, allRates).ap;
            slot == ApList([]) || (slot.ApOne? && slot.gateway.paymentMethodCode == ApplePayCode)
  {
    var done := Enrich(gateways, allRates).done;
    CategorizeSelects(done, true, Ap);
  }
}
