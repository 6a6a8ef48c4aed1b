/** `MyFatoorahList::getCurrencyRate` (and its twin in `MyfatoorahApiV2`):
    the exchange rate of a currency, looked up in the portal's rate list.
    The list, fetched from the GetCurrenciesExchangeList endpoint, is a
    parameter here. */
module CurrencyList {
  import opened Php

  /** One entry of the exchange list: its `Text` (the currency code) and its
      `Value` (units of that currency per unit of the portal's currency). */
  datatype Rate = Rate(text: string, value: real)

  const UnsupportedCurrencyMessage: string := "The selected currency is not supported by MyFatoorah"

  /** The position of the first entry for `code`, or `|rates|` if none. */
  function FirstIndexOf(rates: seq<Rate>, code: string): (i: nat)
    ensures i <= |rates|
    ensures i < |rates| ==> rates[i].text == code
    ensures forall j :: 0 <= j < i ==> rates[j].text != code
  {
    if rates == [] then 0
    else if rates[0].text == code then 0
    else 1 + FirstIndexOf(rates[1..], code)
  }

  /** The values of the list, in order. */
  function Values(rates: seq<Rate>): (vs: seq<real>)
    ensures |vs| == |rates| && forall i :: 0 <= i < |rates| ==> vs[i] == rates[i].value
  {
    seq(|rates|, i requires 0 <= i < |rates| => rates[i].value)
  }

  /** `getCurrencyRate`: the value of the first entry whose text equals the
      currency exactly; the exception when there is none. */
  function GetCurrencyRate(rates: seq<Rate>, currency: string): (r: Outcome<real>)
    ensures !r.EngineError?
    ensures r.Thrown? <==> forall i :: 0 <= i < |rates| ==> rates[i].text != currency
    ensures r.Thrown? ==> r.message == UnsupportedCurrencyMessage
    ensures r.Ok? ==> r.value in Values(rates)
    ensures r.Ok? ==> r.value == rates[FirstIndexOf(rates, currency)].value
  {
    if rates == [] then Thrown(UnsupportedCurrencyMessage)
    else if rates[0].text == currency then Ok(rates[0].value)
    else
      var r := GetCurrencyRate(rates[1..], currency);
      assert forall i :: 0 <= i < |rates| - 1 ==> rates[1..][i] == rates[i + 1];
      assert r.Ok? ==> Values(rates)[FirstIndexOf(rates, currency)] == r.value;
      r
  }

  /** The `foreach` with early return of both `getCurrencyRate` methods. */
  method FindCurrencyRate(rates: seq<Rate>, currency: string) returns (r: Outcome<real>)
    ensures r == GetCurrencyRate(rates, currency)
  {
    for i := 0 to |rates|
      invariant forall j :: 0 <= j < i ==> rates[j].text != currency
    {
      if rates[i].text == currency {
        assert FirstIndexOf(rates, currency) == i;
        return Ok(rates[i].value);
      }
    }
    return Thrown(UnsupportedCurrencyMessage);
  }

  /** The position of the last entry for `code`, or none. */
  function LastIndexOf(rates: seq<Rate>, code: string): (o: Option<nat>)
    ensures o.Some? ==> o.value < |rates| && rates[o.value].text == code
    ensures o.Some? ==> forall j :: o.value < j < |rates| ==> rates[j].text != code
    ensures o.None? ==> forall j :: 0 <= j < |rates| ==> rates[j].text != code
  {
    if rates == [] then None
    else if rates[|rates| - 1].text == code then Some(|rates| - 1)
    else LastIndexOf(rates[..|rates| - 1], code)
  }

  /** With a single entry per currency, the first and the last match are
      the same entry. */
  lemma FirstIsLastWhenUnique(rates: seq<Rate>, code: string)
    requires forall i, j :: 0 <= i < j < |rates| && rates[i].text == code ==> rates[j].text != code
    ensures LastIndexOf(rates, code).None? <==> FirstIndexOf(rates, code) == |rates|
    ensures LastIndexOf(rates, code).Some? ==> LastIndexOf(rates, code).value == FirstIndexOf(rates, code)
  {
    var f := FirstIndexOf(rates, code);
    var l := LastIndexOf(rates, code);
    if l.Some? {
      assert f <= l.value;
    }
  }

  /** Matching is exact: "kwd" does not find "KWD". */
  lemma NoCaseFolding()
    ensures GetCurrencyRate([Rate("KWD", 1.0)], "kwd") == Thrown(UnsupportedCurrencyMessage)
  {
  }
}
