/** `MyFatoorahPayment::getInvoiceURL` and the three requests it chooses
    between: how an invoice's payment link is obtained. The customer e-mail
    is normalised, one of `ExecutePayment` with a session (the embedded
    form), `SendPayment` (an invoice link) or `ExecutePayment` with a
    gateway is chosen, one field of the request is stamped, the request is
    sent, and the link and the invoice id are read from the response. The
    HTTP exchange (`callAPI`) is a parameter from endpoint and request to
    the decoded response or the exception; the log lines are not
    modelled. */
module InvoiceDispatch {
  import opened Php

  /** An invoice request: the fields `curlData` holds. */
  type Request = map<string, Json>

  /** One call of `callAPI`: the endpoint URL and the request sent to it. */
  datatype Sent = Sent(url: string, request: Request)

  /** `['invoiceURL' => …, 'invoiceId' => …]`. */
  datatype InvoiceLink = InvoiceLink(invoiceURL: Json, invoiceId: Json)

  /** The three requests `getInvoiceURL` can make. */
  datatype Route = EmbeddedPayment | SendPayment | ExcutePayment

  const CustomerEmailKey: string := "CustomerEmail"

  /** `empty($x)` for a value that may be missing: null, `false`, 0, `""`,
      `"0"` and `[]` are empty; so is a missing key. */
  predicate EmptyField(request: Request, key: string) {
    key !in request || !Truthy(request[key])
  }

  /** `$curlData['CustomerEmail'] = empty(…) ? null : …`: an empty or
      missing e-mail becomes an explicit null. */
  function NormaliseEmail(curlData: Request): (r: Request)
    ensures r.Keys == curlData.Keys + {CustomerEmailKey}
    ensures EmptyField(curlData, CustomerEmailKey) <==> r[CustomerEmailKey] == JNull
    ensures !EmptyField(curlData, CustomerEmailKey) ==> r[CustomerEmailKey] == curlData[CustomerEmailKey]
    ensures forall k :: k in curlData && k != CustomerEmailKey ==> r[k] == curlData[k]
  {
    curlData[CustomerEmailKey := if EmptyField(curlData, CustomerEmailKey) then JNull else curlData[CustomerEmailKey]]
  }

  /** The choice of request: a non-empty session id wins; then a gateway id
      that is `'myfatoorah'` or empty sends an invoice link; any other
      gateway id executes the payment on that gateway. */
  function RouteFor(gatewayId: Json, sessionId: Json): (route: Route)
    ensures Truthy(sessionId) <==> route == EmbeddedPayment
    ensures !Truthy(sessionId) ==>
              (route == SendPayment <==> gatewayId == JStr("myfatoorah") || !Truthy(gatewayId))
  {
    if Truthy(sessionId) then EmbeddedPayment
    else if gatewayId == JStr("myfatoorah") || !Truthy(gatewayId) then SendPayment
    else ExcutePayment
  }

  function Endpoint(apiURL: string, route: Route): string {
    if route == SendPayment then apiURL + "/v2/SendPayment" else apiURL + "/v2/ExecutePayment"
  }

  /** The field each request stamps, with its value. */
  function StampedKey(route: Route): string {
    match route
    case EmbeddedPayment => "SessionId"
    case SendPayment => "NotificationOption"
    case ExcutePayment => "PaymentMethodId"
  }

  function StampedValue(route: Route, gatewayId: Json, sessionId: Json, notificationOption: string): Json {
    match route
    case EmbeddedPayment => sessionId
    case SendPayment => JStr(notificationOption)
    case ExcutePayment => gatewayId
  }

  /** The response field that holds the link. */
  function UrlField(route: Route): string {
    if route == SendPayment then "InvoiceURL" else "PaymentURL"
  }

  /** The request `getInvoiceURL` sends for these arguments. */
  function DispatchedRequest(apiURL: string, curlData: Request, gatewayId: Json, sessionId: Json, notificationOption: string)
    : (s: Sent)
    ensures var route := RouteFor(gatewayId, sessionId);
            && s.url == Endpoint(apiURL, route)
            && s.request.Keys == curlData.Keys + {CustomerEmailKey, StampedKey(route)}
            && s.request[StampedKey(route)] == StampedValue(route, gatewayId, sessionId, notificationOption)
            && forall k :: k in curlData && k != CustomerEmailKey && k != StampedKey(route) ==> s.request[k] == curlData[k]
  {
    var route := RouteFor(gatewayId, sessionId);
    var data := NormaliseEmail(curlData);
    Sent(Endpoint(apiURL, route), data[StampedKey(route) := StampedValue(route, gatewayId, sessionId, notificationOption)])
  }

  /** `['invoiceURL' => $json->Data->…URL, 'invoiceId' => $json->Data->InvoiceId]`,
      or the exception of the call. */
  function ReadLink(response: Outcome<Json>, urlField: string): (r: Outcome<InvoiceLink>)
    ensures !response.Ok? ==> r == (if response.Thrown? then Thrown(response.message) else EngineError)
    ensures response.Ok? ==> r.Ok? && r.value.invoiceId == Prop(Prop(response.value, "Data"), "InvoiceId")
                             && r.value.invoiceURL == Prop(Prop(response.value, "Data"), urlField)
  {
    match response
    case Ok(json) => Ok(InvoiceLink(Prop(Prop(json, "Data"), urlField), Prop(Prop(json, "Data"), "InvoiceId")))
    case Thrown(message) => Thrown(message)
    case EngineError => EngineError
  }

  /** A client as `getInvoiceURL` uses it: its base URL and, as a record of
      the exchange, the requests it has sent. */
  class MyFatoorahPayment {
    const apiURL: string
    ghost var sent: seq<Sent>

    constructor(apiURL: string)
      ensures this.apiURL == apiURL && sent == []
    {
      this.apiURL := apiURL;
      sent := [];
    }

    /** `callAPI`: one request sent, the decoded response or the exception
        returned. */
    method CallApi(url: string, request: Request, callApi: (string, Request) -> Outcome<Json>) returns (r: Outcome<Json>)
      modifies this
      ensures sent == old(sent) + [Sent(url, request)]
      ensures r == callApi(url, request)
    {
      sent := sent + [Sent(url, request)];
      r := callApi(url, request);
    }

    /** `excutePayment`: stamps the gateway id and executes the payment. */
    method ExcutePayment(curlData: Request, gatewayId: Json, callApi: (string, Request) -> Outcome<Json>)
      returns (r: Outcome<InvoiceLink>)
      modifies this
      ensures var s := Sent(apiURL + "/v2/ExecutePayment", curlData["PaymentMethodId" := gatewayId]);
              sent == old(sent) + [s] && r == ReadLink(callApi(s.url, s.request), "PaymentURL")
    {
      var data := curlData["PaymentMethodId" := gatewayId];
      var json := CallApi(apiURL + "/v2/ExecutePayment", data, callApi);
      r := ReadLink(json, "PaymentURL");
    }

    /** `sendPayment`: overwrites the notification option and sends the
        invoice link. */
    method SendPayment(curlData: Request, notificationOption: string, callApi: (string, Request) -> Outcome<Json>)
      returns (r: Outcome<InvoiceLink>)
      modifies this
      ensures var s := Sent(apiURL + "/v2/SendPayment", curlData["NotificationOption" := JStr(notificationOption)]);
              sent == old(sent) + [s] && r == ReadLink(callApi(s.url, s.request), "InvoiceURL")
    {
      var data := curlData["NotificationOption" := JStr(notificationOption)];
      var json := CallApi(apiURL + "/v2/SendPayment", data, callApi);
      r := ReadLink(json, "InvoiceURL");
    }

    /** `embeddedPayment`: stamps the session id and executes the payment. */
    method EmbeddedPayment(curlData: Request, sessionId: Json, callApi: (string, Request) -> Outcome<Json>)
      returns (r: Outcome<InvoiceLink>)
      modifies this
      ensures var s := Sent(apiURL + "/v2/ExecutePayment", curlData["SessionId" := sessionId]);
              sent == old(sent) + [s] && r == ReadLink(callApi(s.url, s.request), "PaymentURL")
    {
      var data := curlData["SessionId" := sessionId];
      var json := CallApi(apiURL + "/v2/ExecutePayment", data, callApi);
      r := ReadLink(json, "PaymentURL");
    }

    /** `getInvoiceURL`: exactly one request is sent, the one
        `DispatchedRequest` describes, and its response is read from the
        field of the route taken. */
    method GetInvoiceUrl(curlData: Request, gatewayId: Json, sessionId: Json, notificationOption: string,
                         callApi: (string, Request) -> Outcome<Json>)
      returns (r: Outcome<InvoiceLink>)
      modifies this
      ensures var s := DispatchedRequest(apiURL, curlData, gatewayId, sessionId, notificationOption);
              && sent == old(sent) + [s]
              && r == ReadLink(callApi(s.url, s.request), UrlField(RouteFor(gatewayId, sessionId)))
    {
      var data := curlData[CustomerEmailKey := if EmptyField(curlData, CustomerEmailKey) then JNull else curlData[CustomerEmailKey]];
      if Truthy(sessionId) {
        r := EmbeddedPayment(data, sessionId, callApi);
      } else if gatewayId == JStr("myfatoorah") || !Truthy(gatewayId) {
        r := SendPayment(data, notificationOption, callApi);
      } else {
        r := ExcutePayment(data, gatewayId, callApi);
      }
    }
  }

  // ---------------------------------------------------------------------
  // What the dispatch guarantees
  // ---------------------------------------------------------------------

  /** A session id decides the route whatever the gateway id. */
  lemma SessionWins(gatewayId: Json, otherGatewayId: Json, sessionId: Json)
    requires Truthy(sessionId)
    ensures RouteFor(gatewayId, sessionId) == RouteFor(otherGatewayId, sessionId) == EmbeddedPayment
  {
  }

  /** The notification option of an invoice link is the argument, whatever
      the request held. */
  lemma NotificationOptionOverwritten(apiURL: string, curlData: Request, gatewayId: Json, notificationOption: string)
    requires RouteFor(gatewayId, JNull) == SendPayment
    ensures DispatchedRequest(apiURL, curlData, gatewayId, JNull, notificationOption).request["NotificationOption"]
            == JStr(notificationOption)
  {
  }

  /** The request carries the e-mail, or null in place of an empty one. */
  lemma EmailNormalised(apiURL: string, curlData: Request, gatewayId: Json, sessionId: Json, notificationOption: string)
    ensures var request := DispatchedRequest(apiURL, curlData, gatewayId, sessionId, notificationOption).request;
            && CustomerEmailKey in request
            && (EmptyField(curlData, CustomerEmailKey) ==> request[CustomerEmailKey] == JNull)
            && (!EmptyField(curlData, CustomerEmailKey) ==> request[CustomerEmailKey] == curlData[CustomerEmailKey])
  {
    var route := RouteFor(gatewayId, sessionId);
    assert StampedKey(route) != CustomerEmailKey;
  }

  /** Both execute routes read the payment URL; only the invoice link
      reads the invoice URL; all three read `Data.InvoiceId`. */
  lemma LinkFieldByRoute(route: Route, response: Outcome<Json>)
    requires response.Ok?
    ensures UrlField(route) == "InvoiceURL" <==> route == SendPayment
    ensures ReadLink(response, UrlField(route)).value.invoiceId == Prop(Prop(response.value, "Data"), "InvoiceId")
  {
  }
}
