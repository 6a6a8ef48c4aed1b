/** The checkout side of `MyFatoorahPayment`: how the payment methods the
    portal offers are sorted into the buckets a checkout page displays
    (`all`, `cards`, `form` and `ap`, the Apple Pay gateways), and how one
    payment method is picked out by id or by code. The method lists come
    from `InitiatePayment` or its file cache, which are parameters here. */
module Checkout {
  import opened Php
  import opened GatewayAmount

  const ApplePayCode: string := "ap"

  const PaymentMethodMessage: string := "Please contact Account Manager to enable the used payment method in your account"

  /** A payment method as `InitiatePayment` lists it, with the
      `GatewayData` that the embedded checkout attaches to it. */
  datatype Gateway = Gateway(
    paymentMethodId: int,
    paymentMethodCode: string,
    isEmbeddedSupported: bool,
    isDirectPayment: bool,
    totalAmount: real,
    currencyIso: string,
    paymentCurrencyIso: string,
    gatewayData: Option<GatewayData>)

  /** The four bucket lists while they are being filled. */
  datatype Buckets = Buckets(all: seq<Gateway>, cards: seq<Gateway>, form: seq<Gateway>, ap: seq<Gateway>)

  /** What the `ap` key holds when the buckets are handed out: a list (the
      one `[]`, or the list as collected), or a single gateway. */
  datatype ApSlot = ApList(gateways: seq<Gateway>) | ApOne(gateway: Gateway)

  datatype CheckoutGateways = CheckoutGateways(all: seq<Gateway>, cards: seq<Gateway>, form: seq<Gateway>, ap: ApSlot)

  const NoBuckets: Buckets := Buckets([], [], [], [])

  // ---------------------------------------------------------------------
  // addGatewayToCheckoutGateways
  // ---------------------------------------------------------------------

  /** The buckets a gateway belongs in. */
  datatype Bucket = All | Cards | Form | Ap

  /** The placement rule, stated bucket by bucket: an `ap` gateway is in
      `all`, and in `ap` if the domain is registered with Apple Pay, in
      `cards` if not; any other gateway is in `form` and `all` if it
      supports the embedded form, in `cards` and `all` if it is not a direct
      payment, and nowhere otherwise. */
  predicate GoesTo(g: Gateway, isAppleRegistered: bool, bucket: Bucket)
    // A gateway shown in any display bucket is also in `all`.
    ensures GoesTo(g, isAppleRegistered, bucket) && bucket != All ==>
              g.paymentMethodCode == ApplePayCode || g.isEmbeddedSupported || !g.isDirectPayment
    // A direct-payment gateway without the embedded form is shown nowhere.
    ensures g.paymentMethodCode != ApplePayCode && g.isDirectPayment && !g.isEmbeddedSupported ==>
              !GoesTo(g, isAppleRegistered, bucket)
  {
    var isAp := g.paymentMethodCode == ApplePayCode;
    match bucket
    case All => isAp || g.isEmbeddedSupported || !g.isDirectPayment
    case Cards => (isAp && !isAppleRegistered) || (!isAp && !g.isEmbeddedSupported && !g.isDirectPayment)
    case Form => !isAp && g.isEmbeddedSupported
    case Ap => isAp && isAppleRegistered
  }

  function BucketOf(b: Buckets, bucket: Bucket): seq<Gateway> {
    match bucket
    case All => b.all
    case Cards => b.cards
    case Form => b.form
    case Ap => b.ap
  }

  /** `addGatewayToCheckoutGateways`: the buckets with the gateway appended
      to each bucket it belongs in, and to no other. */
  function AddGatewayToCheckoutGateways(g: Gateway, b: Buckets, isAppleRegistered: bool): (r: Buckets)
    ensures forall bucket: Bucket ::
              BucketOf(r, bucket) == BucketOf(b, bucket) + (if GoesTo(g, isAppleRegistered, bucket) then [g] else [])
  {
    if g.paymentMethodCode == ApplePayCode then
      var b1 := if isAppleRegistered then b.(ap := b.ap + [g]) else b.(cards := b.cards + [g]);
      b1.(all := b1.all + [g])
    else if g.isEmbeddedSupported then
      b.(form := b.form + [g], all := b.all + [g])
    else if !g.isDirectPayment then
      b.(cards := b.cards + [g], all := b.all + [g])
    else
      b
  }

  /** A gateway that is listed at all is listed in exactly one of `cards`,
      `form` and `ap`. */
  lemma {:induction false} ExactlyOneDisplayBucket(g: Gateway, isAppleRegistered: bool)
    ensures GoesTo(g, isAppleRegistered, All) <==>
              GoesTo(g, isAppleRegistered, Cards) || GoesTo(g, isAppleRegistered, Form) || GoesTo(g, isAppleRegistered, Ap)
    ensures !(GoesTo(g, isAppleRegistered, Cards) && GoesTo(g, isAppleRegistered, Form))
    ensures !(GoesTo(g, isAppleRegistered, Cards) && GoesTo(g, isAppleRegistered, Ap))
    ensures !(GoesTo(g, isAppleRegistered, Form) && GoesTo(g, isAppleRegistered, Ap))
  {
  }

  /** `all` holds exactly the gateways of `cards`, `form` and `ap`. */
  predicate Partitioned(b: Buckets) {
    multiset(b.all) == multiset(b.cards) + multiset(b.form) + multiset(b.ap)
  }

  /** Adding a gateway keeps `all` the union of the three display buckets. */
  lemma AddKeepsPartition(g: Gateway, b: Buckets, isAppleRegistered: bool)
    requires Partitioned(b)
    ensures Partitioned(AddGatewayToCheckoutGateways(g, b, isAppleRegistered))
  {
    var r := AddGatewayToCheckoutGateways(g, b, isAppleRegistered);
    assert BucketOf(r, All) == r.all && BucketOf(r, Cards) == r.cards;
    assert BucketOf(r, Form) == r.form && BucketOf(r, Ap) == r.ap;
    ExactlyOneDisplayBucket(g, isAppleRegistered);
  }

  // ---------------------------------------------------------------------
  // The loop over a method list
  // ---------------------------------------------------------------------

  /** The buckets after adding every gateway of the list in order. */
  function Categorize(gateways: seq<Gateway>, isAppleRegistered: bool): (r: Buckets)
    // Every gateway is counted once in `all` and once among the display
    // buckets, or not at all.
    ensures |r.all| == |r.cards| + |r.form| + |r.ap| <= |gateways|
  {
    if gateways == [] then NoBuckets
    else
      ExactlyOneDisplayBucket(gateways[|gateways| - 1], isAppleRegistered);
      AddGatewayToCheckoutGateways(gateways[|gateways| - 1], Categorize(gateways[..|gateways| - 1], isAppleRegistered),
                                   isAppleRegistered)
  }

  lemma CategorizeSnoc(gateways: seq<Gateway>, g: Gateway, isAppleRegistered: bool)
    ensures Categorize(gateways + [g], isAppleRegistered)
            == AddGatewayToCheckoutGateways(g, Categorize(gateways, isAppleRegistered), isAppleRegistered)
  {
    assert (gateways + [g])[..|gateways|] == gateways;
  }

  /** The gateways of the list that belong in a bucket, in list order. */
  function Select(gateways: seq<Gateway>, isAppleRegistered: bool, bucket: Bucket): (r: seq<Gateway>)
    ensures forall g :: g in r <==> g in gateways && GoesTo(g, isAppleRegistered, bucket)
  {
    if gateways == [] then []
    else
      var init := gateways[..|gateways| - 1];
      var last := gateways[|gateways| - 1];
      assert gateways == init + [last];
      Select(init, isAppleRegistered, bucket) + (if GoesTo(last, isAppleRegistered, bucket) then [last] else [])
  }

  /** Every bucket holds the gateways of the list that belong in it, in
      list order, and nothing else. */
  lemma {:induction false} CategorizeSelects(gateways: seq<Gateway>, isAppleRegistered: bool, bucket: Bucket)
    ensures BucketOf(Categorize(gateways, isAppleRegistered), bucket) == Select(gateways, isAppleRegistered, bucket)
  {
    if gateways != [] {
      CategorizeSelects(gateways[..|gateways| - 1], isAppleRegistered, bucket);
    }
  }

  /** Sorting a whole list keeps `all` the union of the display buckets. */
  lemma {:induction false} CategorizePartitioned(gateways: seq<Gateway>, isAppleRegistered: bool)
    ensures Partitioned(Categorize(gateways, isAppleRegistered))
  {
    if gateways != [] {
      CategorizePartitioned(gateways[..|gateways| - 1], isAppleRegistered);
      AddKeepsPartition(gateways[|gateways| - 1], Categorize(gateways[..|gateways| - 1], isAppleRegistered),
                        isAppleRegistered);
    }
  }

  /** Without Apple Pay registration the `ap` bucket stays empty: `ap`
      gateways are shown as cards. */
  lemma UnregisteredHasNoApBucket(gateways: seq<Gateway>)
    ensures Categorize(gateways, false).ap == []
  {
    CategorizeSelects(gateways, false, Ap);
  }

  /** The position of the first gateway of the list that belongs in a
      bucket, or the list's length. */
  function FirstIn(gateways: seq<Gateway>, isAppleRegistered: bool, bucket: Bucket): (i: nat)
    ensures i <= |gateways|
    ensures i < |gateways| ==> GoesTo(gateways[i], isAppleRegistered, bucket)
    ensures forall j :: 0 <= j < i ==> !GoesTo(gateways[j], isAppleRegistered, bucket)
  {
    if gateways == [] then 0
    else if GoesTo(gateways[0], isAppleRegistered, bucket) then 0
    else 1 + FirstIn(gateways[1..], isAppleRegistered, bucket)
  }

  /** A bucket's first gateway is the first gateway of the list that
      belongs in it. */
  lemma {:induction false} SelectHead(gateways: seq<Gateway>, isAppleRegistered: bool, bucket: Bucket)
    ensures var s := Select(gateways, isAppleRegistered, bucket);
            var i := FirstIn(gateways, isAppleRegistered, bucket);
            (s == [] <==> i == |gateways|) && (s != [] ==> s[0] == gateways[i])
    decreases |gateways|
  {
    var s := Select(gateways, isAppleRegistered, bucket);
    var i := FirstIn(gateways, isAppleRegistered, bucket);
    if i < |gateways| {
      assert gateways[i] in s;
    }
    if gateways != [] {
      var init := gateways[..|gateways| - 1];
      SelectHead(init, isAppleRegistered, bucket);
      var si := Select(init, isAppleRegistered, bucket);
      var ii := FirstIn(init, isAppleRegistered, bucket);
      FirstInPrefix(gateways, isAppleRegistered, bucket);
      if si != [] {
        assert s[0] == si[0];
      }
    }
  }

  lemma {:induction false} FirstInPrefix(gateways: seq<Gateway>, isAppleRegistered: bool, bucket: Bucket)
    requires gateways != []
    ensures var i, ii := FirstIn(gateways, isAppleRegistered, bucket), FirstIn(gateways[..|gateways| - 1], isAppleRegistered, bucket);
            ii < |gateways| - 1 ==> i == ii
    ensures var i, ii := FirstIn(gateways, isAppleRegistered, bucket), FirstIn(gateways[..|gateways| - 1], isAppleRegistered, bucket);
            ii == |gateways| - 1 ==> i >= |gateways| - 1
  {
    var init := gateways[..|gateways| - 1];
    var i, ii := FirstIn(gateways, isAppleRegistered, bucket), FirstIn(init, isAppleRegistered, bucket);
    assert forall j :: 0 <= j < |init| ==> init[j] == gateways[j];
    if ii < |init| {
      assert GoesTo(gateways[ii], isAppleRegistered, bucket);
      assert i <= ii;
    }
  }

  // ---------------------------------------------------------------------
  // getCachedCheckoutGateways
  // ---------------------------------------------------------------------

  /** `$buckets['ap'][0] ?? []`: the first collected `ap` gateway, or the
      empty list. */
  function FirstAp(ap: seq<Gateway>): (slot: ApSlot)
    ensures ap == [] ==> slot == ApList([])
    ensures ap != [] ==> slot == ApOne(ap[0])
  {
    if ap == [] then ApList([]) else ApOne(ap[0])
  }

  /** `getCachedCheckoutGateways` over the cached method list: the buckets
      filled in a `foreach`, then `ap` cut down to its first gateway. */
  method GetCachedCheckoutGateways(gateways: seq<Gateway>, isAppleRegistered: bool) returns (r: CheckoutGateways)
    ensures var b := Categorize(gateways, isAppleRegistered);
            r == CheckoutGateways(b.all, b.cards, b.form, FirstAp(b.ap))
  {
    var cachedCheckoutGateways := NoBuckets;
    for i := 0 to |gateways|
      invariant cachedCheckoutGateways == Categorize(gateways[..i], isAppleRegistered)
    {
      assert gateways[..i + 1][..i] == gateways[..i];
      cachedCheckoutGateways := AddGatewayToCheckoutGateways(gateways[i], cachedCheckoutGateways, isAppleRegistered);
    }
    assert gateways[..|gateways|] == gateways;
    var b := cachedCheckoutGateways;
    r := CheckoutGateways(b.all, b.cards, b.form, FirstAp(b.ap));
  }

  /** The cached `ap` entry is the first `ap` gateway of the list when the
      domain is registered, and `[]` otherwise. */
  lemma CachedApIsFirstApGateway(gateways: seq<Gateway>, isAppleRegistered: bool)
    ensures var slot := FirstAp(Categorize(gateways, isAppleRegistered).ap);
            var i := FirstIn(gateways, isAppleRegistered, Ap);
            && (i == |gateways| <==> slot == ApList([]))
            && (i < |gateways| ==> slot == ApOne(gateways[i]) && gateways[i].paymentMethodCode == ApplePayCode)
  {
    CategorizeSelects(gateways, isAppleRegistered, Ap);
    SelectHead(gateways, isAppleRegistered, Ap);
  }

  // ---------------------------------------------------------------------
  // getOnePaymentMethod
  // ---------------------------------------------------------------------

  /** The field `getOnePaymentMethod` compares, with the key it looks for. */
  datatype Selector = ById(id: int) | ByCode(code: string)

  predicate Selects(key: Selector, pm: Gateway) {
    match key
    case ById(id) => pm.paymentMethodId == id
    case ByCode(code) => pm.paymentMethodCode == code
  }

  /** The first payment method the key selects, or the exception. */
  function FindPaymentMethod(paymentMethods: seq<Gateway>, key: Selector): (r: Outcome<Gateway>)
    ensures !r.EngineError?
    ensures r.Thrown? <==> forall i :: 0 <= i < |paymentMethods| ==> !Selects(key, paymentMethods[i])
    ensures r.Thrown? ==> r.message == PaymentMethodMessage
    ensures r.Ok? ==> exists i :: 0 <= i < |paymentMethods| && paymentMethods[i] == r.value && Selects(key, r.value)
                         && forall j :: 0 <= j < i ==> !Selects(key, paymentMethods[j])
  {
    if paymentMethods == [] then Thrown(PaymentMethodMessage)
    else if Selects(key, paymentMethods[0]) then Ok(paymentMethods[0])
    else
      var r := FindPaymentMethod(paymentMethods[1..], key);
      if r.Ok? then
        var i :| 0 <= i < |paymentMethods| - 1 && paymentMethods[1..][i] == r.value && Selects(key, r.value)
                 && forall j :: 0 <= j < i ==> !Selects(key, paymentMethods[1..][j]);
        assert forall j :: 1 <= j < i + 1 ==> paymentMethods[j] == paymentMethods[1..][j - 1];
        assert paymentMethods[i + 1] == r.value;
        r
      else
        assert forall i :: 1 <= i < |paymentMethods| ==> paymentMethods[i] == paymentMethods[1..][i - 1];
        r
  }

  /** `getOnePaymentMethod` over the listed methods: a search loop that
      breaks at the first match, then the `isset` check. */
  method GetOnePaymentMethod(paymentMethods: seq<Gateway>, key: Selector) returns (r: Outcome<Gateway>)
    ensures r == FindPaymentMethod(paymentMethods, key)
  {
    var paymentMethod: Option<Gateway> := None;
    var i := 0;
    while i < |paymentMethods|
      invariant 0 <= i <= |paymentMethods|
      invariant paymentMethod.None?
      invariant forall j :: 0 <= j < i ==> !Selects(key, paymentMethods[j])
    {
      if Selects(key, paymentMethods[i]) {
        paymentMethod := Some(paymentMethods[i]);
        break;
      }
      i := i + 1;
    }
    if paymentMethod.None? {
      return Thrown(PaymentMethodMessage);
    }
    FirstSelectedIsFound(paymentMethods, key, i);
    return Ok(paymentMethod.value);
  }

  lemma {:induction false} FirstSelectedIsFound(paymentMethods: seq<Gateway>, key: Selector, i: nat)
    requires i < |paymentMethods| && Selects(key, paymentMethods[i])
    requires forall j :: 0 <= j < i ==> !Selects(key, paymentMethods[j])
    ensures FindPaymentMethod(paymentMethods, key) == Ok(paymentMethods[i])
  {
    if i > 0 {
      assert !Selects(key, paymentMethods[0]);
      FirstSelectedIsFound(paymentMethods[1..], key, i - 1);
    }
  }

  /** Looking a method up by the code it was found under finds a method
      with that code; the id and the code of one method find the first
      method carrying them. */
  lemma FoundByOwnCode(paymentMethods: seq<Gateway>, i: nat)
    requires i < |paymentMethods|
    ensures FindPaymentMethod(paymentMethods, ByCode(paymentMethods[i].paymentMethodCode)).Ok?
    ensures FindPaymentMethod(paymentMethods, ById(paymentMethods[i].paymentMethodId)).Ok?
  {
    assert Selects(ByCode(paymentMethods[i].paymentMethodCode), paymentMethods[i]);
    assert Selects(ById(paymentMethods[i].paymentMethodId), paymentMethods[i]);
  }
}
