# MyFatoorah PHP client: decision logic

This project models the decision logic of the MyFatoorah PHP client library
(`MyfatoorahApiV2`, `MyFatoorahPayment`, `MyFatoorahPaymentEmbedded` and
`MyFatoorahList`) and proves properties of it in Dafny. The logic covered is:

- how an API response is classified as a success or an error, and which
  message the exception carries;
- how a phone number is normalised and split;
- the weight and dimension unit tables;
- the base-URL choice of the client constructor;
- how a webhook notification is put in canonical form before its HMAC is
  checked;
- the exchange-rate lookup and the two `calcGatewayData` conversions;
- how payment methods are sorted into checkout buckets, and how one Apple
  Pay gateway or one payment method is picked;
- the memoised `getCheckoutGateways`;
- how `getInvoiceURL` chooses between `SendPayment`, `ExecutePayment` with
  a gateway and `ExecutePayment` with a session.

Everything that crosses the network or the file system is a parameter of
the model. This covers the HTTP exchange, the country table, the method and
rate lists, `strip_tags`, `json_decode`, HMAC-SHA256 and base64.

## Modules

| file | module | models |
|---|---|---|
| php.dfy | `Php` | PHP runtime semantics the library relies on: `Outcome` (a value, a thrown `Exception`, or an engine `Error` such as `TypeError`/`DivisionByZeroError`), decoded JSON, truthiness, `isset` on properties, string interpolation, ASCII case mapping, `trim`, `implode`, `ceil`, `(int)` and `round` |
| api_errors.dfy | `ApiErrors` | `getAPIError`, `getJsonErrors` and the throw/return decision of `callAPI` |
| phone.dfy | `Phone` | `getPhone` |
| units.dfy | `Units` | `getWeightRate`, `getDimensionRate` |
| api_config.dfy | `ApiConfig` | the `MyfatoorahApiV2` constructor |
| currency_list.dfy | `CurrencyList` | `getCurrencyRate` |
| gateway_amount.dfy | `GatewayAmount` | both `calcGatewayData` versions |
| webhook.dfy | `Webhook` | `isSignatureValid` |
| checkout.dfy | `Checkout` | `addGatewayToCheckoutGateways`, `getCachedCheckoutGateways`, `getOnePaymentMethod` |
| embedded_checkout.dfy | `EmbeddedCheckout` | `getOneApplePayGateway`, `getCheckoutGateways` and its static cache |
| invoice.dfy | `InvoiceDispatch` | `getInvoiceURL`, `excutePayment`, `sendPayment`, `embeddedPayment` |

Imperative source code is modelled imperatively:

- `getPhone`, both `getCurrencyRate` loops, the rate loop of
  `calcGatewayData`, `isSignatureValid`, the bucket `foreach` of
  `getCachedCheckoutGateways` and the `break` search of
  `getOnePaymentMethod` are methods. Each is proved equal to a
  reference function, and the properties are proved about that
  function.
- The `uksort` inside `isSignatureValid` is the recursive function
  `Webhook.SortEntries`, an insertion sort on a sequence of entries.
- The static cache of `MyFatoorahPaymentEmbedded` is a field of a class.
- The requests of `MyFatoorahPayment` are recorded in a ghost log of the
  requests sent.

## Behaviour worth knowing

- Gateways go into four buckets only: `all`, `cards`, `form` and `ap`. A
  gateway is placed by the `ap` code and its embedded and direct flags
  alone.
- `getOneApplePayGateway` tests the `array_search` results for
  truthiness. A currency match at position 0 therefore counts as not
  found (`EmbeddedCheckout.FirstPositionMatchIgnored`).
- `calcGatewayData` divides, rounds up, multiplies and rounds up again
  even when the invoice and gateway currencies are equal, so 10 KWD at
  rate 3 becomes 10.02 KWD (`GatewayAmount.SameCurrencyStillConverts`).
- `sendPayment` overwrites `NotificationOption` with its argument whatever
  the request held (`InvoiceDispatch.NotificationOptionOverwritten`).
- The embedded route posts to `/v2/ExecutePayment`.
- `getPhone` answers `['', '']` for any falsy normalised string, which
  includes `"0"`.
- When a currency is listed twice, `calcGatewayData` uses the later entry
  but `getCurrencyRate` uses the earlier one
  (`GatewayAmount.LaterDuplicateWins`).
- A validation error `Name` in canonical decimal form, such as `"5"`,
  becomes an integer key of the `array_column` result, so it merges with
  the number 5 and moves the next automatic index
  (`ApiErrors.NumericNameMovesNextIndex`, `ApiErrors.NumericNameMeetsNumber`).

## Model

| member | source | states |
|---|---|---|
| ApiErrors.GetJsonErrors | src/MyfatoorahApiV2.php:205-230 | `ValidationErrors` gives its validation message; without it, `FieldsErrors` gives its own; otherwise `Data.ErrorMessage`, otherwise `Message`, otherwise `''`; a value that is not an object gives `''`; only a malformed validation list is an engine error |
| ApiErrors.ValidationMessageOfDistinctRows | src/MyfatoorahApiV2.php:210-215 | with distinct names, the validation message lists every row as `Name: Error` in row order, joined by `", "` |
| ApiErrors.RepeatedNameListedOnce | src/MyfatoorahApiV2.php:211 | rows are keyed by `Name`: a repeated name is listed once, at its first position, with the error of its last row |
| ApiErrors.ErrorColumn | src/MyfatoorahApiV2.php:211 | `array_column($errors, 'Error', 'Name')` never throws, and its keys are distinct; `RepeatedNameListedOnce` and `ValidationMessageOfDistinctRows` give its contents |
| ApiErrors.ValidationMessage | src/MyfatoorahApiV2.php:211-215 | `array_column` of a non-array is an engine error; an empty list gives `''`; never an exception |
| ApiErrors.KeyOf | src/MyfatoorahApiV2.php:211 | PHP's key conversion for a `Name`: a string in canonical decimal form within the 64-bit range becomes that integer and any other string stays a string, null is `""`, booleans and numbers become integers, arrays and objects are illegal offsets |
| ApiErrors.StringKey | src/MyfatoorahApiV2.php:211 | a string key is an integer exactly when the string is a canonical 64-bit decimal, and the key always renders back to the string |
| ApiErrors.StringKeyInjective | src/MyfatoorahApiV2.php:211 | two strings make the same key exactly when they are equal |
| Php.IntegerKeyValue | src/MyfatoorahApiV2.php:211 | the integer a key string stands for renders back to that string and lies in the 64-bit range |
| Php.IntegerKeyOfRendering | src/MyfatoorahApiV2.php:211 | the decimal rendering of every 64-bit integer is an integer key standing for that integer |
| ApiErrors.NumericNameMovesNextIndex | src/MyfatoorahApiV2.php:211-215 | rows named `"5"` and unnamed give `5: a, 6: b` |
| ApiErrors.NumericNameMeetsNumber | src/MyfatoorahApiV2.php:211-215 | the name `"1"` and the name 1 are one key: the second row overwrites the first, giving `1: b` |
| ApiErrors.NonCanonicalNamesStayStrings | src/MyfatoorahApiV2.php:211 | `"05"` and `"-0"` stay string keys |
| ApiErrors.Assign | src/MyfatoorahApiV2.php:211 | `array_column` keyed by `Name` assigns each row: an existing key keeps its position and every other entry is unchanged; a new key is appended with its value, and only a new key lengthens the column |
| ApiErrors.AssignKeepsDistinct | src/MyfatoorahApiV2.php:211 | assigning into a column with distinct keys keeps the keys distinct, and the one entry with the assigned key holds the new value |
| ApiErrors.PageText | src/MyfatoorahApiV2.php:174-177 | the text of a markup response has no run of whitespace and no whitespace at either end |
| ApiErrors.CollapseSpaces | src/MyfatoorahApiV2.php:176 | every whitespace run becomes one plain space: the result has no other whitespace character and no two spaces in a row; it starts with whitespace exactly when the input does, and is empty exactly when the input is |
| ApiErrors.CollapseKeepsText | src/MyfatoorahApiV2.php:176 | collapsing whitespace runs keeps every other character, in order |
| ApiErrors.CollapseOneRun | src/MyfatoorahApiV2.php:176 | a maximal whitespace run between two pieces of text becomes exactly one space, and each side collapses on its own |
| ApiErrors.PageTextKeepsText | src/MyfatoorahApiV2.php:174-177 | the page text keeps every non-whitespace character of the stripped page, in order, except NUL characters `trim` removes from the two ends |
| ApiErrors.PageTextKeepsAllText | src/MyfatoorahApiV2.php:174-177 | without NUL characters the page text has exactly the non-whitespace characters of the stripped page, in order |
| ApiErrors.GetApiError | src/MyfatoorahApiV2.php:167-194 | a truthy `IsSuccess` gives `''` whatever else is present; markup is checked before any JSON field and gives the collapsed, trimmed text; then a truthy `getJsonErrors` result; then a falsy decoded value gives the body, or the configuration message when the body is empty; then a decoded string is the error; any other truthy value whose error fields are falsy gives `''` |
| Php.ImplodeSnoc | src/MyfatoorahApiV2.php:478-484 | joining one more part adds exactly one separator and the part, so parts are joined in order with no separator at either end |
| ApiErrors.CallApi | src/MyfatoorahApiV2.php:132-154 | a cURL error is thrown as is; otherwise the call returns the decoded body exactly when `getAPIError`'s error is falsy; a truthy error is thrown with its string conversion as the message (a string error is thrown as it is, an array or object error is an engine error); a successful response is always returned |
| Phone.PhoneParts | src/MyfatoorahApiV2.php:270-291 | a falsy number gives `['', '']`; otherwise the call throws exactly when the length is outside [3, 14]; above six digits the code is the first three; the two parts always concatenate back to the number |
| Phone.ReplaceNativeDigits | src/MyfatoorahApiV2.php:257-260 | after the two entity passes, the two digit passes put every Arabic-Indic and Persian digit in ASCII and change nothing else |
| Phone.StripDoubleZero | src/MyfatoorahApiV2.php:265-268 | a leading `00` is removed, once; any other string is unchanged |
| Phone.NormalisedPhone | src/MyfatoorahApiV2.php:250-268 | the normalised number holds only ASCII digits |
| Phone.KeepDigits | src/MyfatoorahApiV2.php:263 | the result holds only digits; an all-digit string is kept whole; a single non-digit character is removed |
| Phone.KeepDigitsAppend | src/MyfatoorahApiV2.php:263 | the digit filter keeps the digits of each part of a string, in order; with the one-character clauses of `KeepDigits` this fixes exactly which characters stay |
| Phone.ReplaceNativeDigitsWithoutEntities | src/MyfatoorahApiV2.php:250-260 | on a string without `&` the four replacement passes put every Arabic-Indic and Persian digit in ASCII and leave every other character alone |
| Phone.NormalisedWithoutEntities | src/MyfatoorahApiV2.php:250-268 | for any input without `&` the normalised number is the input's digits of every script, in order and in ASCII, less one leading `00` |
| Phone.PersianEntityDecoded | src/MyfatoorahApiV2.php:250-260 | each entity `&#1776;` to `&#1785;` normalises to the ASCII digit it stands for |
| Phone.ArabicEntityDecoded | src/MyfatoorahApiV2.php:250-260 | each entity `&#1632;` to `&#1641;` normalises to the ASCII digit it stands for |
| Phone.ReplaceAllTokens | src/MyfatoorahApiV2.php:257-258 | one `str_replace` of an entity over a string made of whole entities and characters other than `&` replaces whole pieces only: no match straddles two pieces |
| Phone.ReplaceEachOverTokens | src/MyfatoorahApiV2.php:257-258 | a whole entity table over such a string acts piece by piece |
| Phone.ReplaceNativeDigitsGlyphs | src/MyfatoorahApiV2.php:257-260 | over a number typed as any mix of Persian and Arabic-Indic digit entities, native digits, ASCII digits and other characters without `&`, the four passes give each entity's and each native digit's ASCII digit, in order, and keep every other character |
| Phone.GlyphsNormalise | src/MyfatoorahApiV2.php:250-268 | such a number normalises to the digits it stands for, in ASCII and in order, less one leading `00` |
| Phone.DigitGlyphsNormalise | src/MyfatoorahApiV2.php:250-268 | when every piece is an entity or a digit of some script, the normalised number is exactly the digits spelt, less one leading `00` |
| Phone.GetPhone | src/MyfatoorahApiV2.php:247-292 | the step-by-step method answers exactly `PhoneParts` of the normalised number |
| Phone.NativeDigitsNormalise | src/MyfatoorahApiV2.php:250-268 | Arabic-Indic and Persian digits, in any mix with ASCII digits, become the ASCII digits they stand for, less one leading `00` |
| Phone.LeadingZerosStrippedOnce | src/MyfatoorahApiV2.php:265-268 | only one leading `00` is removed: `0000` followed by digits keeps `00` |
| Phone.ScriptIndependent | src/MyfatoorahApiV2.php:247-292 | a number typed in native digits gets the same answer as the same number in ASCII digits |
| Units.GetWeightRate | src/MyfatoorahApiV2.php:326-342 | succeeds exactly for the listed spellings, case-insensitively, with that unit's factor to kilograms; any other unit throws the weight message |
| Units.GetDimensionRate | src/MyfatoorahApiV2.php:355-373 | succeeds exactly for the listed spellings, case-insensitively, with that unit's factor to centimetres; any other unit throws the dimension message |
| Units.WeightRateIgnoresCase | src/MyfatoorahApiV2.php:328 | `KG`, `Kg` and `kg` name the same weight unit |
| Units.DimensionRateIgnoresCase | src/MyfatoorahApiV2.php:357 | dimension units are matched without regard to ASCII case |
| Units.WeightRateInKilograms | src/MyfatoorahApiV2.php:326-342 | every weight factor lies in (0, 1] |
| Units.DimensionRateBounds | src/MyfatoorahApiV2.php:355-373 | every dimension factor lies in [0.1, 100] |
| ApiConfig.ApiUrlFor | src/MyfatoorahApiV2.php:74-79 | the test or live URL of the table row for the upper-cased country code; the default MyFatoorah host when the code is not in the table |
| ApiConfig.ApiUrlIgnoresCase | src/MyfatoorahApiV2.php:74 | the country code is matched without regard to ASCII case |
| ApiConfig.LowerCaseRowUnreachable | src/MyfatoorahApiV2.php:74-75 | a table row whose key is not upper case is never selected |
| ApiConfig.TrimIdempotent | src/MyfatoorahApiV2.php:81 | an API key that is already trimmed is stored unchanged |
| ApiConfig.MyfatoorahApiV2.constructor | src/MyfatoorahApiV2.php:70-84 | the client holds the URL `ApiUrlFor` chooses and the trimmed key |
| CurrencyList.GetCurrencyRate | src/API/MyFatoorahList.php:28-38 | the value of the first entry whose text equals the currency exactly; the unsupported-currency exception exactly when no entry matches; the value is one of the list's values |
| CurrencyList.FindCurrencyRate | src/API/MyFatoorahList.php:31-37 | the `foreach` with early return answers exactly `GetCurrencyRate` |
| CurrencyList.NoCaseFolding | src/API/MyFatoorahList.php:33 | matching is exact: `kwd` does not find `KWD` |
| CurrencyList.FirstIsLastWhenUnique | src/API/MyFatoorahList.php:32-36 | with one entry per currency, the first and the last match are the same entry |
| GatewayAmount.LastRate | src/API/Payment/MyFatoorahPaymentEmbedded.php:74-81 | no rate exactly when no entry has the currency; a rate found is the value of the last entry with the currency |
| GatewayAmount.LookupRates | src/API/Payment/MyFatoorahPaymentEmbedded.php:74-81 | the loop leaves the value of the last entry of each currency |
| GatewayAmount.Thousandths | src/API/Payment/MyFatoorahPaymentEmbedded.php:84 | the total in thousandths is truncated toward zero |
| GatewayAmount.BaseAmount | src/API/Payment/MyFatoorahPaymentEmbedded.php:84 | the base amount is a whole number of hundredths |
| GatewayAmount.BaseAmountCoversTotal | src/API/Payment/MyFatoorahPaymentEmbedded.php:84 | the base amount is never below the exact conversion of the truncated total |
| GatewayAmount.CeilHundredths | src/API/Payment/MyFatoorahPaymentEmbedded.php:86 | rounding up to hundredths lands on hundredths, at or above the value and less than 0.01 above it |
| GatewayAmount.RoundThousandths | src/MyfatoorahApiV2.php:439 | rounding to thousandths lands on thousandths within 0.0005 of the value |
| GatewayAmount.EmbeddedAmount | src/API/Payment/MyFatoorahPaymentEmbedded.php:84-86 | the embedded amount is a whole number of hundredths |
| GatewayAmount.ApiAmount | src/MyfatoorahApiV2.php:436-439 | the `MyfatoorahApiV2` amount is on thousandths, within 0.0005 of base amount times gateway rate |
| GatewayAmount.EmbeddedAmountCoversTotal | src/API/Payment/MyFatoorahPaymentEmbedded.php:84-86 | for a non-negative gateway rate the amount is at least the truncated total divided by the invoice rate and multiplied by the gateway rate |
| GatewayAmount.EmbeddedGatewayData | src/API/Payment/MyFatoorahPaymentEmbedded.php:71-99 | a missing currency leaves amount and currency unchanged; with both rates, an invoice rate of 0 is a division-by-zero error, and otherwise the result is the converted amount in the gateway currency |
| GatewayAmount.ApiGatewayData | src/MyfatoorahApiV2.php:422-450 | the same, with the amount rounded to thousandths |
| GatewayAmount.CalcEmbeddedGatewayData | src/API/Payment/MyFatoorahPaymentEmbedded.php:71-99 | the method answers exactly `EmbeddedGatewayData` |
| GatewayAmount.CalcApiGatewayData | src/MyfatoorahApiV2.php:422-450 | the method answers exactly `ApiGatewayData` |
| GatewayAmount.TruncatedNotRounded | src/API/Payment/MyFatoorahPaymentEmbedded.php:84 | 1.2349 becomes 1234 thousandths, and -1.2349 becomes -1234 |
| GatewayAmount.SameCurrencyStillConverts | src/API/Payment/MyFatoorahPaymentEmbedded.php:83-90 | equal currencies are still converted: 10 KWD at rate 3 becomes 10.02 KWD |
| GatewayAmount.ConversionExample | src/API/Payment/MyFatoorahPaymentEmbedded.php:84-90 | 100 at rate 0.3 through a gateway at rate 1.2 gives 400.01 |
| GatewayAmount.LaterDuplicateWins | src/API/Payment/MyFatoorahPaymentEmbedded.php:74-81 | with a currency listed twice, the conversion uses the later entry while `getCurrencyRate` answers the earlier one |
| GatewayAmount.LastRateAgreesWithCurrencyRate | src/API/MyFatoorahList.php:28-38 | with one entry per currency, the conversion loop and `getCurrencyRate` find the same rate, and neither finds one for a missing currency |
| Webhook.LexLessIrreflexive | src/MyfatoorahApiV2.php:470 | no key sorts before itself |
| Webhook.LexLessTransitive | src/MyfatoorahApiV2.php:470 | the key order is transitive |
| Webhook.LexLessTotal | src/MyfatoorahApiV2.php:470 | any two distinct strings are ordered one way or the other |
| Webhook.CaseTie | src/MyfatoorahApiV2.php:470 | keys that compare equal under `strcasecmp` have the same lower-case form |
| Webhook.SortEntries | src/MyfatoorahApiV2.php:470 | the sort is a permutation of the entries |
| Webhook.SortEntriesSorted | src/MyfatoorahApiV2.php:470 | the sorted entries are in case-insensitive key order |
| Webhook.SortEntriesStable | src/MyfatoorahApiV2.php:470 | entries whose keys differ only in case keep their original order |
| Webhook.SortedUnique | src/MyfatoorahApiV2.php:470 | two sorted lists of the same entries with case-distinct keys are equal |
| Webhook.Unset | src/MyfatoorahApiV2.php:466-468 | what remains holds only input entries, none with the removed key |
| Webhook.UnsetCount | src/MyfatoorahApiV2.php:466-468 | removing a key drops every entry with that key and keeps every other entry as often as it occurred |
| Webhook.UnsetPermutation | src/MyfatoorahApiV2.php:466-468 | removing a key does not depend on the order of the entries |
| Webhook.Pairs | src/MyfatoorahApiV2.php:478-484 | each entry is written `key=value`, in order |
| Webhook.CanonicalEntries | src/MyfatoorahApiV2.php:466-470 | the canonical entries are the input entries, less `GatewayReference` for event type 2 |
| Webhook.IsSignatureValid | src/MyfatoorahApiV2.php:464-496 | valid exactly when the signature strictly equals base64 of HMAC-SHA256 of the canonical string under the secret |
| Webhook.CanonicalEntriesOrdered | src/MyfatoorahApiV2.php:466-470 | the canonical entries are in case-insensitive key order, and entries whose keys differ only in case keep their order |
| Webhook.GatewayReferenceSigned | src/MyfatoorahApiV2.php:466-468 | `GatewayReference` is signed exactly when it is present and the event type is not 2 |
| Webhook.OtherFieldsSigned | src/MyfatoorahApiV2.php:466-470 | every other field is signed whatever the event type |
| Webhook.GatewayReferenceIgnored | src/MyfatoorahApiV2.php:466-468 | for event type 2 an added `GatewayReference` leaves the canonical string as it was |
| Webhook.CanonicalString | src/MyfatoorahApiV2.php:478-484 | the canonical string is empty exactly when no entry is signed, and a single entry is written `key=value`; `ImplodeSnoc`, `Pairs` and `CanonicalEntries` fix the rest |
| Webhook.CanonicalStringOrderFree | src/MyfatoorahApiV2.php:466-484 | with keys distinct up to case, the canonical string does not depend on the order of the fields |
| Webhook.CanonicalExample | src/MyfatoorahApiV2.php:466-484 | fields `b=2`, `GatewayReference=x`, `A=1` under event type 2 give `A=1,b=2` |
| Checkout.AddGatewayToCheckoutGateways | src/API/Payment/MyFatoorahPayment.php:107-128 | each bucket is the old bucket with the gateway appended exactly when the placement rule puts it there, so every other bucket is unchanged |
| Checkout.ExactlyOneDisplayBucket | src/API/Payment/MyFatoorahPayment.php:110-125 | a gateway goes to `all` exactly when it goes to one of `cards`, `form` and `ap`, and to at most one of them |
| Checkout.AddKeepsPartition | src/API/Payment/MyFatoorahPayment.php:107-128 | `all` stays the union of `cards`, `form` and `ap` |
| Checkout.GoesTo | src/API/Payment/MyFatoorahPayment.php:110-125 | the placement rule: a gateway shown in any display bucket is also in `all`, and a direct-payment gateway without the embedded form is shown nowhere; `ExactlyOneDisplayBucket` proves a gateway is in `all` exactly when it is in exactly one display bucket |
| Checkout.Categorize | src/API/Payment/MyFatoorahPayment.php:85-88 | after the loop `all` has as many gateways as the three display buckets together, and no more than the list; `CategorizeSelects` gives each bucket's contents |
| Checkout.Select | src/API/Payment/MyFatoorahPayment.php:86-88 | a bucket's reference contents are the gateways of the list that belong in it |
| Checkout.CategorizeSelects | src/API/Payment/MyFatoorahPayment.php:85-88 | after the loop each bucket holds the gateways of the list that belong in it, in list order |
| Checkout.CategorizePartitioned | src/API/Payment/MyFatoorahPayment.php:85-88 | after the loop `all` is the union of `cards`, `form` and `ap` |
| Checkout.UnregisteredHasNoApBucket | src/API/Payment/MyFatoorahPayment.php:110-115 | without Apple Pay registration the `ap` bucket stays empty |
| Checkout.FirstIn | src/API/Payment/MyFatoorahPayment.php:91 | the position of the first gateway that belongs in a bucket, with none before it |
| Checkout.SelectHead | src/API/Payment/MyFatoorahPayment.php:91 | a bucket's first gateway is the first gateway of the list that belongs in it |
| Checkout.FirstAp | src/API/Payment/MyFatoorahPayment.php:91 | the first collected `ap` gateway, or `[]` |
| Checkout.GetCachedCheckoutGateways | src/API/Payment/MyFatoorahPayment.php:80-94 | the loop yields the buckets of the whole list, with `ap` cut down to its first entry |
| Checkout.CachedApIsFirstApGateway | src/API/Payment/MyFatoorahPayment.php:85-91 | the cached `ap` entry is the first `ap` gateway of the list if registered, and `[]` when there is none |
| Checkout.FindPaymentMethod | src/API/Payment/MyFatoorahPayment.php:149-161 | the first method whose chosen field equals the key; the account-manager exception exactly when no method matches |
| Checkout.GetOnePaymentMethod | src/API/Payment/MyFatoorahPayment.php:144-162 | the search loop with `break` answers exactly `FindPaymentMethod` |
| Checkout.FirstSelectedIsFound | src/API/Payment/MyFatoorahPayment.php:150-155 | the first matching position is the one returned |
| Checkout.FoundByOwnCode | src/API/Payment/MyFatoorahPayment.php:150-155 | the id and the code of a listed method always find a method |
| EmbeddedCheckout.CurrencyIndex | src/API/Payment/MyFatoorahPaymentEmbedded.php:115 | the position of the first gateway in the currency, or none exactly when no gateway is in it |
| EmbeddedCheckout.BaseCurrency | src/API/Payment/MyFatoorahPaymentEmbedded.php:121-122 | the first currency whose rate is 1; the first entry's currency when none is 1; none only for an empty list |
| EmbeddedCheckout.GetOneApplePayGateway | src/API/Payment/MyFatoorahPaymentEmbedded.php:112-134 | `[]` exactly for an empty list; otherwise always one gateway of the list (which one: the three lemmas below, which cover every non-empty list) |
| EmbeddedCheckout.NothingTruthyFound | src/API/Payment/MyFatoorahPaymentEmbedded.php:115-116 | a currency search finds nothing truthy exactly when no gateway is in the currency or the first one is |
| EmbeddedCheckout.DisplayCurrencyPreferred | src/API/Payment/MyFatoorahPaymentEmbedded.php:115-118 | when the first gateway is not in the display currency and another is, the first gateway in the display currency is chosen |
| EmbeddedCheckout.BaseCurrencyNext | src/API/Payment/MyFatoorahPaymentEmbedded.php:115-127 | when the display-currency search finds nothing truthy, the first gateway is not in the portal currency and another is, the first gateway in the portal currency is chosen |
| EmbeddedCheckout.FirstGatewayFallback | src/API/Payment/MyFatoorahPaymentEmbedded.php:115-131 | when each of the display and the portal currency is either in no gateway or in the first one, the first gateway is chosen |
| EmbeddedCheckout.RepeatedDisplayCurrencyFallsThrough | src/API/Payment/MyFatoorahPaymentEmbedded.php:115-127 | gateways in KWD, KWD and SAR with display currency KWD and portal currency SAR give the SAR gateway |
| EmbeddedCheckout.FirstPositionMatchIgnored | src/API/Payment/MyFatoorahPaymentEmbedded.php:115-127 | `[KWD, SAR]` with display currency KWD and portal currency SAR gives the SAR gateway |
| EmbeddedCheckout.CategorizeIsSelect | src/API/Payment/MyFatoorahPaymentEmbedded.php:48-50 | the buckets of a list are each the list's selection, and `ap` is empty without Apple Pay registration |
| EmbeddedCheckout.Filled | src/API/Payment/MyFatoorahPaymentEmbedded.php:46-56 | a completed call's `all`, `cards` and `form` are the enriched methods that belong in them, in order; `ap` is `getOneApplePayGateway` of the Apple Pay methods when registered and empty otherwise |
| EmbeddedCheckout.Enrich | src/API/Payment/MyFatoorahPaymentEmbedded.php:47-50 | every method before the first failing one receives its own gateway data; the loop stops exactly at a division-by-zero error |
| EmbeddedCheckout.EnrichStopsAt | src/API/Payment/MyFatoorahPaymentEmbedded.php:47-50 | a failure after a clean prefix is where the whole loop stops |
| EmbeddedCheckout.MyFatoorahPaymentEmbedded.constructor | src/API/Payment/MyFatoorahPaymentEmbedded.php:21 | the cache starts empty |
| EmbeddedCheckout.MyFatoorahPaymentEmbedded.GetCheckoutGateways | src/API/Payment/MyFatoorahPaymentEmbedded.php:34-57 | a filled cache is returned unchanged whatever the arguments; a failed fetch leaves the cache empty; a division by zero leaves the partial buckets cached; otherwise the enriched, placed buckets, with one `ap` gateway when registered, are returned and cached |
| EmbeddedCheckout.ListedGatewaysCarryData | src/API/Payment/MyFatoorahPaymentEmbedded.php:47-50 | every gateway shown carries the gateway data computed for it |
| EmbeddedCheckout.UnregisteredApEmpty | src/API/Payment/MyFatoorahPaymentEmbedded.php:52-56 | without registration the `ap` entry is the collected list, which is empty |
| EmbeddedCheckout.RegisteredApIsOne | src/API/Payment/MyFatoorahPaymentEmbedded.php:52-56 | with registration the `ap` entry is one Apple Pay gateway, or `[]` |
| InvoiceDispatch.NormaliseEmail | src/API/Payment/MyFatoorahPayment.php:182 | an empty or missing e-mail becomes null, and a non-empty one is kept; no other field changes |
| InvoiceDispatch.RouteFor | src/API/Payment/MyFatoorahPayment.php:184-190 | a non-empty session id wins; otherwise a gateway id that is `myfatoorah` or empty sends an invoice link; any other id executes the payment |
| InvoiceDispatch.DispatchedRequest | src/API/Payment/MyFatoorahPayment.php:182-190 | the request goes to the endpoint of the route, carries the e-mail and the one stamped field, and keeps every other field |
| InvoiceDispatch.ReadLink | src/API/Payment/MyFatoorahPayment.php:211 | the link and the invoice id are read from `Data`; a failed call passes its exception on |
| InvoiceDispatch.MyFatoorahPayment.constructor | src/MyfatoorahApiV2.php:70-84 | a client with its base URL and nothing sent |
| InvoiceDispatch.MyFatoorahPayment.CallApi | src/MyfatoorahApiV2.php:99-155 | one request is recorded, and the result is the exchange's answer |
| InvoiceDispatch.MyFatoorahPayment.ExcutePayment | src/API/Payment/MyFatoorahPayment.php:204-212 | sends the request with `PaymentMethodId` set to `/v2/ExecutePayment` and reads `PaymentURL` |
| InvoiceDispatch.MyFatoorahPayment.SendPayment | src/API/Payment/MyFatoorahPayment.php:225-233 | sends the request with `NotificationOption` overwritten to `/v2/SendPayment` and reads `InvoiceURL` |
| InvoiceDispatch.MyFatoorahPayment.EmbeddedPayment | src/API/Payment/MyFatoorahPayment.php:246-253 | sends the request with `SessionId` set to `/v2/ExecutePayment` and reads `PaymentURL` |
| InvoiceDispatch.MyFatoorahPayment.GetInvoiceUrl | src/API/Payment/MyFatoorahPayment.php:177-191 | exactly one request is sent, the one `DispatchedRequest` describes, and the link is read from the field of the route taken |
| InvoiceDispatch.SessionWins | src/API/Payment/MyFatoorahPayment.php:184-185 | a session id decides the route whatever the gateway id |
| InvoiceDispatch.NotificationOptionOverwritten | src/API/Payment/MyFatoorahPayment.php:228 | an invoice link request carries the notification option argument whatever the request held |
| InvoiceDispatch.EmailNormalised | src/API/Payment/MyFatoorahPayment.php:182 | the dispatched request carries the e-mail, or null in place of an empty one |
| InvoiceDispatch.LinkFieldByRoute | src/API/Payment/MyFatoorahPayment.php:211-252 | only the invoice-link route reads `InvoiceURL`; all three read `Data.InvoiceId` |

## Left out

- Transport and logging: cURL, `ini_set`, the request and response log lines and `log()` are I/O. `callAPI` is kept only as the throw/return decision after the transfer, with the cURL error and the body as inputs.
- `getMyFatoorahCountries` and `createNewMFConfigFile` keep a file cache and download the country table. The table is a parameter of the constructor.
- `initiatePayment` writes a file cache and `getCachedVendorGateways` reads it. The method lists they return are parameters.
- `getCurrencyRates`, `getEmbeddedSession` and `registerApplePayDomain` are API calls only. The rate list is a parameter (`parse_url` is foreign).
- HMAC-SHA256, base64, `strip_tags` and `json_decode` are library primitives. They are function parameters, and the model proves nothing about them.
- ApiErrors: JSON numbers are integers. Only their truthiness and their text matter to the error procedure, and floats render differently in PHP.
- GatewayAmount.EmbeddedGatewayData: amounts are exact reals, not PHP doubles, so float drift is not modelled. `number_format` rendering of the amount is left out, so the amount is a number, not a string.
- GatewayAmount.ApiGatewayData: exact reals as above. `round` rounds half away from zero on the exact value.
- PHP's loose comparison is modelled as string equality for currency codes, payment method ids and codes, and the gateway id `'myfatoorah'`. Numeric strings such as `"1.0" == "1"` are not modelled.
- EmbeddedCheckout.BaseCurrency: with an empty rate list PHP reads `null` as the portal currency, and `array_search(null, …)` would match a gateway whose currency is `""`. The model finds no portal currency instead.
- Webhook: values are taken as the strings `sprintf('%s')` makes of them. Keys are strings; PHP's integer keys are not modelled.
- Webhook: the data array is a sequence of entries. A PHP array cannot repeat a key, and `Webhook.CanonicalStringOrderFree` needs keys distinct up to case.
- Webhook: `strcasecmp` is modelled on code points with ASCII case folding. On UTF-8 this is the byte order PHP uses.
- EmbeddedCheckout.MyFatoorahPaymentEmbedded.GetCheckoutGateways: the static field, shared by every instance, is the field of one object. The `GatewayData` written onto shared gateway objects is a new value in the buckets; aliasing of those objects is not modelled.
- Checkout.FindPaymentMethod: `getOnePaymentMethod` accepts any property name as `$gatewayType`. The model covers `PaymentMethodId` and `PaymentMethodCode`, the two the library documents.
- Checkout.GetOnePaymentMethod: the method list is an input, not the result of an `initiatePayment` call.
- InvoiceDispatch.MyFatoorahPayment.CallApi: the response is an input function of endpoint and request. The order id and the function name only feed the log.
- Phone: an `&` that does not start a whole Persian or Arabic-Indic digit entity is not characterised. The passes run one after another, so such pieces can be assembled into an entity by an earlier pass.
- Phone: strings are sequences of code points, not bytes. After normalisation only ASCII digits remain, so lengths agree with `strlen`.
