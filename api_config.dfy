/** The `MyfatoorahApiV2` constructor: which API base URL a client talks
    to, chosen from the country table by country code and test flag, and
    the API key it sends, with surrounding blanks removed. The country
    table, which the library downloads and caches in a file, is a
    parameter here; the logger fields are not modelled. */
module ApiConfig {
  import opened Php

  /** One row of the country table: the live and the test base URL. */
  datatype CountryUrls = CountryUrls(v2: string, testv2: string)

  type CountryTable = map<string, CountryUrls>

  const DefaultTestUrl: string := "https://apitest.myfatoorah.com"

  const DefaultLiveUrl: string := "https://api.myfatoorah.com"

  /** The base URL for a country mode: the table row of the upper-cased
      code, test or live; the default MyFatoorah host when the code is not
      in the table. */
  function ApiUrlFor(countries: CountryTable, countryMode: string, isTest: bool): (url: string)
    ensures ToUpper(countryMode) in countries ==>
              url == (if isTest then countries[ToUpper(countryMode)].testv2 else countries[ToUpper(countryMode)].v2)
    ensures ToUpper(countryMode) !in countries ==> url == (if isTest then DefaultTestUrl else DefaultLiveUrl)
  {
    var code := ToUpper(countryMode);
    if code in countries then
      (if isTest then countries[code].testv2 else countries[code].v2)
    else if isTest then DefaultTestUrl else DefaultLiveUrl
  }

  /** The country code is matched without regard to ASCII case. */
  lemma ApiUrlIgnoresCase(countries: CountryTable, countryMode: string, isTest: bool)
    ensures ApiUrlFor(countries, countryMode, isTest) == ApiUrlFor(countries, ToUpper(countryMode), isTest)
  {
    ToUpperIdempotent(countryMode);
  }

  /** A table row whose key is not all upper case is never selected. */
  lemma LowerCaseRowUnreachable(countries: CountryTable, countryMode: string, isTest: bool, key: string)
    requires ToUpper(key) != key
    ensures ApiUrlFor(countries, countryMode, isTest)
            == ApiUrlFor(countries - {key}, countryMode, isTest)
  {
    var code := ToUpper(countryMode);
    ToUpperIdempotent(countryMode);
    if code == key {
      assert false;
    }
  }

  /** Trimming is idempotent, so a key that is already trimmed is stored
      as given. */
  lemma TrimIdempotent(s: string)
    ensures Trim(Trim(s)) == Trim(s)
  {
    var r := Trim(s);
    if r != [] {
      assert TrimLeft(r) == r;
      assert TrimRight(r) == r;
    }
  }

  /** A client as the constructor leaves it. */
  class MyfatoorahApiV2 {
    var apiURL: string
    var apiKey: string

    constructor(apiKey: string, countryMode: string, isTest: bool, countries: CountryTable)
      ensures this.apiURL == ApiUrlFor(countries, countryMode, isTest)
      ensures this.apiKey == Trim(apiKey)
    {
      var code := ToUpper(countryMode);
      if code in countries {
        this.apiURL := if isTest then countries[code].testv2 else countries[code].v2;
      } else {
        this.apiURL := if isTest then DefaultTestUrl else DefaultLiveUrl;
      }
      this.apiKey := Trim(apiKey);
    }
  }
}
