/** `MyfatoorahApiV2::getWeightRate` and `getDimensionRate`: the factor
    that converts a shipping weight to kilograms and a dimension to
    centimetres, for the English and Arabic spellings the library accepts.
    PHP returns an int for the default unit and a float otherwise; the
    model returns exact reals. */
module Units {
  import opened Php

  const WeightMessage: string := "Weight units must be in kg, g, lbs, or oz. Default is kg"

  const DimensionMessage: string := "Dimension units must be in cm, m, mm, in, or yd. Default is cm"

  /** Every accepted weight spelling, lower-case, with its factor to kg. */
  const WeightUnits: map<string, real> := map[
    "kg" := 1.0, "kgs" := 1.0, "كج" := 1.0, "كلغ" := 1.0, "كيلو جرام" := 1.0, "كيلو غرام" := 1.0,
    "g" := 0.001, "جرام" := 0.001, "غرام" := 0.001, "جم" := 0.001,
    "lbs" := 0.453592, "lb" := 0.453592, "رطل" := 0.453592, "باوند" := 0.453592,
    "oz" := 0.0283495, "اوقية" := 0.0283495, "أوقية" := 0.0283495
  ]

  /** Every accepted dimension spelling, lower-case, with its factor to cm. */
  const DimensionUnits: map<string, real> := map[
    "cm" := 1.0, "سم" := 1.0,
    "m" := 100.0, "متر" := 100.0, "م" := 100.0,
    "mm" := 0.1, "مم" := 0.1,
    "in" := 2.54, "انش" := 2.54, "إنش" := 2.54, "بوصه" := 2.54, "بوصة" := 2.54,
    "yd" := 91.44, "يارده" := 91.44, "ياردة" := 91.44
  ]

  /** `getWeightRate`: the factor of the listed unit the lower-cased
      argument names, or the weight exception. */
  function GetWeightRate(unit: string): (r: Outcome<real>)
    ensures r.Ok? <==> ToLower(unit) in WeightUnits
    ensures r.Ok? ==> r.value == WeightUnits[ToLower(unit)]
    ensures !r.Ok? ==> r == Thrown(WeightMessage)
  {
    var unit1 := ToLower(unit);
    if unit1 == "kg" || unit1 == "kgs" || unit1 == "كج" || unit1 == "كلغ" || unit1 == "كيلو جرام" || unit1 == "كيلو غرام" then
      Ok(1.0)
    else if unit1 == "g" || unit1 == "جرام" || unit1 == "غرام" || unit1 == "جم" then
      Ok(0.001)
    else if unit1 == "lbs" || unit1 == "lb" || unit1 == "رطل" || unit1 == "باوند" then
      Ok(0.453592)
    else if unit1 == "oz" || unit1 == "اوقية" || unit1 == "أوقية" then
      Ok(0.0283495)
    else
      Thrown(WeightMessage)
  }

  /** `getDimensionRate`: the factor of the listed unit the lower-cased
      argument names, or the dimension exception. */
  function GetDimensionRate(unit: string): (r: Outcome<real>)
    ensures r.Ok? <==> ToLower(unit) in DimensionUnits
    ensures r.Ok? ==> r.value == DimensionUnits[ToLower(unit)]
    ensures !r.Ok? ==> r == Thrown(DimensionMessage)
  {
    var unit1 := ToLower(unit);
    if unit1 == "cm" || unit1 == "سم" then
      Ok(1.0)
    else if unit1 == "m" || unit1 == "متر" || unit1 == "م" then
      Ok(100.0)
    else if unit1 == "mm" || unit1 == "مم" then
      Ok(0.1)
    else if unit1 == "in" || unit1 == "انش" || unit1 == "إنش" || unit1 == "بوصه" || unit1 == "بوصة" then
      Ok(2.54)
    else if unit1 == "yd" || unit1 == "يارده" || unit1 == "ياردة" then
      Ok(91.44)
    else
      Thrown(DimensionMessage)
  }

  /** Matching ignores ASCII case: "KG", "Kg" and "kg" are one unit. */
  lemma WeightRateIgnoresCase(unit: string)
    ensures GetWeightRate(unit) == GetWeightRate(ToLower(unit))
  {
    ToLowerIdempotent(unit);
  }

  lemma DimensionRateIgnoresCase(unit: string)
    ensures GetDimensionRate(unit) == GetDimensionRate(ToLower(unit))
  {
    ToLowerIdempotent(unit);
  }

  /** Kilograms are the largest accepted weight unit, so every factor is
      positive and at most 1. */
  lemma WeightRateInKilograms(unit: string)
    ensures GetWeightRate(unit).Ok? ==> 0.0 < GetWeightRate(unit).value <= 1.0
  {
    var r := GetWeightRate(unit);
    if r.Ok? {
      var u := ToLower(unit);
      assert u in WeightUnits;
      assert forall k :: k in WeightUnits ==> 0.0 < WeightUnits[k] <= 1.0;
    }
  }

  /** Every dimension factor lies between that of millimetres and that of
      metres. */
  lemma DimensionRateBounds(unit: string)
    ensures GetDimensionRate(unit).Ok? ==> 0.1 <= GetDimensionRate(unit).value <= 100.0
  {
    var r := GetDimensionRate(unit);
    if r.Ok? {
      var u := ToLower(unit);
      assert u in DimensionUnits;
      assert forall k :: k in DimensionUnits ==> 0.1 <= DimensionUnits[k] <= 100.0;
    }
  }
}
