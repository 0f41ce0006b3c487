/**
 * The pricing calculator of the car valuation service: segment
 * classification, depreciated base value, trim, condition and mileage
 * multipliers, the separate depreciation formula, and the composition into
 * a prediction with a range and a confidence label.
 *
 * The two ordered module-level tables (the price catalog and the trim
 * multipliers) are passed in as `catalog` and `multipliers`; the service
 * passes BASE_VALUES and TRIM_MULTIPLIERS.  The current year is a parameter.
 */
module Valuation {
  import opened Wrappers
  import opened Table
  import opened Catalog
  import opened PyNum
  import opened PyStr

  // ----- Segment classification (get_car_category) -----

  /** Segment k is the first at or after i whose make table contains make. */
  predicate FirstSegmentFrom(catalog: Prices, make: string, i: int, k: int) {
    && 0 <= i <= k < |catalog|
    && HasKey(catalog[k].1, make)
    && forall j :: i <= j < k ==> !HasKey(catalog[j].1, make)
  }

  /** No segment at or after i lists make. */
  predicate NoSegmentFrom(catalog: Prices, make: string, i: int) {
    forall j :: 0 <= i <= j < |catalog| ==> !HasKey(catalog[j].1, make)
  }

  /** The segment name a scan from position i returns; "Mainstream" when none lists make. */
  function SegmentScan(catalog: Prices, make: string, i: nat): (category: string)
    requires i <= |catalog|
    ensures || (exists k :: FirstSegmentFrom(catalog, make, i, k) && category == catalog[k].0)
            || (NoSegmentFrom(catalog, make, i) && category == "Mainstream")
    decreases |catalog| - i
  {
    if i == |catalog| then "Mainstream"
    else if HasKey(catalog[i].1, make) then
      assert FirstSegmentFrom(catalog, make, i, i);
      catalog[i].0
    else
      var c := SegmentScan(catalog, make, i + 1);
      assert || (exists k :: FirstSegmentFrom(catalog, make, i, k) && c == catalog[k].0)
             || (NoSegmentFrom(catalog, make, i) && c == "Mainstream") by {
        if exists k :: FirstSegmentFrom(catalog, make, i + 1, k) && c == catalog[k].0 {
          var k :| FirstSegmentFrom(catalog, make, i + 1, k) && c == catalog[k].0;
          assert FirstSegmentFrom(catalog, make, i, k);
        }
      }
      c
  }

  /** `get_car_category(make)` */
  function CarCategory(catalog: Prices, make: string): string {
    SegmentScan(catalog, make, 0)
  }

  /** The loop of `get_car_category`, returning as soon as a segment lists the make. */
  method GetCarCategory(catalog: Prices, make: string) returns (category: string)
    ensures || (exists k :: FirstSegmentFrom(catalog, make, 0, k) && category == catalog[k].0)
            || (NoSegmentFrom(catalog, make, 0) && category == "Mainstream")
    ensures category == CarCategory(catalog, make)
  {
    for i := 0 to |catalog|
      invariant SegmentScan(catalog, make, i) == CarCategory(catalog, make)
    {
      if HasKey(catalog[i].1, make) {
        return catalog[i].0;
      }
    }
    return "Mainstream";
  }

  /** With the shipped catalog the category is always one of the five segment names. */
  lemma CarCategoryIsSegment(make: string)
    ensures CarCategory(BASE_VALUES, make) in SEGMENTS
  {
    SegmentNames();
    var category := CarCategory(BASE_VALUES, make);
    if exists k :: FirstSegmentFrom(BASE_VALUES, make, 0, k) && category == BASE_VALUES[k].0 {
      var k :| FirstSegmentFrom(BASE_VALUES, make, 0, k) && category == BASE_VALUES[k].0;
      assert Keys(BASE_VALUES)[k] == category;
    }
  }

  /** Some segment of the catalog lists the make. */
  predicate KnownMake(catalog: Prices, make: string) {
    exists i :: 0 <= i < |catalog| && HasKey(catalog[i].1, make)
  }

  /** A make that segment i lists is classified into segment i. */
  lemma CarCategoryOfListedMake(catalog: Prices, i: nat, j: nat)
    requires MakesUnique(catalog)
    requires i < |catalog| && j < |catalog[i].1|
    ensures CarCategory(catalog, catalog[i].1[j].0) == catalog[i].0
  {
    var make := catalog[i].1[j].0;
    assert HasKey(catalog[i].1, make);
    assert !NoSegmentFrom(catalog, make, 0);
    var c := SegmentScan(catalog, make, 0);
    var k :| FirstSegmentFrom(catalog, make, 0, k) && c == catalog[k].0;
    assert HasKey(catalog[k].1, make);
    var j' := IndexOf(catalog[k].1, make);
    assert catalog[k].1[j'].0 == catalog[i].1[j].0;
  }

  /** A make no segment lists is classified "Mainstream". */
  lemma CarCategoryOfUnknownMake(catalog: Prices, make: string)
    requires !KnownMake(catalog, make)
    ensures CarCategory(catalog, make) == "Mainstream"
  {
    assert NoSegmentFrom(catalog, make, 0);
  }

  // ----- Base value (get_base_value) -----

  /** `BASE_VALUES[category][make][model]`, None where Python raises KeyError. */
  function CatalogPrice(catalog: Prices, category: string, make: string, model: string): Option<real> {
    match Get(catalog, category)
    case None => None
    case Some(makes) =>
      match Get(makes, make)
      case None => None
      case Some(models) => Get(models, model)
  }

  /** The undepreciated price: the catalog entry, else the segment fallback. */
  function BasePrice(catalog: Prices, make: string, model: string): real {
    var category := CarCategory(catalog, make);
    match CatalogPrice(catalog, category, make, model)
    case Some(p) => p
    case None => FallbackValue(category)
  }

  /** Segment i lists make at position j and that make lists model at position k. */
  predicate ListedAt(catalog: Prices, make: string, model: string, i: int, j: int, k: int) {
    && 0 <= i < |catalog| && 0 <= j < |catalog[i].1| && 0 <= k < |catalog[i].1[j].1|
    && catalog[i].1[j].0 == make && catalog[i].1[j].1[k].0 == model
  }

  /** The catalog has an entry for make and model. */
  ghost predicate Listed(catalog: Prices, make: string, model: string) {
    exists i, j, k :: ListedAt(catalog, make, model, i, j, k)
  }

  /** A catalogued make and model take their catalog price. */
  lemma BasePriceOfListed(catalog: Prices, make: string, model: string, i: nat, j: nat, k: nat)
    requires WellFormed(catalog)
    requires ListedAt(catalog, make, model, i, j, k)
    ensures BasePrice(catalog, make, model) == catalog[i].1[j].1[k].1
  {
    CarCategoryOfListedMake(catalog, i, j);
    GetAt(catalog, i);
    assert UniqueKeys(catalog[i].1) by {
      forall j1, j2 | 0 <= j1 < j2 < |catalog[i].1| ensures catalog[i].1[j1].0 != catalog[i].1[j2].0 {
      }
    }
    GetAt(catalog[i].1, j);
    GetAt(catalog[i].1[j].1, k);
  }

  /** Any other make and model take the fallback price of the make's segment. */
  lemma BasePriceOfUnlisted(catalog: Prices, make: string, model: string)
    requires !Listed(catalog, make, model)
    ensures BasePrice(catalog, make, model) == FallbackValue(CarCategory(catalog, make))
  {
    var category := CarCategory(catalog, make);
    if CatalogPrice(catalog, category, make, model).Some? {
      var i := IndexOf(catalog, category);
      var makes := catalog[i].1;
      var j := IndexOf(makes, make);
      var k := IndexOf(makes[j].1, model);
      assert ListedAt(catalog, make, model, i, j, k);
    }
  }

  /** The undepreciated price is always positive. */
  lemma BasePricePositive(catalog: Prices, make: string, model: string)
    requires WellFormed(catalog)
    ensures BasePrice(catalog, make, model) > 0.0
  {
    if Listed(catalog, make, model) {
      var i, j, k :| ListedAt(catalog, make, model, i, j, k);
      BasePriceOfListed(catalog, make, model, i, j, k);
    } else {
      BasePriceOfUnlisted(catalog, make, model);
    }
  }

  /** `base * math.pow(1 - rate, age)` floored at `base * floor`. */
  function Depreciated(base: real, rate: real, floor: real, age: int): real
    requires 0.0 < rate < 1.0
  {
    Max(base * IntPow(1.0 - rate, age), base * floor)
  }

  /**
   * The depreciated value is never below the floor, equals the base at age 0,
   * is at most the base for ages >= 0 and at least the base for ages <= 0.
   */
  lemma DepreciatedBounds(base: real, rate: real, floor: real, age: int)
    requires base > 0.0 && 0.0 < rate < 1.0 && 0.0 < floor <= 1.0
    ensures Depreciated(base, rate, floor, age) >= base * floor
    ensures age == 0 ==> Depreciated(base, rate, floor, age) == base
    ensures age >= 0 ==> Depreciated(base, rate, floor, age) <= base
    ensures age <= 0 ==> Depreciated(base, rate, floor, age) >= base
  {
    IntPowVersusOne(1.0 - rate, age);
    assert base * floor <= base;
    if age >= 0 {
      assert base * IntPow(1.0 - rate, age) <= base;
    }
    if age <= 0 {
      assert base * IntPow(1.0 - rate, age) >= base;
    }
  }

  /** A larger age never gives a larger depreciated value. */
  lemma DepreciatedAntitone(base: real, rate: real, floor: real, age1: int, age2: int)
    requires base > 0.0 && 0.0 < rate < 1.0
    requires age1 <= age2
    ensures Depreciated(base, rate, floor, age2) <= Depreciated(base, rate, floor, age1)
  {
    var b := 1.0 - rate;
    IntPowAntitone(b, age1, age2);
    ScaledMaxMonotone(base, IntPow(b, age1), IntPow(b, age2), base * floor);
  }

  /** The depreciation a segment applies to a base price at a given age. */
  function SegmentDepreciated(category: string, base: real, age: int): real {
    Depreciated(base, DepreciationRate(category), MinValuePercent(category), age)
  }

  /** A segment's depreciation keeps the value between its floor and the base price, as DepreciatedBounds states. */
  lemma SegmentDepreciatedBounds(category: string, base: real, age: int)
    requires base > 0.0
    ensures SegmentDepreciated(category, base, age) >= base * MinValuePercent(category)
    ensures age == 0 ==> SegmentDepreciated(category, base, age) == base
    ensures age >= 0 ==> SegmentDepreciated(category, base, age) <= base
    ensures age <= 0 ==> SegmentDepreciated(category, base, age) >= base
  {
    DepreciatedBounds(base, DepreciationRate(category), MinValuePercent(category), age);
  }

  /**
   * `get_base_value(make, model, year)` in the year currentYear.  The age
   * `currentYear - year` is not clamped: a model year after the current year
   * gives a negative age.
   */
  function BaseValue(catalog: Prices, make: string, model: string, year: int, currentYear: int): real {
    SegmentDepreciated(CarCategory(catalog, make), BasePrice(catalog, make, model), currentYear - year)
  }

  /**
   * The base value is never below the segment's floor fraction of the base
   * price; a car of the current model year is worth exactly the base price,
   * an older one at most that much and one of a later model year at least that much.
   */
  lemma BaseValueBounds(catalog: Prices, make: string, model: string, year: int, currentYear: int)
    requires WellFormed(catalog)
    ensures var base := BasePrice(catalog, make, model);
      && BaseValue(catalog, make, model, year, currentYear) >= base * MinValuePercent(CarCategory(catalog, make))
      && (currentYear == year ==> BaseValue(catalog, make, model, year, currentYear) == base)
      && (currentYear >= year ==> BaseValue(catalog, make, model, year, currentYear) <= base)
      && (currentYear <= year ==> BaseValue(catalog, make, model, year, currentYear) >= base)
  {
    BasePricePositive(catalog, make, model);
    SegmentDepreciatedBounds(CarCategory(catalog, make), BasePrice(catalog, make, model), currentYear - year);
  }

  /** The base value never grows as the car ages: an earlier model year is worth no more. */
  lemma BaseValueAntitone(catalog: Prices, make: string, model: string, year1: int, year2: int, currentYear: int)
    requires WellFormed(catalog)
    requires year2 <= year1
    ensures BaseValue(catalog, make, model, year2, currentYear) <= BaseValue(catalog, make, model, year1, currentYear)
  {
    var category, base := CarCategory(catalog, make), BasePrice(catalog, make, model);
    BasePricePositive(catalog, make, model);
    DepreciatedAntitone(base, DepreciationRate(category), MinValuePercent(category),
      currentYear - year1, currentYear - year2);
  }

  /** Nor does it grow as the current year advances. */
  lemma BaseValueAntitoneInTime(catalog: Prices, make: string, model: string, year: int, currentYear1: int, currentYear2: int)
    requires WellFormed(catalog)
    requires currentYear1 <= currentYear2
    ensures BaseValue(catalog, make, model, year, currentYear2) <= BaseValue(catalog, make, model, year, currentYear1)
  {
    var category, base := CarCategory(catalog, make), BasePrice(catalog, make, model);
    BasePricePositive(catalog, make, model);
    DepreciatedAntitone(base, DepreciationRate(category), MinValuePercent(category),
      currentYear1 - year, currentYear2 - year);
  }

  // ----- Trim multiplier (get_trim_multiplier) -----

  /** The lower-cased key at index k of t occurs in s. */
  predicate KeyContained(t: Table<real>, s: string, k: int)
    requires 0 <= k < |t|
  {
    Contains(s, Lower(t[k].0))
  }

  /** Index k is the first at or after i whose lower-cased key occurs in s. */
  predicate FirstContainedFrom(t: Table<real>, s: string, i: int, k: int) {
    && 0 <= i <= k < |t|
    && KeyContained(t, s, k)
    && forall j :: i <= j < k ==> !KeyContained(t, s, j)
  }

  /** No lower-cased key at or after i occurs in s. */
  predicate NoneContainedFrom(t: Table<real>, s: string, i: int) {
    forall j :: 0 <= i <= j < |t| ==> !KeyContained(t, s, j)
  }

  /** The partial-match scan from index i: the first contained key's value, or 1.0. */
  function SubstringScan(t: Table<real>, s: string, i: nat): (m: real)
    requires i <= |t|
    ensures || (exists k :: FirstContainedFrom(t, s, i, k) && m == t[k].1)
            || (NoneContainedFrom(t, s, i) && m == 1.0)
    decreases |t| - i
  {
    if i == |t| then 1.0
    else if Contains(s, Lower(t[i].0)) then
      assert FirstContainedFrom(t, s, i, i);
      t[i].1
    else
      var m := SubstringScan(t, s, i + 1);
      assert || (exists k :: FirstContainedFrom(t, s, i, k) && m == t[k].1)
             || (NoneContainedFrom(t, s, i) && m == 1.0) by {
        if exists k :: FirstContainedFrom(t, s, i + 1, k) && m == t[k].1 {
          var k :| FirstContainedFrom(t, s, i + 1, k) && m == t[k].1;
          assert FirstContainedFrom(t, s, i, k);
        }
      }
      m
  }

  /** `get_trim_multiplier(trim)`; None and "" are the falsy trims. */
  function TrimMultiplier(multipliers: Table<real>, trim: Option<string>): real {
    match trim
    case None => 1.0
    case Some(t) =>
      if t == "" then 1.0
      else if HasKey(multipliers, t) then Get(multipliers, t).value
      else SubstringScan(multipliers, Lower(t), 0)
  }

  /**
   * No trim gives 1.0; a trim that is a key gives that key's value; any
   * other trim gives the value of the first key, in declaration order, whose
   * lower-cased form occurs in the lower-cased trim, and 1.0 when there is none.
   */
  lemma TrimMultiplierSpec(multipliers: Table<real>, trim: Option<string>)
    ensures (trim == None || trim == Some("")) ==> TrimMultiplier(multipliers, trim) == 1.0
    ensures trim.Some? && trim.value != "" && HasKey(multipliers, trim.value)
            ==> TrimMultiplier(multipliers, trim) == multipliers[IndexOf(multipliers, trim.value)].1
    ensures trim.Some? && trim.value != "" && !HasKey(multipliers, trim.value)
            ==> || (exists k :: FirstContainedFrom(multipliers, Lower(trim.value), 0, k)
                              && TrimMultiplier(multipliers, trim) == multipliers[k].1)
                || (NoneContainedFrom(multipliers, Lower(trim.value), 0) && TrimMultiplier(multipliers, trim) == 1.0)
  {
    if trim.Some? && trim.value != "" && !HasKey(multipliers, trim.value) {
      assert TrimMultiplier(multipliers, trim) == SubstringScan(multipliers, Lower(trim.value), 0);
    }
  }

  /** Every value of t lies in [lo, hi]. */
  predicate ValuesWithin(t: Table<real>, lo: real, hi: real) {
    forall i :: 0 <= i < |t| ==> lo <= t[i].1 <= hi
  }

  /** The multiplier is 1.0 or one of the table's values, so it stays within their bounds. */
  lemma TrimMultiplierWithin(multipliers: Table<real>, trim: Option<string>, lo: real, hi: real)
    requires ValuesWithin(multipliers, lo, hi) && lo <= 1.0 <= hi
    ensures lo <= TrimMultiplier(multipliers, trim) <= hi
  {
    TrimMultiplierSpec(multipliers, trim);
  }

  /** With the shipped table every trim multiplier lies between 1.0 and 2.0. */
  lemma TrimMultiplierRange(trim: Option<string>)
    ensures 1.0 <= TrimMultiplier(TRIM_MULTIPLIERS, trim) <= 2.0
  {
    TrimMultipliersRange();
    TrimMultiplierWithin(TRIM_MULTIPLIERS, trim, 1.0, 2.0);
  }

  /** The loop of `get_trim_multiplier`, returning at the first partial match. */
  method GetTrimMultiplier(multipliers: Table<real>, trim: Option<string>) returns (m: real)
    ensures m == TrimMultiplier(multipliers, trim)
  {
    if trim == None || trim == Some("") {
      return 1.0;
    }
    var t := trim.value;
    if HasKey(multipliers, t) {
      return Get(multipliers, t).value;
    }
    var s := Lower(t);
    assert TrimMultiplier(multipliers, trim) == SubstringScan(multipliers, s, 0);
    for i := 0 to |multipliers|
      invariant SubstringScan(multipliers, s, i) == SubstringScan(multipliers, s, 0)
    {
      var (known, multiplier) := multipliers[i];
      if Contains(s, Lower(known)) {
        return multiplier;
      }
    }
    return 1.0;
  }

  // ----- Mileage impact (calculate_mileage_impact) -----

  /** `calculate_mileage_impact(mileage, category)`; None and 0 are the falsy mileages. */
  function MileageImpact(mileage: Option<real>, category: string): real {
    match mileage
    case None => 1.0
    case Some(miles) =>
      if miles == 0.0 then 1.0
      else Max(0.3, 1.0 - (miles / MileageThreshold(category)) * MileageImpactRate(category))
  }

  /**
   * No or zero mileage gives 1.0; the multiplier never drops below 0.3 and,
   * for a non-negative mileage, never exceeds 1.0.
   */
  lemma MileageImpactBounds(mileage: Option<real>, category: string)
    ensures (mileage == None || mileage == Some(0.0)) ==> MileageImpact(mileage, category) == 1.0
    ensures MileageImpact(mileage, category) >= 0.3
    ensures mileage.Some? && mileage.value >= 0.0 ==> MileageImpact(mileage, category) <= 1.0
  {
    if mileage.Some? && mileage.value > 0.0 {
      var ratio := mileage.value / MileageThreshold(category);
      assert ratio >= 0.0;
      MulLeft(MileageImpactRate(category), 0.0, ratio);
    }
  }

  /** More miles never raise the mileage multiplier. */
  lemma MileageImpactAntitone(miles1: real, miles2: real, category: string)
    requires 0.0 <= miles1 <= miles2
    ensures MileageImpact(Some(miles2), category) <= MileageImpact(Some(miles1), category)
  {
    var threshold, impact := MileageThreshold(category), MileageImpactRate(category);
    MileageImpactBounds(Some(miles1), category);
    assert miles1 / threshold <= miles2 / threshold;
    MulLeft(impact, miles1 / threshold, miles2 / threshold);
  }

  // ----- The separate depreciation formula (calculate_depreciation) -----

  /** The mileage factor: 1% off per 1000 miles beyond 12000 a year of age. */
  function MileageFactor(age: int, mileage: Option<real>): real {
    match mileage
    case None => 1.0
    case Some(miles) =>
      if miles == 0.0 then 1.0
      else 1.0 - Max(0.0, miles - age as real * 12000.0) * 0.00001
  }

  /**
   * The mileage factor is at most 1, exactly 1 within the expected mileage,
   * and negative once the excess passes 100000 miles.
   */
  lemma MileageFactorRange(age: int, miles: real)
    ensures MileageFactor(age, Some(miles)) <= 1.0
    ensures miles <= age as real * 12000.0 ==> MileageFactor(age, Some(miles)) == 1.0
    ensures miles != 0.0 ==> (MileageFactor(age, Some(miles)) >= 0.0 <==> miles - age as real * 12000.0 <= 100000.0)
  {
  }

  /**
   * `calculate_depreciation(initial_value, age, mileage, condition)`: the
   * product of the initial value and the age, mileage and condition factors,
   * multiplied left to right; AgedValue and AgedMileageValue name its prefixes.
   */
  function Depreciation(initialValue: real, age: int, mileage: Option<real>, condition: string): real {
    AgedMileageValue(initialValue, age, mileage) * ConditionFactor(condition)
  }

  /** The initial value after the yearly decay, `initial_value * age_factor`. */
  function AgedValue(initialValue: real, age: int): real {
    initialValue * IntPow(0.85, age)
  }

  /** The aged value after the mileage factor. */
  function AgedMileageValue(initialValue: real, age: int, mileage: Option<real>): real {
    AgedValue(initialValue, age) * MileageFactor(age, mileage)
  }

  /** With no mileage and an unknown condition only the 15% yearly decay applies. */
  lemma DepreciationPlain(initialValue: real, age: int, condition: string)
    requires condition !in CONDITIONS
    ensures Depreciation(initialValue, age, None, condition) == initialValue * IntPow(0.85, age)
    ensures Depreciation(initialValue, age, Some(0.0), condition) == initialValue * IntPow(0.85, age)
  {
  }

  /**
   * For a non-negative age and at most 100000 miles over expectation, the
   * value stays between 0 and 1.1 times the initial value.
   */
  lemma DepreciationBounds(initialValue: real, age: int, mileage: Option<real>, condition: string)
    requires initialValue >= 0.0 && age >= 0
    requires mileage.Some? ==> mileage.value - age as real * 12000.0 <= 100000.0
    ensures 0.0 <= Depreciation(initialValue, age, mileage, condition) <= 1.1 * initialValue
  {
    AgedMileageBound(initialValue, age, mileage);
    ScaledBound(AgedMileageValue(initialValue, age, mileage), ConditionFactor(condition), initialValue, 1.1);
  }

  /** The yearly decay keeps a non-negative value within [0, initialValue] for ages >= 0. */
  lemma AgedBound(initialValue: real, age: int)
    requires initialValue >= 0.0 && age >= 0
    ensures 0.0 <= AgedValue(initialValue, age) <= initialValue
  {
    IntPowVersusOne(0.85, age);
    IntPowPositive(0.85, age);
    FractionOf(initialValue, IntPow(0.85, age));
  }

  /** The yearly decay and the mileage factor together keep the value within [0, initialValue]. */
  lemma AgedMileageBound(initialValue: real, age: int, mileage: Option<real>)
    requires initialValue >= 0.0 && age >= 0
    requires mileage.Some? ==> mileage.value - age as real * 12000.0 <= 100000.0
    ensures 0.0 <= AgedMileageValue(initialValue, age, mileage) <= initialValue
  {
    AgedBound(initialValue, age);
    MileageFactorWithin(age, mileage);
    FractionOf(AgedValue(initialValue, age), MileageFactor(age, mileage));
  }

  /** Up to 100000 miles over expectation the mileage factor is a fraction in [0, 1]. */
  lemma MileageFactorWithin(age: int, mileage: Option<real>)
    requires mileage.Some? ==> mileage.value - age as real * 12000.0 <= 100000.0
    ensures 0.0 <= MileageFactor(age, mileage) <= 1.0
  {
    if mileage.Some? {
      MileageFactorRange(age, mileage.value);
    }
  }

  // ----- The prediction (predict_value) -----

  /** The request body of /predict. */
  datatype CarDetails = CarDetails(
    make: string, model: string, trim: Option<string>, year: int,
    mileage: Option<real>, condition: string, zipCode: Option<string>)

  /** The response of /predict, without its timestamp. */
  datatype Prediction = Prediction(
    predictedValue: int, low: int, high: int, category: string, baseValue: int,
    trimMultiplier: real, conditionMultiplier: real, mileageMultiplier: real,
    confidence: string)

  /** `base_value * trim_multiplier * condition_multiplier * mileage_multiplier` */
  function Estimate(base: real, trim: real, condition: real, mileage: real): real {
    base * trim * condition * mileage
  }

  lemma EstimatePositive(base: real, trim: real, condition: real, mileage: real)
    requires base > 0.0 && trim > 0.0 && condition > 0.0 && mileage > 0.0
    ensures Estimate(base, trim, condition, mileage) > 0.0
  {
    ProductPositive(base, trim, condition, mileage);
  }

  /** The product of the base value and the three multipliers, before rounding. */
  function UnroundedValue(catalog: Prices, multipliers: Table<real>, car: CarDetails, currentYear: int): real {
    Estimate(
      BaseValue(catalog, car.make, car.model, car.year, currentYear),
      TrimMultiplier(multipliers, car.trim),
      ConditionMultiplier(car.condition),
      MileageImpact(car.mileage, CarCategory(catalog, car.make)))
  }

  /** "high" when the make is listed in its own segment's table, "medium" otherwise. */
  function Confidence(catalog: Prices, make: string, category: string): string {
    if HasKey(GetOr(catalog, category, []), make) then "high" else "medium"
  }

  /**
   * The response for an unrounded value and the segment's range multiplier
   * r: the value rounded to the hundred, and the value scaled by 1 - r and
   * 1 + r rounded to the unit, with the factors it was built from.
   */
  function Priced(value: real, r: real, category: string, base: real, trim: real,
                  condition: real, mileage: real, confidence: string): Prediction {
    Prediction(
      RoundHalfEven(value / 100.0) * 100,
      RoundHalfEven(value * (1.0 - r)), RoundHalfEven(value * (1.0 + r)),
      category, RoundHalfEven(base), trim, condition, mileage, confidence)
  }

  /** `predict_value(car)` in the year currentYear. */
  function PredictValue(catalog: Prices, multipliers: Table<real>, car: CarDetails, currentYear: int): Prediction {
    var category := CarCategory(catalog, car.make);
    Priced(UnroundedValue(catalog, multipliers, car, currentYear), RangeMultiplier(category), category,
      BaseValue(catalog, car.make, car.model, car.year, currentYear),
      TrimMultiplier(multipliers, car.trim), ConditionMultiplier(car.condition),
      MileageImpact(car.mileage, category), Confidence(catalog, car.make, category))
  }

  /**
   * For a positive value and 0 <= r <= 1 the estimate is a multiple of 100
   * within 50 of the value, and the range brackets the value with its
   * low end never above its high end.
   */
  lemma PricedRounding(value: real, r: real, category: string, base: real, trim: real,
                       condition: real, mileage: real, confidence: string)
    requires value > 0.0 && 0.0 <= r <= 1.0
    ensures var p := Priced(value, r, category, base, trim, condition, mileage, confidence);
      && p.predictedValue % 100 == 0
      && -50.0 <= p.predictedValue as real - value <= 50.0
      && p.low as real <= value + 0.5
      && value - 0.5 <= p.high as real
      && p.low <= p.high
  {
    RoundedToHundred(value);
    RoundedRange(value, r);
  }

  /** The base value of any car is positive. */
  lemma BaseValuePositive(catalog: Prices, make: string, model: string, year: int, currentYear: int)
    requires WellFormed(catalog)
    ensures BaseValue(catalog, make, model, year, currentYear) > 0.0
  {
    BaseValueBounds(catalog, make, model, year, currentYear);
    BasePricePositive(catalog, make, model);
    MulPositive(BasePrice(catalog, make, model), MinValuePercent(CarCategory(catalog, make)));
  }

  /** Every factor is positive when the trim multipliers are, so the unrounded value is too. */
  lemma UnroundedValuePositive(catalog: Prices, multipliers: Table<real>, car: CarDetails, currentYear: int)
    requires WellFormed(catalog) && ValuesWithin(multipliers, 1.0, 2.0)
    ensures UnroundedValue(catalog, multipliers, car, currentYear) > 0.0
  {
    BaseValuePositive(catalog, car.make, car.model, car.year, currentYear);
    TrimMultiplierWithin(multipliers, car.trim, 1.0, 2.0);
    MileageImpactBounds(car.mileage, CarCategory(catalog, car.make));
    EstimatePositive(
      BaseValue(catalog, car.make, car.model, car.year, currentYear),
      TrimMultiplier(multipliers, car.trim),
      ConditionMultiplier(car.condition),
      MileageImpact(car.mileage, CarCategory(catalog, car.make)));
  }

  /**
   * With positive catalog prices and trim multipliers in [1, 2], the
   * unrounded value is positive, the estimate is a multiple of 100 within 50
   * of it, and the range brackets it with its low end never above its high end.
   */
  lemma PredictValueRounding(catalog: Prices, multipliers: Table<real>, car: CarDetails, currentYear: int)
    requires WellFormed(catalog) && ValuesWithin(multipliers, 1.0, 2.0)
    ensures var p, v := PredictValue(catalog, multipliers, car, currentYear), UnroundedValue(catalog, multipliers, car, currentYear);
      && v > 0.0
      && p.predictedValue % 100 == 0
      && -50.0 <= p.predictedValue as real - v <= 50.0
      && p.low as real <= v + 0.5
      && v - 0.5 <= p.high as real
      && p.low <= p.high
  {
    var category := CarCategory(catalog, car.make);
    UnroundedValuePositive(catalog, multipliers, car, currentYear);
    PricedRounding(UnroundedValue(catalog, multipliers, car, currentYear), RangeMultiplier(category), category,
      BaseValue(catalog, car.make, car.model, car.year, currentYear),
      TrimMultiplier(multipliers, car.trim), ConditionMultiplier(car.condition),
      MileageImpact(car.mileage, category), Confidence(catalog, car.make, category));
  }

  /**
   * An unknown condition has multiplier 1.0, and the confidence is "high"
   * exactly when some segment lists the make, whatever the model.
   */
  lemma PredictValueLabels(catalog: Prices, multipliers: Table<real>, car: CarDetails, currentYear: int)
    requires WellFormed(catalog)
    ensures car.condition !in CONDITIONS ==> PredictValue(catalog, multipliers, car, currentYear).conditionMultiplier == 1.0
    ensures PredictValue(catalog, multipliers, car, currentYear).confidence == "high" <==> KnownMake(catalog, car.make)
  {
    var category := CarCategory(catalog, car.make);
    if KnownMake(catalog, car.make) {
      var i :| 0 <= i < |catalog| && HasKey(catalog[i].1, car.make);
      var j := IndexOf(catalog[i].1, car.make);
      CarCategoryOfListedMake(catalog, i, j);
      GetAt(catalog, i);
    } else if HasKey(catalog, category) {
      var k := IndexOf(catalog, category);
      assert !HasKey(catalog[k].1, car.make);
    }
  }

  /** The factors of a current-year Toyota Camry: base price 27000, segment "Mainstream", a listed make. */
  lemma ToyotaCamryFactors(currentYear: int)
    ensures CarCategory(BASE_VALUES, "Toyota") == "Mainstream"
    ensures BaseValue(BASE_VALUES, "Toyota", "Camry", currentYear, currentYear) == 27000.0
    ensures KnownMake(BASE_VALUES, "Toyota")
  {
    CatalogWellFormed();
    assert ListedAt(BASE_VALUES, "Toyota", "Camry", 4, 0, 0);
    CarCategoryOfListedMake(BASE_VALUES, 4, 0);
    BasePriceOfListed(BASE_VALUES, "Toyota", "Camry", 4, 0, 0);
    BaseValueBounds(BASE_VALUES, "Toyota", "Camry", currentYear, currentYear);
    assert HasKey(BASE_VALUES[4].1, "Toyota");
  }

  /**
   * A car with no trim and no mileage, in Good condition, whose make is listed
   * in "Mainstream" and whose base value is 27000, is quoted 27000 with a
   * range of 24300 to 29700 and "high" confidence.
   */
  lemma PredictValueMainstream27000(catalog: Prices, multipliers: Table<real>, car: CarDetails, currentYear: int)
    requires WellFormed(catalog)
    requires car.trim == None && car.mileage == None && car.condition == "Good"
    requires CarCategory(catalog, car.make) == "Mainstream" && KnownMake(catalog, car.make)
    requires BaseValue(catalog, car.make, car.model, car.year, currentYear) == 27000.0
    ensures var p := PredictValue(catalog, multipliers, car, currentYear);
      && p.predictedValue == 27000 && p.low == 24300 && p.high == 29700
      && p.category == "Mainstream" && p.baseValue == 27000 && p.confidence == "high"
      && p.trimMultiplier == 1.0 && p.conditionMultiplier == 1.0 && p.mileageMultiplier == 1.0
  {
    PredictValueLabels(catalog, multipliers, car, currentYear);
    assert UnroundedValue(catalog, multipliers, car, currentYear) == 27000.0;
    RoundOfInteger(270);
    RoundOfInteger(24300);
    RoundOfInteger(29700);
    RoundOfInteger(27000);
  }

  /**
   * A Toyota Camry of the current model year in Good condition, with no trim
   * and no mileage given: the service quotes 27000, a range of 24300 to
   * 29700, the "Mainstream" segment and "high" confidence.
   */
  lemma PredictValueToyotaCamry(currentYear: int)
    ensures var p := PredictValue(BASE_VALUES, TRIM_MULTIPLIERS,
                                  CarDetails("Toyota", "Camry", None, currentYear, None, "Good", None), currentYear);
      && p.predictedValue == 27000 && p.low == 24300 && p.high == 29700
      && p.category == "Mainstream" && p.baseValue == 27000 && p.confidence == "high"
  {
    ToyotaCamryFactors(currentYear);
    CatalogWellFormed();
    PredictValueMainstream27000(BASE_VALUES, TRIM_MULTIPLIERS,
      CarDetails("Toyota", "Camry", None, currentYear, None, "Good", None), currentYear);
  }
}
