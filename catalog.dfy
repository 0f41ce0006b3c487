/**
 * The static tables of the valuation engine.  The module-level dictionaries
 * whose declaration order matters (the segment -> make -> model -> price
 * catalog and the trim multipliers) are ordered tables; the small
 * dictionaries that the pricing functions only read with `d.get(k, default)`
 * are functions from the key to the value, with the default in the last case.
 */
module Catalog {
  import opened Table

  /** Base prices by segment ("category"), make and model. */
  type Prices = Table<Table<Table<real>>>

  const BASE_VALUES: Prices := [
    ("Luxury", [
      ("Mercedes-Benz", [("S-Class", 95000.0), ("E-Class", 65000.0), ("C-Class", 45000.0),
                         ("G-Class", 130000.0), ("SLS AMG", 250000.0), ("AMG GT", 120000.0)]),
      ("BMW", [("7 Series", 85000.0), ("5 Series", 55000.0), ("3 Series", 45000.0),
               ("X7", 75000.0), ("M8", 130000.0)]),
      ("Audi", [("A8", 85000.0), ("A6", 55000.0), ("A4", 45000.0), ("Q7", 65000.0),
                ("RS e-tron GT", 140000.0)])]),
    ("Super Luxury", [
      ("Rolls-Royce", [("Phantom", 450000.0), ("Ghost", 350000.0), ("Cullinan", 400000.0)]),
      ("Bentley", [("Continental GT", 200000.0), ("Flying Spur", 250000.0), ("Bentayga", 180000.0)]),
      ("Aston Martin", [("DB11", 200000.0), ("Vantage", 150000.0), ("DBX", 180000.0)])]),
    ("Exotic", [
      ("Ferrari", [("F8", 280000.0), ("SF90", 520000.0), ("812", 340000.0)]),
      ("Lamborghini", [("Huracan", 210000.0), ("Aventador", 420000.0), ("Urus", 230000.0)]),
      ("McLaren", [("720S", 300000.0), ("GT", 200000.0), ("Artura", 225000.0)])]),
    ("Premium", [
      ("Lexus", [("LS", 75000.0), ("ES", 45000.0), ("RX", 55000.0)]),
      ("Porsche", [("911", 110000.0), ("Cayenne", 75000.0), ("Panamera", 90000.0)]),
      ("Tesla", [("Model S", 90000.0), ("Model 3", 45000.0), ("Model X", 100000.0)])]),
    ("Mainstream", [
      ("Toyota", [("Camry", 27000.0), ("Corolla", 22000.0), ("RAV4", 28000.0)]),
      ("Honda", [("Accord", 27000.0), ("Civic", 23000.0), ("CR-V", 28000.0)]),
      ("Ford", [("F-150", 35000.0), ("Mustang", 30000.0), ("Explorer", 35000.0)])])
  ]

  /** The five segment names, the keys of BASE_VALUES in declaration order. */
  const SEGMENTS: seq<string> := ["Luxury", "Super Luxury", "Exotic", "Premium", "Mainstream"]

  /** Trim multipliers, in declaration order (the order of the partial-match scan). */
  const TRIM_MULTIPLIERS: Table<real> := [
    ("AMG", 1.5), ("M", 1.5), ("RS", 1.4), ("F", 1.3), ("Type R", 1.3), ("GT", 1.4),
    ("Sport", 1.1), ("Premium", 1.2), ("Luxury", 1.25), ("Executive", 1.3), ("Maybach", 2.0),
    ("Base", 1.0), ("Standard", 1.0), ("L", 1.0), ("Black Series", 2.0),
    ("Competition", 1.6), ("Limited", 1.15)
  ]

  /** The four known conditions, the keys of CONDITION_MULTIPLIERS. */
  const CONDITIONS: seq<string> := ["Excellent", "Good", "Fair", "Poor"]

  /** `CONDITION_MULTIPLIERS.get(condition, 1.0)` */
  function ConditionMultiplier(condition: string): (m: real)
    ensures 0.6 <= m <= 1.1
    ensures condition !in CONDITIONS ==> m == 1.0
  {
    match condition
    case "Excellent" => 1.1
    case "Good" => 1.0
    case "Fair" => 0.8
    case "Poor" => 0.6
    case _ => 1.0
  }

  /** Fallback base price of a segment when the catalog has no exact entry (default 25000). */
  function FallbackValue(category: string): (v: real)
    ensures 25000.0 <= v <= 250000.0
    ensures category !in SEGMENTS ==> v == 25000.0
  {
    match category
    case "Luxury" => 60000.0
    case "Super Luxury" => 200000.0
    case "Exotic" => 250000.0
    case "Premium" => 50000.0
    case _ => 25000.0
  }

  /** Yearly depreciation rate of a segment (default 0.12). */
  function DepreciationRate(category: string): (r: real)
    ensures 0.07 <= r <= 0.12
    ensures category !in SEGMENTS ==> r == 0.12
  {
    match category
    case "Luxury" => 0.1
    case "Super Luxury" => 0.08
    case "Exotic" => 0.07
    case "Premium" => 0.11
    case _ => 0.12
  }

  /** Value floor of a segment, as a fraction of the base price (default 0.1). */
  function MinValuePercent(category: string): (p: real)
    ensures 0.1 <= p <= 0.4
    ensures category !in SEGMENTS ==> p == 0.1
  {
    match category
    case "Luxury" => 0.2
    case "Super Luxury" => 0.3
    case "Exotic" => 0.4
    case "Premium" => 0.15
    case _ => 0.1
  }

  /** Mileage at which the full impact of a segment applies (default 150000). */
  function MileageThreshold(category: string): (m: real)
    ensures 30000.0 <= m <= 150000.0
    ensures category !in SEGMENTS ==> m == 150000.0
  {
    match category
    case "Luxury" => 100000.0
    case "Super Luxury" => 50000.0
    case "Exotic" => 30000.0
    case "Premium" => 120000.0
    case _ => 150000.0
  }

  /** Fraction of value a segment loses at its threshold mileage (default 0.3). */
  function MileageImpactRate(category: string): (f: real)
    ensures 0.3 <= f <= 0.7
    ensures category !in SEGMENTS ==> f == 0.3
  {
    match category
    case "Luxury" => 0.5
    case "Super Luxury" => 0.6
    case "Exotic" => 0.7
    case "Premium" => 0.4
    case _ => 0.3
  }

  /** Half-width of a segment's predicted price range (default 0.10). */
  function RangeMultiplier(category: string): (f: real)
    ensures 0.10 <= f <= 0.20
    ensures category !in SEGMENTS ==> f == 0.10
  {
    match category
    case "Luxury" => 0.15
    case "Super Luxury" => 0.20
    case "Exotic" => 0.20
    case "Premium" => 0.12
    case _ => 0.10
  }

  /** Condition factors of the separate depreciation formula (default 1.0). */
  function ConditionFactor(condition: string): (f: real)
    ensures 0.7 <= f <= 1.1
    ensures condition !in CONDITIONS ==> f == 1.0
  {
    match condition
    case "Excellent" => 1.1
    case "Good" => 1.0
    case "Fair" => 0.9
    case "Poor" => 0.7
    case _ => 1.0
  }

  /** Trims offered for every car. */
  const BASIC_TRIMS: seq<string> := ["Base", "Sport", "Premium", "Limited"]

  /** `category_trims.get(category, [])` */
  function CategoryTrims(category: string): (ts: seq<string>)
    ensures category !in SEGMENTS ==> ts == []
  {
    match category
    case "Luxury" => ["Base", "Sport", "Premium", "Executive", "AMG", "M", "RS"]
    case "Super Luxury" => ["Base", "Extended", "Black Badge", "Mulliner", "First Edition"]
    case "Exotic" => ["Base", "Sport", "Performance", "Competition", "Spyder"]
    case "Premium" => ["Base", "Premium", "F-Sport", "Sport", "Turbo"]
    case "Mainstream" => ["L", "LE", "SE", "XLE", "Sport", "Limited"]
    case _ => []
  }

  /** The makes with trims of their own, the keys of `make_trims`. */
  const TRIM_MAKES: seq<string> :=
    ["Mercedes-Benz", "BMW", "Audi", "Porsche", "Ferrari", "Lamborghini", "Toyota", "Honda", "Ford"]

  /** `make_trims.get(make, [])` */
  function MakeTrims(make: string): (ts: seq<string>)
    ensures make !in TRIM_MAKES ==> ts == []
  {
    match make
    case "Mercedes-Benz" => ["Base", "AMG", "AMG Line", "Maybach"]
    case "BMW" => ["Base", "M Sport", "M", "M Competition"]
    case "Audi" => ["Base", "Premium", "Premium Plus", "Prestige", "S", "RS"]
    case "Porsche" => ["Base", "S", "GTS", "Turbo", "Turbo S"]
    case "Ferrari" => ["Base", "Pista", "Speciale"]
    case "Lamborghini" => ["Base", "Performante", "STO", "SVJ"]
    case "Toyota" => ["L", "LE", "XLE", "SE", "XSE", "TRD"]
    case "Honda" => ["LX", "Sport", "EX", "EX-L", "Touring"]
    case "Ford" => ["XL", "XLT", "Lariat", "Limited", "Platinum"]
    case _ => []
  }

  /** Every price of a segment -> make -> model table is positive. */
  predicate PricesPositive(c: Prices) {
    forall i, j, k ::
      (0 <= i < |c| && 0 <= j < |c[i].1| && 0 <= k < |c[i].1[j].1|) ==> c[i].1[j].1[k].1 > 0.0
  }

  /** No make is listed twice, in one segment or in two. */
  predicate MakesUnique(c: Prices) {
    forall i1, j1, i2, j2 ::
      && 0 <= i1 < |c| && 0 <= j1 < |c[i1].1|
      && 0 <= i2 < |c| && 0 <= j2 < |c[i2].1|
      && c[i1].1[j1].0 == c[i2].1[j2].0
      ==> i1 == i2 && j1 == j2
  }

  /** No make lists a model twice. */
  predicate ModelsUnique(c: Prices) {
    forall i, j :: 0 <= i < |c| && 0 <= j < |c[i].1| ==> UniqueKeys(c[i].1[j].1)
  }

  /**
   * What a catalog literal guarantees and the pricing relies on: positive
   * prices, every segment, make and model declared once, and a make in
   * only one segment.
   */
  predicate WellFormed(c: Prices) {
    PricesPositive(c) && UniqueKeys(c) && MakesUnique(c) && ModelsUnique(c)
  }

  /** No key of a is a key of b. */
  predicate KeysApart<V>(a: Table<V>, b: Table<V>) {
    forall j1, j2 :: 0 <= j1 < |a| && 0 <= j2 < |b| ==> a[j1].0 != b[j2].0
  }

  /** No two segments list the same make. */
  lemma CatalogSegmentsApart()
    ensures forall i1, i2 :: 0 <= i1 < i2 < |BASE_VALUES| ==> KeysApart(BASE_VALUES[i1].1, BASE_VALUES[i2].1)
  {
  }

  /** No segment lists a make twice. */
  lemma CatalogMakeTablesUnique()
    ensures forall i :: 0 <= i < |BASE_VALUES| ==> UniqueKeys(BASE_VALUES[i].1)
  {
  }

  /** No segment is declared twice. */
  lemma CatalogSegmentsUnique()
    ensures UniqueKeys(BASE_VALUES)
  {
  }

  /** No make lists a model twice. */
  lemma CatalogModelsUnique()
    ensures ModelsUnique(BASE_VALUES)
  {
  }

  /** Every price is positive. */
  lemma CatalogPricesPositive()
    ensures PricesPositive(BASE_VALUES)
  {
  }

  /** The shipped catalog is well formed. */
  lemma CatalogWellFormed()
    ensures WellFormed(BASE_VALUES)
  {
    CatalogSegmentsApart();
    CatalogMakeTablesUnique();
    CatalogSegmentsUnique();
    CatalogModelsUnique();
    CatalogPricesPositive();
    forall i1, j1, i2, j2 |
      && 0 <= i1 < |BASE_VALUES| && 0 <= j1 < |BASE_VALUES[i1].1|
      && 0 <= i2 < |BASE_VALUES| && 0 <= j2 < |BASE_VALUES[i2].1|
      && BASE_VALUES[i1].1[j1].0 == BASE_VALUES[i2].1[j2].0
      ensures i1 == i2 && j1 == j2
    {
      if i1 != i2 {
        assert false;
      }
    }
  }

  /** The segment names are the keys of BASE_VALUES, in order. */
  lemma SegmentNames()
    ensures Keys(BASE_VALUES) == SEGMENTS
  {
  }

  /** Every trim multiplier lies in [1.0, 2.0]. */
  lemma TrimMultipliersRange()
    ensures forall i :: 0 <= i < |TRIM_MULTIPLIERS| ==> 1.0 <= TRIM_MULTIPLIERS[i].1 <= 2.0
  {
  }
}
