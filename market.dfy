/**
 * Quote reconciliation, `MarketData.calculate_market_value`: the KBB and
 * NADA book values and the asking prices of the CarGurus and Cars.com
 * listings are pooled into one list of values, whose median becomes the
 * predicted value and whose standard deviation gives a band around it.
 * The fetchers that obtain the quotes are not part of this model: their
 * answers are the inputs.
 */
module Market {
  import opened Wrappers
  import opened PyNum
  import opened Stats

  /** A KBB answer: its `retail_value`, `private_party_value` and `trade_in_value`. */
  datatype KbbQuote = KbbQuote(retail: real, privateParty: real, tradeIn: real)

  /** A NADA answer: its `retail_value` and `trade_in_value`. */
  datatype NadaQuote = NadaQuote(retail: real, tradeIn: real)

  /** A listing, reduced to its `price` entry: None when the entry is absent or null. */
  datatype Listing = Listing(price: Option<real>)

  /** What the service reports about the sources it was given. */
  datatype Sources = Sources(kbb: bool, nada: bool, cargurus: nat, carsCom: nat)

  /** The result dictionary of `calculate_market_value`. */
  datatype MarketValue = MarketValue(
    predictedValue: int,
    meanValue: int,
    stdDev: int,
    low: int,
    high: int,
    sampleSize: nat,
    sources: Sources)

  /** `listing.get('price')` is truthy: present, not null and not zero. */
  predicate HasPrice(l: Listing) {
    l.price.Some? && l.price.value != 0.0
  }

  /** The prices of the listings whose price is truthy, in listing order. */
  function ListingPrices(ls: seq<Listing>): (ps: seq<real>)
    ensures |ps| <= |ls|
  {
    if ls == [] then []
    else
      var last := ls[|ls| - 1];
      ListingPrices(ls[..|ls| - 1]) + (if HasPrice(last) then [last.price.value] else [])
  }

  /** The book values: KBB retail and private-party values, then the NADA retail value. */
  function BookValues(kbb: Option<KbbQuote>, nada: Option<NadaQuote>): seq<real> {
    (if kbb.Some? then [kbb.value.retail, kbb.value.privateParty] else [])
    + (if nada.Some? then [nada.value.retail] else [])
  }

  /** The `values` list: the book values, the CarGurus prices, then the Cars.com prices. */
  function Quotes(kbb: Option<KbbQuote>, nada: Option<NadaQuote>, cargurus: seq<Listing>, carsCom: seq<Listing>): seq<real> {
    BookValues(kbb, nada) + ListingPrices(cargurus) + ListingPrices(carsCom)
  }

  /** The result for the given statistics, each rounded as the service returns it. */
  function Summary(median: real, mean: real, deviation: real, size: nat, sources: Sources): MarketValue {
    MarketValue(
      RoundHalfEven(median),
      RoundHalfEven(mean),
      RoundHalfEven(deviation),
      RoundHalfEven(median - deviation),
      RoundHalfEven(median + deviation),
      size,
      sources)
  }

  /** The summary of a non-empty list of values: its median, mean, standard deviation and size. */
  function Summarize(values: seq<real>, sqrt: real -> real, sources: Sources): MarketValue
    requires values != [] && IsSquareRoot(sqrt)
  {
    Summary(Median(values), Mean(values), StdDev(values, sqrt), |values|, sources)
  }

  /** `values.extend(listing['price'] for listing in listings if listing.get('price'))` */
  method ExtendWithPrices(values: seq<real>, listings: seq<Listing>) returns (extended: seq<real>)
    ensures extended == values + ListingPrices(listings)
  {
    extended := values;
    for i := 0 to |listings|
      invariant extended == values + ListingPrices(listings[..i])
    {
      assert listings[..i + 1][..i] == listings[..i];
      if HasPrice(listings[i]) {
        extended := extended + [listings[i].price.value];
      }
    }
    assert listings[..|listings|] == listings;
  }

  /** The first half of `calculate_market_value`: the pooled `values` list. */
  method CollectQuotes(kbb: Option<KbbQuote>, nada: Option<NadaQuote>,
                       cargurus: seq<Listing>, carsCom: seq<Listing>)
    returns (values: seq<real>)
    ensures values == Quotes(kbb, nada, cargurus, carsCom)
  {
    values := [];
    if kbb.Some? {
      values := values + [kbb.value.retail, kbb.value.privateParty];
    }
    if nada.Some? {
      values := values + [nada.value.retail];
    }
    values := ExtendWithPrices(values, cargurus);
    values := ExtendWithPrices(values, carsCom);
  }

  /**
   * `calculate_market_value(kbb_data, nada_data, cargurus_listings, cars_listings)`:
   * collects the values, fails with "No market data available" when there
   * are none and otherwise summarises them.  sqrt is the square root that
   * `statistics.stdev` uses.
   */
  method CalculateMarketValue(kbb: Option<KbbQuote>, nada: Option<NadaQuote>,
                              cargurus: seq<Listing>, carsCom: seq<Listing>, sqrt: real -> real)
    returns (r: Result<MarketValue, string>)
    requires IsSquareRoot(sqrt)
    ensures r.Err? <==> Quotes(kbb, nada, cargurus, carsCom) == []
    ensures r.Err? ==> r.error == "No market data available"
    ensures r.Ok? ==> r.value == Summarize(Quotes(kbb, nada, cargurus, carsCom), sqrt,
                                           Sources(kbb.Some?, nada.Some?, |cargurus|, |carsCom|))
  {
    var values := CollectQuotes(kbb, nada, cargurus, carsCom);
    if values == [] {
      return Err("No market data available");
    }
    r := Ok(Summarize(values, sqrt, Sources(kbb.Some?, nada.Some?, |cargurus|, |carsCom|)));
  }

  // ----- Properties -----

  /** Number of listings with a truthy price, counted from the front. */
  function PricedCount(ls: seq<Listing>): nat {
    if ls == [] then 0 else (if HasPrice(ls[0]) then 1 else 0) + PricedCount(ls[1..])
  }

  lemma {:induction false} PricedCountAppend(ls: seq<Listing>, l: Listing)
    ensures PricedCount(ls + [l]) == PricedCount(ls) + (if HasPrice(l) then 1 else 0)
    decreases |ls|
  {
    if ls != [] {
      assert (ls + [l])[1..] == ls[1..] + [l];
      PricedCountAppend(ls[1..], l);
    }
  }

  /** One value is kept for each listing with a truthy price. */
  lemma {:induction false} ListingPricesCount(ls: seq<Listing>)
    ensures |ListingPrices(ls)| == PricedCount(ls)
    decreases |ls|
  {
    if ls != [] {
      var init := ls[..|ls| - 1];
      ListingPricesCount(init);
      PricedCountAppend(init, ls[|ls| - 1]);
      assert init + [ls[|ls| - 1]] == ls;
    }
  }

  /** Listing i has the truthy price p. */
  predicate PricedAt(ls: seq<Listing>, i: int, p: real) {
    0 <= i < |ls| && ls[i].price == Some(p) && p != 0.0
  }

  /** The kept values are exactly the truthy listing prices. */
  lemma {:induction false} ListingPricesMembers(ls: seq<Listing>)
    ensures forall p :: p in ListingPrices(ls) <==> exists i :: PricedAt(ls, i, p)
    decreases |ls|
  {
    if ls != [] {
      var n := |ls| - 1;
      var init := ls[..n];
      ListingPricesMembers(init);
      assert ListingPrices(ls) == ListingPrices(init) + (if HasPrice(ls[n]) then [ls[n].price.value] else []);
      forall p ensures p in ListingPrices(ls) <==> exists i :: PricedAt(ls, i, p) {
        if p in ListingPrices(init) {
          var i :| PricedAt(init, i, p);
          assert PricedAt(ls, i, p);
        } else if p in ListingPrices(ls) {
          assert PricedAt(ls, n, p);
        } else if exists i :: PricedAt(ls, i, p) {
          var i :| PricedAt(ls, i, p);
          if i < n {
            assert PricedAt(init, i, p);
          }
        }
      }
    }
  }

  /**
   * The sample size is 2 with a KBB answer, plus 1 with a NADA answer, plus
   * the number of listings with a truthy price.
   */
  lemma SampleSize(kbb: Option<KbbQuote>, nada: Option<NadaQuote>, cargurus: seq<Listing>, carsCom: seq<Listing>)
    ensures |Quotes(kbb, nada, cargurus, carsCom)| ==
      (if kbb.Some? then 2 else 0) + (if nada.Some? then 1 else 0) + PricedCount(cargurus) + PricedCount(carsCom)
  {
    ListingPricesCount(cargurus);
    ListingPricesCount(carsCom);
  }

  /** The call fails exactly when no book value was given and no listing has a truthy price. */
  lemma NoMarketData(kbb: Option<KbbQuote>, nada: Option<NadaQuote>, cargurus: seq<Listing>, carsCom: seq<Listing>)
    ensures Quotes(kbb, nada, cargurus, carsCom) == [] <==>
      kbb.None? && nada.None? && PricedCount(cargurus) == 0 && PricedCount(carsCom) == 0
  {
    SampleSize(kbb, nada, cargurus, carsCom);
  }

  /** The band: low <= predicted <= high whenever the deviation is not negative. */
  lemma Band(median: real, mean: real, deviation: real, size: nat, sources: Sources)
    requires deviation >= 0.0
    ensures var m := Summary(median, mean, deviation, size, sources);
      m.low <= m.predictedValue <= m.high && m.stdDev >= 0
  {
    RoundMonotone(median - deviation, median);
    RoundMonotone(median, median + deviation);
    RoundMonotone(0.0, deviation);
    RoundOfInteger(0);
  }

  /** The market value's band always holds its predicted value. */
  lemma MarketBand(values: seq<real>, sqrt: real -> real, sources: Sources)
    requires values != [] && IsSquareRoot(sqrt)
    ensures var m := Summarize(values, sqrt, sources);
      m.low <= m.predictedValue <= m.high && m.stdDev >= 0
  {
    Band(Median(values), Mean(values), StdDev(values, sqrt), |values|, sources);
  }

  /** The predicted value lies between the rounded smallest and largest value. */
  lemma PredictedWithinQuotes(values: seq<real>, sqrt: real -> real, sources: Sources)
    requires values != [] && IsSquareRoot(sqrt)
    ensures RoundHalfEven(Min(values)) <= Summarize(values, sqrt, sources).predictedValue <= RoundHalfEven(Stats.Max(values))
  {
    MedianBetweenMinAndMax(values);
    RoundMonotone(Min(values), Median(values));
    RoundMonotone(Median(values), Stats.Max(values));
  }

  /** A single value is its own prediction, with a zero deviation and a zero-width band. */
  lemma SingleQuote(v: real, sqrt: real -> real, sources: Sources)
    requires IsSquareRoot(sqrt)
    ensures var m := Summarize([v], sqrt, sources);
      m.stdDev == 0 && m.low == m.predictedValue == m.high == m.meanValue == RoundHalfEven(v)
      && m.sampleSize == 1
  {
    ConstantStatistics([v], v, sqrt);
    RoundOfInteger(0);
  }
}
