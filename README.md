# CarSeer valuation core in Dafny

CarSeer estimates the resale value of a used car. This project models its core and proves properties of it.

The FastAPI service (`backend/main.py`) does the valuation:
- It classifies a make into a market segment.
- It looks up or falls back to a base price and depreciates it by age down to a floor.
- It multiplies in a trim, a condition and a mileage factor, then rounds the result into an estimate with a price range and a confidence label.

The service also has:
- the trim list of its `/trims` endpoint;
- a separate depreciation formula;
- a model-name normaliser and lookup;
- a reconciliation of market quotes into a median with a standard-deviation band.

The command-line ranking (`main.py`) scores cars under one criterion and ranks them in place.

The data collector (`backend/data_collector.py`) validates raw listings and fills their defaults. It then cleans the listing table: it drops duplicate rows and price outliers, and fills missing cells.

The modules follow that structure:
- `Catalog` and `Table` hold the module-level tables.
- `PyNum`, `PyStr` and `Stats` hold the Python built-ins the code relies on: `round`, `math.pow`, `str.lower`, `split`/`join`, `sorted`, and the `statistics` functions.
- `Names`, `Valuation`, `Trims` and `Market` hold the service.
- `Ranking` holds the command-line ranking.
- `Listings` holds the data collector.

Some code changes state step by step:
- the segment and trim scans;
- the lookup loops;
- the value collection of the market reconciliation;
- `rank_cars`;
- `process_listing_data`.

Each of these is a method whose loop is proved against a specification function. A car is a class whose `score` and `rank` fields `RankCars` writes.

`clean_data` has no loop of its own: it replaces the whole table step by step. `Listings.CleanData` is therefore a method that composes one function per step.

The pure formulas are functions.

## Model

| member | source | states |
|---|---|---|
| Catalog.ConditionMultiplier | backend/main.py:151-156 | the condition multiplier lies in [0.6, 1.1] and is 1.0 for an unknown condition |
| Catalog.FallbackValue | backend/main.py:411-418 | the fallback price lies in [25000, 250000] and is 25000 outside the five segments |
| Catalog.DepreciationRate | backend/main.py:421-430 | the yearly rate lies in [0.07, 0.12] and is 0.12 outside the five segments |
| Catalog.MinValuePercent | backend/main.py:433-441 | the value floor lies in [0.1, 0.4] and is 0.1 outside the five segments |
| Catalog.MileageThreshold | backend/main.py:466-483 | the threshold lies in [30000, 150000] and is 150000 outside the five segments |
| Catalog.MileageImpactRate | backend/main.py:474-483 | the impact lies in [0.3, 0.7] and is 0.3 outside the five segments |
| Catalog.RangeMultiplier | backend/main.py:555-563 | the range half-width lies in [0.10, 0.20] and is 0.10 outside the five segments |
| Catalog.ConditionFactor | backend/main.py:383-390 | the depreciation formula's condition factor lies in [0.7, 1.1] and is 1.0 for an unknown condition |
| Catalog.CategoryTrims | backend/main.py:497-520 | an unknown segment has no trims of its own |
| Catalog.MakeTrims | backend/main.py:506-521 | a make without its own trim list has none |
| Catalog.CatalogWellFormed | backend/main.py:55-148 | the shipped catalog has positive prices and no make or model listed twice |
| Catalog.CatalogSegmentsApart | backend/main.py:55-148 | no two segments list the same make |
| Catalog.CatalogPricesPositive | backend/main.py:55-148 | every catalog price is positive |
| Catalog.SegmentNames | backend/main.py:55-148 | the catalog keys are the five segment names, in declaration order |
| Catalog.TrimMultipliersRange | backend/main.py:159-184 | every trim multiplier lies in [1.0, 2.0] |
| Table.GetOr | backend/main.py:418 | `d.get(k, default)` returns the default exactly when k is absent, and otherwise the value stored under k |
| Table.GetOrIsValueOrDefault | backend/main.py:546 | a lookup with a default returns the default or one of the table's values |
| PyNum.RoundIsNearest | backend/main.py:566-570 | Python's `round` is within 1/2 of its argument |
| PyNum.RoundOfInteger | backend/main.py:350-356 | `round` leaves a whole number unchanged |
| PyNum.RoundMonotone | backend/main.py:350-356 | `round` never reverses the order of two values |
| PyNum.Round2 | main.py:186 | `round(x, 2)` is within 0.005 of x |
| PyNum.Round2Monotone | main.py:186 | `round(x, 2)` never reverses the order of two values |
| PyNum.IntPowVersusOne | backend/main.py:428 | `math.pow(b, n)` with 0 < b <= 1 is at most 1 for n >= 0 and at least 1 for n <= 0 |
| PyNum.IntPowAntitone | backend/main.py:428 | `math.pow(b, n)` with 0 < b <= 1 never grows with n, negative exponents included |
| PyNum.RoundedToHundred | backend/main.py:570 | `round(v / 100) * 100` is a multiple of 100 within 50 of v |
| PyNum.RoundedRange | backend/main.py:564-568 | the rounded low and high ends of the range bracket the value, and low <= high |
| PyStr.Lower | backend/main.py:35 | lower-casing keeps the length and maps each character on its own |
| PyStr.LowerIdempotent | backend/main.py:35 | lower-casing twice is lower-casing once |
| PyStr.ContainsIff | backend/main.py:454-456 | substring `in` holds exactly when the pattern occurs at some position |
| PyStr.InsertSorted | backend/main.py:523 | inserting into a strictly sorted list keeps it strictly sorted and adds exactly the new string |
| PyStr.JoinSplitSingleSpaced | backend/main.py:35 | `' '.join(s.split())` returns a single-spaced string unchanged |
| Names.Strip | backend/main.py:33 | removing the characters outside `[\w\s-]` keeps only those characters, in order, and changes nothing when all are kept |
| Names.Normalize | backend/main.py:30-36 | `normalize_model_name`; its properties are stated by NormalizeShape, NormalizeIdempotent, NormalizeIgnoresCase, NormalizeOfClean and NormalizeHead |
| Names.NormalizeShape | backend/main.py:30-36 | a normalised name is single-spaced and made only of lower-case word characters, spaces and hyphens |
| Names.NormalizeIdempotent | backend/main.py:30-36 | normalising a normalised name changes nothing |
| Names.NormalizeIgnoresCase | backend/main.py:30-36 | normalisation ignores letter case |
| Names.NormalizeOfClean | backend/main.py:30-36 | a single-spaced name of kept characters normalises to its lower-cased form |
| Names.NormalizeHead | backend/main.py:30-36 | a name starting with a word character normalises to a non-empty name starting with that character lower-cased |
| Names.FindMatchingModel | backend/main.py:38-52 | the loop returns the first segment name that normalises like the make, paired with the first of its keys that normalises like the model |
| Names.MatchAsWrittenSound | backend/main.py:38-52 | whatever the lookup as written returns is a segment name and one of that segment's makes |
| Names.MatchAsWrittenNeedsSegmentName | backend/main.py:43-50 | as written, the lookup finds nothing unless some segment name normalises like the requested make |
| Names.FindMatchingModelMissesToyota | backend/main.py:43-50 | as written, ("Toyota", "Camry") is not found, although the catalog lists it |
| Names.NoSegmentNamedToyota | backend/main.py:43 | no segment name normalises like "Toyota" |
| Names.FindMatchingModelCorrected | backend/main.py:38-52 | the corrected loop scans the makes of every segment and returns the first make and model that normalise like the request |
| Names.MatchCorrectedFindsListed | backend/main.py:38-52 | the corrected lookup finds every listed make and model whose names stay distinct after normalisation |
| Names.MatchCorrectedSound | backend/main.py:38-52 | whatever the corrected lookup returns is a catalogued make and model of the requested normal forms |
| Names.MatchCorrectedAt | backend/main.py:38-52 | the corrected lookup returns the first make that normalises like the request, with the first of its models that does |
| Names.FindMatchingModelCorrectedFindsToyota | backend/main.py:38-52 | the corrected lookup finds ("Toyota", "Camry") in the shipped catalog |
| Valuation.GetCarCategory | backend/main.py:393-398 | the loop returns the first segment, in declaration order, whose table lists the make, and "Mainstream" when none does |
| Valuation.CarCategory | backend/main.py:393-398 | the category `get_car_category` returns; GetCarCategory, CarCategoryIsSegment, CarCategoryOfListedMake and CarCategoryOfUnknownMake state it |
| Valuation.CarCategoryIsSegment | backend/main.py:393-398 | with the shipped catalog the category is always one of the five segment names |
| Valuation.CarCategoryOfListedMake | backend/main.py:393-398 | a make listed by segment i is classified into segment i |
| Valuation.CarCategoryOfUnknownMake | backend/main.py:393-398 | a make no segment lists is classified "Mainstream" |
| Valuation.BasePriceOfListed | backend/main.py:406-408 | a catalogued make and model take their catalog price |
| Valuation.BasePriceOfUnlisted | backend/main.py:409-418 | any other make and model take the fallback price of the make's segment |
| Valuation.BasePrice | backend/main.py:405-418 | the catalog price or the segment fallback; BasePriceOfListed, BasePriceOfUnlisted and BasePricePositive state it |
| Valuation.BaseValue | backend/main.py:400-442 | `get_base_value`; BaseValueBounds, BaseValueAntitone, BaseValueAntitoneInTime and BaseValuePositive state it |
| Valuation.BasePricePositive | backend/main.py:406-418 | with a well-formed catalog every base price is positive |
| Valuation.DepreciatedBounds | backend/main.py:428-442 | the depreciated value is never below the floor, equals the base at age 0, is at most the base for ages >= 0 and at least the base for negative ages |
| Valuation.DepreciatedAntitone | backend/main.py:428-442 | a greater age never gives a greater depreciated value |
| Valuation.SegmentDepreciatedBounds | backend/main.py:420-442 | with the segment's rate and floor, the value is never below base × min_value_percent, equals the base at age 0, and is at most the base for ages >= 0 |
| Valuation.BaseValueBounds | backend/main.py:400-442 | the base value is never below base × min_value_percent[segment]; at age 0 it is exactly the base price |
| Valuation.BaseValueAntitone | backend/main.py:400-442 | an earlier model year is never worth more |
| Valuation.BaseValueAntitoneInTime | backend/main.py:402-442 | the base value never grows as the current year advances |
| Valuation.BaseValuePositive | backend/main.py:400-442 | every base value is positive |
| Valuation.TrimMultiplierSpec | backend/main.py:444-458 | no trim gives 1.0; an exact key gives its value; otherwise the first key, in declaration order, that occurs in the lower-cased trim gives its value, and 1.0 when none does |
| Valuation.TrimMultiplier | backend/main.py:444-458 | `get_trim_multiplier`; TrimMultiplierSpec, TrimMultiplierWithin and TrimMultiplierRange state it |
| Valuation.GetTrimMultiplier | backend/main.py:444-458 | the loop returns at the first partial match, as TrimMultiplier specifies |
| Valuation.TrimMultiplierWithin | backend/main.py:444-458 | the multiplier is 1.0 or a table value, so it stays within the table's bounds |
| Valuation.TrimMultiplierRange | backend/main.py:444-458 | with the shipped table the trim multiplier lies in [1.0, 2.0] |
| Valuation.MileageImpactBounds | backend/main.py:460-485 | no mileage or zero mileage gives 1.0; the factor is never below 0.3, and never above 1.0 for a non-negative mileage |
| Valuation.MileageImpact | backend/main.py:460-485 | `calculate_mileage_impact`; MileageImpactBounds and MileageImpactAntitone state it |
| Valuation.MileageImpactAntitone | backend/main.py:460-485 | more miles never raise the mileage factor |
| Valuation.MileageFactorRange | backend/main.py:375-379 | the mileage factor is at most 1, exactly 1 within 12000 miles a year, and, for a non-zero mileage, non-negative exactly while the excess over 12000 miles a year stays within 100000 miles |
| Valuation.DepreciationPlain | backend/main.py:368-391 | with no mileage and an unknown condition only the 15% yearly decay applies |
| Valuation.Depreciation | backend/main.py:368-391 | `calculate_depreciation`; DepreciationPlain, DepreciationBounds and MileageFactorRange state it |
| Valuation.DepreciationBounds | backend/main.py:368-391 | for age >= 0 and an excess of at most 100000 miles, the depreciated value lies between 0 and 1.1 × the initial value |
| Valuation.AgedBound | backend/main.py:372-373 | the yearly decay keeps a non-negative value in [0, initial value] for ages >= 0 |
| Valuation.AgedMileageBound | backend/main.py:372-379 | decay and mileage factor together keep the value in [0, initial value] |
| Valuation.EstimatePositive | backend/main.py:552 | the product of positive factors is positive |
| Valuation.UnroundedValuePositive | backend/main.py:537-552 | the unrounded prediction is positive for every car |
| Valuation.PricedRounding | backend/main.py:555-570 | the estimate is a multiple of 100 within 50 of the value, and the range brackets the value with low <= high |
| Valuation.PredictValueRounding | backend/main.py:534-583 | for every car the prediction is positive before rounding, a multiple of 100 within 50 after, and its range brackets it with low <= high |
| Valuation.PredictValueLabels | backend/main.py:546-582 | an unknown condition has multiplier 1.0; the confidence is "high" exactly when some segment lists the make |
| Valuation.PredictValue | backend/main.py:534-584 | the response of `predict_value` without its timestamp; PredictValueRounding, PredictValueLabels and PredictValueToyotaCamry state it |
| Valuation.ToyotaCamryFactors | backend/main.py:55-148 | Toyota is in "Mainstream", is a listed make, and a current-year Camry has base value 27000 |
| Valuation.PredictValueMainstream27000 | backend/main.py:534-584 | a listed "Mainstream" car with base value 27000, no trim, no mileage and Good condition is quoted 27000, range 24300 to 29700, "high" confidence, all multipliers 1.0 |
| Valuation.PredictValueToyotaCamry | backend/main.py:534-584 | a current-year Toyota Camry in Good condition, with no trim or mileage, is quoted 27000 with range 24300 to 29700, segment "Mainstream", base value 27000 and "high" confidence |
| Trims.SortedSet | backend/main.py:519-523 | the result is strictly ascending and holds exactly the candidates |
| Trims.GetTrims | backend/main.py:488-523 | the trim list is strictly ascending and holds exactly the basic, segment and make trims |
| Trims.StrictlySortedUnique | backend/main.py:523 | two strictly sorted lists with the same members are equal |
| Trims.TrimListDetermined | backend/main.py:488-523 | the trim list for a make is unique |
| Trims.BasicTrimsOffered | backend/main.py:491-523 | every basic trim is offered, and no trim appears twice |
| Trims.UnlistedMakeTrimsSorted | backend/main.py:491-523 | the trim list of an unlisted make is strictly ascending and holds exactly the basic and mainstream trims |
| Trims.TrimsOfUnlistedMake | backend/main.py:488-523 | a make with no segment and no trims of its own gets exactly the eight basic and mainstream trims |
| Stats.Insert | backend/main.py:345 | inserting into a sorted list keeps it sorted and adds exactly the new value |
| Stats.Sort | backend/main.py:345 | sorting gives a sorted permutation of the values |
| Stats.MedianBetweenMinAndMax | backend/main.py:345 | the median lies between the smallest and largest value |
| Stats.Median | backend/main.py:345 | `statistics.median`; MedianBetweenMinAndMax and ConstantStatistics state it |
| Stats.Mean | backend/main.py:346 | `statistics.mean`; ConstantStatistics states it |
| Stats.StdDev | backend/main.py:347 | the deviation is non-negative, 0 for at most one value, and squares to the sample variance otherwise |
| Stats.ConstantStatistics | backend/main.py:345-347 | equal values have that value as median and mean, and deviation 0 |
| Market.ExtendWithPrices | backend/main.py:336-339 | the loop appends exactly the truthy listing prices, in order |
| Market.CollectQuotes | backend/main.py:322-339 | the collected values are the KBB pair, the NADA value, then the CarGurus and Cars.com prices |
| Market.Quotes | backend/main.py:322-339 | the pooled `values` list; SampleSize, NoMarketData and ListingPricesMembers state it |
| Market.Summarize | backend/main.py:345-363 | the result dictionary for non-empty values; MarketBand, PredictedWithinQuotes and SingleQuote state it |
| Market.CalculateMarketValue | backend/main.py:319-364 | the call fails with "No market data available" exactly when no value was collected; otherwise it returns the rounded statistics of the values, with the raw source counts |
| Market.ListingPricesCount | backend/main.py:336-339 | one value is kept per listing with a truthy price |
| Market.ListingPricesMembers | backend/main.py:336-339 | the kept values are exactly the listings' non-zero prices |
| Market.SampleSize | backend/main.py:322-357 | the sample size is 2 with KBB, plus 1 with NADA, plus the priced listings |
| Market.NoMarketData | backend/main.py:341-342 | the call fails exactly when there is no KBB or NADA quote and no listing has a truthy price |
| Market.Band | backend/main.py:352-356 | with a non-negative deviation, low <= predicted <= high |
| Market.MarketBand | backend/main.py:345-356 | every market value's band holds its predicted value, and its deviation is non-negative |
| Market.PredictedWithinQuotes | backend/main.py:345-350 | the predicted value lies between the rounded smallest and largest collected value |
| Market.SingleQuote | backend/main.py:345-357 | a single value gives deviation 0 and low = predicted = high = mean = that value rounded |
| Ranking.CarScore | main.py:142-186 | the score is within 0.005 of the criterion's unrounded score |
| Ranking.RawScore | main.py:142-184 | the unrounded score of each criterion; PriceScoreNonNegative, PriceScoreAntitone, ReliabilityScores, UnknownCriterionScoresZero and OverallIsWeighted state it |
| Ranking.PriceScoreNonNegative | main.py:158-160 | the price score is never negative |
| Ranking.PriceScoreAntitone | main.py:158-160 | a cheaper car never scores lower on price |
| Ranking.ReliabilityScores | main.py:170-173 | reliability scores 90 when the lower-cased make is toyota, honda or lexus, and 70 otherwise |
| Ranking.UnknownCriterionScoresZero | main.py:142-186 | an unrecognised criterion scores 0 |
| Ranking.OverallIsWeighted | main.py:174-184 | the overall score weighs price, performance, efficiency, safety and reliability 25/20/20/20/15 per cent |
| Ranking.SortOrder | main.py:198 | the index order is a stable descending sort: every index once, by non-increasing score, ties in input order |
| Ranking.StableDescendingUnique | main.py:198 | the stable descending order of a list of scores is unique |
| Ranking.TopIndicesBest | main.py:198-204 | an index outside the first m positions has a score no higher than any of the first m |
| Ranking.ScoreCars | main.py:194-195 | every car gets its score, and no rank changes |
| Ranking.AssignRanks | main.py:201-202 | the k-th kept car gets rank k + 1, and no score changes |
| Ranking.RankCars | main.py:188-204 | an empty list gives an empty result; otherwise every car gets its score, the result is the first top_n cars of the stable descending sort, the k-th gets rank k + 1, and the other cars keep their rank |
| Ranking.SliceEndOfCount | main.py:204 | with a non-negative top_n the result holds min(top_n, len(cars)) cars |
| Ranking.RankedByScore | main.py:198-204 | the ranked cars go by non-increasing score |
| Ranking.LeftOutScoreNoHigher | main.py:198-204 | a car left out of the ranking scores no higher than any ranked car |
| Listings.ProcessListingData | backend/data_collector.py:69-98 | the loop keeps exactly the valid processed listings, in order |
| Listings.WithDefaults | backend/data_collector.py:75-85 | the `processed_listing` dictionary; MissingFieldsDefaulted states its defaults |
| Listings.Processed | backend/data_collector.py:69-98 | the rows `process_listing_data` keeps; ProcessedValid and ProcessedSubsequence state it |
| Listings.DistinctInstantsKeepRows | backend/data_collector.py:83-103 | two listings without a date, processed at different instants, become different rows and both survive the duplicate drop |
| Listings.ProcessedValid | backend/data_collector.py:87-92 | every kept record has a non-empty make and model, a non-zero year and a positive price |
| Listings.ProcessedSubsequence | backend/data_collector.py:73-92 | the kept rows are an order-preserving selection of the listings that includes every valid one |
| Listings.MissingFieldsDefaulted | backend/data_collector.py:75-85 | a missing trim, condition, mileage, source or date gets 'Base', 'Good', 0, 'unknown' or now; a missing price, make, model or year fails validation |
| Listings.DropDuplicatesSpec | backend/data_collector.py:103 | dropping duplicates keeps every row once and adds none |
| Listings.DropDuplicates | backend/data_collector.py:103 | `drop_duplicates()`, keeping first occurrences in order; DropDuplicatesSpec states it |
| Listings.RemoveOutliers | backend/data_collector.py:106-109 | the kept rows are exactly those whose price lies within Q1 - 1.5 IQR and Q3 + 1.5 IQR, or is null |
| Listings.CleanData | backend/data_collector.py:100-114 | the cleaned table is no longer than the input; every row has a trim and a condition, and a price within the fences |
| Listings.CleanedRows | backend/data_collector.py:103-113 | every cleaned row has a trim, a condition and a price within the fences |
| Listings.FilledMileageWithinGroup | backend/data_collector.py:114 | a filled mileage lies between the smallest and largest known mileage of its make, model and year |
| Listings.KnownMileageKept | backend/data_collector.py:114 | a known mileage is never replaced |
| Listings.FillMileage | backend/data_collector.py:114 | the group-median mileage fill; FilledMileageWithinGroup and KnownMileageKept state it |
| Listings.CleanDataRepeatsRows | backend/data_collector.py:103-112 | as written, two rows that differ only in a null trim versus 'Base' both survive and become identical |
| Listings.CleanDataDeduplicated | backend/data_collector.py:100-114 | the corrected cleaning returns the same rows as the code as written, with no two identical |

## Behaviour as coded

The model follows the code in the following places, where a looser reading of the service could expect something else:
- `get_base_value` does not clamp the age at 0. A model year after the current year gives a base value above the catalog price (backend/main.py:402-403).
- `get_trim_multiplier` matches substrings in one direction only: a known trim inside the requested trim. There is no keyword fallback (backend/main.py:454-456).
- `get_trims` returns the trims in plain code-point order. "Base" is not put first (backend/main.py:523). Its `model` parameter is not used.
- The confidence label asks whether the *make* is listed in its segment's table. The model is not consulted (backend/main.py:582).
- `calculate_market_value` reports the raw lengths of the listing lists as source counts, whatever their prices (backend/main.py:361-362).

## Left out

- HTTP and process plumbing is left out: the FastAPI app and its CORS set-up, the HTTP error mapping, the root and health endpoints, and uvicorn.
- The `MarketData` fetchers for KBB, CarGurus, NADA and Cars.com are network calls; their answers are the inputs of `Market.CalculateMarketValue`.
- The `main.py` API calls are left out: `test_api`, `get_car_data` and `get_cars_from_api`. So are `display_rankings` (printing) and `main`.
- The collector's `collect_*` methods, `save_data` and `load_data` are network and CSV I/O.
- backend/ml_model.py is not part of this model.
- Floating point is not modelled: all arithmetic is on exact reals, so float rounding, overflow of `math.pow` and infinities are left out. `round` is modelled exactly (half to even) on the exact value.
- The square root inside `statistics.stdev` is a parameter, assumed to return the non-negative root.
- The current year is a parameter of `Valuation.BaseValue` and `Valuation.PredictValue`.
- `process_listing_data` reads `datetime.now()` once per listing; the instants are a parameter with one entry per listing.
- `str.lower` and `\w` are modelled for ASCII only; Unicode case mapping and Unicode word characters are left out. Whitespace (`\s` and `str.split`) is Python's full `str.isspace` set.
- Listing and car dictionaries are reduced to the keys the code reads, each holding a value of the expected type. A value of another type (a string price, say) is not modelled.
- The exceptions that the service maps to HTTP 400 (backend/main.py:586-588) are not modelled. On the typed inputs they come only from float overflow, which is left out above. One example is `math.pow(0.88, -7975)` for model year 10000, which raises OverflowError at backend/main.py:428. Another is an infinite mileage, which reaches `round` at backend/main.py:565-570. The exception the market reconciliation raises is modelled as an error result.
- `clean_data` takes the quartiles Q1 and Q3 of the deduplicated prices as parameters; pandas' quantile interpolation is left out. When every price is null the quartiles are NaN and pandas drops no row; the model only takes real quartiles. Its text normalisation (`str.strip().str.title()`) and `pd.to_numeric` are left out.
- Listings.CleanData: a table with no columns at all, which pandas rejects with a KeyError on 'price', is treated as an empty table.
- Ranking.RankCars: requires the list to hold distinct car objects. When the same dictionary appears twice, the later rank assignment overwrites the earlier one, and the property "the k-th car has rank k + 1" does not hold.
- Ranking.RankCars: `sorted(..., key=lambda x: x.get("score", 0))` is modelled by reading each car's score with default 0. Every car was scored just before, so the default never applies.

## Findings

| source | as written | input that shows it | evidently intended | confidence | as-written member | corrected member |
|---|---|---|---|---|---|---|
| backend/main.py:43-50 | `find_matching_model` looks up the normalised make among the keys of BASE_VALUES, which are the segment names, and then reads models from that segment's make table | make "Toyota", model "Camry": no segment is named like "Toyota", so it returns (None, None) although the catalog lists Toyota Camry | look the make up among the makes of every segment, then the model among that make's models | high, not executed | Names.FindMatchingModel, Names.FindMatchingModelMissesToyota | Names.FindMatchingModelCorrected, Names.FindMatchingModelCorrectedFindsToyota |
| backend/data_collector.py:103-113 | `clean_data` drops duplicate rows before it fills missing trims and conditions | two rows equal except that one has a null trim and the other has trim 'Base': both survive the duplicate drop and become identical after `fillna('Base')` | a cleaned table in which no two rows are identical | medium, not executed | Listings.CleanData, Listings.CleanDataRepeatsRows | Listings.CleanDataDeduplicated |
