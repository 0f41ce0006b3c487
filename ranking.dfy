/**
 * The command-line car ranking: `calculate_car_score` scores a car under
 * one criterion, and `rank_cars` writes every car's score into it, sorts
 * the cars by descending score (ties keep their input order), keeps the
 * first top_n and writes their positions into them as ranks.
 */
module Ranking {
  import opened Wrappers
  import opened PyNum
  import opened PyStr

  /**
   * The fields of a car dictionary that the score reads; a field that is
   * absent is None and takes the default `calculate_car_score` gives it.
   */
  datatype CarRecord = CarRecord(
    make: Option<string>,
    price: Option<real>,
    horsepower: Option<real>,
    mpg: Option<real>,
    safetyRating: Option<real>)

  /** A car dictionary: its data, and the `score` and `rank` entries `rank_cars` writes. */
  class Car {
    const record: CarRecord
    var score: Option<real>
    var rank: Option<int>

    constructor (record: CarRecord)
      ensures this.record == record && score == None && rank == None
    {
      this.record := record;
      score := None;
      rank := None;
    }
  }

  const RELIABLE_MAKES: seq<string> := ["toyota", "honda", "lexus"]
  const CRITERIA: seq<string> := ["price", "performance", "efficiency", "safety", "reliability", "overall"]

  /** `max(0, 100000 - price) / 1000` */
  function PriceScore(price: real): real {
    Max(0.0, 100000.0 - price) / 1000.0
  }

  /** 70, plus 20 for a make whose lower-case name is toyota, honda or lexus. */
  function ReliabilityScore(make: string): real {
    70.0 + (if Lower(make) in RELIABLE_MAKES then 20.0 else 0.0)
  }

  /** The score before rounding, with the defaults of the dictionary lookups. */
  function RawScore(car: CarRecord, criteria: string): real {
    var make := car.make.GetOr("");
    var price := car.price.GetOr(30000.0);
    var horsepower := car.horsepower.GetOr(200.0);
    var mpg := car.mpg.GetOr(25.0);
    var safety := car.safetyRating.GetOr(4.0);
    if criteria == "price" then PriceScore(price)
    else if criteria == "performance" then horsepower / 10.0
    else if criteria == "efficiency" then mpg
    else if criteria == "safety" then safety * 20.0
    else if criteria == "reliability" then ReliabilityScore(make)
    else if criteria == "overall" then
      PriceScore(price) * 0.25 + horsepower / 10.0 * 0.20 + mpg * 0.20
      + safety * 20.0 * 0.20 + ReliabilityScore(make) * 0.15
    else 0.0
  }

  /** `calculate_car_score(car, criteria)`: the criterion's score rounded to two decimals. */
  function CarScore(car: CarRecord, criteria: string): (s: real)
    ensures -0.005 <= s - RawScore(car, criteria) <= 0.005
  {
    Round2(RawScore(car, criteria))
  }

  /** The price score is never negative. */
  lemma PriceScoreNonNegative(car: CarRecord)
    ensures CarScore(car, "price") >= 0.0
  {
    Round2OfZero();
    Round2Monotone(0.0, RawScore(car, "price"));
  }

  /** A cheaper car never scores lower on price. */
  lemma PriceScoreAntitone(cheap: CarRecord, dear: CarRecord)
    requires cheap.price.GetOr(30000.0) <= dear.price.GetOr(30000.0)
    ensures CarScore(dear, "price") <= CarScore(cheap, "price")
  {
    Round2Monotone(RawScore(dear, "price"), RawScore(cheap, "price"));
  }

  /** Reliability scores 90 for Toyota, Honda and Lexus in any case, and 70 otherwise. */
  lemma ReliabilityScores(car: CarRecord)
    ensures CarScore(car, "reliability") ==
      if Lower(car.make.GetOr("")) in RELIABLE_MAKES then 90.0 else 70.0
  {
    Round2OfInteger(90);
    Round2OfInteger(70);
  }

  /** An unrecognised criterion scores 0. */
  lemma UnknownCriterionScoresZero(car: CarRecord, criteria: string)
    requires criteria !in CRITERIA
    ensures CarScore(car, criteria) == 0.0
  {
    Round2OfZero();
  }

  /** The overall score weighs the five criteria 25/20/20/20/15 per cent, before rounding. */
  lemma OverallIsWeighted(car: CarRecord)
    ensures RawScore(car, "overall") ==
      RawScore(car, "price") * 0.25 + RawScore(car, "performance") * 0.20
      + RawScore(car, "efficiency") * 0.20 + RawScore(car, "safety") * 0.20
      + RawScore(car, "reliability") * 0.15
  {
  }

  // ----- Stable descending sort -----

  /** Index a goes before index b: a higher key, or the same key and an earlier index. */
  predicate Before(keys: seq<real>, a: nat, b: nat)
    requires a < |keys| && b < |keys|
  {
    keys[b] < keys[a] || (keys[b] == keys[a] && a < b)
  }

  /** Every index of order is an index of keys, and the indices go in Before order. */
  predicate Ordered(keys: seq<real>, order: seq<nat>) {
    && (forall k :: 0 <= k < |order| ==> order[k] < |keys|)
    && (forall k, l :: 0 <= k < l < |order| ==> Before(keys, order[k], order[l]))
  }

  /**
   * order is what `sorted(range(n), key=..., reverse=True)` gives: every
   * index once, in descending key order, equal keys in index order.
   */
  ghost predicate StableDescending(keys: seq<real>, order: seq<nat>) {
    && |order| == |keys|
    && (forall x: nat :: x in order <==> x < |keys|)
    && Ordered(keys, order)
  }

  /** Inserting index i after the indices with keys at least keys[i] keeps the order. */
  lemma InsertOrdered(keys: seq<real>, order: seq<nat>, i: nat, j: nat)
    requires i < |keys| && Ordered(keys, order) && j <= |order|
    requires forall x :: x in order ==> x < i
    requires forall k :: 0 <= k < j ==> keys[i] <= keys[order[k]]
    requires j < |order| ==> keys[order[j]] < keys[i]
    ensures Ordered(keys, order[..j] + [i] + order[j..])
  {
    var s := order[..j] + [i] + order[j..];
    forall m | j <= m < |order| ensures keys[order[m]] < keys[i] {
      if m > j {
        assert Before(keys, order[j], order[m]);
      }
    }
    forall k, l | 0 <= k < l < |s| ensures Before(keys, s[k], s[l]) {
      if l < j || k > j {
        assert Before(keys, order[if k < j then k else k - 1], order[if l < j then l else l - 1]);
      } else if k < j && l > j {
        assert Before(keys, order[k], order[l - 1]);
      } else if k < j {
        assert order[k] in order;
      }
    }
  }

  /** Where index i goes: after every index whose key is at least keys[i]. */
  method InsertPosition(keys: seq<real>, order: seq<nat>, i: nat) returns (j: nat)
    requires i < |keys| && forall k :: 0 <= k < |order| ==> order[k] < |keys|
    ensures j <= |order|
    ensures forall k :: 0 <= k < j ==> keys[i] <= keys[order[k]]
    ensures j < |order| ==> keys[order[j]] < keys[i]
  {
    j := 0;
    while j < |order| && keys[i] <= keys[order[j]]
      invariant j <= |order|
      invariant forall k :: 0 <= k < j ==> keys[i] <= keys[order[k]]
    {
      j := j + 1;
    }
  }

  lemma InsertMembers(order: seq<nat>, i: nat, j: nat)
    requires j <= |order|
    ensures forall x :: x in order[..j] + [i] + order[j..] <==> x in order || x == i
  {
    assert order == order[..j] + order[j..];
  }

  /** The index order of a stable descending sort of keys, built by insertion. */
  method SortOrder(keys: seq<real>) returns (order: seq<nat>)
    ensures StableDescending(keys, order)
  {
    order := [];
    for i := 0 to |keys|
      invariant |order| == i
      invariant forall x: nat :: x in order <==> x < i
      invariant Ordered(keys, order)
    {
      var j := InsertPosition(keys, order, i);
      InsertOrdered(keys, order, i, j);
      InsertMembers(order, i, j);
      order := order[..j] + [i] + order[j..];
    }
  }

  lemma BeforeAsymmetric(keys: seq<real>, a: nat, b: nat)
    requires a < |keys| && b < |keys|
    ensures !(Before(keys, a, b) && Before(keys, b, a))
  {
  }

  lemma FirstIndexIn(s: seq<nat>)
    requires s != []
    ensures s[0] in s
  {
  }

  /** Two Before-ordered sequences of the same indices start alike. */
  lemma OrderedHead(keys: seq<real>, a: seq<nat>, b: seq<nat>)
    requires Ordered(keys, a) && Ordered(keys, b) && a != []
    requires forall x :: x in a <==> x in b
    ensures b != [] && a[0] == b[0]
  {
    assert a[0] in b;
    var p :| 0 <= p < |b| && b[p] == a[0];
    assert b[0] in a;
    var q :| 0 <= q < |a| && a[q] == b[0];
    BeforeAsymmetric(keys, a[0], b[0]);
  }

  /** Two Before-ordered sequences of the same indices are equal. */
  lemma {:induction false} OrderedUnique(keys: seq<real>, a: seq<nat>, b: seq<nat>)
    requires Ordered(keys, a) && Ordered(keys, b)
    requires forall x :: x in a <==> x in b
    ensures a == b
    decreases |a|
  {
    if a == [] {
      if b != [] {
        FirstIndexIn(b);
        assert false;
      }
    } else {
      OrderedHead(keys, a, b);
      forall x ensures x in a[1..] <==> x in b[1..] {
        if x in a[1..] {
          var k :| 1 <= k < |a| && a[k] == x;
          assert Before(keys, a[0], x);
        }
        if x in b[1..] {
          var k :| 1 <= k < |b| && b[k] == x;
          assert Before(keys, b[0], x);
        }
        if x in a && x != a[0] {
          var k :| 0 <= k < |a| && a[k] == x;
          assert a[1..][k - 1] == x;
        }
        if x in b && x != b[0] {
          var k :| 0 <= k < |b| && b[k] == x;
          assert b[1..][k - 1] == x;
        }
      }
      OrderedUnique(keys, a[1..], b[1..]);
      assert a == [a[0]] + a[1..] && b == [b[0]] + b[1..];
    }
  }

  /** The stable descending order of keys is unique, as `sorted` is deterministic. */
  lemma StableDescendingUnique(keys: seq<real>, a: seq<nat>, b: seq<nat>)
    requires StableDescending(keys, a) && StableDescending(keys, b)
    ensures a == b
  {
    OrderedUnique(keys, a, b);
  }

  /** An index outside the first m of the order has a key no higher than any of those m. */
  lemma TopIndicesBest(keys: seq<real>, order: seq<nat>, m: nat, i: nat)
    requires StableDescending(keys, order) && m <= |order|
    requires i < |keys| && i !in order[..m]
    ensures forall k :: 0 <= k < m ==> keys[i] <= keys[order[k]]
  {
    assert i in order;
    var p :| 0 <= p < |order| && order[p] == i;
    assert p >= m;
    forall k | 0 <= k < m ensures keys[i] <= keys[order[k]] {
      assert Before(keys, order[k], order[p]);
    }
  }

  // ----- rank_cars -----

  predicate Distinct(cars: seq<Car>) {
    forall i, j :: 0 <= i < j < |cars| ==> cars[i] != cars[j]
  }

  /** The score of every car under criteria, in input order. */
  function Scores(cars: seq<Car>, criteria: string): (keys: seq<real>)
    ensures |keys| == |cars|
    ensures forall i :: 0 <= i < |cars| ==> keys[i] == CarScore(cars[i].record, criteria)
  {
    seq(|cars|, i requires 0 <= i < |cars| => CarScore(cars[i].record, criteria))
  }

  /** The cars in the given index order. */
  function Arrange(cars: seq<Car>, order: seq<nat>): (r: seq<Car>)
    requires forall k :: 0 <= k < |order| ==> order[k] < |cars|
    ensures |r| == |order|
    ensures forall k :: 0 <= k < |order| ==> r[k] == cars[order[k]]
  {
    seq(|order|, k requires 0 <= k < |order| => cars[order[k]])
  }

  /** The length of Python's `s[:stop]` for a list of length n. */
  function SliceEnd(n: nat, stop: int): (e: nat)
    ensures e <= n
  {
    if stop >= 0 then (if stop < n then stop else n)
    else if n + stop > 0 then n + stop else 0
  }

  /** With a non-negative top_n, the result holds min(top_n, len(cars)) cars. */
  lemma SliceEndOfCount(n: nat, stop: int)
    requires stop >= 0
    ensures SliceEnd(n, stop) == if stop < n then stop else n
  {
  }

  lemma ArrangeDistinct(cars: seq<Car>, keys: seq<real>, order: seq<nat>)
    requires Distinct(cars) && |keys| == |cars| && StableDescending(keys, order)
    ensures Distinct(Arrange(cars, order))
  {
    forall k, l | 0 <= k < l < |order| ensures cars[order[k]] != cars[order[l]] {
      assert Before(keys, order[k], order[l]);
    }
  }

  /**
   * `rank_cars(cars, criteria, top_n)`.  Every car gets its score; the
   * result is the first top_n cars of the stable descending sort by score
   * (order is that sort, as indices into cars), and the k-th of them gets
   * rank k + 1.  Cars left out of the result keep the rank they had.
   */
  method RankCars(cars: seq<Car>, criteria: string, topN: int) returns (ranked: seq<Car>, ghost order: seq<nat>)
    requires Distinct(cars)
    modifies cars
    ensures cars == [] ==> ranked == []
    ensures cars != [] ==> forall i :: 0 <= i < |cars| ==> cars[i].score == Some(CarScore(cars[i].record, criteria))
    ensures cars != [] ==> StableDescending(Scores(cars, criteria), order)
    ensures cars != [] ==> ranked == Arrange(cars, order)[..SliceEnd(|cars|, topN)]
    ensures forall k :: 0 <= k < |ranked| ==> ranked[k].rank == Some(k + 1)
    ensures forall c :: c in cars && c !in ranked ==> c.rank == old(c.rank)
  {
    if cars == [] {
      return [], [];
    }
    ScoreCars(cars, criteria);
    label Scored:
    var keys: seq<real> := [];
    for i := 0 to |cars|
      invariant keys == Scores(cars, criteria)[..i]
    {
      keys := keys + [cars[i].score.GetOr(0.0)];
    }
    assert keys == Scores(cars, criteria);
    var perm := SortOrder(keys);
    order := perm;
    ArrangeDistinct(cars, keys, perm);
    ranked := Arrange(cars, perm)[..SliceEnd(|cars|, topN)];
    assert forall k :: 0 <= k < |ranked| ==> ranked[k] in cars;
    AssignRanks(ranked);
    forall j | 0 <= j < |cars| ensures cars[j].score == Some(CarScore(cars[j].record, criteria)) {
      if cars[j] in ranked {
        assert cars[j].score == old@Scored(cars[j].score);
      }
    }
  }

  /** The first loop of `rank_cars`: `car["score"] = calculate_car_score(car, criteria)` for every car. */
  method ScoreCars(cars: seq<Car>, criteria: string)
    requires Distinct(cars)
    modifies cars
    ensures forall i :: 0 <= i < |cars| ==> cars[i].score == Some(CarScore(cars[i].record, criteria))
    ensures forall c :: c in cars ==> c.rank == old(c.rank)
  {
    for i := 0 to |cars|
      invariant forall j :: 0 <= j < i ==> cars[j].score == Some(CarScore(cars[j].record, criteria))
      invariant forall c :: c in cars ==> c.rank == old(c.rank)
    {
      cars[i].score := Some(CarScore(cars[i].record, criteria));
    }
  }

  /** The second loop of `rank_cars`: `car["rank"] = i + 1` for the i-th kept car. */
  method AssignRanks(ranked: seq<Car>)
    requires Distinct(ranked)
    modifies ranked
    ensures forall k :: 0 <= k < |ranked| ==> ranked[k].rank == Some(k + 1)
    ensures forall c :: c in ranked ==> c.score == old(c.score)
  {
    for k := 0 to |ranked|
      invariant forall l :: 0 <= l < k ==> ranked[l].rank == Some(l + 1)
      invariant forall c :: c in ranked ==> c.score == old(c.score)
    {
      ranked[k].rank := Some(k + 1);
    }
  }

  /** The ranked cars go by non-increasing score. */
  lemma RankedByScore(cars: seq<Car>, criteria: string, order: seq<nat>, ranked: seq<Car>, topN: int)
    requires StableDescending(Scores(cars, criteria), order)
    requires ranked == Arrange(cars, order)[..SliceEnd(|cars|, topN)]
    ensures forall k, l :: 0 <= k < l < |ranked| ==>
      CarScore(ranked[l].record, criteria) <= CarScore(ranked[k].record, criteria)
  {
    var keys := Scores(cars, criteria);
    forall k, l | 0 <= k < l < |ranked|
      ensures CarScore(ranked[l].record, criteria) <= CarScore(ranked[k].record, criteria)
    {
      assert Before(keys, order[k], order[l]);
    }
  }

  /** A car left out of the ranking scores no higher than any ranked car. */
  lemma LeftOutScoreNoHigher(cars: seq<Car>, criteria: string, order: seq<nat>, ranked: seq<Car>, topN: int, i: nat)
    requires Distinct(cars)
    requires StableDescending(Scores(cars, criteria), order)
    requires ranked == Arrange(cars, order)[..SliceEnd(|cars|, topN)]
    requires i < |cars| && cars[i] !in ranked
    ensures forall k :: 0 <= k < |ranked| ==> CarScore(cars[i].record, criteria) <= CarScore(ranked[k].record, criteria)
  {
    var keys := Scores(cars, criteria);
    var m := SliceEnd(|cars|, topN);
    assert i !in order[..m];
    TopIndicesBest(keys, order, m, i);
  }
}
