/**
 * The order statistics the quote reconciliation relies on: `sorted` on
 * numbers, `statistics.median`, `statistics.mean` and `statistics.stdev`,
 * all over exact reals (the statistics module also computes with exact
 * fractions).  The square root inside `stdev` is a parameter.
 */
module Stats {

  predicate Sorted(s: seq<real>) {
    forall i, j :: 0 <= i < j < |s| ==> s[i] <= s[j]
  }

  /** Inserting x keeps a sorted sequence sorted and adds x to its multiset. */
  function Insert(s: seq<real>, x: real): (r: seq<real>)
    requires Sorted(s)
    ensures Sorted(r)
    ensures multiset(r) == multiset(s) + multiset{x}
    ensures |r| == |s| + 1
  {
    if s == [] || x <= s[0] then
      HeadBound(s, x);
      SortedCons(x, s);
      [x] + s
    else
      var t := Insert(s[1..], x);
      TailBound(s, x, t);
      SortedCons(s[0], t);
      [s[0]] + t
  }

  lemma HeadBound(s: seq<real>, x: real)
    requires Sorted(s) && (s == [] || x <= s[0])
    ensures LowerBound(s, x)
  {
    forall k | 0 <= k < |s| ensures x <= s[k] {
      if k > 0 {
        assert s[0] <= s[k];
      }
    }
  }

  lemma TailBound(s: seq<real>, x: real, t: seq<real>)
    requires Sorted(s) && s != [] && s[0] < x
    requires multiset(t) == multiset(s[1..]) + multiset{x}
    ensures LowerBound(t, s[0])
    ensures multiset(s) == multiset{s[0]} + multiset(s[1..])
  {
    assert s == [s[0]] + s[1..];
    forall k | 0 <= k < |t| ensures s[0] <= t[k] {
      assert t[k] in multiset(s[1..]) + multiset{x};
      if t[k] != x {
        assert t[k] in s[1..];
      }
    }
  }

  /** Every element of s is at least b. */
  predicate LowerBound(s: seq<real>, b: real) {
    forall k :: 0 <= k < |s| ==> b <= s[k]
  }

  lemma SortedCons(b: real, t: seq<real>)
    requires Sorted(t) && LowerBound(t, b)
    ensures Sorted([b] + t)
  {
    forall i, j | 0 <= i < j < |t| + 1 ensures ([b] + t)[i] <= ([b] + t)[j] {
      assert ([b] + t)[j] == t[j - 1];
      if i > 0 {
        assert ([b] + t)[i] == t[i - 1];
      }
    }
  }

  /** `sorted(values)`: an ascending permutation of the values. */
  function Sort(s: seq<real>): (r: seq<real>)
    ensures Sorted(r)
    ensures multiset(r) == multiset(s)
    ensures |r| == |s|
  {
    if s == [] then []
    else
      assert s == s[..|s| - 1] + [s[|s| - 1]];
      Insert(Sort(s[..|s| - 1]), s[|s| - 1])
  }

  function Min(s: seq<real>): (m: real)
    requires s != []
  {
    if |s| == 1 then s[0]
    else var t := Min(s[1..]); if s[0] <= t then s[0] else t
  }

  function Max(s: seq<real>): (m: real)
    requires s != []
  {
    if |s| == 1 then s[0]
    else var t := Max(s[1..]); if s[0] >= t then s[0] else t
  }

  lemma {:induction false} MinMaxBound(s: seq<real>, x: real)
    requires x in s
    ensures Min(s) <= x <= Max(s)
  {
    if |s| > 1 && x != s[0] {
      MinMaxBound(s[1..], x);
    }
  }

  /** `statistics.median`: the middle of the sorted values, or the mean of the two middles. */
  function Median(s: seq<real>): (m: real)
    requires s != []
  {
    var t := Sort(s);
    var n := |t|;
    if n % 2 == 1 then t[n / 2] else (t[n / 2 - 1] + t[n / 2]) / 2.0
  }

  /** The ends of the sorted values are bounded by the minimum and the maximum. */
  lemma SortEnds(s: seq<real>)
    requires s != []
    ensures Min(s) <= Sort(s)[0] && Sort(s)[|s| - 1] <= Max(s)
  {
    var t := Sort(s);
    assert t[0] in multiset(s);
    assert t[|t| - 1] in multiset(s);
    MinMaxBound(s, t[0]);
    MinMaxBound(s, t[|t| - 1]);
  }

  /** The median lies between the smallest and the largest value. */
  lemma MedianBetweenMinAndMax(s: seq<real>)
    requires s != []
    ensures Min(s) <= Median(s) <= Max(s)
  {
    var t := Sort(s);
    var n := |t|;
    SortEnds(s);
    BetweenEnds(t, n / 2);
    if n % 2 == 0 {
      BetweenEnds(t, n / 2 - 1);
    }
  }

  /** Every element of a sorted sequence lies between its first and its last. */
  lemma BetweenEnds(t: seq<real>, i: int)
    requires Sorted(t) && 0 <= i < |t|
    ensures t[0] <= t[i] <= t[|t| - 1]
  {
  }

  function Sum(s: seq<real>): real {
    if s == [] then 0.0 else Sum(s[..|s| - 1]) + s[|s| - 1]
  }

  /** `statistics.mean` */
  function Mean(s: seq<real>): real
    requires s != []
  {
    Sum(s) / |s| as real
  }

  /** The sum of squared deviations from m. */
  function SquaredDeviations(s: seq<real>, m: real): (r: real)
    ensures r >= 0.0
  {
    if s == [] then 0.0
    else
      var d := s[|s| - 1] - m;
      SquaredDeviations(s[..|s| - 1], m) + d * d
  }

  /** `statistics.variance`: the sample variance. */
  function SampleVariance(s: seq<real>): (v: real)
    requires |s| >= 2
    ensures v >= 0.0
  {
    SquaredDeviations(s, Mean(s)) / (|s| - 1) as real
  }

  /**
   * sqrt returns the non-negative square root of every non-negative number
   * (the root of 0, implied by the rest, is spelled out for the solver).
   */
  ghost predicate IsSquareRoot(sqrt: real -> real) {
    && (forall x :: x >= 0.0 ==> sqrt(x) >= 0.0 && sqrt(x) * sqrt(x) == x)
    && sqrt(0.0) == 0.0
  }

  /**
   * `statistics.stdev(values) if len(values) > 1 else 0`: never negative,
   * and 0 for one value.
   */
  function StdDev(s: seq<real>, sqrt: real -> real): (d: real)
    requires IsSquareRoot(sqrt)
    ensures d >= 0.0
    ensures |s| <= 1 ==> d == 0.0
    ensures |s| >= 2 ==> d * d == SampleVariance(s)
  {
    if |s| > 1 then sqrt(SampleVariance(s)) else 0.0
  }

  /** Every element of a constant sequence is c. */
  predicate AllEqual(s: seq<real>, c: real) {
    forall i :: 0 <= i < |s| ==> s[i] == c
  }

  lemma {:induction false} ConstantSum(s: seq<real>, c: real)
    requires AllEqual(s, c)
    ensures Sum(s) == |s| as real * c
    ensures SquaredDeviations(s, c) == 0.0
  {
    if s != [] {
      ConstantSum(s[..|s| - 1], c);
    }
  }

  lemma ConstantMedian(s: seq<real>, c: real)
    requires s != [] && AllEqual(s, c)
    ensures Median(s) == c
  {
    var t := Sort(s);
    forall i | 0 <= i < |t| ensures t[i] == c {
      assert t[i] in multiset(s);
    }
  }

  lemma ConstantMean(s: seq<real>, c: real)
    requires s != [] && AllEqual(s, c)
    ensures Mean(s) == c
  {
    ConstantSum(s, c);
    var n := |s| as real;
    assert Mean(s) == (n * c) / n;
  }

  lemma ConstantVariance(s: seq<real>, c: real)
    requires |s| >= 2 && AllEqual(s, c)
    ensures SampleVariance(s) == 0.0
  {
    ConstantMean(s, c);
    ConstantSum(s, c);
  }

  /** Identical quotes: median, mean and deviation are the quote and 0. */
  lemma ConstantStatistics(s: seq<real>, c: real, sqrt: real -> real)
    requires s != [] && AllEqual(s, c)
    requires IsSquareRoot(sqrt)
    ensures Median(s) == c && Mean(s) == c && StdDev(s, sqrt) == 0.0
  {
    ConstantMedian(s, c);
    ConstantMean(s, c);
    if |s| >= 2 {
      ConstantVariance(s, c);
      assert StdDev(s, sqrt) == sqrt(0.0);
    }
  }
}
