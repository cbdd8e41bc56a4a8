/**
 The next-year forecast of `predict_next_year`: the mean year-over-year growth
 rate applied to the last count, or the mean count when no rate can be computed.
 Arithmetic is on exact reals; `int(...)` is truncation toward zero.
 */
module Forecast {
  import opened Wrappers
  import opened Sets
  import opened Decimal
  import opened Sorting

  /** `int(x)` on a number: truncation toward zero. */
  function Trunc(x: real): (t: int)
    ensures x >= 0.0 ==> t as real <= x < t as real + 1.0
    ensures x < 0.0 ==> t as real - 1.0 < x <= t as real
  {
    if x >= 0.0 then x.Floor else -((-x).Floor)
  }

  /** Truncation keeps an integer lower bound. */
  lemma TruncAtLeast(x: real, k: int)
    requires x >= k as real
    ensures Trunc(x) >= k
  {
    if x >= 0.0 {
      assert x.Floor as real > x - 1.0;
    }
  }

  /** A whole number truncates to itself. */
  lemma TruncWhole(k: int)
    ensures Trunc(k as real) == k
  {
  }

  function SumInts(s: seq<int>): int
  {
    if s == [] then 0 else SumInts(s[..|s| - 1]) + s[|s| - 1]
  }

  function SumReals(s: seq<real>): real
  {
    if s == [] then 0.0 else SumReals(s[..|s| - 1]) + s[|s| - 1]
  }

  function Mean(s: seq<real>): real
    requires |s| > 0
  {
    SumReals(s) / |s| as real
  }

  /** The growth rate from one count to the next. */
  function Rate(prev: int, next: int): real
    requires prev > 0
  {
    (next - prev) as real / prev as real
  }

  /**
   The growth rates of consecutive counts, in order, for the transitions whose
   earlier count is positive; the others are skipped.
   */
  function GrowthRates(counts: seq<int>): seq<real>
  {
    if |counts| < 2 then []
    else
      var init := counts[..|counts| - 1];
      var prev, next := counts[|counts| - 2], counts[|counts| - 1];
      GrowthRates(init) + (if prev > 0 then [Rate(prev, next)] else [])
  }

  /** The loop that appends a growth rate for every transition with a positive earlier count. */
  method ComputeGrowthRates(counts: seq<int>) returns (rates: seq<real>)
    ensures rates == GrowthRates(counts)
  {
    rates := [];
    var i := 1;
    while i < |counts|
      invariant 1 <= i
      invariant i <= |counts| || |counts| == 0
      invariant rates == GrowthRates(counts[..if i <= |counts| then i else 0])
    {
      assert counts[..i + 1][..i] == counts[..i];
      if counts[i - 1] > 0 {
        rates := rates + [Rate(counts[i - 1], counts[i])];
      }
      i := i + 1;
    }
    if |counts| > 0 {
      assert counts[..|counts|] == counts;
    }
  }

  /** `sum(counts) / len(counts)`. */
  function MeanCount(counts: seq<int>): real
    requires |counts| > 0
  {
    SumInts(counts) as real / |counts| as real
  }

  /** `counts[-1] * (1 + avg_growth_rate)`. */
  function Grown(last: int, rate: real): real
  {
    last as real * (1.0 + rate)
  }

  /**
   The predicted count: with no growth rate, the truncated mean count;
   otherwise the truncated last count grown by the mean rate.
   */
  function Predict(counts: seq<int>, rates: seq<real>): int
    requires |counts| > 0
  {
    if rates == [] then Trunc(MeanCount(counts))
    else Trunc(Grown(counts[|counts| - 1], Mean(rates)))
  }

  /** What the forecaster reports: the years in order, their counts, the rates and the prediction. */
  datatype Forecast = Forecast(years: seq<int>, counts: seq<int>, rates: seq<real>, nextYear: int, prediction: int)

  /** Every key is a year text `int(...)` can read back. */
  predicate KeysAreYears(yearCount: map<string, int>)
  {
    forall k :: k in yearCount ==> ParseYear(k).Some?
  }

  /** The year numbers of the keys. */
  function YearNumbers(yearCount: map<string, int>): set<int>
  {
    set k | k in yearCount && ParseYear(k).Some? :: ParseYear(k).value
  }

  /** The year numbers are exactly the years whose `str` text is a key. */
  lemma YearNumbersKeys(yearCount: map<string, int>)
    ensures forall y :: y in YearNumbers(yearCount) <==> YearText(y) in yearCount
  {
    forall y | y in YearNumbers(yearCount)
      ensures YearText(y) in yearCount
    {
      var k :| k in yearCount && ParseYear(k).Some? && ParseYear(k).value == y;
      TextParseYear(k);
    }
    forall y | YearText(y) in yearCount
      ensures y in YearNumbers(yearCount)
    {
      ParseYearText(y);
    }
  }

  /** Keys written by `str` for a set of years are years, and read back as that set. */
  lemma YearKeys(yearCount: map<string, int>, ys: set<int>)
    requires yearCount.Keys == set y | y in ys :: YearText(y)
    ensures KeysAreYears(yearCount) && YearNumbers(yearCount) == ys
  {
    forall k | k in yearCount
      ensures ParseYear(k).Some? && ParseYear(k).value in ys
    {
      var y :| y in ys && k == YearText(y);
      ParseYearText(y);
    }
    forall y | y in ys
      ensures y in YearNumbers(yearCount)
    {
      ParseYearText(y);
      assert YearText(y) in yearCount;
    }
  }

  /** When every key is a year, there are as many year numbers as keys. */
  lemma {:induction false} YearNumbersCount(yearCount: map<string, int>)
    requires KeysAreYears(yearCount)
    ensures |YearNumbers(yearCount)| == |yearCount|
    decreases |yearCount|
  {
    if |yearCount| > 0 {
      var k := Pick(yearCount.Keys);
      var rest := yearCount - {k};
      assert rest.Keys == yearCount.Keys - {k};
      YearNumbersCount(rest);
      var y := ParseYear(k).value;
      assert YearNumbers(yearCount) == YearNumbers(rest) + {y};
      if y in YearNumbers(rest) {
        var k' :| k' in rest && ParseYear(k').Some? && ParseYear(k').value == y;
        TextParseYear(k);
        TextParseYear(k');
        assert false;
      }
    }
  }

  /**
   `sorted([int(y) for y in year_count.keys()])` when every key is a year: one
   year per key, ascending, and exactly the years whose text is a key.
   */
  function YearsOf(yearCount: map<string, int>): (years: seq<int>)
    requires KeysAreYears(yearCount)
    ensures |years| == |yearCount| && StrictlyIncreasing(years)
    ensures forall i :: 0 <= i < |years| ==> YearText(years[i]) in yearCount
  {
    YearNumbersCount(yearCount);
    YearNumbersKeys(yearCount);
    Sorted(YearNumbers(yearCount))
  }

  /** `[year_count[str(y)] for y in years]`. */
  function CountsOf(yearCount: map<string, int>, years: seq<int>): (counts: seq<int>)
    requires forall i :: 0 <= i < |years| ==> YearText(years[i]) in yearCount
    ensures |counts| == |years|
  {
    seq(|years|, i requires 0 <= i < |years| => yearCount[YearText(years[i])])
  }

  /**
   `predict_next_year(year_count)`: nothing with fewer than two years, or with
   a key `int(...)` cannot read (its `except` branch); otherwise the years
   sorted numerically, their counts, the growth rates, next year and its
   prediction.
   */
  function ForecastOf(yearCount: map<string, int>): Option<Forecast>
  {
    if |yearCount| < 2 || !KeysAreYears(yearCount) then None
    else
      var years := YearsOf(yearCount);
      var counts := CountsOf(yearCount, years);
      var rates := GrowthRates(counts);
      Some(Forecast(years, counts, rates, years[|years| - 1] + 1, Predict(counts, rates)))
  }

  /** The forecaster: nothing below two years or on a key that is not a year, else the forecast of the years. */
  method PredictNextYear(yearCount: map<string, int>) returns (r: Option<Forecast>)
    ensures r == ForecastOf(yearCount)
  {
    if |yearCount| < 2 || !KeysAreYears(yearCount) {
      return None;
    }
    var f := ForecastYears(yearCount);
    r := Some(f);
  }

  /** The forecast of a map whose keys are all years, with the growth-rate loop. */
  method ForecastYears(yearCount: map<string, int>) returns (f: Forecast)
    requires |yearCount| >= 2 && KeysAreYears(yearCount)
    ensures ForecastOf(yearCount) == Some(f)
  {
    var years := YearsOf(yearCount);
    var counts := CountsOf(yearCount, years);
    var rates := ComputeGrowthRates(counts);
    f := Forecast(years, counts, rates, years[|years| - 1] + 1, Predict(counts, rates));
    var g := ForecastOf(yearCount).value;
    assert g.years == years && g.counts == counts && g.rates == rates;
    assert g.nextYear == f.nextYear && g.prediction == f.prediction;
  }

  // ---------------------------------------------------------------------------
  // Properties
  // ---------------------------------------------------------------------------

  /** A forecast is made exactly when there are at least two years and every key is a year. */
  lemma ForecastWhen(yearCount: map<string, int>)
    ensures ForecastOf(yearCount).Some? <==> |yearCount| >= 2 && KeysAreYears(yearCount)
  {
  }

  /**
   The forecast lists every year once, ascending, each with its count; next
   year is one past the latest year; the rates and the prediction are those of
   the counts.
   */
  lemma ForecastShape(yearCount: map<string, int>)
    requires ForecastOf(yearCount).Some?
    ensures var f := ForecastOf(yearCount).value;
      && |f.years| == |f.counts| == |yearCount|
      && StrictlyIncreasing(f.years)
      && (forall y :: y in f.years <==> YearText(y) in yearCount)
      && (forall i :: 0 <= i < |f.years| ==> f.counts[i] == yearCount[YearText(f.years[i])])
      && YearText(f.nextYear - 1) in yearCount
      && (forall y :: YearText(y) in yearCount ==> y < f.nextYear)
      && f.rates == GrowthRates(f.counts)
      && f.prediction == Predict(f.counts, f.rates)
  {
    var years := YearsOf(yearCount);
    var n := |years|;
    YearNumbersKeys(yearCount);
    assert forall y :: y in years <==> YearText(y) in yearCount;
    assert YearText(years[n - 1]) in yearCount;
    forall y | YearText(y) in yearCount
      ensures y <= years[n - 1]
    {
      var i :| 0 <= i < n && years[i] == y;
    }
  }

  /**
   There is at most one growth rate per transition, and exactly one per
   transition when every count is positive.
   */
  lemma {:induction false} GrowthRatesCount(counts: seq<int>)
    requires |counts| > 0
    ensures |GrowthRates(counts)| <= |counts| - 1
    ensures (forall i :: 0 <= i < |counts| ==> counts[i] > 0) ==> |GrowthRates(counts)| == |counts| - 1
  {
    if |counts| >= 2 {
      GrowthRatesCount(counts[..|counts| - 1]);
    }
  }

  /** With every count positive, rate `i` is the growth from count `i` to count `i + 1`. */
  lemma {:induction false} GrowthRatesOfPositive(counts: seq<int>)
    requires forall i :: 0 <= i < |counts| ==> counts[i] > 0
    ensures |GrowthRates(counts)| == if counts == [] then 0 else |counts| - 1
    ensures forall i :: 0 <= i < |GrowthRates(counts)| ==> GrowthRates(counts)[i] == Rate(counts[i], counts[i + 1])
  {
    if |counts| >= 2 {
      var init := counts[..|counts| - 1];
      GrowthRatesOfPositive(init);
    }
  }

  /** With no negative count no rate is below -1: a count cannot drop below zero. */
  lemma {:induction false} GrowthRatesAtLeastMinusOne(counts: seq<int>)
    requires forall i :: 0 <= i < |counts| ==> counts[i] >= 0
    ensures forall i :: 0 <= i < |GrowthRates(counts)| ==> GrowthRates(counts)[i] >= -1.0
  {
    if |counts| >= 2 {
      GrowthRatesAtLeastMinusOne(counts[..|counts| - 1]);
      var prev, next := counts[|counts| - 2], counts[|counts| - 1];
      if prev > 0 {
        RateAtLeastMinusOne(prev, next);
      }
    }
  }

  /** With non-decreasing counts no rate is negative. */
  lemma {:induction false} GrowthRatesNonNegative(counts: seq<int>)
    requires forall i, j :: 0 <= i <= j < |counts| ==> counts[i] <= counts[j]
    ensures forall i :: 0 <= i < |GrowthRates(counts)| ==> GrowthRates(counts)[i] >= 0.0
  {
    if |counts| >= 2 {
      GrowthRatesNonNegative(counts[..|counts| - 1]);
    }
  }

  /** A sum of reals each at least `lo` is at least `|s| * lo`. */
  lemma {:induction false} SumRealsAtLeast(s: seq<real>, lo: real)
    requires forall i :: 0 <= i < |s| ==> s[i] >= lo
    ensures SumReals(s) >= |s| as real * lo
  {
    if s != [] {
      SumRealsAtLeast(s[..|s| - 1], lo);
    }
  }

  /** A sum of non-negative integers is non-negative. */
  lemma {:induction false} SumIntsNonNegative(s: seq<int>)
    requires forall i :: 0 <= i < |s| ==> s[i] >= 0
    ensures SumInts(s) >= 0
  {
    if s != [] {
      SumIntsNonNegative(s[..|s| - 1]);
    }
  }

  /** A count that does not go below zero gives a rate of at least -1. */
  lemma RateAtLeastMinusOne(prev: int, next: int)
    requires prev > 0 && next >= 0
    ensures Rate(prev, next) >= -1.0
  {
    var p, r := prev as real, Rate(prev, next);
    assert r * p == (next - prev) as real;
  }

  /** A mean is at least any common lower bound of the values. */
  lemma MeanAtLeast(s: seq<real>, lo: real)
    requires |s| > 0
    requires forall i :: 0 <= i < |s| ==> s[i] >= lo
    ensures Mean(s) >= lo
  {
    SumRealsAtLeast(s, lo);
    var n := |s| as real;
    var m := Mean(s);
    assert m * n == SumReals(s);
  }

  /** The count grown by a rate of at least -1 is not negative, and not below the count for a rate of at least 0. */
  lemma GrownCount(last: int, rate: real)
    requires last >= 0 && rate >= -1.0
    ensures Grown(last, rate) >= 0.0
    ensures rate >= 0.0 ==> Grown(last, rate) >= last as real
  {
    var l := last as real;
    ProductNonNegative(l, 1.0 + rate);
    if rate >= 0.0 {
      ProductNonNegative(l, rate);
      assert l * (1.0 + rate) == l + l * rate;
    }
  }

  lemma ProductNonNegative(x: real, y: real)
    requires x >= 0.0 && y >= 0.0
    ensures x * y >= 0.0
  {
  }

  /** With no negative count the mean count is not negative. */
  lemma MeanCountNonNegative(counts: seq<int>)
    requires |counts| > 0
    requires forall i :: 0 <= i < |counts| ==> counts[i] >= 0
    ensures Trunc(MeanCount(counts)) >= 0
  {
    SumIntsNonNegative(counts);
    var avg := MeanCount(counts);
    assert avg >= 0.0;
    TruncAtLeast(avg, 0);
  }

  /** A count that is not negative, grown by a mean of rates of at least -1, truncates to no less than 0. */
  lemma GrownMeanNonNegative(last: int, rates: seq<real>)
    requires last >= 0 && |rates| > 0
    requires forall i :: 0 <= i < |rates| ==> rates[i] >= -1.0
    ensures Trunc(Grown(last, Mean(rates))) >= 0
  {
    var m := Mean(rates);
    MeanAtLeast(rates, -1.0);
    GrownCount(last, m);
    TruncAtLeast(Grown(last, m), 0);
  }

  /** With no negative count and no rate below -1 the prediction is not negative. */
  lemma PredictionNonNegative(counts: seq<int>, rates: seq<real>)
    requires |counts| > 0
    requires forall i :: 0 <= i < |counts| ==> counts[i] >= 0
    requires forall i :: 0 <= i < |rates| ==> rates[i] >= -1.0
    ensures Predict(counts, rates) >= 0
  {
    if rates == [] {
      MeanCountNonNegative(counts);
    } else {
      GrownMeanNonNegative(counts[|counts| - 1], rates);
    }
  }

  /** With no negative count the forecaster's prediction is not negative. */
  lemma PredictNonNegative(counts: seq<int>)
    requires |counts| > 0
    requires forall i :: 0 <= i < |counts| ==> counts[i] >= 0
    ensures Predict(counts, GrowthRates(counts)) >= 0
  {
    GrowthRatesAtLeastMinusOne(counts);
    PredictionNonNegative(counts, GrowthRates(counts));
  }

  /** A count that is not negative, grown by a mean of rates that are not negative, truncates to no less than itself. */
  lemma GrownMeanAtLeastLast(last: int, rates: seq<real>)
    requires last >= 0 && |rates| > 0
    requires forall i :: 0 <= i < |rates| ==> rates[i] >= 0.0
    ensures Trunc(Grown(last, Mean(rates))) >= last
  {
    var m := Mean(rates);
    MeanAtLeast(rates, 0.0);
    GrownCount(last, m);
    TruncAtLeast(Grown(last, m), last);
  }

  /** With non-decreasing counts and at least one rate, the prediction is at least the last count. */
  lemma PredictNotBelowLast(counts: seq<int>)
    requires |counts| > 0
    requires forall i :: 0 <= i < |counts| ==> counts[i] >= 0
    requires forall i, j :: 0 <= i <= j < |counts| ==> counts[i] <= counts[j]
    requires GrowthRates(counts) != []
    ensures Predict(counts, GrowthRates(counts)) >= counts[|counts| - 1]
  {
    GrowthRatesNonNegative(counts);
    GrownMeanAtLeastLast(counts[|counts| - 1], GrowthRates(counts));
  }

  /** A sum of zeros is zero. */
  lemma {:induction false} SumRealsZero(s: seq<real>)
    requires forall i :: 0 <= i < |s| ==> s[i] == 0.0
    ensures SumReals(s) == 0.0
  {
    if s != [] {
      SumRealsZero(s[..|s| - 1]);
    }
  }

  /** A flat series of positive counts grows by zero at every step. */
  lemma FlatRatesZero(counts: seq<int>, c: int)
    requires c > 0
    requires forall i :: 0 <= i < |counts| ==> counts[i] == c
    ensures forall i :: 0 <= i < |GrowthRates(counts)| ==> GrowthRates(counts)[i] == 0.0
  {
    GrowthRatesOfPositive(counts);
    assert Rate(c, c) == 0.0;
  }

  /** A flat series of positive counts predicts the same count again. */
  lemma PredictFlat(counts: seq<int>, c: int)
    requires |counts| >= 2 && c > 0
    requires forall i :: 0 <= i < |counts| ==> counts[i] == c
    ensures Predict(counts, GrowthRates(counts)) == c
  {
    GrowthRatesCount(counts);
    FlatRatesZero(counts, c);
    var rates := GrowthRates(counts);
    SumRealsZero(rates);
    assert Mean(rates) == 0.0;
    assert Grown(counts[|counts| - 1], Mean(rates)) == c as real;
    TruncWhole(c);
  }

  // ---------------------------------------------------------------------------
  // Examples
  // ---------------------------------------------------------------------------

  /** The keys `str` writes for three consecutive years are years, and read back as them. */
  lemma ThreeYearNumbers(m: map<string, int>, y: int)
    requires m.Keys == {YearText(y), YearText(y + 1), YearText(y + 2)}
    ensures KeysAreYears(m) && YearNumbers(m) == {y, y + 1, y + 2}
  {
    ParseYearText(y);
    ParseYearText(y + 1);
    ParseYearText(y + 2);
  }

  lemma ThreeListing(y: int)
    ensures Sorted({y, y + 1, y + 2}) == [y, y + 1, y + 2]
  {
    var r := [y, y + 1, y + 2];
    assert forall z :: z in {y, y + 1, y + 2} <==> z in r;
    SortedIsAscendingListing({y, y + 1, y + 2}, r);
  }

  /** A map keyed by three consecutive years lists them in order, one per key. */
  lemma ThreeYears(m: map<string, int>, y: int)
    requires m.Keys == {YearText(y), YearText(y + 1), YearText(y + 2)}
    ensures KeysAreYears(m) && YearsOf(m) == [y, y + 1, y + 2] && |m| == 3
  {
    ThreeYearNumbers(m, y);
    ThreeListing(y);
  }

  lemma ThreeTextsDistinct(y: int)
    ensures YearText(y) != YearText(y + 1) && YearText(y) != YearText(y + 2) && YearText(y + 1) != YearText(y + 2)
  {
    ParseYearText(y);
    ParseYearText(y + 1);
    ParseYearText(y + 2);
  }

  /** The counts of three consecutive years, in year order. */
  lemma ThreeCounts(m: map<string, int>, y: int, a: int, b: int, c: int)
    requires m == map[YearText(y) := a, YearText(y + 1) := b, YearText(y + 2) := c]
    ensures CountsOf(m, [y, y + 1, y + 2]) == [a, b, c]
  {
    ThreeTextsDistinct(y);
    assert m[YearText(y)] == a && m[YearText(y + 1)] == b && m[YearText(y + 2)] == c;
  }

  /** The example counts grow by half each year. */
  lemma ExampleRates()
    ensures GrowthRates([100, 150, 225]) == [0.5, 0.5]
  {
    assert [100, 150, 225][..2] == [100, 150];
    assert [100, 150][..1] == [100];
  }

  /** Half again of 225 is 337.5, which truncates to 337. */
  lemma ExamplePrediction()
    ensures Predict([100, 150, 225], [0.5, 0.5]) == 337
  {
    assert [0.5, 0.5][..1] == [0.5];
    assert SumReals([0.5, 0.5]) == 1.0;
    assert Mean([0.5, 0.5]) == 0.5;
    assert Grown(225, 0.5) == 337.5;
  }

  /** Three consecutive years counting 100, 150 and 225 papers forecast 337 papers for the year after. */
  lemma ForecastExample(y: int)
    ensures ForecastOf(map[YearText(y) := 100, YearText(y + 1) := 150, YearText(y + 2) := 225])
      == Some(Forecast([y, y + 1, y + 2], [100, 150, 225], [0.5, 0.5], y + 3, 337))
  {
    var m := map[YearText(y) := 100, YearText(y + 1) := 150, YearText(y + 2) := 225];
    ThreeYears(m, y);
    ThreeCounts(m, y, 100, 150, 225);
    var years := YearsOf(m);
    var counts := CountsOf(m, years);
    assert counts == [100, 150, 225];
    ExampleRates();
    ExamplePrediction();
    var g := ForecastOf(m).value;
    assert g.years == years && g.counts == counts;
    assert g.rates == GrowthRates(counts) == [0.5, 0.5];
    assert g.nextYear == y + 3;
    assert g.prediction == Predict(counts, [0.5, 0.5]) == 337;
  }

  /** The keys `str` writes for two consecutive years are years, and read back as them. */
  lemma TwoYearNumbers(m: map<string, int>, y: int)
    requires m.Keys == {YearText(y), YearText(y + 1)}
    ensures KeysAreYears(m) && YearNumbers(m) == {y, y + 1}
  {
    ParseYearText(y);
    ParseYearText(y + 1);
  }

  lemma TwoListing(y: int)
    ensures Sorted({y, y + 1}) == [y, y + 1]
  {
    var r := [y, y + 1];
    assert forall z :: z in {y, y + 1} <==> z in r;
    SortedIsAscendingListing({y, y + 1}, r);
  }

  /** A map keyed by two consecutive years lists them in order. */
  lemma TwoYears(m: map<string, int>, y: int)
    requires m.Keys == {YearText(y), YearText(y + 1)}
    ensures KeysAreYears(m) && YearsOf(m) == [y, y + 1] && |m| == 2
  {
    TwoYearNumbers(m, y);
    TwoListing(y);
  }

  /** The counts of two consecutive years, in year order. */
  lemma TwoCounts(m: map<string, int>, y: int, a: int, b: int)
    requires m == map[YearText(y) := a, YearText(y + 1) := b]
    ensures CountsOf(m, [y, y + 1]) == [a, b]
  {
    ParseYearText(y);
    ParseYearText(y + 1);
    assert m[YearText(y)] == a && m[YearText(y + 1)] == b;
  }

  /** No rate follows a zero count, and the mean of 0 and 5 truncates to 2. */
  lemma PairPrediction()
    ensures GrowthRates([0, 5]) == [] && Predict([0, 5], []) == 2
  {
    assert [0, 5][..1] == [0];
    assert SumInts([0, 5]) == 5;
  }

  /** A year with no papers gives no rate, so two years forecast the truncated mean count. */
  lemma ForecastAfterEmptyYear(y: int)
    ensures ForecastOf(map[YearText(y) := 0, YearText(y + 1) := 5])
      == Some(Forecast([y, y + 1], [0, 5], [], y + 2, 2))
  {
    var m := map[YearText(y) := 0, YearText(y + 1) := 5];
    TwoYears(m, y);
    TwoCounts(m, y, 0, 5);
    var years := YearsOf(m);
    var counts := CountsOf(m, years);
    PairPrediction();
    var g := ForecastOf(m).value;
    assert g.years == years && g.counts == counts && g.rates == [];
    assert g.nextYear == y + 2 && g.prediction == 2;
  }

}
