/** The per-year paper count of `plot_paper_trend` and the series it charts. */
module YearCount {
  import opened Counting
  import opened Sorting
  import opened Text
  import opened Decimal
  import opened Extract

  /** The year field of every record, in order. */
  function Years(papers: seq<Paper>): seq<string>
  {
    seq(|papers|, i requires 0 <= i < |papers| => papers[i].year)
  }

  /** The positions of the records whose year field is `y`. */
  function RecordsWithYear(papers: seq<Paper>, y: string): set<int>
  {
    set i | 0 <= i < |papers| && papers[i].year == y
  }

  /** A year occurs among the years as often as there are records with that year. */
  lemma {:induction false} YearOccurrences(papers: seq<Paper>, y: string)
    ensures multiset(Years(papers))[y] == |RecordsWithYear(papers, y)|
    decreases |papers|
  {
    if papers != [] {
      var n := |papers| - 1;
      var init := papers[..n];
      YearOccurrences(init, y);
      assert Years(papers) == Years(init) + [papers[n].year];
      if papers[n].year == y {
        assert RecordsWithYear(papers, y) == RecordsWithYear(init, y) + {n};
      } else {
        assert RecordsWithYear(papers, y) == RecordsWithYear(init, y);
      }
    }
  }

  /** Each year's count is the number of records with that year. */
  lemma YearCountRecords(papers: seq<Paper>)
    ensures forall y :: y in Tally(Years(papers)) ==> Tally(Years(papers))[y] == |RecordsWithYear(papers, y)|
  {
    forall y | y in Tally(Years(papers))
      ensures Tally(Years(papers))[y] == |RecordsWithYear(papers, y)|
    {
      YearOccurrences(papers, y);
    }
  }

  /** The years of one more record. */
  lemma YearsSnoc(papers: seq<Paper>, i: nat)
    requires i < |papers|
    ensures Years(papers[..i + 1]) == Years(papers[..i]) + [papers[i].year]
  {
  }

  /** The counted years are exactly the years of the records, each counted at least once. */
  lemma YearsPresent(papers: seq<Paper>)
    ensures Tally(Years(papers)).Keys == set p | p in papers :: p.year
    ensures forall y :: y in Tally(Years(papers)) ==> Tally(Years(papers))[y] >= 1
  {
    TallyPositive(Years(papers));
    forall y | y in Years(papers)
      ensures exists p :: p in papers && p.year == y
    {
      var k :| 0 <= k < |papers| && Years(papers)[k] == y;
      assert papers[k] in papers;
    }
    forall p | p in papers
      ensures p.year in Years(papers)
    {
      var k :| 0 <= k < |papers| && papers[k] == p;
      assert Years(papers)[k] == p.year;
    }
  }

  /**
   The counting loop: `year_count[year] = year_count.get(year, 0) + 1` for every
   record. The keys are exactly the years present and each count is the number
   of records with that year.
   */
  method CountByYear(papers: seq<Paper>) returns (yearCount: map<string, nat>)
    ensures yearCount == Tally(Years(papers))
    ensures yearCount.Keys == set p | p in papers :: p.year
    ensures forall y :: y in yearCount ==> yearCount[y] == multiset(Years(papers))[y] >= 1
    ensures forall y :: y in yearCount ==> yearCount[y] == |RecordsWithYear(papers, y)|
  {
    YearsPresent(papers);
    YearCountRecords(papers);
    if |papers| == 0 {
      assert Years(papers) == [];
      return map[];
    }
    yearCount := map[];
    var i := 0;
    while i < |papers|
      invariant 0 <= i <= |papers|
      invariant yearCount == Tally(Years(papers[..i]))
    {
      var year := papers[i].year;
      YearsSnoc(papers, i);
      TallySnoc(Years(papers[..i]), year);
      yearCount := yearCount[year := (if year in yearCount then yearCount[year] else 0) + 1];
      i := i + 1;
    }
    assert papers[..|papers|] == papers;
  }

  /**
   `years = sorted(year_count.keys())` and `counts = [year_count[year] for year
   in years]`: every year once, in ascending string order, beside its count.
   */
  function TrendSeries(yearCount: map<string, nat>): (series: (seq<string>, seq<nat>))
    ensures |series.0| == |series.1| == |yearCount|
    ensures Ascending(series.0, StringLess)
    ensures forall y :: y in series.0 <==> y in yearCount
    ensures forall i :: 0 <= i < |series.0| ==> series.0[i] in yearCount && series.1[i] == yearCount[series.0[i]]
  {
    StringLessOrder();
    var years := SortedBy(yearCount.Keys, StringLess);
    (years, seq(|years|, i requires 0 <= i < |years| => yearCount[years[i]]))
  }

  /** The string-sorted key listing is the only ascending listing of the keys. */
  lemma TrendYearsUnique(yearCount: map<string, nat>, ys: seq<string>)
    requires Ascending(ys, StringLess)
    requires forall y :: y in ys <==> y in yearCount
    ensures TrendSeries(yearCount).0 == ys
  {
    StringLessOrder();
    SortedByIsAscendingListing(yearCount.Keys, ys, StringLess);
  }

  /** A number of ten or more has at least two digits. */
  lemma NatTextLong(n: nat)
    requires n >= 10
    ensures |NatText(n)| >= 2
  {
  }

  /** Digit texts of equal length compare as strings the way their numbers compare. */
  lemma {:induction false} NatTextOrder(n: nat, m: nat)
    requires |NatText(n)| == |NatText(m)|
    ensures StringLess(NatText(n), NatText(m)) <==> n < m
    decreases n
  {
    if n < 10 || m < 10 {
      if n >= 10 {
        NatTextLong(n);
      } else if m >= 10 {
        NatTextLong(m);
      }
      assert NatText(n) == [DigitChar(n)] && NatText(m) == [DigitChar(m)];
    } else {
      var hn, hm := n / 10, m / 10;
      StringLessAppend(NatText(hn), NatText(hm), DigitChar(n % 10), DigitChar(m % 10));
      NatTextOrder(hn, hm);
      NatTextValue(hn);
      NatTextValue(hm);
      assert n == 10 * hn + n % 10 && m == 10 * hm + m % 10;
    }
  }

  /** Every year from 1000 to 9999 is written with four digits. */
  lemma FourDigits(y: int)
    requires 1000 <= y <= 9999
    ensures |YearText(y)| == 4
  {
    var a, b, c := y / 10, y / 10 / 10, y / 10 / 10 / 10;
    assert 100 <= a && 10 <= b && c < 10;
    assert |NatText(c)| == 1;
    assert |NatText(b)| == |NatText(c)| + 1;
    assert |NatText(a)| == |NatText(b)| + 1;
    assert |NatText(y)| == |NatText(a)| + 1;
  }

  /** For four-digit years, the string order of their texts is chronological order. */
  lemma FourDigitYearsOrder(a: int, b: int)
    requires 1000 <= a <= 9999 && 1000 <= b <= 9999
    ensures StringLess(YearText(a), YearText(b)) <==> a < b
  {
    FourDigits(a);
    FourDigits(b);
    NatTextOrder(a, b);
  }

  /**
   When every key is a four-digit year, the trend chart lists the years in
   chronological order.
   */
  lemma TrendChronological(yearCount: map<string, nat>)
    requires forall k :: k in yearCount ==> ParseYear(k).Some? && 1000 <= ParseYear(k).value <= 9999
    ensures var years := TrendSeries(yearCount).0;
      forall i, j :: 0 <= i < j < |years| ==> ParseYear(years[i]).value < ParseYear(years[j]).value
  {
    var years := TrendSeries(yearCount).0;
    forall i, j | 0 <= i < j < |years|
      ensures ParseYear(years[i]).value < ParseYear(years[j]).value
    {
      YearsInOrder(years[i], years[j]);
    }
  }

  /** Two four-digit year keys in string order are in chronological order. */
  lemma YearsInOrder(k: string, l: string)
    requires ParseYear(k).Some? && 1000 <= ParseYear(k).value <= 9999
    requires ParseYear(l).Some? && 1000 <= ParseYear(l).value <= 9999
    requires StringLess(k, l)
    ensures ParseYear(k).value < ParseYear(l).value
  {
    TextParseYear(k);
    TextParseYear(l);
    FourDigitYearsOrder(ParseYear(k).value, ParseYear(l).value);
  }

  /** The counts sum to the number of records. */
  lemma YearCountTotal(papers: seq<Paper>)
    ensures Total(Tally(Years(papers))) == |papers|
  {
    TallyTotal(Years(papers));
  }

  /** Records from 2021, 2021 and 2022 give the counts 2021: 2 and 2022: 1. */
  lemma YearCountExample(a: Paper, b: Paper, c: Paper)
    requires a.year == "2021" && b.year == "2021" && c.year == "2022"
    ensures Tally(Years([a, b, c])) == map["2021" := 2, "2022" := 1]
  {
    assert Years([a, b, c]) == ["2021", "2021", "2022"];
    TallyTwiceOnce("2021", "2022");
  }

  /** A value twice and then another once count 2 and 1. */
  lemma TallyTwiceOnce<T>(x: T, y: T)
    requires x != y
    ensures Tally([x, x, y]) == map[x := 2, y := 1]
  {
    TallySingle(x);
    TallySnoc([x], x);
    assert [x] + [x] == [x, x];
    assert Tally([x, x]) == map[x := 2];
    TallySnoc([x, x], y);
    assert [x, x] + [y] == [x, x, y];
    assert y !in Tally([x, x]);
  }

}
