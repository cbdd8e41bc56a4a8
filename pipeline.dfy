/**
 `process_conference(conf_key)`: crawl the selected years of one conference,
 stop when nothing was collected, otherwise count the records per year,
 extract the title keywords and forecast the next year's count.
 */
module Pipeline {
  import opened Wrappers
  import opened Decimal
  import opened Counting
  import opened Conferences
  import opened Extract
  import opened Crawl
  import opened YearCount
  import opened Keywords
  import F = Forecast

  /** What one conference's run computes: its records, year counts, keyword frequencies and forecast. */
  datatype Analysis = Analysis(
    papers: seq<Paper>,
    yearCount: map<string, nat>,
    keywords: map<string, nat>,
    forecast: Option<F.Forecast>)

  /**
   The run over `config`'s years: nothing when no record was collected (the
   early `return`), otherwise the collected records and what is derived from them.
   */
  function AnalysisOf(key: string, config: ConferenceConfig, pages: int -> Option<seq<Entry>>): Option<Analysis>
  {
    var papers := Collected(key, config, pages);
    if papers == [] then None
    else
      var yearCount := Tally(Years(papers));
      Some(Analysis(papers, yearCount, ExtractKeywords(papers), F.ForecastOf(yearCount)))
  }

  /**
   `process_conference(conf_key)` for a key of the conference table, with the
   outcome of every page fetch given by `pages`.
   */
  method ProcessConference(key: string, pages: int -> Option<seq<Entry>>) returns (r: Option<Analysis>)
    requires key in Configs
    ensures r == AnalysisOf(key, Configs[key], pages)
  {
    var config := Configs[key];
    var allPapers, requested := CollectPapers(key, config, pages);
    if allPapers == [] {
      return None;
    }
    var yearCount := CountByYear(allPapers);
    var keywords := ExtractKeywords(allPapers);
    var forecast := F.PredictNextYear(yearCount);
    r := Some(Analysis(allPapers, yearCount, keywords, forecast));
  }

  // ---------------------------------------------------------------------------
  // Properties
  // ---------------------------------------------------------------------------

  /** The run goes past the crawl exactly when some fetched page had an entry. */
  lemma AnalysisWhen(key: string, config: ConferenceConfig, pages: int -> Option<seq<Entry>>)
    ensures AnalysisOf(key, config, pages).Some?
      <==> EntryCount(SelectedYears(key, config.startYear, config.endYear), pages) > 0
  {
    CollectedRecordsProvenance(config.name, SelectedYears(key, config.startYear, config.endYear), pages);
  }

  /** The records the crawl of `config`'s selected years collects. */
  function Collected(key: string, config: ConferenceConfig, pages: int -> Option<seq<Entry>>): seq<Paper>
  {
    CollectedRecords(config.name, SelectedYears(key, config.startYear, config.endYear), pages)
  }

  /** A year `key` fetches within `config`'s range. */
  predicate InRange(key: string, config: ConferenceConfig, year: int)
  {
    config.startYear <= year <= config.endYear && Selected(key, year)
  }

  /** The text of a year `key` fetches within `config`'s range. */
  predicate SelectedYearText(key: string, config: ConferenceConfig, s: string)
  {
    ParseYear(s).Some? && InRange(key, config, ParseYear(s).value)
  }

  /** Every collected record carries the text of a selected year of the configured range. */
  lemma RecordYearsSelected(key: string, config: ConferenceConfig, pages: int -> Option<seq<Entry>>)
    ensures var papers := Collected(key, config, pages);
      forall i :: 0 <= i < |papers| ==> SelectedYearText(key, config, papers[i].year)
  {
    CollectedRecordsProvenance(config.name, SelectedYears(key, config.startYear, config.endYear), pages);
    SelectedYearsExact(key, config.startYear, config.endYear);
  }

  /** The counts of records whose years are all selected are keyed by selected years. */
  lemma CountKeysSelected(key: string, config: ConferenceConfig, papers: seq<Paper>)
    requires forall i :: 0 <= i < |papers| ==> SelectedYearText(key, config, papers[i].year)
    ensures forall k :: k in Tally(Years(papers)) ==> SelectedYearText(key, config, k)
  {
    YearsPresent(papers);
    forall k | k in Tally(Years(papers))
      ensures SelectedYearText(key, config, k)
    {
      var p :| p in papers && p.year == k;
      var i :| 0 <= i < |papers| && papers[i] == p;
    }
  }

  /** A run keeps the collected records and counts them by year. */
  lemma AnalysisParts(key: string, config: ConferenceConfig, pages: int -> Option<seq<Entry>>)
    requires AnalysisOf(key, config, pages).Some?
    ensures var a := AnalysisOf(key, config, pages).value;
      a.papers == Collected(key, config, pages) && a.yearCount == Tally(Years(a.papers))
      && a.forecast == F.ForecastOf(a.yearCount)
  {
  }

  /**
   The year counts of a run: one key per year present among the records, each
   at least 1, summing to the number of records, and every key the text of a
   selected year of the configured range.
   */
  lemma AnalysisYearCount(key: string, config: ConferenceConfig, pages: int -> Option<seq<Entry>>)
    requires AnalysisOf(key, config, pages).Some?
    ensures var a := AnalysisOf(key, config, pages).value;
      && a.yearCount.Keys == (set p | p in a.papers :: p.year)
      && (forall y :: y in a.yearCount ==> a.yearCount[y] >= 1)
      && Total(a.yearCount) == |a.papers|
      && (forall k :: k in a.yearCount ==> SelectedYearText(key, config, k))
  {
    AnalysisParts(key, config, pages);
    var papers := Collected(key, config, pages);
    YearsPresent(papers);
    YearCountTotal(papers);
    RecordYearsSelected(key, config, pages);
    CountKeysSelected(key, config, papers);
  }

  /** A run's year counts are keyed by years, so its forecast exists exactly when two or more years have records. */
  lemma AnalysisForecastWhen(key: string, config: ConferenceConfig, pages: int -> Option<seq<Entry>>)
    requires AnalysisOf(key, config, pages).Some?
    ensures var a := AnalysisOf(key, config, pages).value;
      a.forecast.Some? <==> |a.yearCount| >= 2
  {
    var a := AnalysisOf(key, config, pages).value;
    AnalysisYearCount(key, config, pages);
    assert F.KeysAreYears(a.yearCount);
    F.ForecastWhen(a.yearCount);
  }

  /**
   A run's forecast: one growth rate per pair of consecutive years (no count is
   zero), a prediction that is not negative, and only selected years of the
   configured range, the latest of which is the year before the predicted one.
   */
  lemma AnalysisForecast(key: string, config: ConferenceConfig, pages: int -> Option<seq<Entry>>)
    requires AnalysisOf(key, config, pages).Some? && AnalysisOf(key, config, pages).value.forecast.Some?
    ensures var f := AnalysisOf(key, config, pages).value.forecast.value;
      && |f.years| >= 2
      && |f.rates| == |f.years| - 1
      && f.prediction >= 0
      && f.nextYear == f.years[|f.years| - 1] + 1
      && forall i :: 0 <= i < |f.years| ==> InRange(key, config, f.years[i])
  {
    var a := AnalysisOf(key, config, pages).value;
    var f := a.forecast.value;
    AnalysisYearCount(key, config, pages);
    F.ForecastShape(a.yearCount);
    forall i | 0 <= i < |f.counts|
      ensures f.counts[i] > 0
    {
      assert YearText(f.years[i]) in a.yearCount;
    }
    F.GrowthRatesCount(f.counts);
    F.PredictNonNegative(f.counts);
    forall i | 0 <= i < |f.years|
      ensures InRange(key, config, f.years[i])
    {
      var k := YearText(f.years[i]);
      assert k in a.yearCount;
      ParseYearText(f.years[i]);
    }
  }

  /** No records give no year counts, no keywords and no forecast. */
  lemma EmptyInputs()
    ensures Tally(Years([])) == map[]
    ensures ExtractKeywords([]) == map[]
    ensures F.ForecastOf(map[]) == None
  {
  }

  // ---------------------------------------------------------------------------
  // End to end
  // ---------------------------------------------------------------------------

  /** Every record of one page carries that page's year. */
  lemma PageYears(entries: seq<Entry>, name: string, y: int)
    ensures var papers := PageRecords(entries, name, y);
      forall i :: 0 <= i < |papers| ==> Years(papers)[i] == YearText(y)
  {
  }

  /** Counting a sequence of one repeated year gives that year alone, with the length. */
  lemma TallyConstant(ys: seq<string>, y: string)
    requires ys != [] && forall i :: 0 <= i < |ys| ==> ys[i] == y
    ensures Tally(ys) == map[y := |ys|]
  {
    MultisetConstant(ys, y);
    assert ys[0] in ys;
    assert Tally(ys).Keys == {y};
  }

  lemma {:induction false} MultisetConstant(ys: seq<string>, y: string)
    requires forall i :: 0 <= i < |ys| ==> ys[i] == y
    ensures multiset(ys)[y] == |ys|
  {
    if ys != [] {
      MultisetConstant(ys[..|ys| - 1], y);
      assert ys == ys[..|ys| - 1] + [ys[|ys| - 1]];
    }
  }

  /**
   A conference configured for years `y` and `y + 1`, whose first page is empty
   and whose second page has entries, keeps the second page's records, counts
   them all under year `y + 1` and makes no forecast.
   */
  lemma EmptyYearThenEntries(key: string, config: ConferenceConfig, pages: int -> Option<seq<Entry>>, y: int)
    requires key != BiennialOddKey && config.startYear == y && config.endYear == y + 1
    requires pages(y) == Some([]) && pages(y + 1).Some? && pages(y + 1).value != []
    ensures var es := pages(y + 1).value;
      var papers := PageRecords(es, config.name, y + 1);
      AnalysisOf(key, config, pages)
        == Some(Analysis(papers, map[YearText(y + 1) := |es|], ExtractKeywords(papers), None))
  {
    var es := pages(y + 1).value;
    var papers := PageRecords(es, config.name, y + 1);
    assert SelectedYears(key, y, y + 1) == [y, y + 1] by {
      assert SelectedYears(key, y, y) == [y];
    }
    CollectedSnoc(config.name, [], y, pages);
    assert [] + [y] == [y];
    CollectedSnoc(config.name, [y], y + 1, pages);
    assert [y] + [y + 1] == [y, y + 1];
    assert CollectedRecords(config.name, [y, y + 1], pages) == papers;
    PageYears(es, config.name, y + 1);
    TallyConstant(Years(papers), YearText(y + 1));
    F.ForecastWhen(map[YearText(y + 1) := |es|]);
  }

}
