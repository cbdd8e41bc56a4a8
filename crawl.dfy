/**
 The year loop of `process_conference`: fetch every selected year of a
 conference in ascending order and concatenate the records.

 Fetching is not modelled; `pages(y)` is the outcome of requesting the listing
 page of year `y` (`None` when the request raised).
 */
module Crawl {
  import opened Wrappers
  import opened Decimal
  import opened Sorting
  import opened Conferences
  import opened Extract

  /** A year is fetched unless the conference is the odd-years one and the year is even. */
  predicate Selected(key: string, year: int)
  {
    !(key == BiennialOddKey && year % 2 == 0)
  }

  /** The years of `start..end` (inclusive) that are fetched, in the loop's order. */
  function SelectedYears(key: string, start: int, end: int): seq<int>
    decreases end - start
  {
    if end < start then []
    else SelectedYears(key, start, end - 1) + (if Selected(key, end) then [end] else [])
  }

  /** The fetched years are exactly the selected years of the range, ascending. */
  lemma {:induction false} SelectedYearsExact(key: string, start: int, end: int)
    ensures var ys := SelectedYears(key, start, end);
      && StrictlyIncreasing(ys)
      && forall y :: y in ys <==> start <= y <= end && Selected(key, y)
    decreases end - start
  {
    if end >= start {
      SelectedYearsExact(key, start, end - 1);
      var init := SelectedYears(key, start, end - 1);
      assert forall i :: 0 <= i < |init| ==> init[i] < end by {
        forall i | 0 <= i < |init| ensures init[i] < end {
          assert init[i] in init;
        }
      }
    }
  }

  /** The records of the given years, concatenated in year order. */
  function CollectedRecords(name: string, years: seq<int>, pages: int -> Option<seq<Entry>>): seq<Paper>
  {
    if years == [] then []
    else
      var y := years[|years| - 1];
      CollectedRecords(name, years[..|years| - 1], pages) + FetchedRecords(pages(y), name, y)
  }

  /** The records of one more year. */
  lemma CollectedSnoc(name: string, years: seq<int>, y: int, pages: int -> Option<seq<Entry>>)
    ensures CollectedRecords(name, years + [y], pages) == CollectedRecords(name, years, pages) + FetchedRecords(pages(y), name, y)
  {
    assert (years + [y])[..|years|] == years;
  }

  /**
   The loop of `process_conference`: `requested` lists the years whose page was
   requested, in order, and `allPapers` is the concatenation of their records.
   */
  method CollectPapers(key: string, config: ConferenceConfig, pages: int -> Option<seq<Entry>>)
    returns (allPapers: seq<Paper>, requested: seq<int>)
    ensures requested == SelectedYears(key, config.startYear, config.endYear)
    ensures allPapers == CollectedRecords(config.name, requested, pages)
  {
    allPapers, requested := [], [];
    var year := config.startYear;
    while year <= config.endYear
      invariant config.startYear <= year
      invariant year <= config.endYear + 1 || year == config.startYear
      invariant requested == SelectedYears(key, config.startYear, year - 1)
      invariant allPapers == CollectedRecords(config.name, requested, pages)
      decreases config.endYear - year
    {
      if Selected(key, year) {
        var papers := GetPaperInfo(config, year, pages(year));
        CollectedSnoc(config.name, requested, year, pages);
        allPapers := allPapers + papers;
        requested := requested + [year];
      }
      year := year + 1;
    }
  }

  /**
   Every collected record names the conference and one of the requested
   years, and the number of records is the sum of the entries of the pages
   that were fetched successfully.
   */
  lemma {:induction false} CollectedRecordsProvenance(name: string, years: seq<int>, pages: int -> Option<seq<Entry>>)
    ensures var papers := CollectedRecords(name, years, pages);
      && |papers| == EntryCount(years, pages)
      && forall i :: 0 <= i < |papers| ==>
           papers[i].conference == name && ParseYear(papers[i].year).Some? && ParseYear(papers[i].year).value in years
  {
    if years != [] {
      var init, y := years[..|years| - 1], years[|years| - 1];
      CollectedRecordsProvenance(name, init, pages);
      FetchedRecordsShape(pages(y), name, y);
      var papers := CollectedRecords(name, years, pages);
      var prefix := CollectedRecords(name, init, pages);
      forall i | 0 <= i < |papers|
        ensures papers[i].conference == name && ParseYear(papers[i].year).Some? && ParseYear(papers[i].year).value in years
      {
        if i < |prefix| {
          assert papers[i] == prefix[i];
          assert ParseYear(prefix[i].year).value in init;
        } else {
          assert papers[i] == FetchedRecords(pages(y), name, y)[i - |prefix|];
        }
      }
    }
  }

  /** The number of entries on the successfully fetched pages of `years`. */
  function EntryCount(years: seq<int>, pages: int -> Option<seq<Entry>>): nat
  {
    if years == [] then 0
    else
      var y := years[|years| - 1];
      EntryCount(years[..|years| - 1], pages) + (if pages(y).Some? then |pages(y).value| else 0)
  }

  /** The years each configured conference fetches. */
  lemma ConfiguredYears()
    ensures SelectedYears("aaai", Configs["aaai"].startYear, Configs["aaai"].endYear) == [2020, 2021, 2022, 2023, 2024, 2025]
    ensures SelectedYears("cvpr", Configs["cvpr"].startYear, Configs["cvpr"].endYear) == [2020, 2021, 2022, 2023, 2024]
    ensures SelectedYears("iccv", Configs["iccv"].startYear, Configs["iccv"].endYear) == [2019, 2021, 2023]
  {
  }

}
