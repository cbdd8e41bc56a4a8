# DBLP conference crawler: a verified model of its record logic

The script `DBLP/DBLP/DBLP/DBLP.py` crawls the DBLP listing pages of three
conferences (AAAI 2020–2025, CVPR 2020–2024, ICCV 2019–2023, odd years only).
It turns every paper entry into a record of title, authors, year, conference
and link. For each conference it then counts the records per year, extracts
title keywords with their frequencies, and forecasts next year's paper count
from the mean year-over-year growth rate.

This project models the deterministic core of that script in Dafny and proves
properties of it:

- `Extract` is the per-entry record construction of `get_paper_info`, over an
  abstract parsed entry: an optional title text, one optional name per author
  span, and the hrefs of the entry in document order. A fetch outcome is
  `Option<seq<Entry>>`, where `None` is a request or parse that raised.
- `Crawl` is the year loop of `process_conference`: which years are fetched,
  and how their records are concatenated.
- `YearCount` is the counting loop of `plot_paper_trend` and the sorted
  `years`/`counts` series it plots.
- `Keywords` is `extract_keywords`: join the titles, lower-case, replace
  punctuation by spaces, split, drop stop-words and short tokens, count.
- `Forecast` is the arithmetic of `predict_next_year`, on exact reals, with
  `int()` as truncation toward zero.
- `Pipeline` is `process_conference` for one conference, from the crawl to
  the forecast.
- Support modules: `Chars` (character classes), `Text` (`strip`, `join`,
  `split`, string order `<`), `Decimal` (`str`/`int` on years), `Counting`
  (`Counter` and the per-year dictionary), `Sorting` (`sorted`), `Sets`,
  `Wrappers` and `Conferences` (the configuration table).

Each loop of the modelled functions is a method whose postcondition ties its result to a
specification function. The properties are lemmas about those functions.

A title span holding only whitespace strips to `""`, and author names that
strip to `""` are joined as they are; `Extract.RecordFields` states this. A
failed fetch and an empty page both give an empty list, and the model does
not tell them apart either.

## Model

| member | source | states |
|---|---|---|
| Extract.TitleField | DBLP/DBLP/DBLP/DBLP.py:116-117 | The title field; `Extract.RecordFields` establishes that it is the stripped title text, or the unknown-title sentinel without a title span. |
| Extract.AuthorsField | DBLP/DBLP/DBLP/DBLP.py:125 | The authors field; `Extract.AuthorsLayout` establishes its length and the layout of the names with "; " between them, and `Extract.RecordFields` the sentinel when no name was found. |
| Extract.FetchedRecords | DBLP/DBLP/DBLP/DBLP.py:107-151 | What `get_paper_info` returns; `Extract.FetchedRecordsShape` establishes one record per entry, none on a failed fetch, each with the requested conference and year. |
| Extract.EntryRecord | DBLP/DBLP/DBLP/DBLP.py:113-142 | The record of one entry; `Extract.RecordFields` and `Extract.LinkPriority` establish its conference, year, title, authors and link. |
| Extract.Link | DBLP/DBLP/DBLP/DBLP.py:133-142 | The link field; `Extract.LinkPriority` establishes that it is the first DOI href, else the first record href, else "". |
| Extract.FoundNames | DBLP/DBLP/DBLP/DBLP.py:119-124 | At most one name per author span, one for each when every span has a name, none when no span has one. |
| Extract.CollectAuthors | DBLP/DBLP/DBLP/DBLP.py:119-124 | The author loop appends exactly the stripped names of the spans that have a name span, in order. |
| Extract.FirstContaining | DBLP/DBLP/DBLP/DBLP.py:135-139 | `find` with an href predicate: the index of an href containing the marker, with no earlier href containing it, or "none". |
| Extract.BuildRecord | DBLP/DBLP/DBLP/DBLP.py:114-142 | The record built for one entry, with its author loop, is the entry's record. |
| Extract.ExtractPapers | DBLP/DBLP/DBLP/DBLP.py:112-144 | The entry loop appends one record per entry, in page order. |
| Extract.GetPaperInfo | DBLP/DBLP/DBLP/DBLP.py:92-151 | A failed fetch yields no records, an empty page none, otherwise the page's records. |
| Extract.RecordFields | DBLP/DBLP/DBLP/DBLP.py:116-131 | A record has the requested conference, a year text that reads back as the year, the stripped title or the unknown-title sentinel, and the unknown-authors sentinel or the names joined by "; " (`Text.PartsAt`: each name at its offset and "; " between consecutive names; total length the names plus 2 per separator). |
| Extract.AuthorsLayout | DBLP/DBLP/DBLP/DBLP.py:125 | `"; ".join(authors)` holds every name at its offset, followed by "; " unless it is the last (`Text.PartsAt`), and its length is the names plus two characters per separator. |
| Extract.LinkPriority | DBLP/DBLP/DBLP/DBLP.py:133-142 | The link is "" or one of the hrefs; it is the first DOI href whenever one exists; it is the first record href when there is no DOI href and a record href exists; it is "" when neither kind exists. |
| Extract.FetchedRecordsShape | DBLP/DBLP/DBLP/DBLP.py:107-147 | A page yields exactly as many records as entries (none on a failed fetch), each with the requested conference and year, and the i-th record is built from the i-th entry. |
| Text.Strip | DBLP/DBLP/DBLP/DBLP.py:117 | `str.strip()`: the result is the stretch of the input left between leading and trailing whitespace, and it neither starts nor ends with whitespace. |
| Text.StripUnpadded | DBLP/DBLP/DBLP/DBLP.py:117 | Text that neither starts nor ends with whitespace strips to itself. |
| Text.StripIdempotent | DBLP/DBLP/DBLP/DBLP.py:117 | Stripping twice is stripping once. |
| Text.Join | DBLP/DBLP/DBLP/DBLP.py:125 | `sep.join(parts)` is as long as the parts plus one separator between each pair. |
| Text.JoinAt | DBLP/DBLP/DBLP/DBLP.py:216 | In `sep.join(parts)`, part i sits at its offset and is followed by the separator unless it is the last. |
| Text.JoinLayout | DBLP/DBLP/DBLP/DBLP.py:125 | The whole layout of `sep.join(parts)`: every part at its offset, with `sep` between each two consecutive parts. |
| Text.Split | DBLP/DBLP/DBLP/DBLP.py:223 | `str.split()` yields non-empty tokens without whitespace, made of characters of the input. |
| Text.SplitAtSpace | DBLP/DBLP/DBLP/DBLP.py:223 | Splitting text around one whitespace character is splitting each side and concatenating. |
| Text.SplitWord | DBLP/DBLP/DBLP/DBLP.py:223 | A non-empty run without whitespace splits into itself alone. |
| Text.SplitJoin | DBLP/DBLP/DBLP/DBLP.py:216-223 | Round trip: joining non-empty whitespace-free tokens with " " and splitting gives the tokens back. |
| Text.Contains | DBLP/DBLP/DBLP/DBLP.py:135-139 | The `in` substring test of the two `find` predicates; `Extract.FirstContaining` and `Extract.LinkPriority` establish which href it selects. |
| Text.StringLess | DBLP/DBLP/DBLP/DBLP.py:183 | Python's `<` on strings; `Text.StringLessOrder` establishes that it is a strict total order, and `YearCount.FourDigitYearsOrder` that on four-digit years it is numeric order. |
| Text.StringLessOrder | DBLP/DBLP/DBLP/DBLP.py:183 | Python's `<` on strings is a strict total order, so `sorted` on the year keys is well defined. |
| Chars.IsSpace | DBLP/DBLP/DBLP/DBLP.py:220-223 | Python's whitespace set, used by `strip`, `\s` and `split`; `Text.Strip`, `Text.Split` and `Chars.WordCharIsNotSpace` establish how those use it. |
| Chars.IsWordChar | DBLP/DBLP/DBLP/DBLP.py:220 | The `\w` class; `Chars.WordCharIsNotSpace`, `Chars.Lower` and `Keywords.CleanedCharacters` establish that it is disjoint from whitespace, kept by lowering, and all that survives cleaning besides whitespace. |
| Chars.Lower | DBLP/DBLP/DBLP/DBLP.py:219 | Lowering a character keeps it a word character (or not) and whitespace (or not); it changes exactly the Basic Latin and Latin-1 capitals, each into the letter 32 code points up, and never yields a capital. |
| Chars.LowerIdempotent | DBLP/DBLP/DBLP/DBLP.py:219 | A lowered character lowers to itself. |
| Chars.WordCharIsNotSpace | DBLP/DBLP/DBLP/DBLP.py:220 | `\w` and `\s` are disjoint. |
| Counting.Tally | DBLP/DBLP/DBLP/DBLP.py:177-180 | Counting a sequence gives one key per distinct element, mapped to its number of occurrences. |
| Counting.TallyPositive | DBLP/DBLP/DBLP/DBLP.py:177-180 | Every count is at least 1. |
| Counting.TallyTotal | DBLP/DBLP/DBLP/DBLP.py:177-180 | The counts sum to the length of the sequence. |
| YearCount.Years | DBLP/DBLP/DBLP/DBLP.py:178-179 | The year field of each record; `YearCount.YearOccurrences`, `YearCount.YearsPresent` and `YearCount.CountByYear` establish which years are counted and how often. |
| YearCount.YearOccurrences | DBLP/DBLP/DBLP/DBLP.py:177-179 | A year occurs among the record years exactly as often as there are records whose year field is that year. |
| YearCount.YearCountRecords | DBLP/DBLP/DBLP/DBLP.py:177-180 | Each year's count is the number of records with that year. |
| YearCount.YearsPresent | DBLP/DBLP/DBLP/DBLP.py:177-180 | The year counts are keyed by exactly the years present among the records, each at least 1. |
| YearCount.CountByYear | DBLP/DBLP/DBLP/DBLP.py:172-180 | The counting loop (returning `{}` for no records) yields exactly the years present, each mapped to its number of occurrences among the record years, which is the number of records with that year, at least 1. |
| YearCount.YearCountTotal | DBLP/DBLP/DBLP/DBLP.py:177-180 | The year counts sum to the number of records. |
| YearCount.YearCountExample | DBLP/DBLP/DBLP/DBLP.py:177-180 | Records with years "2021", "2021", "2022" count as {"2021": 2, "2022": 1}. |
| YearCount.TrendSeries | DBLP/DBLP/DBLP/DBLP.py:183-184 | `years` lists every key once in ascending string order, and `counts[i]` is the count of `years[i]`. |
| YearCount.TrendYearsUnique | DBLP/DBLP/DBLP/DBLP.py:183 | Any ascending listing (in string order) of exactly the keys is the plotted `years` list. |
| YearCount.NatTextOrder | DBLP/DBLP/DBLP/DBLP.py:183 | Two decimal texts of equal length compare as strings exactly as their numbers compare. |
| YearCount.FourDigitYearsOrder | DBLP/DBLP/DBLP/DBLP.py:183 | For four-digit years, string order of their texts is numeric order, in both directions. |
| YearCount.TrendChronological | DBLP/DBLP/DBLP/DBLP.py:183-184 | When every key is a four-digit year, the string-sorted trend lists the years in strictly increasing numeric order. |
| YearCount.YearsInOrder | DBLP/DBLP/DBLP/DBLP.py:183 | A four-digit year text sorts before another only when its year is earlier. |
| Keywords.Lowercase | DBLP/DBLP/DBLP/DBLP.py:219 | `s.lower()` character by character; with `Chars.Lower`, `Keywords.CleanedCharacters` establishes that no capital survives it. |
| Keywords.StripPunctuation | DBLP/DBLP/DBLP/DBLP.py:220 | `re.sub(r'[^\w\s]', ' ', s)`; `Keywords.CleanedCharacters` establishes that only whitespace and word characters are left, and `Keywords.CleanConcat` that it works across the joining space. |
| Keywords.ExtractKeywords | DBLP/DBLP/DBLP/DBLP.py:209-231 | `extract_keywords`; `Keywords.KeywordsWellFormed` and `Keywords.KeywordFrequencies` establish that its keys are exactly the passing tokens, well formed, each with its occurrence count, and `Pipeline.EmptyInputs` that no records give `{}`. |
| Keywords.Tokens | DBLP/DBLP/DBLP/DBLP.py:216-223 | The tokens of the cleaned, joined titles; `Keywords.TokensAreTitleTokens` establishes that they are each title's tokens in order, and `Keywords.KeywordsWellFormed` their characters. |
| Keywords.IsKeyword | DBLP/DBLP/DBLP/DBLP.py:226 | The filter condition; `Keywords.KeepKeywordsCounts` establishes that exactly the tokens meeting it are kept, with every occurrence. |
| Keywords.KeepKeywords | DBLP/DBLP/DBLP/DBLP.py:226 | The filter keeps only tokens that are no stop-word and longer than two characters, and never more than it was given. |
| Keywords.KeepKeywordsCounts | DBLP/DBLP/DBLP/DBLP.py:226 | The filter keeps every occurrence of a keyword and drops every occurrence of anything else. |
| Keywords.KeepKeywordsConcat | DBLP/DBLP/DBLP/DBLP.py:226 | Filtering a concatenation is concatenating the filtered halves. |
| Keywords.CleanedCharacters | DBLP/DBLP/DBLP/DBLP.py:219-220 | After `lower` and `re.sub(r'[^\w\s]', ' ', ...)` every character is whitespace or a lower-case word character. |
| Keywords.CleanConcat | DBLP/DBLP/DBLP/DBLP.py:216-220 | Cleaning two titles joined by a space is cleaning each and joining them by a space. |
| Keywords.TokensAreTitleTokens | DBLP/DBLP/DBLP/DBLP.py:216-223 | The tokens of the joined titles are the tokens of each title, in order. |
| Keywords.KeywordsWellFormed | DBLP/DBLP/DBLP/DBLP.py:211-226 | No keyword is a stop-word, every keyword is longer than two characters, and every keyword consists of lower-case word characters only. |
| Keywords.KeywordFrequencies | DBLP/DBLP/DBLP/DBLP.py:223-229 | The keywords are exactly the tokens that pass the filter; each one's frequency is its number of occurrences among the tokens; the frequencies sum to the length of the filtered list. |
| Keywords.ExampleTokens | DBLP/DBLP/DBLP/DBLP.py:216-223 | Titles "Deep Learning for X" and "deep learning FOR Y" tokenize as deep, learning, for, x, deep, learning, for, y. |
| Keywords.KeywordsExample | DBLP/DBLP/DBLP/DBLP.py:209-231 | Those two titles give exactly {"deep": 2, "learning": 2}. |
| Keywords.UntitledKeyword | DBLP/DBLP/DBLP/DBLP.py:116-117 | A record with the unknown-title sentinel, alone, gives the sentinel itself as a keyword of frequency 1: its ideographs are word characters. |
| Decimal.YearText | DBLP/DBLP/DBLP/DBLP.py:131 | `str(year)`; `Decimal.ParseYearText`, `Decimal.YearTextInjective` and `Decimal.NatText` establish that it is canonical decimal, injective and read back by `int`. |
| Decimal.ParseYear | DBLP/DBLP/DBLP/DBLP.py:312 | `int(y)` on a year key; `Decimal.ParseYearText` and `Decimal.TextParseYear` establish that it inverts `str` and accepts only `str` texts of integers. |
| Decimal.NatText | DBLP/DBLP/DBLP/DBLP.py:131 | `str(n)` is canonical decimal: digits only, no leading zero, "0" only for zero. |
| Decimal.ParseYearText | DBLP/DBLP/DBLP/DBLP.py:312-313 | Round trip: `int(str(y)) == y` for every year. |
| Decimal.TextParseYear | DBLP/DBLP/DBLP/DBLP.py:312-313 | Round trip: a key the reader accepts is `str` of the year it reads. |
| Decimal.YearTextInjective | DBLP/DBLP/DBLP/DBLP.py:131 | Distinct years have distinct texts. |
| Crawl.Selected | DBLP/DBLP/DBLP/DBLP.py:365 | Whether the loop fetches a year; `Crawl.SelectedYearsExact` establishes that exactly the even years of `iccv` are skipped. |
| Crawl.CollectedRecords | DBLP/DBLP/DBLP/DBLP.py:362-370 | `all_papers` after the loop; `Crawl.CollectedRecordsProvenance` establishes that every record names the conference and a requested year, and that there is one per fetched entry. |
| Crawl.SelectedYears | DBLP/DBLP/DBLP/DBLP.py:363-366 | The years the loop fetches; `Crawl.SelectedYearsExact` establishes that they ascend strictly and are exactly the range minus the even years for `iccv`. |
| Crawl.SelectedYearsExact | DBLP/DBLP/DBLP/DBLP.py:363-366 | The fetched years ascend strictly and are exactly the years of `start..end` inclusive, minus the even years for `iccv`. |
| Crawl.CollectPapers | DBLP/DBLP/DBLP/DBLP.py:362-371 | The year loop requests exactly the selected years in order, and `all_papers` is the in-order concatenation of their records. |
| Crawl.CollectedRecordsProvenance | DBLP/DBLP/DBLP/DBLP.py:362-371 | Every collected record names the conference and one of the requested years, and there are as many records as entries on the pages that were fetched. |
| Crawl.ConfiguredYears | DBLP/DBLP/DBLP/DBLP.py:69-88 | AAAI fetches 2020–2025, CVPR 2020–2024 and ICCV 2019, 2021 and 2023. |
| Sorting.SortedBy | DBLP/DBLP/DBLP/DBLP.py:183 | `sorted` of a set under a strict total order lists each element once, ascending. |
| Sorting.SortedByIsAscendingListing | DBLP/DBLP/DBLP/DBLP.py:183 | Under a strict total order, any ascending listing of exactly a set's elements is its `sorted` listing. |
| Sorting.Sorted | DBLP/DBLP/DBLP/DBLP.py:312 | `sorted` on year numbers lists each once, strictly increasing. |
| Sorting.SortedIsAscendingListing | DBLP/DBLP/DBLP/DBLP.py:312 | Any strictly increasing listing of a set of numbers is its `sorted` listing. |
| Forecast.Trunc | DBLP/DBLP/DBLP/DBLP.py:326 | `int(x)` truncates toward zero: it is below x by less than 1 for x ≥ 0 and above x by less than 1 for x < 0. |
| Forecast.GrowthRates | DBLP/DBLP/DBLP/DBLP.py:316-320 | The list of growth rates; `Forecast.GrowthRatesCount`, `Forecast.GrowthRatesOfPositive`, `Forecast.GrowthRatesAtLeastMinusOne` and `Forecast.GrowthRatesNonNegative` establish how many there are, what each is, and their bounds. |
| Forecast.Predict | DBLP/DBLP/DBLP/DBLP.py:322-332 | The prediction from the counts and rates; `Forecast.PredictNonNegative`, `Forecast.PredictNotBelowLast`, `Forecast.PredictFlat` and the examples establish its sign, its growth and its values. |
| Forecast.ForecastOf | DBLP/DBLP/DBLP/DBLP.py:304-332 | `predict_next_year`; `Forecast.ForecastWhen` and `Forecast.ForecastShape` establish when it forecasts and what the forecast holds. |
| Forecast.CountsOf | DBLP/DBLP/DBLP/DBLP.py:313 | `[year_count[str(y)] for y in years]`; `Forecast.ForecastShape` establishes that the i-th count is the count of the i-th year's key. |
| Forecast.ComputeGrowthRates | DBLP/DBLP/DBLP/DBLP.py:316-320 | The rate loop appends, in order, the growth rate of each transition whose earlier count is positive. |
| Forecast.GrowthRatesCount | DBLP/DBLP/DBLP/DBLP.py:316-320 | There are at most `len(counts) - 1` rates, and exactly that many when every count is positive. |
| Forecast.GrowthRatesOfPositive | DBLP/DBLP/DBLP/DBLP.py:316-320 | With every count positive, rate i is the growth from count i to count i+1. |
| Forecast.GrowthRatesAtLeastMinusOne | DBLP/DBLP/DBLP/DBLP.py:319 | No growth rate of non-negative counts is below -1. |
| Forecast.GrowthRatesNonNegative | DBLP/DBLP/DBLP/DBLP.py:319 | Non-decreasing counts have non-negative growth rates. |
| Forecast.YearNumbersKeys | DBLP/DBLP/DBLP/DBLP.py:312-313 | A year is among the keys' year numbers exactly when its `str` text is a key. |
| Forecast.YearKeys | DBLP/DBLP/DBLP/DBLP.py:312 | Keys written by `str` for a set of years read back as exactly that set. |
| Forecast.YearNumbersCount | DBLP/DBLP/DBLP/DBLP.py:312 | When every key is a year, there are as many year numbers as keys. |
| Forecast.YearsOf | DBLP/DBLP/DBLP/DBLP.py:312 | The years list one number per key, strictly increasing, each with its text a key. |
| Forecast.PredictNextYear | DBLP/DBLP/DBLP/DBLP.py:304-332 | The forecaster returns the forecast `ForecastOf` defines: nothing with fewer than two keys or with a key that does not read as a year, otherwise the sorted years, their counts, the rates, next year and the prediction. |
| Forecast.ForecastYears | DBLP/DBLP/DBLP/DBLP.py:310-332 | With at least two year keys, the computed years, counts, rates (by the loop), next year and prediction are the specified ones. |
| Forecast.ForecastWhen | DBLP/DBLP/DBLP/DBLP.py:306-313 | A forecast is made exactly when there are at least two keys and all of them are years. |
| Forecast.ForecastShape | DBLP/DBLP/DBLP/DBLP.py:310-332 | A forecast lists every key's year once, ascending, each with its count; next year is one past the latest key year and above every key year; rates and prediction are those of the counts. |
| Forecast.PredictNonNegative | DBLP/DBLP/DBLP/DBLP.py:323-332 | With no negative count, the prediction is not negative, in both branches. |
| Forecast.PredictNotBelowLast | DBLP/DBLP/DBLP/DBLP.py:327-332 | With non-decreasing counts and at least one rate, the prediction is at least the last count. |
| Forecast.PredictFlat | DBLP/DBLP/DBLP/DBLP.py:327-332 | A constant positive series predicts the same count again. |
| Forecast.ExampleRates | DBLP/DBLP/DBLP/DBLP.py:316-320 | Counts 100, 150, 225 grow at rates 0.5 and 0.5. |
| Forecast.ExamplePrediction | DBLP/DBLP/DBLP/DBLP.py:327-332 | 225 grown by the mean rate 0.5 truncates to 337. |
| Forecast.ForecastExample | DBLP/DBLP/DBLP/DBLP.py:310-332 | Three consecutive years with 100, 150, 225 papers forecast 337 papers for the year after, with rates [0.5, 0.5]. |
| Forecast.PairPrediction | DBLP/DBLP/DBLP/DBLP.py:323-326 | Counts 0, 5 give no rate, and the truncated mean count is 2. |
| Forecast.ForecastAfterEmptyYear | DBLP/DBLP/DBLP/DBLP.py:316-326 | Two consecutive years with 0 and 5 papers skip the zero transition and forecast the truncated mean count, 2. |
| Pipeline.AnalysisOf | DBLP/DBLP/DBLP/DBLP.py:352-388 | One conference's run; `Pipeline.AnalysisWhen`, `Pipeline.AnalysisYearCount`, `Pipeline.AnalysisForecastWhen` and `Pipeline.AnalysisForecast` establish when it gets past the crawl and what its year counts and forecast hold. |
| Pipeline.ProcessConference | DBLP/DBLP/DBLP/DBLP.py:352-388 | `process_conference` on a configured key computes the specified run: nothing when no record was collected, else the records, year counts, keywords and forecast. |
| Pipeline.AnalysisWhen | DBLP/DBLP/DBLP/DBLP.py:373-375 | A run gets past the crawl exactly when some fetched page had an entry. |
| Pipeline.RecordYearsSelected | DBLP/DBLP/DBLP/DBLP.py:362-371 | Every collected record carries the text of a selected year of the configured range. |
| Pipeline.CountKeysSelected | DBLP/DBLP/DBLP/DBLP.py:177-180 | Counting records whose years are all selected gives keys that are all selected years. |
| Pipeline.AnalysisYearCount | DBLP/DBLP/DBLP/DBLP.py:373-381 | A run's year counts are keyed by exactly the years present, each at least 1, summing to the number of records, and every key is the text of a selected year. |
| Pipeline.AnalysisForecastWhen | DBLP/DBLP/DBLP/DBLP.py:381-388 | A run forecasts exactly when two or more years have records. |
| Pipeline.AnalysisForecast | DBLP/DBLP/DBLP/DBLP.py:381-388 | A run's forecast has one rate per pair of consecutive years, a prediction that is not negative, next year one past the latest year, and only selected years of the range. |
| Pipeline.EmptyInputs | DBLP/DBLP/DBLP/DBLP.py:172-174 | No records give empty year counts and empty keywords, and an empty year count gives no forecast. |
| Pipeline.EmptyYearThenEntries | DBLP/DBLP/DBLP/DBLP.py:352-388 | A conference configured for two years, with an empty first page and entries on the second, keeps exactly the second page's records, counts them all under the second year, and makes no forecast. |

## Left out

- HTTP fetching, headers, the 30-second timeout, `raise_for_status` (lines 99-101) and `time.sleep(2)` (line 371) are network I/O and timing. The outcome of each page fetch is a parameter `pages: int -> Option<seq<Entry>>`.
- BeautifulSoup parsing (lines 103-141) is a library. The model starts from its output: an optional title text, one optional name text per author span, and the hrefs in document order.
- The URL template formatting (line 95) only feeds the fetch. The configuration table keeps the template as data.
- CSV writing (lines 153-167), the report text files (lines 256-260, 337-346), the output directory (lines 59-61) and every `print` are filesystem and console I/O.
- matplotlib charts, the word cloud and font discovery (lines 20-57, 186-206, 233-301) are rendering. The sorted series the trend chart plots is modelled; the chart is not.
- `Counter.most_common(top_n)` ordering and ties (line 241) are library behaviour. The model gives the frequencies as a map.
- IEEE-754 doubles and the percentage formatting (line 345) are left out. Growth rates and means are exact reals and `int()` is truncation toward zero, so a prediction that lands within rounding error of an integer may differ by one from the floating-point program.
- The prediction report labels `growth_rates[i]` with `years[i]` and `years[i+1]` (line 345). After a transition with a zero prior count is skipped, each later label names the wrong pair of years. For counts `[0, 5, 10]`, the one rate, 2021 to 2022, is printed as "2020 至 2021". The model keeps the rates and leaves out the report text.
- `main`'s loop over the three configurations (lines 392-401) is left out. `Pipeline.ProcessConference` models one conference, and `Pipeline.AnalysisOf` takes any configuration.
- The `except Exception` branches: a failed fetch or parse is `None` and yields no records. Rendering failures are out with the rendering.
- Chars.IsWordChar: `\w` is modelled on Basic Latin, Latin-1 and the CJK Unified Ideographs (U+4E00–U+9FFF), which cover English titles, accented Latin-1 words such as "Schrödinger" and the unknown-title sentinel. Letters and digits of other blocks (Greek, Cyrillic, Latin Extended, other CJK blocks) are not word characters in the model, so a title word using them is split into fragments where Python keeps it whole.
- Chars.Lower: `str.lower` is modelled on Basic Latin and Latin-1 capitals only. Python also lowers other scripts, and a few characters (such as U+0130) lower to two code points, which changes the length.
- Forecast.PredictNextYear: a key is accepted only if it is `str` of an integer. Python's `int()` also accepts signs, surrounding whitespace, underscores and leading zeros. With such a key, `year_count[str(y)]` raises and the source forecasts nothing, as the model does. The exception is a key like "02021" next to "2021": Python then forecasts from a duplicated year, and the model forecasts nothing. Keys built by the pipeline are always `str(year)` (`Pipeline.AnalysisYearCount`), so the pipeline never meets such a key.
- Pipeline.ProcessConference: requires a key of the configuration table. For any other key, `CONFERENCE_CONFIGS[conf_key]` raises `KeyError` before any work is done.
