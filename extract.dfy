/**
 Paper records built from the entries of one listing page (`get_paper_info`).

 The HTML is not modelled: a page is the list of its paper entries, and an
 entry is what the parser finds in it, in document order.
 */
module Extract {
  import opened Wrappers
  import opened Text
  import opened Decimal
  import opened Conferences

  /**
   One paper entry of a page: the text of its title span if there is one, for
   every author span the text of its name span if there is one, and the `href`
   of every anchor that has one.
   */
  datatype Entry = Entry(title: Option<string>, authorNames: seq<Option<string>>, hrefs: seq<string>)

  /** A paper record, with the five columns of the CSV output. */
  datatype Paper = Paper(title: string, authors: string, year: string, conference: string, link: string)

  /** The title used when an entry has no title span ("unknown title"). */
  const UnknownTitle: string := "未知标题"

  /** The authors field used when no author name was found ("unknown author"). */
  const UnknownAuthors: string := "未知作者"

  const AuthorSeparator: string := "; "
  const DoiMarker: string := "doi.org"
  const RecordMarker: string := "dblp.org/rec/"

  /** The stripped names of the author spans that have a name span, in order. */
  function FoundNames(names: seq<Option<string>>): (authors: seq<string>)
    ensures |authors| <= |names|
    ensures (forall i :: 0 <= i < |names| ==> names[i].Some?) ==> |authors| == |names|
    ensures (forall i :: 0 <= i < |names| ==> names[i].None?) ==> authors == []
  {
    if names == [] then []
    else
      var init, last := names[..|names| - 1], names[|names| - 1];
      FoundNames(init) + (if last.Some? then [Strip(last.value)] else [])
  }

  /** The loop over author spans that appends each name found. */
  method CollectAuthors(names: seq<Option<string>>) returns (authors: seq<string>)
    ensures authors == FoundNames(names)
  {
    authors := [];
    var i := 0;
    while i < |names|
      invariant 0 <= i <= |names|
      invariant authors == FoundNames(names[..i])
    {
      assert names[..i + 1][..i] == names[..i];
      if names[i].Some? {
        authors := authors + [Strip(names[i].value)];
      }
      i := i + 1;
    }
    assert names[..|names|] == names;
  }

  /** The title field: the stripped title text, or the sentinel when there is no title span. */
  function TitleField(title: Option<string>): string
  {
    match title
    case Some(t) => Strip(t)
    case None => UnknownTitle
  }

  /** The authors field: the names joined with "; ", or the sentinel when there are none. */
  function AuthorsField(authors: seq<string>): string
  {
    if authors == [] then UnknownAuthors else Join(authors, AuthorSeparator)
  }

  /** The index of the first href containing `pat` (the parser's `find`), or `|hrefs|` if none does. */
  function FirstContaining(hrefs: seq<string>, pat: string): (k: nat)
    ensures k <= |hrefs|
    ensures k < |hrefs| ==> Contains(hrefs[k], pat)
    ensures forall j :: 0 <= j < k ==> !Contains(hrefs[j], pat)
  {
    if hrefs == [] then 0
    else if Contains(hrefs[0], pat) then 0
    else 1 + FirstContaining(hrefs[1..], pat)
  }

  /** The link field: the first DOI href, else the first record href, else "". */
  function Link(hrefs: seq<string>): string
  {
    var d := FirstContaining(hrefs, DoiMarker);
    if d < |hrefs| then hrefs[d]
    else
      var r := FirstContaining(hrefs, RecordMarker);
      if r < |hrefs| then hrefs[r] else ""
  }

  /** The record `get_paper_info` builds for one entry of conference `conference` in `year`. */
  function EntryRecord(e: Entry, conference: string, year: int): Paper
  {
    Paper(TitleField(e.title), AuthorsField(FoundNames(e.authorNames)), YearText(year), conference, Link(e.hrefs))
  }

  /** Building one record, with the author loop. */
  method BuildRecord(e: Entry, conference: string, year: int) returns (p: Paper)
    ensures p == EntryRecord(e, conference, year)
  {
    var authors := CollectAuthors(e.authorNames);
    p := Paper(TitleField(e.title), AuthorsField(authors), YearText(year), conference, Link(e.hrefs));
  }

  /** The records of a page's entries, one per entry, in order. */
  function PageRecords(entries: seq<Entry>, conference: string, year: int): (papers: seq<Paper>)
  {
    seq(|entries|, i requires 0 <= i < |entries| => EntryRecord(entries[i], conference, year))
  }

  /** The records of one more entry. */
  lemma PageRecordsSnoc(entries: seq<Entry>, i: nat, conference: string, year: int)
    requires i < |entries|
    ensures PageRecords(entries[..i + 1], conference, year)
      == PageRecords(entries[..i], conference, year) + [EntryRecord(entries[i], conference, year)]
  {
  }

  /** The loop over entries that appends one record per entry. */
  method ExtractPapers(entries: seq<Entry>, conference: string, year: int) returns (papers: seq<Paper>)
    ensures papers == PageRecords(entries, conference, year)
  {
    papers := [];
    var i := 0;
    while i < |entries|
      invariant 0 <= i <= |entries|
      invariant papers == PageRecords(entries[..i], conference, year)
    {
      var p := BuildRecord(entries[i], conference, year);
      PageRecordsSnoc(entries, i, conference, year);
      papers := papers + [p];
      i := i + 1;
    }
    assert entries[..|entries|] == entries;
  }

  /**
   What `get_paper_info` returns for the outcome of fetching a page: nothing
   when the request failed (`None`), else one record per entry.
   */
  function FetchedRecords(page: Option<seq<Entry>>, conference: string, year: int): seq<Paper>
  {
    match page
    case None => []
    case Some(entries) => PageRecords(entries, conference, year)
  }

  /** `get_paper_info(conf_key, year)` once the page has been fetched (or the fetch failed). */
  method GetPaperInfo(config: ConferenceConfig, year: int, page: Option<seq<Entry>>) returns (papers: seq<Paper>)
    ensures papers == FetchedRecords(page, config.name, year)
  {
    if page.None? {
      return [];
    }
    var entries := page.value;
    if |entries| == 0 {
      return [];
    }
    papers := ExtractPapers(entries, config.name, year);
  }

  // ---------------------------------------------------------------------------
  // Properties
  // ---------------------------------------------------------------------------

  /**
   Every record takes its conference and year from the request, and its title
   from the title span (stripped) or the sentinel. Its authors field is the
   sentinel when no name was found; otherwise it holds every found name, in
   order, at the place the "; "-join puts it, with "; " between consecutive names.
   */
  lemma RecordFields(e: Entry, conference: string, year: int)
    ensures var p, found := EntryRecord(e, conference, year), FoundNames(e.authorNames);
      && p.conference == conference
      && ParseYear(p.year) == Some(year)
      && (e.title.None? ==> p.title == UnknownTitle)
      && (e.title.Some? ==> p.title == Strip(e.title.value))
      && (found == [] ==> p.authors == UnknownAuthors)
      && (found != [] ==> |p.authors| == TotalLength(found) + 2 * (|found| - 1))
      && (found != [] ==> PartsAt(p.authors, found, AuthorSeparator))
  {
    ParseYearText(year);
    AuthorsLayout(FoundNames(e.authorNames));
  }

  /**
   Each found name sits in the authors field at the offset the "; "-join gives
   it, and every name but the last is followed by "; ".
   */
  lemma AuthorsLayout(found: seq<string>)
    ensures found != [] ==> |AuthorsField(found)| == TotalLength(found) + 2 * (|found| - 1)
    ensures found != [] ==> PartsAt(AuthorsField(found), found, AuthorSeparator)
  {
    JoinLayout(found, AuthorSeparator);
  }

  /** `link` is the first href, in document order, that contains `pat`. */
  ghost predicate IsFirstContaining(hrefs: seq<string>, pat: string, link: string)
  {
    exists k :: 0 <= k < |hrefs| && hrefs[k] == link && Contains(hrefs[k], pat)
      && forall j :: 0 <= j < k ==> !Contains(hrefs[j], pat)
  }

  /**
   Link priority: a DOI href wins whenever there is one; a record href is
   taken only when no href is a DOI one; with neither the link is empty. The
   link is always one of the hrefs or empty.
   */
  lemma LinkPriority(hrefs: seq<string>)
    ensures var link := Link(hrefs);
      && (link == "" || link in hrefs)
      && ((exists i :: 0 <= i < |hrefs| && Contains(hrefs[i], DoiMarker)) ==> IsFirstContaining(hrefs, DoiMarker, link))
      && (!Contains(link, DoiMarker) ==> forall i :: 0 <= i < |hrefs| ==> !Contains(hrefs[i], DoiMarker))
      && (((forall i :: 0 <= i < |hrefs| ==> !Contains(hrefs[i], DoiMarker))
           && (exists i :: 0 <= i < |hrefs| && Contains(hrefs[i], RecordMarker)))
          ==> IsFirstContaining(hrefs, RecordMarker, link))
      && ((forall i :: 0 <= i < |hrefs| ==> !Contains(hrefs[i], DoiMarker) && !Contains(hrefs[i], RecordMarker))
          ==> link == "")
  {
    var d := FirstContaining(hrefs, DoiMarker);
    var r := FirstContaining(hrefs, RecordMarker);
    if d < |hrefs| {
      assert IsFirstContaining(hrefs, DoiMarker, hrefs[d]);
    } else if r < |hrefs| {
      assert IsFirstContaining(hrefs, RecordMarker, hrefs[r]);
    } else {
      assert !Contains("", DoiMarker);
    }
  }

  /**
   A page yields exactly one record per entry (none for an empty page or a
   failed fetch), and every record carries the requested conference and year.
   */
  lemma FetchedRecordsShape(page: Option<seq<Entry>>, conference: string, year: int)
    ensures var papers := FetchedRecords(page, conference, year);
      && |papers| == (if page.Some? then |page.value| else 0)
      && forall i :: 0 <= i < |papers| ==>
           papers[i].conference == conference && ParseYear(papers[i].year) == Some(year)
           && papers[i] == EntryRecord(page.value[i], conference, year)
  {
    ParseYearText(year);
  }

}
