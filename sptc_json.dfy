/** granfondo/sptc-json-crawler.ts: results of a time.spct.kr event as a JSON
    file, with the three-way status (finished, DNF, DNS). */
module SptcJson {
  import opened Results
  import opened Text
  import opened Js
  import opened EventTable
  import Events
  import opened SptcPage
  import Batch

  datatype Record = Record(BIB_NO: int, Gender: string, Event: string, Time: string, Status: string)

  /** The record of a bib with nothing known about it. */
  function Empty(bibNo: int): Record {
    Record(bibNo, "", "", "", "")
  }

  /** The finishing time: the trimmed text of the time element, cut at its
      first `.`, or empty when there is no such element or it is blank. */
  function RecordTime(timeNode: Option<string>): (t: string)
    ensures timeNode.None? ==> t == ""
    ensures timeNode.Some? ==>
      var text := Trim(timeNode.value);
      && t <= text && '.' !in t
      && (|t| < |text| ==> text[|t|] == '.')
      && FormatTime(text) == t
  {
    match timeNode
    case None => ""
    case Some(text) =>
      var recordTime := Trim(text);
      if recordTime != "" then FormatTime(recordTime) else ""
  }

  /** The Start Time text shows a time when it holds a `:`; the second test,
      `split(":").length > 1`, adds nothing to the first. */
  predicate HasStartTime(startTimeText: string) {
    Contains(startTimeText, ":") && SplitLength(startTimeText, ':') > 1
  }

  lemma HasStartTimeIsColon(startTimeText: string)
    ensures HasStartTime(startTimeText) <==> ':' in startTimeText
  {
    if ':' in startTimeText {
      var i :| 0 <= i < |startTimeText| && startTimeText[i] == ':';
      assert ":" <= startTimeText[i..];
    }
  }

  /** The record a page gives for a bib, once the event is known. */
  function RecordOf(response: Response, bibNo: int): Record {
    match response
    case Failed => Empty(bibNo)
    case Loaded(page) =>
      if NoResults(page.body) then Empty(bibNo)
      else
        var category := CategoryMatch(Trim(page.playerInfo));
        var gender := if category.Some? then category.value.gender else "";
        var event := if category.Some? then category.value.event else "";
        var time := RecordTime(page.timeNode);
        var startTimeText := Trim(Concat(StartTimeParagraphs(page.recordParagraphs)));
        var status := if time != "" then "" else if HasStartTime(startTimeText) then "DNF" else "DNS";
        Record(bibNo, gender, event, time, status)
  }

  /** `scrapeRecord`: an unknown location or year throws before any request
      (the one failure that is not turned into an empty record); otherwise the
      record of the page at the event's URL for the bib. */
  function ScrapeRecord(location: string, year: string, bibNo: int, fetch: string -> Response): (r: Result<Record, string>)
    ensures r.Failure? <==> Events.GetEventInfo(location, year).None?
    ensures r.Success? ==> r.value == RecordOf(fetch(Events.GenerateUrl(Events.GetEventInfo(location, year).value, bibNo)), bibNo)
  {
    match Events.GetEventInfo(location, year)
    case None => Failure("Invalid location or year: " + location + " " + year)
    case Some(info) => Success(RecordOf(fetch(Events.GenerateUrl(info, bibNo)), bibNo))
  }

  /** The status rule on a page with results: finished (`""`) exactly when
      there is a time; without one, DNF when the Start Time text holds a `:`
      and DNS otherwise. Gender and event are both set or both empty. */
  lemma RecordStatus(page: Page, bibNo: int)
    requires !NoResults(page.body)
    ensures var r := RecordOf(Loaded(page), bibNo);
      && r.BIB_NO == bibNo
      && (r.Status == "" <==> r.Time != "")
      && (r.Status == "DNF" <==> r.Time == "" && ':' in Trim(Concat(StartTimeParagraphs(page.recordParagraphs))))
      && (r.Status == "DNS" <==> r.Time == "" && ':' !in Trim(Concat(StartTimeParagraphs(page.recordParagraphs))))
      && '.' !in r.Time
      && (r.Gender == "" <==> r.Event == "")
      && (r.Gender == "" || r.Gender == "M" || r.Gender == "F")
      && (r.Event == "" || r.Event == GRANFONDO || r.Event == MEDIOFONDO)
  {
    HasStartTimeIsColon(Trim(Concat(StartTimeParagraphs(page.recordParagraphs))));
    CategoryMatchFields(Trim(page.playerInfo));
  }

  /** Without a page, or with a no-results page, the record is empty. */
  lemma RecordEmpty(response: Response, bibNo: int)
    requires response.Failed? || NoResults(response.page.body)
    ensures RecordOf(response, bibNo) == Empty(bibNo)
  {
  }

  /** The record of a bib of a known event, fetched from its URL. */
  function RecordAt(info: EventInfo, fetch: string -> Response, bibNo: int): Record {
    RecordOf(fetch(Events.GenerateUrl(info, bibNo)), bibNo)
  }

  /** The fetch of every bib of a known event, as the crawl loop takes it. */
  function Scrape(info: EventInfo, fetch: string -> Response): int -> Record {
    b => RecordAt(info, fetch, b)
  }

  /** `record.Time || record.Status`: the records the file keeps. */
  predicate Kept(r: Record) {
    r.Time != "" || r.Status != ""
  }

  /** Every bib whose page has results is kept, since such a record has a
      time or a status; only fetch failures and no-results pages are dropped. */
  lemma KeptExactlyWithResults(response: Response, bibNo: int)
    ensures Kept(RecordOf(response, bibNo)) <==> response.Loaded? && !NoResults(response.page.body)
  {
    if response.Loaded? && !NoResults(response.page.body) {
      RecordStatus(response.page, bibNo);
    }
  }

  /** The console line of a record. */
  function Line(r: Record): string {
    IntToString(r.BIB_NO) + "," + r.Gender + "," + r.Event + "," + r.Time + "," + r.Status
  }

  /** What one `scrapeYear` run leaves: nothing for an unknown event, or
      the crawl of its bibs, whose kept records make the JSON file. */
  datatype YearRun = InvalidEvent | Crawled(crawl: Batch.Crawl<Record>)

  /** `run` is what `scrapeYear(location, year, startBib, endBib)` leaves:
      nothing for an unknown event, and otherwise the crawl of the bibs from
      the first to the last bound. */
  ghost predicate YearRan(run: YearRun, location: string, year: string, startBib: Num, endBib: Num, fetch: string -> Response) {
    && (run.InvalidEvent? <==> Events.GetEventInfo(location, year).None?)
    && (run.Crawled? ==>
          Batch.Ran(run.crawl, Batch.First(startBib, endBib), Batch.Last(startBib, endBib),
                    Scrape(Events.GetEventInfo(location, year).value, fetch), Kept, Line, Batch.Fixed(500)))
  }

  /** `scrapeYear(location, year, startBib, endBib)`: for a known event, each
      bib in turn is fetched from the event's URL, printed, kept when it has a
      time or a status, and followed by a wait of 500 ms. */
  method ScrapeYear(location: string, year: string, startBib: Num, endBib: Num, fetch: string -> Response)
    returns (run: YearRun)
    ensures YearRan(run, location, year, startBib, endBib, fetch)
  {
    var info := Events.GetEventInfo(location, year);
    if info.None? {
      return InvalidEvent;
    }
    var crawl := Batch.Run(Batch.First(startBib, endBib), Batch.Last(startBib, endBib), Scrape(info.value, fetch), Kept, Line, Batch.Fixed(500));
    return Crawled(crawl);
  }

  /** The JSON file of a crawl holds exactly the bibs of the range whose page
      had results, in ascending bib order. */
  lemma FileHoldsBibsWithResults(info: EventInfo, start: int, stop: int, fetch: string -> Response, b: int)
    ensures var response := fetch(Events.GenerateUrl(info, b));
      b in Batch.Chosen(start, stop, Scrape(info, fetch), Kept) <==>
        start <= b < stop && response.Loaded? && !NoResults(response.page.body)
    ensures Batch.StrictlyAscending(Batch.Chosen(start, stop, Scrape(info, fetch), Kept))
  {
    Batch.ChosenMembers(start, stop, Scrape(info, fetch), Kept, b);
    KeptExactlyWithResults(fetch(Events.GenerateUrl(info, b)), b);
    Batch.ChosenAscending(start, stop, Scrape(info, fetch), Kept);
  }

  /** The arguments `main` reads; a missing one is `None`. */
  function Arg(args: seq<string>, i: nat): Option<string> {
    if i < |args| then Some(args[i]) else None
  }

  /** `args[i] ? parseInt(args[i]) : fallback`: an absent or empty argument
      gives the fallback, any other one is parsed (and may be NaN). */
  function BibArg(args: seq<string>, i: nat, fallback: int): (n: Num)
    ensures (i >= |args| || args[i] == "") ==> n == Int(fallback)
    ensures i < |args| && args[i] != "" ==> n == ParseInt(args[i])
  {
    if i < |args| && args[i] != "" then ParseInt(args[i]) else Int(fallback)
  }

  /** How `main` ends: a usage or invalid-location error with exit code 1,
      or the runs of `scrapeYear` it made, each with its year. */
  datatype CommandRun =
    | Usage
    | InvalidLocation
    | Scraped(runs: seq<(string, YearRun)>)

  /** `main`: with a year, one run over the given (or default 1..9999) bibs;
      without one, a run over 1..9999 for every year of the location, in the
      order `Object.keys` lists them. */
  method Command(args: seq<string>, fetch: string -> Response) returns (result: CommandRun)
    ensures result.Usage? <==> |args| == 0
    ensures result.InvalidLocation? <==> |args| > 0 && Events.Lookup(EVENTS, args[0]).None?
    ensures result.Scraped? && |args| > 1 && args[1] != "" ==>
      && |result.runs| == 1 && result.runs[0].0 == args[1]
      && YearRan(result.runs[0].1, args[0], args[1], BibArg(args, 2, 1), BibArg(args, 3, 9999), fetch)
    ensures result.Scraped? && (|args| <= 1 || args[1] == "") ==>
      var years := Events.YearKeys(EVENTS, args[0]);
      && |result.runs| == |years|
      && forall k :: 0 <= k < |years| ==>
           result.runs[k].0 == years[k] && result.runs[k].1.Crawled?
           && YearRan(result.runs[k].1, args[0], years[k], Int(1), Int(9999), fetch)
  {
    if |args| == 0 {
      return Usage;
    }
    var location := args[0];
    var startBib := BibArg(args, 2, 1);
    var endBib := BibArg(args, 3, 9999);
    if Events.Lookup(EVENTS, location).None? {
      return InvalidLocation;
    }
    if |args| > 1 && args[1] != "" {
      var run := ScrapeYear(location, args[1], startBib, endBib, fetch);
      return Scraped([(args[1], run)]);
    }
    forall y | y in Events.YearKeys(EVENTS, location) ensures Events.GetEventInfo(location, y).Some? {
      YearKeyFound(location, y);
    }
    var runs := ScrapeYears(location, Events.YearKeys(EVENTS, location), fetch);
    return Scraped(runs);
  }

  /** The loop over the year keys of a location, each crawled over 1..9999. */
  method ScrapeYears(location: string, years: seq<string>, fetch: string -> Response)
    returns (runs: seq<(string, YearRun)>)
    requires forall y :: y in years ==> Events.GetEventInfo(location, y).Some?
    ensures |runs| == |years|
    ensures forall k :: 0 <= k < |years| ==>
      runs[k].0 == years[k] && runs[k].1.Crawled? && YearRan(runs[k].1, location, years[k], Int(1), Int(9999), fetch)
  {
    runs := [];
    for k := 0 to |years|
      invariant |runs| == k
      invariant forall j :: 0 <= j < k ==>
        runs[j].0 == years[j] && runs[j].1.Crawled? && YearRan(runs[j].1, location, years[j], Int(1), Int(9999), fetch)
    {
      assert years[k] in years;
      var run := ScrapeWholeYear(location, years[k], fetch);
      runs := runs + [(years[k], run)];
    }
  }

  /** `scrapeYear(location, year)` for a year of the table: bibs 1 to 9999. */
  method ScrapeWholeYear(location: string, year: string, fetch: string -> Response) returns (run: YearRun)
    requires Events.GetEventInfo(location, year).Some?
    ensures run.Crawled? && YearRan(run, location, year, Int(1), Int(9999), fetch)
  {
    run := ScrapeYear(location, year, Int(1), Int(9999), fetch);
  }

  /** Every year key of a location names an event. */
  lemma YearKeyFound(location: string, year: string)
    requires year in Events.YearKeys(EVENTS, location)
    ensures Events.GetEventInfo(location, year).Some?
  {
    var years := Events.Lookup(EVENTS, location).value;
    assert multiset(Events.YearKeys(EVENTS, location))[year] > 0;
    assert year in Events.Keys(years);
  }
}
