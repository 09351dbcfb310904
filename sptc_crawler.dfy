/** granfondo/sptc-crawler.ts: the results of one time.spct.kr event as a CSV
    file, for a location, year and bib range given on the command line. */
module SptcCrawler {
  import opened Results
  import opened Js
  import opened EventTable
  import Events
  import opened SptcPage
  import opened SptcRows
  import Batch

  /** `scrapeRecord`: an unknown location or year throws; otherwise the row of
      the page at the event's URL for the bib. */
  function ScrapeRecord(location: string, year: string, bibNo: int, fetch: string -> Response): (r: Result<Row, string>)
    ensures r.Failure? <==> Events.GetEventInfo(location, year).None?
    ensures r.Success? ==> r.value == RowOf(fetch(Events.GenerateUrl(Events.GetEventInfo(location, year).value, bibNo)), bibNo)
  {
    match Events.GetEventInfo(location, year)
    case None => Failure("Invalid location or year: " + location + " " + year)
    case Some(info) => Success(RowOf(fetch(Events.GenerateUrl(info, bibNo)), bibNo))
  }

  /** The row of a bib of a known event, fetched from its URL. */
  function RowAt(info: EventInfo, fetch: string -> Response, bibNo: int): Row {
    RowOf(fetch(Events.GenerateUrl(info, bibNo)), bibNo)
  }

  /** The fetch of every bib of a known event, as the crawl loop takes it. */
  function Scrape(info: EventInfo, fetch: string -> Response): int -> Row {
    b => RowAt(info, fetch, b)
  }

  predicate Saved(r: Row) {
    r.shouldSave
  }

  /** How the program ends: the usage message or an unknown event, both with
      exit code 1 and before the file exists, or a crawl whose saved rows make
      the CSV file. */
  datatype Outcome =
    | Usage
    | InvalidEvent
    | Crawled(file: string, crawl: Batch.Crawl<Row>)

  /** An argument that is missing or empty stops the program. */
  predicate ArgsGiven(args: seq<string>) {
    |args| >= 4 && args[0] != "" && args[1] != "" && args[2] != "" && args[3] != ""
  }

  /** `main` with `process.argv.slice(2)` as `args`: every bib from the
      parsed start to the parsed end is fetched, printed and followed by a wait
      of 500 ms; the file is the header and the line of each saved row. */
  method Command(args: seq<string>, fetch: string -> Response) returns (outcome: Outcome)
    ensures outcome.Usage? <==> !ArgsGiven(args)
    ensures outcome.InvalidEvent? <==> ArgsGiven(args) && Events.GetEventInfo(args[0], args[1]).None?
    ensures outcome.Crawled? ==>
      var startBib, endBib := ParseInt(args[2]), ParseInt(args[3]);
      && outcome.file == Csv(outcome.crawl.records)
      && Batch.Ran(outcome.crawl, Batch.First(startBib, endBib), Batch.Last(startBib, endBib),
                   Scrape(Events.GetEventInfo(args[0], args[1]).value, fetch), Saved, Line, Batch.Fixed(500))
  {
    if !ArgsGiven(args) {
      return Usage;
    }
    var startBib := ParseInt(args[2]);
    var endBib := ParseInt(args[3]);
    var info := Events.GetEventInfo(args[0], args[1]);
    if info.None? {
      return InvalidEvent;
    }
    var crawl := Batch.Run(Batch.First(startBib, endBib), Batch.Last(startBib, endBib), Scrape(info.value, fetch), Saved, Line, Batch.Fixed(500));
    return Crawled(Csv(crawl.records), crawl);
  }

  /** The CSV file keeps exactly the bibs of the range whose page had
      results, in ascending bib order. */
  lemma FileHoldsBibsWithResults(info: EventInfo, start: int, stop: int, fetch: string -> Response, b: int)
    ensures var response := fetch(Events.GenerateUrl(info, b));
      b in Batch.Chosen(start, stop, Scrape(info, fetch), Saved) <==>
        start <= b < stop && response.Loaded? && !NoResults(response.page.body)
    ensures Batch.StrictlyAscending(Batch.Chosen(start, stop, Scrape(info, fetch), Saved))
  {
    Batch.ChosenMembers(start, stop, Scrape(info, fetch), Saved, b);
    ShouldSaveExactly(fetch(Events.GenerateUrl(info, b)), b);
    Batch.ChosenAscending(start, stop, Scrape(info, fetch), Saved);
  }
}
