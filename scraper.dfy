/** granfondo/scraper.ts: the CSV crawler fixed to one time.spct.co.kr event,
    the 2024 Hongcheon granfondo (event number 2024042803), with a default bib
    range. */
module Scraper {
  import opened Text
  import opened Js
  import opened SptcPage
  import opened SptcRows
  import Batch

  const EVENT_URL := "http://time.spct.co.kr/m2.php?EVENT_NO=2024042803&TargetYear=2024&currentPage=1&BIB_NO="

  /** The page of one bib: the bib zero-padded to six characters at the end of
      the fixed URL. */
  function Url(bibNo: int): string {
    EVENT_URL + PaddedBib(bibNo)
  }

  /** The URL ends in the bib as six or more digits that read back as the
      bib, exactly six for bibs below one million, and different bibs have
      different URLs. */
  lemma UrlBib(bibNo: int)
    requires bibNo >= 0
    ensures EVENT_URL <= Url(bibNo)
    ensures var bib := Url(bibNo)[|EVENT_URL|..];
      && IsDigits(bib)
      && (bibNo < 1000000 ==> |bib| == 6)
      && |bib| >= 6
      && ParseInt(bib) == Int(bibNo)
  {
    assert Url(bibNo)[|EVENT_URL|..] == PaddedBib(bibNo);
    PaddedBibRoundTrip(bibNo);
  }

  lemma UrlInjective(a: int, b: int)
    requires a >= 0 && b >= 0 && Url(a) == Url(b)
    ensures a == b
  {
    UrlBib(a);
    UrlBib(b);
  }

  /** The row of a bib, fetched from its URL. */
  function RowAt(fetch: string -> Response, bibNo: int): Row {
    RowOf(fetch(Url(bibNo)), bibNo)
  }

  /** The fetch of every bib, as the crawl loop takes it. */
  function Scrape(fetch: string -> Response): int -> Row {
    b => RowAt(fetch, b)
  }

  predicate Saved(r: Row) {
    r.shouldSave
  }

  /** `parseInt(arg) || fallback`: a missing argument reads as `undefined`,
      which parses to NaN; NaN and 0 give the fallback. */
  function BibArg(args: seq<string>, i: nat, fallback: int): (n: int)
    ensures i >= |args| ==> n == fallback
    ensures i < |args| ==> (n == fallback <==> !Truthy(ParseInt(args[i])) || ParseInt(args[i]) == Int(fallback))
    ensures i < |args| && Truthy(ParseInt(args[i])) ==> Int(n) == ParseInt(args[i])
  {
    var x := ParseInt(if i < |args| then args[i] else "undefined");
    UndefinedIsNaN();
    if Truthy(x) then x.n else fallback
  }

  /** `parseInt(undefined)` reads the text `undefined`, which has no digit. */
  lemma UndefinedIsNaN()
    ensures ParseInt("undefined") == NaN
  {
    var u := "undefined";
    assert TrimStart(u) == u by {
      assert !IsSpace('u');
    }
    assert u[0] != '-' && u[0] != '+' && u[0] != '0';
    assert DigitRun(u, 10) == [];
  }

  /** The defaults: bibs 105 to 106 when the arguments are missing, not
      numbers, or 0. */
  lemma DefaultRange(args: seq<string>)
    requires |args| == 0
    ensures BibArg(args, 0, 105) == 105 && BibArg(args, 1, 106) == 106
  {
  }

  /** What the program leaves: the file `results_2024.csv` and the crawl
      whose saved rows it holds. */
  datatype Outcome = Outcome(file: string, crawl: Batch.Crawl<Row>)

  /** `main` with `process.argv.slice(2)` as `args`: every bib of the range
      is fetched, printed and followed by a wait of 500 ms; the file is the
      header and the line of each saved row. */
  method Command(args: seq<string>, fetch: string -> Response) returns (outcome: Outcome)
    ensures outcome.file == Csv(outcome.crawl.records)
    ensures Batch.Ran(outcome.crawl, BibArg(args, 0, 105), BibArg(args, 1, 106), Scrape(fetch), Saved, Line, Batch.Fixed(500))
  {
    var startBib := BibArg(args, 0, 105);
    var endBib := BibArg(args, 1, 106);
    var crawl := Batch.Run(startBib, endBib, Scrape(fetch), Saved, Line, Batch.Fixed(500));
    return Outcome(Csv(crawl.records), crawl);
  }

  /** The file keeps exactly the bibs of the range whose page had results,
      in ascending bib order. */
  lemma FileHoldsBibsWithResults(start: int, stop: int, fetch: string -> Response, b: int)
    ensures var response := fetch(Url(b));
      b in Batch.Chosen(start, stop, Scrape(fetch), Saved) <==>
        start <= b < stop && response.Loaded? && !NoResults(response.page.body)
    ensures Batch.StrictlyAscending(Batch.Chosen(start, stop, Scrape(fetch), Saved))
  {
    Batch.ChosenMembers(start, stop, Scrape(fetch), Saved, b);
    ShouldSaveExactly(fetch(Url(b)), b);
    Batch.ChosenAscending(start, stop, Scrape(fetch), Saved);
  }
}
