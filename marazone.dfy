/** granfondo/marazone_crawler.ts: results of a Marazone granfondo, read
    from the JSON record-info API one bib at a time and kept in a JSON file
    with every detail field the API returns. */
module Marazone {
  import opened Results
  import opened Js
  import Batch

  /** One element of the API's reply, every field a string. */
  datatype MarazoneRecord = MarazoneRecord(
    Competition: string, Bib: string, Name: string, Division: string,
    Time: string, Sex: string, Net_start: string, Net_finish: string,
    Pace: string, Speed: string, A_rank: string, G_rank: string,
    O_rank: string, Sa: string, KOM_NAME: string, KOM_TIME: string,
    DOWN_SPEED_NAME: string, DOWN_SPEED_TIME: string,
    CP_01_TOD: string, CP_01_TIME: string, CP_01_NAME: string,
    CP_02_TOD: string, CP_02_TIME: string, CP_02_NAME: string,
    CP_03_TOD: string, CP_03_TIME: string, CP_03_NAME: string,
    CP_04_TOD: string, CP_04_TIME: string, CP_04_NAME: string,
    CP_05_TOD: string, CP_05_TIME: string, CP_05_NAME: string)

  /** The optional fields of a saved record; a record either has all of
      them (it came from the API) or none (it is the empty record). */
  datatype Details = Details(
    StartTime: string, FinishTime: string, Competition: string, Name: string,
    Pace: string, Speed: string, A_rank: string, G_rank: string,
    O_rank: string, Sa: string, KOM_NAME: string, KOM_TIME: string,
    DOWN_SPEED_NAME: string, DOWN_SPEED_TIME: string,
    CP_01_TOD: string, CP_01_TIME: string, CP_01_NAME: string,
    CP_02_TOD: string, CP_02_TIME: string, CP_02_NAME: string,
    CP_03_TOD: string, CP_03_TIME: string, CP_03_NAME: string,
    CP_04_TOD: string, CP_04_TIME: string, CP_04_NAME: string,
    CP_05_TOD: string, CP_05_TIME: string, CP_05_NAME: string)

  /** A saved record. `BIB_NO` is a JavaScript number: the bib asked for,
      or `parseInt` of the bib the API returned, which may be NaN. */
  datatype Record = Record(BIB_NO: Num, Gender: string, Event: string, Time: string, Status: string, details: Option<Details>)

  /** The JSON body of the POST request. */
  datatype Request = Request(comp_title: string, bibNum: string, name: string)

  /** How the request ends: an exception (network, HTTP status, parsing),
      a falsy `data` (such as `null`), or a list of records. */
  datatype Reply = Thrown | Nothing | Items(records: seq<MarazoneRecord>)

  /** `value && value !== "-"`: a field holds a result. */
  predicate Present(value: string) {
    value != "" && value != "-"
  }

  /** The record of a bib the API knows nothing about, or whose request failed. */
  function Empty(bibNo: int): Record {
    Record(Int(bibNo), "", "", "", "", None)
  }

  /** The request for one bib: the competition title is the location with
      "그란폰도" appended, and the bib is sent as its decimal string. */
  function RequestFor(location: string, bibNo: int): Request {
    Request(location + "그란폰도", IntToString(bibNo), "")
  }

  /** The status: finished (`""`) when there is a time or a finish time;
      otherwise DNF with a start time and DNS without one. */
  function StatusOf(time: string, netStart: string, netFinish: string): string {
    if !Present(time) && !Present(netFinish) then
      (if Present(netStart) then "DNF" else "DNS")
    else ""
  }

  /** The saved record made from the first element of a reply. */
  function RecordFrom(m: MarazoneRecord): Record {
    Record(ParseInt(m.Bib), m.Sex, m.Division, m.Time, StatusOf(m.Time, m.Net_start, m.Net_finish),
      Some(Details(
        m.Net_start, m.Net_finish, m.Competition, m.Name, m.Pace, m.Speed,
        m.A_rank, m.G_rank, m.O_rank, m.Sa, m.KOM_NAME, m.KOM_TIME,
        m.DOWN_SPEED_NAME, m.DOWN_SPEED_TIME,
        m.CP_01_TOD, m.CP_01_TIME, m.CP_01_NAME, m.CP_02_TOD, m.CP_02_TIME, m.CP_02_NAME,
        m.CP_03_TOD, m.CP_03_TIME, m.CP_03_NAME, m.CP_04_TOD, m.CP_04_TIME, m.CP_04_NAME,
        m.CP_05_TOD, m.CP_05_TIME, m.CP_05_NAME)))
  }

  /** The record a reply gives for a bib. */
  function RecordOf(reply: Reply, bibNo: int): (r: Record)
    ensures r.details.None? <==> reply.Thrown? || reply.Nothing? || reply.records == []
    ensures r.details.None? ==> r == Empty(bibNo)
    ensures r.details.Some? ==> r == RecordFrom(reply.records[0])
  {
    match reply
    case Thrown => Empty(bibNo)
    case Nothing => Empty(bibNo)
    case Items(records) => if records == [] then Empty(bibNo) else RecordFrom(records[0])
  }

  /** `scrapeRecord(location, year, bibNo)`: the record of the reply to the
      request for the bib. The year takes no part in the request. */
  function ScrapeRecord(location: string, year: string, bibNo: int, fetch: Request -> Reply): Record {
    RecordOf(fetch(RequestFor(location, bibNo)), bibNo)
  }

  /** The request names the location's granfondo and the bib, whatever the year. */
  lemma RequestNamesBib(location: string, year: string, year': string, bibNo: int, fetch: Request -> Reply)
    ensures RequestFor(location, bibNo).comp_title == location + "그란폰도"
    ensures ParseInt(RequestFor(location, bibNo).bibNum) == Int(bibNo)
    ensures ScrapeRecord(location, year, bibNo, fetch) == ScrapeRecord(location, year', bibNo, fetch)
  {
    ParseIntRoundTrip(bibNo);
  }

  /** The status rule, as a three-way split over the API's fields: the
      record is finished exactly when the time or the finish time holds a
      result, and otherwise DNF or DNS by the start time. */
  lemma RecordStatus(m: MarazoneRecord)
    ensures var r := RecordFrom(m);
      && (r.Status == "" <==> Present(m.Time) || Present(m.Net_finish))
      && (r.Status == "DNF" <==> !Present(m.Time) && !Present(m.Net_finish) && Present(m.Net_start))
      && (r.Status == "DNS" <==> !Present(m.Time) && !Present(m.Net_finish) && !Present(m.Net_start))
      && (r.Status == "" || r.Status == "DNF" || r.Status == "DNS")
  {
  }

  /** A record from the API carries the API's fields unchanged: sex as
      gender, division as event, the time as given (a "-" stays), the start
      and finish times, and every detail field. */
  lemma RecordCopies(m: MarazoneRecord)
    ensures var r := RecordFrom(m);
      && r.BIB_NO == ParseInt(m.Bib)
      && r.Gender == m.Sex && r.Event == m.Division && r.Time == m.Time
      && r.details.Some?
      && var d := r.details.value;
      && d.StartTime == m.Net_start
      && d.FinishTime == m.Net_finish
      && d.Competition == m.Competition
      && d.Name == m.Name
      && d.Pace == m.Pace
      && d.Speed == m.Speed
      && d.A_rank == m.A_rank
      && d.G_rank == m.G_rank
      && d.O_rank == m.O_rank
      && d.Sa == m.Sa
      && d.KOM_NAME == m.KOM_NAME
      && d.KOM_TIME == m.KOM_TIME
      && d.DOWN_SPEED_NAME == m.DOWN_SPEED_NAME
      && d.DOWN_SPEED_TIME == m.DOWN_SPEED_TIME
      && d.CP_01_TOD == m.CP_01_TOD
      && d.CP_01_TIME == m.CP_01_TIME
      && d.CP_01_NAME == m.CP_01_NAME
      && d.CP_02_TOD == m.CP_02_TOD
      && d.CP_02_TIME == m.CP_02_TIME
      && d.CP_02_NAME == m.CP_02_NAME
      && d.CP_03_TOD == m.CP_03_TOD
      && d.CP_03_TIME == m.CP_03_TIME
      && d.CP_03_NAME == m.CP_03_NAME
      && d.CP_04_TOD == m.CP_04_TOD
      && d.CP_04_TIME == m.CP_04_TIME
      && d.CP_04_NAME == m.CP_04_NAME
      && d.CP_05_TOD == m.CP_05_TOD
      && d.CP_05_TIME == m.CP_05_TIME
      && d.CP_05_NAME == m.CP_05_NAME
  {
  }

  /** When the API echoes the bib asked for, the record's bib is that bib. */
  lemma EchoedBib(m: MarazoneRecord, bibNo: int)
    requires m.Bib == IntToString(bibNo)
    ensures RecordFrom(m).BIB_NO == Int(bibNo)
  {
    ParseIntRoundTrip(bibNo);
  }

  /** The three recorded cases of the API: no start time gives DNS, a start
      time without finish gives DNF, a time gives the finished status; the
      name, pace and speed are copied in each. */
  lemma DnsExample(m: MarazoneRecord)
    requires m.Time == "-" && m.Net_start == "-" && m.Net_finish == "-"
    ensures RecordFrom(m).Status == "DNS"
    ensures RecordFrom(m).details.value.Name == m.Name && RecordFrom(m).details.value.Pace == m.Pace
  {
  }

  lemma DnfExample(m: MarazoneRecord)
    requires m.Time == "-" && m.Net_start == "08:03:35" && m.Net_finish == "-"
    ensures RecordFrom(m).Status == "DNF"
  {
  }

  lemma FinishedExample(m: MarazoneRecord)
    requires m.Time == "04:01:41" && m.Net_start == "08:04:39" && m.Net_finish == "12:06:19"
    ensures RecordFrom(m).Status == ""
    ensures RecordFrom(m).details.value.KOM_TIME == m.KOM_TIME
  {
  }

  /** `record.Time || record.Status`: the records the file keeps. */
  predicate Kept(r: Record) {
    r.Time != "" || r.Status != ""
  }

  /** A bib is dropped exactly when the API gave no record for it, or gave
      one with an empty time but a finish time: such a record is finished
      (status `""`) yet has no time to show. */
  lemma DroppedExactly(reply: Reply, bibNo: int)
    ensures !Kept(RecordOf(reply, bibNo)) <==>
      reply.Thrown? || reply.Nothing? || reply.records == []
      || (reply.records[0].Time == "" && Present(reply.records[0].Net_finish))
  {
    if reply.Items? && reply.records != [] {
      RecordStatus(reply.records[0]);
    }
  }

  /** A finished rider without a time is left out of the file. */
  lemma FinishWithoutTimeDropped(m: MarazoneRecord)
    requires m.Time == "" && Present(m.Net_finish)
    ensures RecordFrom(m).Status == "" && !Kept(RecordFrom(m))
  {
  }

  /** The console line of a record. */
  function Line(r: Record): string {
    NumToString(r.BIB_NO) + "," + r.Gender + "," + r.Event + "," + r.Time + "," + r.Status
  }

  /** The fetch of every bib of one location, as the crawl loop takes it. */
  function Scrape(location: string, year: string, fetch: Request -> Reply): int -> Record {
    b => ScrapeRecord(location, year, b, fetch)
  }

  /** `scrapeYear(location, year, startBib, endBib, period)`: each bib in turn
      is fetched, printed, kept when it has a time or a status, and followed
      by a wait that fills up the period (`durations(b)` is how long the
      round of bib `b` took). The period, 200 ms when left out, is always
      given here. */
  method ScrapeYear(location: string, year: string, startBib: int, endBib: int, period: int,
                    fetch: Request -> Reply, durations: int -> int)
    returns (crawl: Batch.Crawl<Record>)
    ensures Batch.Ran(crawl, startBib, endBib, Scrape(location, year, fetch), Kept, Line, Batch.Paced(period, durations))
  {
    crawl := Batch.Run(startBib, endBib, Scrape(location, year, fetch), Kept, Line, Batch.Paced(period, durations));
  }

  /** The file of a crawl holds exactly the bibs of the range for which the
      API gave a record with a time, or with neither time nor finish time,
      in ascending bib order. */
  lemma FileHoldsKeptBibs(location: string, year: string, start: int, stop: int, fetch: Request -> Reply, b: int)
    ensures var reply := fetch(RequestFor(location, b));
      b in Batch.Chosen(start, stop, Scrape(location, year, fetch), Kept) <==>
        && start <= b < stop
        && reply.Items? && reply.records != []
        && (reply.records[0].Time != "" || !Present(reply.records[0].Net_finish))
    ensures Batch.StrictlyAscending(Batch.Chosen(start, stop, Scrape(location, year, fetch), Kept))
  {
    Batch.ChosenMembers(start, stop, Scrape(location, year, fetch), Kept, b);
    DroppedExactly(fetch(RequestFor(location, b)), b);
    Batch.ChosenAscending(start, stop, Scrape(location, year, fetch), Kept);
  }

  /** Every wait of a crawl fills the period: never negative, and the round
      plus its wait lasts at least the period. */
  lemma PausesFillPeriod(crawl: Batch.Crawl<Record>, location: string, year: string, startBib: int, endBib: int,
                         period: int, fetch: Request -> Reply, durations: int -> int, i: int)
    requires Batch.Ran(crawl, startBib, endBib, Scrape(location, year, fetch), Kept, Line, Batch.Paced(period, durations))
    requires 0 <= i < |crawl.pauses|
    ensures crawl.pauses[i] >= 0 && crawl.pauses[i] + durations(startBib + i) >= period
  {
    assert crawl.pauses[i] == Batch.PacedDelay(period, durations(startBib + i));
  }
}
