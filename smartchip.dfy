/** granfondo/smartchip-crawler.ts: results of the Jeongseon Donggang
    granfondo on smartchip.co.kr, with the event, the total time, and the
    start and finish clock times of the two stages. */
module Smartchip {
  import opened Results
  import opened Text
  import opened Js
  import Batch

  /** The request form: the bib as its decimal string, and the event code. */
  datatype Request = Request(nameorbibno: string, usedata: string)

  /** A row of a stage's result table: the text of its first cell (the
      timing point) and of its third cell (the pass time); a missing cell
      reads as the empty text. */
  datatype Row = Row(point: string, passTime: string)

  /** A `details` block: the text of the stage title in its summary, and the
      rows of its result table. */
  datatype Detail = Detail(stageText: string, rows: seq<Row>)

  /** What the crawler reads from a reply: the raw body, the texts of the
      `.jamsil-bold-center` elements, the text of the first
      `.jamsil-bold-center2` element if there is one, and the `details` blocks. */
  datatype Page = Page(body: string, labels: seq<string>, totalTime: Option<string>, details: seq<Detail>)

  /** A failed request (any exception) or a loaded page. */
  datatype Response = Failed | Loaded(page: Page)

  datatype Record = Record(BIB_NO: int, Gender: string, Event: string, Time: string, Status: string, StartTime: string, FinishTime: string)

  /** The event code of the fifth Jeongseon Donggang granfondo. */
  const USEDATA := "202550000128"

  const GRANFONDO := "그란폰도"
  const MEDIOFONDO := "메디오폰도"

  /** The reply says there is no such bib: one of three markers, or no "BIB" at all. */
  predicate NoResults(body: string) {
    Contains(body, "데이터가 없습니다") || Contains(body, "No Results")
    || Contains(body, "검색결과가 없습니다") || !Contains(body, "BIB")
  }

  /** `formatTime`: empty stays empty, anything else is trimmed. */
  function FormatTime(s: string): (r: string)
    ensures s == "" ==> r == ""
    ensures r == [] || (!IsSpace(r[0]) && !IsSpace(r[|r| - 1]))
    ensures Contains(s, r)
  {
    if s == "" then assert "" <= s[0..]; "" else Trim(s)
  }

  /** `formatTime` is `trim` and keeps nothing to trim. */
  lemma FormatTimeIsTrim(s: string)
    ensures FormatTime(s) == Trim(s)
    ensures FormatTime(FormatTime(s)) == FormatTime(s)
  {
    TrimIdempotent(s);
  }

  /** The event from the second label: the Korean name of exactly
      "Granfondo" or "Mediofondo" (after trimming), and empty otherwise. */
  function EventLabel(labels: seq<string>): (event: string)
    ensures event == GRANFONDO <==> |labels| >= 2 && Trim(labels[1]) == "Granfondo"
    ensures event == MEDIOFONDO <==> |labels| >= 2 && Trim(labels[1]) == "Mediofondo"
    ensures event == "" || event == GRANFONDO || event == MEDIOFONDO
  {
    if |labels| >= 2 then
      var eventText := Trim(labels[1]);
      if eventText == "Granfondo" then GRANFONDO
      else if eventText == "Mediofondo" then MEDIOFONDO
      else ""
    else ""
  }

  /** The pattern `\d{2}:\d{2}:\d{2}` (ASCII digits) matches at position `i`. */
  predicate ClockAt(s: string, i: int) {
    0 <= i && i + 8 <= |s|
    && IsDigit(s[i]) && IsDigit(s[i + 1]) && s[i + 2] == ':'
    && IsDigit(s[i + 3]) && IsDigit(s[i + 4]) && s[i + 5] == ':'
    && IsDigit(s[i + 6]) && IsDigit(s[i + 7])
  }

  /** A text that is one whole match of the pattern. */
  predicate IsClock(t: string) {
    |t| == 8 && ClockAt(t, 0)
  }

  /** The position of the leftmost match at or after `from`. */
  function FindClock(s: string, from: nat): (r: Option<nat>)
    ensures r.None? <==> forall i :: from <= i < |s| ==> !ClockAt(s, i)
    ensures r.Some? ==> from <= r.value && ClockAt(s, r.value)
    ensures r.Some? ==> forall j :: from <= j < r.value ==> !ClockAt(s, j)
    decreases |s| - from
  {
    if from >= |s| then None
    else if ClockAt(s, from) then Some(from)
    else FindClock(s, from + 1)
  }

  /** `s.match(/\d{2}:\d{2}:\d{2}/)[0]`: the leftmost match, a clock that
      occurs in `s`, or nothing when there is none. */
  function ClockMatch(s: string): (r: Option<string>)
    ensures r.None? <==> forall i :: 0 <= i < |s| ==> !ClockAt(s, i)
    ensures r.Some? ==> IsClock(r.value) && Contains(s, r.value)
    ensures r.Some? ==> exists i :: ClockAt(s, i) && r.value == s[i..i + 8] && forall j :: 0 <= j < i ==> !ClockAt(s, j)
  {
    match FindClock(s, 0)
    case None => None
    case Some(i) =>
      var m := s[i..i + 8];
      assert m <= s[i..];
      Some(m)
  }

  /** One row's effect on the time being read: a row whose point names the
      marker and whose pass time holds a clock sets the time to that clock. */
  function RowStep(t: string, row: Row, marker: string): string {
    if Contains(row.point, marker) then
      match ClockMatch(Trim(row.passTime))
      case Some(m) => m
      case None => t
    else t
  }

  /** The time after the rows of one table, starting from `t`: the last
      matching row wins. */
  function RowsTime(rows: seq<Row>, marker: string, t: string): string {
    if rows == [] then t else RowStep(RowsTime(rows[..|rows| - 1], marker, t), rows[|rows| - 1], marker)
  }

  /** The time after the `details` blocks, those whose stage title names the
      stage: the last matching row of the last such block wins. */
  function StageTime(details: seq<Detail>, stage: string, marker: string): string {
    if details == [] then ""
    else
      var earlier := StageTime(details[..|details| - 1], stage, marker);
      var last := details[|details| - 1];
      if Contains(Trim(last.stageText), stage) then RowsTime(last.rows, marker, earlier) else earlier
  }

  /** A row's pass time holds `t`. */
  ghost predicate InPassTimes(details: seq<Detail>, t: string) {
    exists k, j :: 0 <= k < |details| && 0 <= j < |details[k].rows| && Contains(Trim(details[k].rows[j].passTime), t)
  }

  /** The time read from one table is the one it started from, or a clock
      from one of its rows. */
  lemma {:induction false} RowsTimeShape(rows: seq<Row>, marker: string, t: string)
    ensures var r := RowsTime(rows, marker, t);
      r == t || (IsClock(r) && exists j :: 0 <= j < |rows| && Contains(Trim(rows[j].passTime), r))
  {
    if rows != [] {
      var front := rows[..|rows| - 1];
      RowsTimeShape(front, marker, t);
      var earlier := RowsTime(front, marker, t);
      if RowsTime(rows, marker, t) != earlier {
        assert RowsTime(rows, marker, t) == ClockMatch(Trim(rows[|rows| - 1].passTime)).value;
      } else if earlier != t {
        var j :| 0 <= j < |front| && Contains(Trim(front[j].passTime), earlier);
        assert rows[j] == front[j];
      }
    }
  }

  /** The start and finish times are empty or a clock taken from a pass time. */
  lemma {:induction false} StageTimeShape(details: seq<Detail>, stage: string, marker: string)
    ensures var r := StageTime(details, stage, marker);
      r == "" || (IsClock(r) && InPassTimes(details, r))
  {
    if details != [] {
      var front := details[..|details| - 1];
      var last := details[|details| - 1];
      StageTimeShape(front, stage, marker);
      var earlier := StageTime(front, stage, marker);
      var r := StageTime(details, stage, marker);
      if Contains(Trim(last.stageText), stage) {
        RowsTimeShape(last.rows, marker, earlier);
      }
      if r != "" {
        if r == earlier {
          var k, j :| 0 <= k < |front| && 0 <= j < |front[k].rows| && Contains(Trim(front[k].rows[j].passTime), r);
          assert details[k] == front[k];
        } else {
          var j :| 0 <= j < |last.rows| && Contains(Trim(last.rows[j].passTime), r);
          assert details[|details| - 1] == last;
        }
      }
    }
  }

  /** The table of one block, scanned row by row. */
  method ScanRows(rows: seq<Row>, marker: string, t0: string) returns (t: string)
    ensures t == RowsTime(rows, marker, t0)
  {
    t := t0;
    var j := 0;
    while j < |rows|
      invariant 0 <= j <= |rows|
      invariant t == RowsTime(rows[..j], marker, t0)
    {
      assert rows[..j + 1][..j] == rows[..j];
      t := RowStep(t, rows[j], marker);
      j := j + 1;
    }
    assert rows[..|rows|] == rows;
  }

  /** The scan of the `details` blocks: a block whose title names Stage1
      has its Stage1_Start row read into the start time, and one that names
      Stage2 its Stage2_Finish row into the finish time. */
  method ScanStageTimes(details: seq<Detail>) returns (startTime: string, finishTime: string)
    ensures startTime == StageTime(details, "Stage1", "Stage1_Start")
    ensures finishTime == StageTime(details, "Stage2", "Stage2_Finish")
  {
    startTime, finishTime := "", "";
    var k := 0;
    while k < |details|
      invariant 0 <= k <= |details|
      invariant startTime == StageTime(details[..k], "Stage1", "Stage1_Start")
      invariant finishTime == StageTime(details[..k], "Stage2", "Stage2_Finish")
    {
      assert details[..k + 1][..k] == details[..k];
      var stageText := Trim(details[k].stageText);
      if Contains(stageText, "Stage1") {
        startTime := ScanRows(details[k].rows, "Stage1_Start", startTime);
      }
      if Contains(stageText, "Stage2") {
        finishTime := ScanRows(details[k].rows, "Stage2_Finish", finishTime);
      }
      k := k + 1;
    }
    assert details[..|details|] == details;
  }

  /** The record of a bib with nothing known about it. */
  function Empty(bibNo: int): Record {
    Record(bibNo, "", "", "", "", "", "")
  }

  /** The record a reply gives for a bib. */
  function RecordOf(response: Response, bibNo: int): Record {
    match response
    case Failed => Empty(bibNo)
    case Loaded(page) =>
      if NoResults(page.body) then Empty(bibNo)
      else
        var time := if page.totalTime.Some? then FormatTime(page.totalTime.value) else "";
        Record(bibNo, "", EventLabel(page.labels), time, if time != "" then "" else "DNF",
          StageTime(page.details, "Stage1", "Stage1_Start"),
          StageTime(page.details, "Stage2", "Stage2_Finish"))
  }

  /** `scrapeRecord(usedata, bibNo)`: the record of the reply to the form
      for the bib. */
  function ScrapeRecord(usedata: string, bibNo: int, fetch: Request -> Response): Record {
    RecordOf(fetch(Request(IntToString(bibNo), usedata)), bibNo)
  }

  /** On a page with results: finished (`""`) exactly when there is a total
      time and DNF otherwise, never DNS; the gender is always empty; the
      event is one of the two names or empty; start and finish times are
      empty or a clock from a pass time. */
  lemma RecordStatus(page: Page, bibNo: int)
    requires !NoResults(page.body)
    ensures var r := RecordOf(Loaded(page), bibNo);
      && r.BIB_NO == bibNo && r.Gender == ""
      && (r.Status == "" <==> r.Time != "")
      && (r.Status == "DNF" <==> r.Time == "")
      && r.Status != "DNS"
      && (r.Event == "" || r.Event == GRANFONDO || r.Event == MEDIOFONDO)
      && (r.StartTime == "" || (IsClock(r.StartTime) && InPassTimes(page.details, r.StartTime)))
      && (r.FinishTime == "" || (IsClock(r.FinishTime) && InPassTimes(page.details, r.FinishTime)))
  {
    StageTimeShape(page.details, "Stage1", "Stage1_Start");
    StageTimeShape(page.details, "Stage2", "Stage2_Finish");
  }

  /** A failed request or a no-results page gives the empty record. */
  lemma RecordEmpty(response: Response, bibNo: int)
    requires response.Failed? || NoResults(response.page.body)
    ensures RecordOf(response, bibNo) == Empty(bibNo)
  {
  }

  /** `record.Time || record.Status`: the records the file keeps. */
  predicate Kept(r: Record) {
    r.Time != "" || r.Status != ""
  }

  /** Every bib with a results page is kept, since its record has a time or
      is DNF; only failures and no-results pages are dropped. */
  lemma KeptExactlyWithResults(response: Response, bibNo: int)
    ensures Kept(RecordOf(response, bibNo)) <==> response.Loaded? && !NoResults(response.page.body)
  {
  }

  /** The console line of a record; the gender column stays empty. */
  function Line(r: Record): string {
    IntToString(r.BIB_NO) + ",," + r.Event + "," + r.Time + "," + r.Status
  }

  /** The fetch of every bib of the event, as the crawl loop takes it. */
  function Scrape(fetch: Request -> Response): int -> Record {
    b => ScrapeRecord(USEDATA, b, fetch)
  }

  /** `scrapeJeongsen(startBib, endBib, period)`: each bib in turn is fetched
      with the event's code, printed, kept when it has a time or a status,
      and followed by a wait that fills up the period (`durations(b)` is how
      long the round of bib `b` took). A NaN bound runs no round. The
      arguments, bibs 1 to 9999 and 150 ms when left out, are always given
      here. */
  method ScrapeJeongsen(startBib: Num, endBib: Num, period: int, fetch: Request -> Response, durations: int -> int)
    returns (crawl: Batch.Crawl<Record>)
    ensures Batch.Ran(crawl, Batch.First(startBib, endBib), Batch.Last(startBib, endBib),
                      Scrape(fetch), Kept, Line, Batch.Paced(period, durations))
  {
    crawl := Batch.Run(Batch.First(startBib, endBib), Batch.Last(startBib, endBib),
                       Scrape(fetch), Kept, Line, Batch.Paced(period, durations));
  }

  /** The file of a crawl holds exactly the bibs of the range with a results
      page, in ascending bib order. */
  lemma FileHoldsBibsWithResults(start: int, stop: int, fetch: Request -> Response, b: int)
    ensures var response := fetch(Request(IntToString(b), USEDATA));
      b in Batch.Chosen(start, stop, Scrape(fetch), Kept) <==>
        start <= b < stop && response.Loaded? && !NoResults(response.page.body)
    ensures Batch.StrictlyAscending(Batch.Chosen(start, stop, Scrape(fetch), Kept))
  {
    Batch.ChosenMembers(start, stop, Scrape(fetch), Kept, b);
    KeptExactlyWithResults(fetch(Request(IntToString(b), USEDATA)), b);
    Batch.ChosenAscending(start, stop, Scrape(fetch), Kept);
  }
}
