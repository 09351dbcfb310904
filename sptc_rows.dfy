/** The CSV record of granfondo/sptc-crawler.ts and granfondo/scraper.ts. Both
    read a time.spct.kr page into the same record with a `shouldSave` flag, by
    the same code, and write the same CSV file: a header, then one line per
    record worth saving. Neither produces DNS. */
module SptcRows {
  import opened Results
  import opened Text
  import opened Js
  import opened SptcPage

  datatype Row = Row(bibNo: int, gender: string, event: string, time: string, status: string, shouldSave: bool)

  /** What the fetch failures and the no-results pages give: an empty row
      that is not saved. */
  function Unsaved(bibNo: int): Row {
    Row(bibNo, "", "", "", "", false)
  }

  /** The row a response gives for a bib. */
  function RowOf(response: Response, bibNo: int): Row {
    match response
    case Failed => Unsaved(bibNo)
    case Loaded(page) =>
      if NoResults(page.body) then Unsaved(bibNo)
      else
        var category := CategoryMatch(Trim(page.playerInfo));
        var gender := if category.Some? then category.value.gender else "";
        var event := if category.Some? then category.value.event else "";
        var time := if page.timeNode.Some? then FormatTime(Trim(page.timeNode.value)) else "";
        var started := |StartTimeParagraphs(page.recordParagraphs)| > 0;
        var status := if started && time == "" then "DNF" else "";
        Row(bibNo, gender, event, time, status, true)
  }

  /** A row is saved exactly when a page with results came back. */
  lemma ShouldSaveExactly(response: Response, bibNo: int)
    ensures RowOf(response, bibNo).shouldSave <==> response.Loaded? && !NoResults(response.page.body)
    ensures !RowOf(response, bibNo).shouldSave ==> RowOf(response, bibNo) == Unsaved(bibNo)
  {
  }

  /** The status rule on a page with results: DNF exactly when some record
      paragraph mentions Start Time and there is no time, finished (`""`)
      otherwise, and never DNS; a DNF row has no time. */
  lemma RowStatus(page: Page, bibNo: int)
    requires !NoResults(page.body)
    ensures var r := RowOf(Loaded(page), bibNo);
      && r.bibNo == bibNo
      && (r.status == "DNF" <==>
            (exists k :: 0 <= k < |page.recordParagraphs| && Contains(page.recordParagraphs[k], "Start Time")) && r.time == "")
      && (r.status == "" || r.status == "DNF")
      && (r.status == "DNF" ==> r.time == "")
      && '.' !in r.time
      && (r.gender == "" <==> r.event == "")
      && (r.gender == "" || r.gender == "M" || r.gender == "F")
      && (r.event == "" || r.event == GRANFONDO || r.event == MEDIOFONDO)
  {
    CategoryMatchFields(Trim(page.playerInfo));
  }

  /** The console line of a row, and the CSV line without its newline. */
  function Line(r: Row): string {
    IntToString(r.bibNo) + "," + r.gender + "," + r.event + "," + r.time + "," + r.status
  }

  const HEADER := "BIB_NO,Gender,Event,Time,Status\n"

  /** The file: the header, then each saved row's line and a newline. */
  function Csv(rows: seq<Row>): (text: string)
    ensures HEADER <= text
  {
    if rows == [] then HEADER
    else
      var init := Csv(rows[..|rows| - 1]);
      assert init[..|HEADER|] == HEADER;
      init + Line(rows[|rows| - 1]) + "\n"
  }

  /** Appending one more line to the file is what one more saved row does. */
  lemma CsvAppend(rows: seq<Row>, r: Row)
    ensures Csv(rows + [r]) == Csv(rows) + Line(r) + "\n"
  {
    assert (rows + [r])[..|rows|] == rows;
  }
}
