/** The event directory of granfondo/consts.ts: the `EVENTS` table from
    location and year to the time.spct.kr event. */
module EventTable {

  datatype EventInfo = EventInfo(eventNo: string, year: string, name: string)

  /** A location's events, keyed by year in the order the table lists them. */
  type YearTable = seq<(string, EventInfo)>

  /** The whole directory, keyed by location in table order. */
  type Directory = seq<(string, YearTable)>

  const EVENTS: Directory := [
    ("홍천", [
      ("2022", EventInfo("2022090403", "2022", "홍천그란폰도")),
      ("2023", EventInfo("2023041602", "2023", "홍천그란폰도")),
      ("2024", EventInfo("2024042803", "2024", "홍천그란폰도")),
      ("2025", EventInfo("2025041903", "2025", "홍천그란폰도"))
    ]),
    ("양양", [
      ("2024", EventInfo("2024042701", "2024", "양양그란폰도")),
      ("2025", EventInfo("2025042601", "2025", "양양그란폰도"))
    ]),
    ("설악", [
      ("2022", EventInfo("2022061801", "2022", "설악그란폰도")),
      ("2023", EventInfo("2023052001", "2023", "설악그란폰도")),
      ("2024", EventInfo("2024051801", "2024", "설악그란폰도"))
    ]),
    ("영산강", [
      ("2025", EventInfo("2025042604", "2025", "영산강그란폰도")),
      ("2024", EventInfo("2024051103", "2024", "영산강그란폰도")),
      ("2023", EventInfo("2023052801", "2023", "영산강그란폰도"))
    ]),
    ("공룡", [
      ("2025", EventInfo("2025032901", "2025", "공룡나라 그란폰도")),
      ("2024", EventInfo("2024033001", "2024", "공룡나라 그란폰도"))
    ]),
    ("화천", [
      ("2024", EventInfo("2024051204", "2024", "화천DMZ 렐리"))
    ]),
    ("정읍내장산", [
      ("2024", EventInfo("2024052601", "2024", "정읍내장산 그란폰도")),
      ("2023", EventInfo("2023062502", "2023", "정읍내장산 그란폰도"))
    ]),
    ("섬섬영수", [
      ("2023", EventInfo("2023111802", "2023", "섬섬여수 그란폰도")),
      ("2022", EventInfo("2022112003", "2022", "섬섬여수 그란폰도"))
    ]),
    ("삼척", [
      ("2024", EventInfo("2024060902", "2024", "삼척 그란폰도"))
    ]),
    ("문경새재", [
      ("2024", EventInfo("2024090102", "2024", "문경새재 그란폰도")),
      ("2023", EventInfo("2023090303", "2023", "문경새재 그란폰도"))
    ])
  ]
}

/** The event numbers the directory uses, written out on their own. */
module EventNumbers {

  predicate Distinct(s: seq<string>) {
    forall i, j :: 0 <= i < j < |s| ==> s[i] != s[j]
  }

  /** The table's event numbers, written out in table order. */
  const TABLE_EVENT_NOS: seq<string> := [
    "2022090403", "2023041602", "2024042803", "2025041903", "2024042701", "2025042601",
    "2022061801", "2023052001", "2024051801", "2025042604", "2024051103", "2023052801",
    "2025032901", "2024033001", "2024051204", "2024052601", "2023062502", "2023111802",
    "2022112003", "2024060902", "2024090102", "2023090303"]

  /** Each number differs from every later one. */
  lemma TableEventNosListDistinct()
    ensures Distinct(TABLE_EVENT_NOS)
  {
    LaterNumbersDiffer(0, 6);
    LaterNumbersDiffer(6, 12);
    LaterNumbersDiffer(12, 22);
  }

  lemma LaterNumbersDiffer(lo: nat, hi: nat)
    requires lo <= hi <= |TABLE_EVENT_NOS|
    ensures forall i, j :: lo <= i < hi && i < j < |TABLE_EVENT_NOS| ==> TABLE_EVENT_NOS[i] != TABLE_EVENT_NOS[j]
  {
  }
}

/** Lookup in the event directory and the result-page URL for one bib. */
module Events {
  import opened Results
  import opened Text
  import opened Js
  import opened EventTable
  import opened EventNumbers

  /** Property lookup `obj[key]` on an object given by its entries. */
  function Lookup<V>(entries: seq<(string, V)>, key: string): (r: Option<V>)
    ensures r.None? <==> forall i :: 0 <= i < |entries| ==> entries[i].0 != key
    ensures r.Some? ==> exists i :: 0 <= i < |entries| && entries[i] == (key, r.value)
  {
    if entries == [] then None
    else if entries[0].0 == key then Some(entries[0].1)
    else Lookup(entries[1..], key)
  }

  function Keys<V>(entries: seq<(string, V)>): (r: seq<string>)
    ensures |r| == |entries| && forall i :: 0 <= i < |r| ==> r[i] == entries[i].0
  {
    seq(|entries|, i requires 0 <= i < |entries| => entries[i].0)
  }

  /** `d[location]?.[year] || null`; the `|| null` only turns a missing entry
      into `null`, since an entry is an object and so never falsy. */
  function Get(d: Directory, location: string, year: string): Option<EventInfo> {
    match Lookup(d, location)
    case None => None
    case Some(years) => Lookup(years, year)
  }

  /** `getEventInfo` of granfondo/consts.ts. */
  function GetEventInfo(location: string, year: string): Option<EventInfo> {
    Get(EVENTS, location, year)
  }

  /** The year keys of a location, in the order `Object.keys` lists them
      (or none for a location that is not in the directory). */
  function YearKeys(d: Directory, location: string): (r: seq<string>)
    ensures multiset(r) == (match Lookup(d, location) case None => multiset{} case Some(years) => multiset(Keys(years)))
  {
    match Lookup(d, location)
    case None => []
    case Some(years) => ObjectKeysOf(Keys(years))
  }

  function ObjectKeysOf(keys: seq<string>): (r: seq<string>)
    ensures multiset(r) == multiset(keys)
  {
    ObjectKeysOrder(keys);
    ObjectKeys(keys)
  }

  /** Every entry's `year` field equals the key it is filed under. */
  predicate YearsMatchKeys(d: Directory) {
    forall i, j :: 0 <= i < |d| && 0 <= j < |d[i].1| ==> d[i].1[j].1.year == d[i].1[j].0
  }

  /** No key is listed twice, so looking up the first entry with a key finds
      the value a JavaScript object literal keeps for it. */
  predicate UniqueKeys<V>(entries: seq<(string, V)>) {
    forall i, j :: 0 <= i < j < |entries| ==> entries[i].0 != entries[j].0
  }

  predicate UniqueKeysThroughout(d: Directory) {
    UniqueKeys(d) && forall i :: 0 <= i < |d| ==> UniqueKeys(d[i].1)
  }

  lemma TableYearsMatchKeys()
    ensures YearsMatchKeys(EVENTS)
  {
  }

  /** Neither a location nor a year within a location is listed twice. */
  lemma TableKeysUnique()
    ensures UniqueKeysThroughout(EVENTS)
  {
    LocationsUnique();
    YearsUnique();
  }

  lemma LocationsUnique()
    ensures UniqueKeys(EVENTS)
  {
  }

  lemma YearsUnique()
    ensures forall i :: 0 <= i < |EVENTS| ==> UniqueKeys(EVENTS[i].1)
  {
  }

  /** The event numbers of a directory, location by location. */
  function EventNos(d: Directory): seq<string> {
    if d == [] then [] else YearEventNos(d[0].1) + EventNos(d[1..])
  }

  function YearEventNos(years: YearTable): (r: seq<string>)
    ensures |r| == |years| && forall j :: 0 <= j < |r| ==> r[j] == years[j].1.eventNo
  {
    seq(|years|, j requires 0 <= j < |years| => years[j].1.eventNo)
  }

  /** No two entries of the table share a time.spct.kr event number. */
  lemma TableEventNosDistinct()
    ensures Distinct(EventNos(EVENTS))
  {
    EventNosOfTable();
    TableEventNosListDistinct();
  }

  /** The event numbers of the table, location by location, are the list
      above: from each location on, they are the list from that location's
      first number on. */
  lemma EventNosOfTable()
    ensures EventNos(EVENTS) == TABLE_EVENT_NOS
  {
    EventNosFrom0();
    assert EVENTS[0..] == EVENTS && TABLE_EVENT_NOS[0..] == TABLE_EVENT_NOS;
  }

  lemma EventNosFrom0()
    ensures EventNos(EVENTS[0..]) == TABLE_EVENT_NOS[0..]
  {
    var d, n := EVENTS, TABLE_EVENT_NOS;
    EventNosFrom1();
    assert YearEventNos(d[0].1) == n[0..4];
    assert EventNos(d[0..]) == n[0..4] + n[4..] == n[0..];
  }

  lemma EventNosFrom1()
    ensures EventNos(EVENTS[1..]) == TABLE_EVENT_NOS[4..]
  {
    var d, n := EVENTS, TABLE_EVENT_NOS;
    EventNosFrom2();
    assert YearEventNos(d[1].1) == n[4..6];
    assert EventNos(d[1..]) == n[4..6] + n[6..] == n[4..];
  }

  lemma EventNosFrom2()
    ensures EventNos(EVENTS[2..]) == TABLE_EVENT_NOS[6..]
  {
    var d, n := EVENTS, TABLE_EVENT_NOS;
    EventNosFrom3();
    assert YearEventNos(d[2].1) == n[6..9];
    assert EventNos(d[2..]) == n[6..9] + n[9..] == n[6..];
  }

  lemma EventNosFrom3()
    ensures EventNos(EVENTS[3..]) == TABLE_EVENT_NOS[9..]
  {
    var d, n := EVENTS, TABLE_EVENT_NOS;
    EventNosFrom4();
    assert YearEventNos(d[3].1) == n[9..12];
    assert EventNos(d[3..]) == n[9..12] + n[12..] == n[9..];
  }

  lemma EventNosFrom4()
    ensures EventNos(EVENTS[4..]) == TABLE_EVENT_NOS[12..]
  {
    var d, n := EVENTS, TABLE_EVENT_NOS;
    EventNosFrom5();
    assert YearEventNos(d[4].1) == n[12..14];
    assert EventNos(d[4..]) == n[12..14] + n[14..] == n[12..];
  }

  lemma EventNosFrom5()
    ensures EventNos(EVENTS[5..]) == TABLE_EVENT_NOS[14..]
  {
    var d, n := EVENTS, TABLE_EVENT_NOS;
    EventNosFrom6();
    assert YearEventNos(d[5].1) == n[14..15];
    assert EventNos(d[5..]) == n[14..15] + n[15..] == n[14..];
  }

  lemma EventNosFrom6()
    ensures EventNos(EVENTS[6..]) == TABLE_EVENT_NOS[15..]
  {
    var d, n := EVENTS, TABLE_EVENT_NOS;
    EventNosFrom7();
    assert YearEventNos(d[6].1) == n[15..17];
    assert EventNos(d[6..]) == n[15..17] + n[17..] == n[15..];
  }

  lemma EventNosFrom7()
    ensures EventNos(EVENTS[7..]) == TABLE_EVENT_NOS[17..]
  {
    var d, n := EVENTS, TABLE_EVENT_NOS;
    EventNosFrom8();
    assert YearEventNos(d[7].1) == n[17..19];
    assert EventNos(d[7..]) == n[17..19] + n[19..] == n[17..];
  }

  lemma EventNosFrom8()
    ensures EventNos(EVENTS[8..]) == TABLE_EVENT_NOS[19..]
  {
    var d, n := EVENTS, TABLE_EVENT_NOS;
    EventNosFrom9();
    assert YearEventNos(d[8].1) == n[19..20];
    assert EventNos(d[8..]) == n[19..20] + n[20..] == n[19..];
  }

  lemma EventNosFrom9()
    ensures EventNos(EVENTS[9..]) == TABLE_EVENT_NOS[20..]
  {
    var d, n := EVENTS, TABLE_EVENT_NOS;
    assert EventNos(d[10..]) == n[22..];
    assert YearEventNos(d[9].1) == n[20..22];
    assert EventNos(d[9..]) == n[20..22] + n[22..] == n[20..];
  }

  /** With no key listed twice, the first entry with a key is the only one. */
  lemma {:induction false} LookupUnique<V>(entries: seq<(string, V)>, key: string, v: V)
    requires UniqueKeys(entries)
    ensures Lookup(entries, key) == Some(v) <==> exists i :: 0 <= i < |entries| && entries[i] == (key, v)
  {
    if entries != [] && entries[0].0 != key {
      var tail := entries[1..];
      assert UniqueKeys(tail) by {
        forall i, j | 0 <= i < j < |tail| ensures tail[i].0 != tail[j].0 {
          assert tail[i] == entries[i + 1] && tail[j] == entries[j + 1];
        }
      }
      LookupUnique(tail, key, v);
      if exists i :: 0 <= i < |entries| && entries[i] == (key, v) {
        var i :| 0 <= i < |entries| && entries[i] == (key, v);
        assert tail[i - 1] == entries[i];
      }
    }
  }

  /** In a directory without repeated keys, `getEventInfo` finds an event
      exactly when it is filed under that location and year. */
  lemma GetFound(d: Directory, location: string, year: string, info: EventInfo)
    requires UniqueKeysThroughout(d)
    ensures Get(d, location, year) == Some(info) <==>
      exists i, j :: 0 <= i < |d| && 0 <= j < |d[i].1| && d[i].0 == location && d[i].1[j] == (year, info)
  {
    if exists i, j :: 0 <= i < |d| && 0 <= j < |d[i].1| && d[i].0 == location && d[i].1[j] == (year, info) {
      var i, j :| 0 <= i < |d| && 0 <= j < |d[i].1| && d[i].0 == location && d[i].1[j] == (year, info);
      LookupUnique(d, location, d[i].1);
      LookupUnique(d[i].1, year, info);
    }
    if Get(d, location, year) == Some(info) {
      var years := Lookup(d, location).value;
      LookupUnique(d, location, years);
      LookupUnique(years, year, info);
      var i :| 0 <= i < |d| && d[i] == (location, years);
      var j :| 0 <= j < |years| && years[j] == (year, info);
      assert d[i].1[j] == (year, info);
    }
  }

  /** An event `getEventInfo` returns carries the year it was asked for. */
  lemma GetEventInfoYear(location: string, year: string)
    ensures GetEventInfo(location, year).Some? ==> GetEventInfo(location, year).value.year == year
  {
    if GetEventInfo(location, year).Some? {
      var info := GetEventInfo(location, year).value;
      TableKeysUnique();
      TableYearsMatchKeys();
      GetFound(EVENTS, location, year, info);
    }
  }

  /** `getEventInfo` of granfondo/consts.ts: the table entry exactly when the
      table files one under that location and year, and `null` otherwise. */
  lemma GetEventInfoFound(location: string, year: string, info: EventInfo)
    ensures GetEventInfo(location, year) == Some(info) <==>
      exists i, j :: 0 <= i < |EVENTS| && 0 <= j < |EVENTS[i].1| && EVENTS[i].0 == location && EVENTS[i].1[j] == (year, info)
  {
    TableKeysUnique();
    GetFound(EVENTS, location, year, info);
  }

  /** 2025 events are served over https, every other year over plain http. */
  function Protocol(info: EventInfo): (r: string)
    ensures r == "https" <==> info.year == "2025"
    ensures r == "http" <==> info.year != "2025"
  {
    if info.year == "2025" then "https" else "http"
  }

  const HOST_AND_PATH := "://time.spct.kr/m2.php?E="

  /** The result-page URL of one bib: protocol, host and path, the event
      number, then the bib zero-padded to six digits. */
  function GenerateUrl(info: EventInfo, bibNo: int): string {
    Protocol(info) + HOST_AND_PATH + info.eventNo + "&B=" + PaddedBib(bibNo)
  }

  /** The part of the URL before the bib. */
  function UrlPrefix(info: EventInfo): string {
    Protocol(info) + HOST_AND_PATH + info.eventNo + "&B="
  }

  /** What a URL carries: it names the event and ends in an all-digit bib of
      at least six characters that `parseInt` reads back as the bib. */
  lemma GenerateUrlParts(info: EventInfo, bibNo: int)
    requires bibNo >= 0
    ensures UrlPrefix(info) <= GenerateUrl(info, bibNo)
    ensures var bib := GenerateUrl(info, bibNo)[|UrlPrefix(info)|..];
      && bib == PaddedBib(bibNo)
      && IsDigits(bib)
      && |bib| == (if |Decimal(bibNo)| >= 6 then |Decimal(bibNo)| else 6)
      && ParseInt(bib) == Int(bibNo)
  {
    var url := GenerateUrl(info, bibNo);
    assert url == UrlPrefix(info) + PaddedBib(bibNo);
    PaddedBibRoundTrip(bibNo);
  }

  /** A URL starts with `https://` exactly for a 2025 event. */
  lemma GenerateUrlProtocol(info: EventInfo, bibNo: int)
    ensures "https://" <= GenerateUrl(info, bibNo) <==> info.year == "2025"
  {
    ProtocolPrefix(Protocol(info), info.eventNo, PaddedBib(bibNo));
  }

  /** Of the two protocols, only "https" followed by the host part makes a
      URL that starts with "https://". */
  lemma ProtocolPrefix(protocol: string, eventNo: string, bib: string)
    requires protocol == "https" || protocol == "http"
    ensures "https://" <= protocol + HOST_AND_PATH + eventNo + "&B=" + bib <==> protocol == "https"
  {
    var url := protocol + HOST_AND_PATH + eventNo + "&B=" + bib;
    var head := protocol + HOST_AND_PATH;
    assert url[..|head|] == head;
    if protocol == "https" {
      assert head[..8] == "https://";
    } else {
      assert head[4] == ':' && url[4] == head[4];
    }
  }
}
