/** granfondo/event.utils.ts: the lookup and URL builder of
    granfondo/consts.ts once more, over a directory of the same shape held
    in `event.config`. That module's table is not part of this model, so it
    is a parameter here. The lookup is the one of consts.ts; the builder is
    written out again from this file and proved to agree. */
module EventUtils {
  import opened Results
  import opened Text
  import opened Js
  import opened EventTable
  import Events

  /** `getEventInfo(location, year)` over the `event.config` directory: the
      same `EVENTS[location]?.[year] || null` as granfondo/consts.ts, so the
      lookup of that module taken over this directory. */
  function GetEventInfo(config: Directory, location: string, year: string): Option<EventInfo> {
    Events.Get(config, location, year)
  }

  /** `generateUrl(eventInfo, bibNo)`: the bib padded with zeros to six
      characters, https for 2025 and http otherwise, then the template. */
  function GenerateUrl(info: EventInfo, bibNo: int): string {
    var bibStr := PadStart(IntToString(bibNo), 6, '0');
    var protocol := if info.year == "2025" then "https" else "http";
    protocol + "://time.spct.kr/m2.php?E=" + info.eventNo + "&B=" + bibStr
  }

  /** The entry filed under the location and year, or `null`, for any
      configuration that lists no key twice. */
  lemma GetEventInfoFound(config: Directory, location: string, year: string, info: EventInfo)
    requires Events.UniqueKeysThroughout(config)
    ensures GetEventInfo(config, location, year) == Some(info) <==>
      exists i, j :: 0 <= i < |config| && 0 <= j < |config[i].1| && config[i].0 == location && config[i].1[j] == (year, info)
  {
    Events.GetFound(config, location, year, info);
  }

  /** This builder, written out on its own, gives the same URL as the one
      of granfondo/consts.ts for every event and bib. */
  lemma GenerateUrlAgrees(info: EventInfo, bibNo: int)
    ensures GenerateUrl(info, bibNo) == Events.GenerateUrl(info, bibNo)
  {
  }

  /** The protocol is https exactly for 2025; the bib is padded with zeros to
      six characters and longer bibs are kept whole. */
  lemma GenerateUrlBib(info: EventInfo, bibNo: int)
    requires bibNo >= 0
    ensures "https://" <= GenerateUrl(info, bibNo) <==> info.year == "2025"
    ensures var bib := GenerateUrl(info, bibNo)[|Events.UrlPrefix(info)|..];
      && ParseInt(bib) == Int(bibNo)
      && (|Decimal(bibNo)| >= 6 ==> bib == Decimal(bibNo))
      && (|Decimal(bibNo)| < 6 ==>
            && |bib| == 6
            && bib[6 - |Decimal(bibNo)|..] == Decimal(bibNo)
            && forall i :: 0 <= i < 6 - |Decimal(bibNo)| ==> bib[i] == '0')
  {
    GenerateUrlAgrees(info, bibNo);
    Events.GenerateUrlProtocol(info, bibNo);
    Events.GenerateUrlParts(info, bibNo);
  }
}
