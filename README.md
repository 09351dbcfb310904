# Granfondo result crawlers and two file-fixing scripts, in Dafny

This project models the crawlers of the `granfondo` directory and two small
maintenance scripts.

The crawlers collect the results of Korean granfondo (long-distance cycling)
events one bib number at a time:

- from time.spct.kr: `sptc-json-crawler.ts`, `sptc-crawler.ts`, `scraper.ts`;
- from the Marazone record API: `marazone_crawler.ts`;
- from smartchip.co.kr: `smartchip-crawler.ts`.

The maintenance scripts are:

- `convert_seorak_2025.py`, which rewrites one results file;
- `rename-video.py`, which strips the date prefix from camera video names.

The model is organised as follows.

- **Event directory.** The `EVENTS` table of `consts.ts`, `getEventInfo`
  and `generateUrl` are modules `EventTable`, `EventNumbers` and `Events`.
  `event.utils.ts` is module `EventUtils`; its `event.config` table is a
  parameter. Its lookup is the lookup of `Events` over that table, since
  the two files write it the same way. Its URL builder is written out again
  and proved equal to the one of `Events`.
- **Shared text and JavaScript behaviour.** Module `Text` holds `trim`,
  `includes`, `split(c)[0]`, the piece count of `split`, and `padStart`.
  Module `Js` holds `parseInt` and `toString` of whole numbers, truthiness,
  and the order in which `Object.keys` lists keys.
- **The crawl loop.** Module `Batch` holds one generic loop over a bib range.
  Each bib is fetched, printed and kept when it passes the crawler's test,
  and the loop waits before the next bib. The loop records:
  - every state of the output file;
  - every console line;
  - every wait.

  Each crawler's loop calls it with its own fetch, test, line and wait.
- **What a crawler reads.** A fetch is a function from the request (a URL,
  a POST body or a form) to the reply. A time.spct.kr page is reduced to the
  parts the crawlers select with cheerio (module `SptcPage`). The
  smartchip page is reduced the same way, to the labels, the total time and
  the stage tables. The Marazone API reply is its list of records.
- **Clocks.** The paced loops take the time each round lasted as a function
  of the bib.
- **The two scripts.**
  - `convert_seorak_2025.py` is a loop over an `array` of JSON objects that
    fixes each object in place.
  - `rename-video.py` is a `class` whose field is the directory (a map from
    file names to contents). Its method runs the rename loop over that
    field.

The source, not the design text, decides every case where the two differ.
In particular:

- `sptc-crawler.ts` and `scraper.ts` never produce DNS: a page with results
  and no Start Time paragraph is saved with an empty status.
- The Marazone crawler keeps the API's time text as it is, a `-` included.

## Model

| member | source | states |
|---|---|---|
| Text.Trim | granfondo/sptc-crawler.ts:56 | the result is the piece of the input between a run of leading and a run of trailing white space, and it has no white space at either end; a string without such white space is its own trim |
| Text.TrimIdempotent | granfondo/sptc-crawler.ts:56 | trimming twice is trimming once |
| Text.BeforeFirst | granfondo/sptc-crawler.ts:20-23 | `split(c)[0]` is a prefix of the input without `c`, and the input continues with `c` right after it when it is shorter |
| Text.BeforeFirstIdempotent | granfondo/sptc-crawler.ts:20-23 | cutting at the first `c` twice is cutting once |
| Text.SplitLength | granfondo/sptc-json-crawler.ts:85 | `split(c).length > 1` exactly when `c` occurs in the text |
| Text.PadStart | granfondo/consts.ts:145 | `padStart` gives the longer of the input and the width, ends with the input, and is filled with the fill character in front |
| Text.DecimalRoundTrip | granfondo/consts.ts:145 | the decimal numeral of a number reads back as that number |
| Js.ParseIntRoundTrip | granfondo/marazone_crawler.ts:109 | `parseInt` of `n.toString()` is `n` for every whole number |
| Js.PaddedBibRoundTrip | granfondo/consts.ts:145 | the padded bib is all digits, six long below one million, at least six long otherwise, and reads back as the bib |
| Js.SortIndices | granfondo/sptc-json-crawler.ts:189 | the array-index keys are put in ascending numeric order as a permutation of themselves |
| Js.ObjectKeysOrder | granfondo/sptc-json-crawler.ts:189 | `Object.keys` lists each key once, the array-index keys first in ascending order, then the other keys in insertion order |
| EventNumbers.TableEventNosListDistinct | granfondo/consts.ts:7-138 | the 22 event numbers of the table are pairwise different |
| Events.Lookup | granfondo/consts.ts:141 | a property lookup finds nothing exactly when no entry has the key, and otherwise finds the value of an entry with that key |
| Events.TableKeysUnique | granfondo/consts.ts:7-138 | no location and no year within a location is listed twice in the table |
| Events.TableYearsMatchKeys | granfondo/consts.ts:7-138 | every entry's `year` field equals the year it is filed under |
| Events.TableEventNosDistinct | granfondo/consts.ts:7-138 | no two entries of the table share an event number |
| Events.LookupUnique | granfondo/consts.ts:141 | in an object without repeated keys, the lookup returns `v` exactly when `(key, v)` is an entry |
| Events.GetFound | granfondo/consts.ts:140-142 | in a directory without repeated keys, `getEventInfo` returns an event exactly when it is filed under that location and year |
| Events.GetEventInfoFound | granfondo/consts.ts:140-142 | `getEventInfo` returns the table entry exactly when the table files it under that location and year, and `null` otherwise |
| Events.GetEventInfoYear | granfondo/consts.ts:140-142 | an event that `getEventInfo` returns carries the year it was asked for |
| Events.Protocol | granfondo/consts.ts:147 | the protocol is `https` exactly for year 2025 and `http` for every other year |
| Events.YearKeys | granfondo/sptc-json-crawler.ts:189 | the year keys of a location are the keys of its table entry, as a multiset, and none for an unknown location |
| Events.GenerateUrlParts | granfondo/consts.ts:144-151 | the URL is protocol, host, path and event number, followed by the padded bib, which is all digits, six or more long, and reads back as the bib |
| Events.GenerateUrlProtocol | granfondo/consts.ts:146-147 | a URL starts with `https://` exactly for a 2025 event |
| EventUtils.GetEventInfoFound | granfondo/event.utils.ts:3-5 | for any configuration without repeated keys, the lookup returns the entry filed under the location and year, or `null` |
| EventUtils.GenerateUrlAgrees | granfondo/event.utils.ts:7-14 | this file's builder (padded bib, protocol, template) gives the same URL as the builder of consts.ts, for every event and bib |
| EventUtils.GenerateUrlBib | granfondo/event.utils.ts:7-14 | `https` exactly for 2025; a bib shorter than six digits is zero-padded to six and a longer one is kept whole; the bib reads back |
| Batch.Span | granfondo/sptc-json-crawler.ts:138 | a loop from `start` to `end` inclusive visits no bib when `end < start`, and otherwise visits `end - start + 1` bibs ending at `end` |
| Batch.Last | granfondo/sptc-crawler.ts:110-111 | a NaN bound from `parseInt` makes the loop run no round; whole bounds are used as they are |
| Batch.PacedDelay | granfondo/marazone_crawler.ts:222-224 | the wait is never negative, the round plus its wait lasts at least the period, and a round that took the whole period is not followed by a wait |
| Batch.Chosen | granfondo/sptc-json-crawler.ts:146-151 | the kept bibs correspond one to one, in order, with the records in the file |
| Batch.Run | granfondo/sptc-json-crawler.ts:136-154 | the loop leaves the kept records in bib order, the empty file and then one file state per kept record, one console line and one wait per bib of the range |
| Batch.ChosenMembers | granfondo/sptc-json-crawler.ts:146-151 | a bib is kept exactly when it lies in the range and its record passes the test |
| Batch.ChosenAscending | granfondo/sptc-json-crawler.ts:138-151 | the kept bibs ascend strictly, so no bib is kept twice and the file follows bib order |
| Batch.PersistedAll | granfondo/sptc-json-crawler.ts:146-151 | when every record passes the test, the file holds the record of every bib of the range, in order |
| Batch.PersistedNone | granfondo/sptc-json-crawler.ts:136 | when no record passes the test, only the empty file is written |
| SptcPage.FormatTime | granfondo/sptc-json-crawler.ts:21-24 | the time is the prefix before the first `.`, with no `.`; a time without `.` is unchanged |
| SptcPage.FormatTimeIdempotent | granfondo/sptc-json-crawler.ts:21-24 | formatting a formatted time changes nothing |
| SptcPage.CategoryAt | granfondo/sptc-json-crawler.ts:59-62 | a match gives `M` or `F` and one of the two division names, which occur in the text as matched |
| SptcPage.FindCategory | granfondo/sptc-json-crawler.ts:59 | no match exactly when the pattern matches nowhere; otherwise the groups of the leftmost match |
| SptcPage.CategoryMatchFields | granfondo/sptc-json-crawler.ts:59-62 | gender and event come from one match, are `M`/`F` and a division name, and occur in the player line |
| SptcPage.StartTimeParagraphs | granfondo/sptc-json-crawler.ts:78-80 | every kept paragraph is one of the input and mentions Start Time; every paragraph that mentions it is kept; some are kept exactly when some paragraph mentions it |
| SptcPage.StartTimeParagraphsAppend | granfondo/sptc-json-crawler.ts:78-80 | filtering two runs of paragraphs joined is joining their filtered runs, so the filter keeps the paragraphs' order |
| SptcPage.StartTimeParagraphsCons | granfondo/sptc-json-crawler.ts:78-80 | one paragraph is kept exactly when it mentions Start Time, ahead of what the rest keeps |
| SptcRows.ShouldSaveExactly | granfondo/sptc-crawler.ts:41-96 | a row is saved exactly when a page with results came back; an unsaved row is the empty row |
| SptcRows.RowStatus | granfondo/sptc-crawler.ts:55-85 | on a page with results the status is DNF exactly when a record paragraph mentions Start Time and there is no time, and empty otherwise; never DNS; gender and event are set together |
| SptcRows.Csv | granfondo/sptc-crawler.ts:120 | the file starts with the header line |
| SptcRows.CsvAppend | granfondo/sptc-crawler.ts:129-132 | one more saved row appends its line and a newline to the file |
| SptcJson.RecordTime | granfondo/sptc-json-crawler.ts:68-74 | no time element gives no time; otherwise the time is the prefix of the trimmed text before its first `.` (all of it when it has none) |
| SptcJson.HasStartTimeIsColon | granfondo/sptc-json-crawler.ts:84-85 | the Start Time test holds exactly when the text contains a `:` |
| SptcJson.ScrapeRecord | granfondo/sptc-json-crawler.ts:26-113 | throws exactly for an unknown location or year, and otherwise gives the record of the page at the event's URL for the bib |
| SptcJson.RecordStatus | granfondo/sptc-json-crawler.ts:56-102 | on a page with results: finished exactly when there is a time, and otherwise DNF when the Start Time text holds a `:` and DNS when it does not; the time has no `.`; gender and event are set together |
| SptcJson.RecordEmpty | granfondo/sptc-json-crawler.ts:43-54 | a failed request or a no-results page gives the empty record |
| SptcJson.KeptExactlyWithResults | granfondo/sptc-json-crawler.ts:147 | a record is kept exactly when its page had results |
| SptcJson.ScrapeYear | granfondo/sptc-json-crawler.ts:115-157 | an unknown event stops at once; otherwise the run is the crawl of the range with the event's fetch, the kept test, the console line and 500 ms waits |
| SptcJson.FileHoldsBibsWithResults | granfondo/sptc-json-crawler.ts:138-151 | the JSON file holds exactly the bibs of the range whose page had results, in ascending order |
| SptcJson.BibArg | granfondo/sptc-json-crawler.ts:176-177 | a missing or empty argument gives the default, and any other is parsed by `parseInt` |
| SptcJson.Command | granfondo/sptc-json-crawler.ts:159-194 | usage error exactly without arguments; invalid location exactly for an unknown location; for a given year, the run of that year over the parsed or default bounds; otherwise a crawl of bibs 1 to 9999 per year key, in `Object.keys` order |
| SptcJson.ScrapeYears | granfondo/sptc-json-crawler.ts:189-192 | one crawl of bibs 1 to 9999 per year, in the order given |
| SptcJson.YearKeyFound | granfondo/sptc-json-crawler.ts:189-191 | every year key of a location names an event |
| SptcCrawler.ScrapeRecord | granfondo/sptc-crawler.ts:25-97 | throws exactly for an unknown location or year, and otherwise gives the row of the page at the event's URL |
| SptcCrawler.Command | granfondo/sptc-crawler.ts:99-138 | usage error exactly when an argument is missing or empty; exit exactly for an unknown event; otherwise the file is the header and the saved rows of the crawl from `parseInt` of the two bounds |
| SptcCrawler.FileHoldsBibsWithResults | granfondo/sptc-crawler.ts:122-132 | the CSV file holds exactly the bibs of the range whose page had results, in ascending order |
| Scraper.UrlBib | granfondo/scraper.ts:25-26 | the fixed URL ends in the bib as six or more digits (exactly six below one million) that read back as the bib |
| Scraper.UrlInjective | granfondo/scraper.ts:25-26 | different bibs are fetched from different URLs |
| Scraper.BibArg | granfondo/scraper.ts:91-92 | a missing argument, or one that parses to NaN or 0, gives the default; any other gives its parsed value |
| Scraper.UndefinedIsNaN | granfondo/scraper.ts:91 | `parseInt(undefined)` is NaN |
| Scraper.DefaultRange | granfondo/scraper.ts:91-92 | without arguments the range is bibs 105 to 106 |
| Scraper.Command | granfondo/scraper.ts:90-115 | the file is the header and the saved rows of the crawl over the parsed or default range with 500 ms waits |
| Scraper.FileHoldsBibsWithResults | granfondo/scraper.ts:97-109 | the file holds exactly the bibs of the range whose page had results, in ascending order |
| Marazone.RecordOf | granfondo/marazone_crawler.ts:115-182 | an exception, a missing body or an empty list gives the empty record without details; otherwise the record is made from the first element |
| Marazone.RequestNamesBib | granfondo/marazone_crawler.ts:105-113 | the request names the location's granfondo and the bib, and the year takes no part in it |
| Marazone.RecordStatus | granfondo/marazone_crawler.ts:128-135 | finished exactly when the time or the finish time holds a result; otherwise DNF with a start time and DNS without one |
| Marazone.RecordCopies | granfondo/marazone_crawler.ts:137-172 | sex, division and time are copied unchanged, and so is each of the 29 detail fields (start and finish time, competition, name, pace, speed, ranks, KOM, down-speed and the five checkpoints); the bib is `parseInt` of the API's bib |
| Marazone.EchoedBib | granfondo/marazone_crawler.ts:138 | when the API echoes the bib asked for, the record carries that bib |
| Marazone.DnsExample | granfondo/marazone_crawler.test.ts:8-54 | a record with `-` for time, start and finish gets DNS, with name and pace copied |
| Marazone.DnfExample | granfondo/marazone_crawler.test.ts:56-102 | a record with a start time but `-` for time and finish gets DNF |
| Marazone.FinishedExample | granfondo/marazone_crawler.test.ts:104-152 | a record with a time, start and finish gets the empty status, with details copied |
| Marazone.DroppedExactly | granfondo/marazone_crawler.ts:216 | a bib is left out of the file exactly when the API gave no record, or gave one with an empty time and a finish time |
| Marazone.FinishWithoutTimeDropped | granfondo/marazone_crawler.ts:128-135 | a finished record with an empty time has the empty status and is left out of the file |
| Marazone.ScrapeYear | granfondo/marazone_crawler.ts:185-228 | the run is the crawl of the range with the location's fetch, the kept test, the console line and waits that fill up the period |
| Marazone.FileHoldsKeptBibs | granfondo/marazone_crawler.ts:206-220 | the file holds exactly the bibs of the range with a record that has a time or no finish time, in ascending order |
| Marazone.PausesFillPeriod | granfondo/marazone_crawler.ts:222-224 | every wait of a crawl is non-negative, and each round plus its wait lasts at least the period |
| Smartchip.FormatTime | granfondo/smartchip-crawler.ts:24-27 | empty stays empty; the result is a piece of the input with no white space at its ends |
| Smartchip.FormatTimeIsTrim | granfondo/smartchip-crawler.ts:24-27 | `formatTime` is `trim`, and formatting twice is formatting once |
| Smartchip.EventLabel | granfondo/smartchip-crawler.ts:72-80 | the event is 그란폰도 exactly when the second label trims to `Granfondo`, 메디오폰도 exactly for `Mediofondo`, and empty otherwise |
| Smartchip.FindClock | granfondo/smartchip-crawler.ts:107 | no position exactly when the clock pattern matches nowhere; otherwise the leftmost match |
| Smartchip.ClockMatch | granfondo/smartchip-crawler.ts:107-110 | no match exactly when the pattern matches nowhere; a match is the `HH:MM:SS` clock at the leftmost position where the pattern matches |
| Smartchip.RowsTimeShape | granfondo/smartchip-crawler.ts:100-112 | the time read from a table is the time before it, or a clock found in one of its pass times |
| Smartchip.StageTimeShape | granfondo/smartchip-crawler.ts:89-132 | the start and finish times are empty, or a clock found in a pass time of the page |
| Smartchip.ScanRows | granfondo/smartchip-crawler.ts:100-112 | the row loop computes the table's time: the last matching row with a clock wins |
| Smartchip.ScanStageTimes | granfondo/smartchip-crawler.ts:89-132 | the loop over the blocks computes the start time from the Stage1 blocks and the finish time from the Stage2 blocks |
| Smartchip.RecordStatus | granfondo/smartchip-crawler.ts:134-142 | on a page with results: finished exactly when there is a total time, DNF otherwise, never DNS; empty gender; the event is a known name or empty; start and finish are empty or clocks from pass times |
| Smartchip.RecordEmpty | granfondo/smartchip-crawler.ts:48-63 | a failed request or a no-results reply gives the empty record |
| Smartchip.KeptExactlyWithResults | granfondo/smartchip-crawler.ts:187 | a record is kept exactly when its reply had results |
| Smartchip.ScrapeJeongsen | granfondo/smartchip-crawler.ts:157-199 | the run is the crawl of the range with the event code, the kept test, the console line and waits that fill up the period; a NaN bound runs no round |
| Smartchip.FileHoldsBibsWithResults | granfondo/smartchip-crawler.ts:177-191 | the file holds exactly the bibs of the range whose reply had results, in ascending order |
| ConvertSeorak.Convert | granfondo/convert_seorak_2025.py:10-13 | an excluded rider gets the comment, the granfondo event and DNF, with every other field kept; any other record stays as it is |
| ConvertSeorak.Converted | granfondo/convert_seorak_2025.py:9-13 | the fixed file has the same length and each record fixed in place |
| ConvertSeorak.FirstWithoutEvent | granfondo/convert_seorak_2025.py:9-10 | the first record without an event, and none exactly when every record has one |
| ConvertSeorak.ConvertRecords | granfondo/convert_seorak_2025.py:9-13 | the in-place loop succeeds exactly when every record has an event; records before the first without one are fixed and the rest are untouched |
| ConvertSeorak.FirstMissing | granfondo/convert_seorak_2025.py:10 | the record that raises the KeyError is the first without an event |
| ConvertSeorak.ConvertData | granfondo/convert_seorak_2025.py:3-17 | nothing is written exactly when a record lacks an event; otherwise the fixed records are written |
| ConvertSeorak.NoneExcludedAfter | granfondo/convert_seorak_2025.py:9-13 | after the fix no record is listed under the excluded event |
| ConvertSeorak.ConvertIdempotent | granfondo/convert_seorak_2025.py:9-13 | running the fix a second time changes nothing |
| ConvertSeorak.ChangedExactlyExcluded | granfondo/convert_seorak_2025.py:9-13 | a record changes exactly when its rider was excluded |
| RenameVideo.StripPrefix | rename-video.py:24 | the name changes exactly when it starts with `VID_`, eight digits and `_`, and then loses exactly those 13 characters |
| RenameVideo.StripPrefixSuffix | rename-video.py:24 | the new name is the end of the old one |
| RenameVideo.StripDated | rename-video.py:24 | a dated name loses its date prefix and keeps the rest |
| RenameVideo.StripOnce | rename-video.py:24 | of two date prefixes only the first goes |
| RenameVideo.Videos | rename-video.py:11 | the videos are exactly the names of the listing that match `VID_*.mp4` |
| RenameVideo.VideosAppend | rename-video.py:11 | the videos of two listings joined are the videos of each, joined, so the glob keeps the listing's order |
| RenameVideo.VideosSingle | rename-video.py:11 | a single name is kept exactly when it matches `VID_*.mp4` |
| RenameVideo.Directory.RenameVideoFiles | rename-video.py:6-38 | no videos exactly when no name matches; otherwise the directory and the outcomes are those of the rename loop over the matching names in order |
| RenameVideo.RenameOne | rename-video.py:21-36 | one round: skip a name without the prefix, report a failed rename, or rename the file to its short name |
| RenameVideo.OutcomesFollowNames | rename-video.py:20-36 | one outcome per matching name, in order: skipped exactly when stripping changes nothing, and otherwise renamed to the stripped name or failed |
| RenameVideo.NothingToStrip | rename-video.py:26-28 | a directory whose matching names all lack the prefix is left as it is |
| RenameVideo.CollidingNamesLoseVideo | rename-video.py:30-33 | two dated names with the same rest leave one file holding the second video; the first video is lost |
| RenameVideo.RenameKeeps | rename-video.py:33 | a rename onto an unused name keeps the number of files and their contents |
| RenameVideo.SafeKeepsVideos | rename-video.py:30-33 | with renames onto existing names refused, every video survives and the directory keeps its size |
| RenameVideo.SafeAgreesWithoutClashes | rename-video.py:30-33 | when no short name is already taken, the refusing loop and the loop as written agree |

## Left out

- HTTP transport, request headers, status codes and timeouts are left out. Every reply is a parameter, and any exception is one `Failed` or `Thrown` value.
- HTML parsing with cheerio is left out. A page is reduced to the texts the selectors pick out; how those texts come out of the markup is not modelled.
- File system layout is left out: output paths, `__dirname`, JSON formatting with indentation, and the file encoding. A file is the list of records or the CSV text it holds.
- Console output other than the per-bib line is left out: start and end messages, and error logs.
- `setTimeout`, `Date.now` and the `await` order are left out. A wait is a number, and the time a round took is a parameter.
- The `commander` argument parsing of `marazone_crawler.ts` and `smartchip-crawler.ts` is left out. Their `main` functions are not modelled, because they read the current year from the clock or only forward the parsed arguments. `scrapeYear` and `scrapeJeongsen` take the resulting values as parameters.
- The default argument values are left out: a period of 200 ms for Marazone's `scrapeYear`, and bibs 1 to 9999 with a period of 150 ms for `scrapeJeongsen`. Both methods always take every argument.
- The `main` of `rename-video.py` is left out, because it only reads a path and a confirmation from the terminal. `os.path.expanduser` and the existence check are not modelled either.
- Path details of `Path.glob` are left out. Which names match `VID_*.mp4` is modelled; directories that match, hidden entries and the order of the listing (a parameter) are not.
- File contents are left out. A video's content is one number, so only which content ends up under which name is followed.
- `Events.GetEventInfo` does not model JavaScript prototype properties (`EVENTS["constructor"]`). A lookup finds only the table's own keys.
- The Python `\d` of `rename-video.py` also matches non-ASCII decimal digits; the model accepts only ASCII `0`-`9`.
- JSON value types other than strings are one opaque case in `ConvertSeorak`, and key order in the written JSON is not modelled. A file whose top level is not a list is not modelled.
- Numbers are unbounded integers. The precision of JavaScript doubles above 2^53 is not modelled, and neither are fractional bibs.
- `event.config` is not part of this model. `EventUtils` takes its table as a parameter.
- `ts-offset.py` and `ts-batch-update.py` are not part of this model.

## Findings

| source | as written | input that shows it | evidently intended | confidence | as-written member | corrected member |
|---|---|---|---|---|---|---|
| rename-video.py:30-33 | `file_path.rename(new_path)` runs without checking whether `new_path` exists, and on POSIX systems a rename replaces an existing file | the files `VID_20250101_1.mp4` and `VID_20250102_1.mp4` both become `1.mp4`, and the first video is deleted | a rename onto a name already in use fails and is reported like any other failed rename, so every video survives | medium; not executed | RenameVideo.CollidingNamesLoseVideo | RenameVideo.SafeKeepsVideos |
