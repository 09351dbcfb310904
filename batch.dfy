/** The loop every crawler runs: visit the bibs from the first to the last,
    one at a time and in ascending order, print a line for each, keep the
    records that pass the crawler's test, and wait before the next bib. The
    fetch, the console line, the test and the wait are parameters; durations
    measured with the clock arrive as a function of the bib. */
module Batch {
  import opened Js

  /** The records a loop over the bibs `start .. stop - 1` keeps, in bib order. */
  function Persisted<R>(start: int, stop: int, scrape: int -> R, keep: R -> bool): seq<R>
    decreases stop - start
  {
    if stop <= start then []
    else
      var earlier := Persisted(start, stop - 1, scrape, keep);
      if keep(scrape(stop - 1)) then earlier + [scrape(stop - 1)] else earlier
  }

  /** The bibs whose records are kept, in the order they are visited. */
  function Chosen<R>(start: int, stop: int, scrape: int -> R, keep: R -> bool): (r: seq<int>)
    ensures |r| == |Persisted(start, stop, scrape, keep)|
    ensures forall k :: 0 <= k < |r| ==> Persisted(start, stop, scrape, keep)[k] == scrape(r[k])
    decreases stop - start
  {
    if stop <= start then []
    else
      var earlier := Chosen(start, stop - 1, scrape, keep);
      if keep(scrape(stop - 1)) then earlier + [stop - 1] else earlier
  }

  /** The number of bibs from `start` to `end`, both included: none when
      `end < start`, as a `for` loop with `bibNo <= endBib` runs no round. */
  function Span(start: int, end: int): (n: nat)
    ensures n == 0 <==> end < start
    ensures n > 0 ==> start + n - 1 == end
  {
    if end < start then 0 else end - start + 1
  }

  /** A bound read with `parseInt` may be NaN, and `bibNo <= endBib` is false
      once either side is NaN: such a loop runs no round. These are the first
      and last bib a loop over two such bounds visits. */
  function First(start: Num, end: Num): int {
    if start.Int? && end.Int? then start.n else 0
  }

  function Last(start: Num, end: Num): (last: int)
    ensures start.NaN? || end.NaN? ==> Span(First(start, end), last) == 0
    ensures start.Int? && end.Int? ==> First(start, end) == start.n && last == end.n
  {
    if start.Int? && end.Int? then end.n else -1
  }

  /** `Math.max(0, period - duration)`: the wait that keeps one request per
      period, never negative, and nothing once the round took a whole period. */
  function PacedDelay(period: int, duration: int): (d: int)
    ensures d >= 0 && d + duration >= period
    ensures d == 0 || d + duration == period
    ensures duration >= period ==> d == 0
  {
    if period - duration > 0 then period - duration else 0
  }

  /** The wait of the sptc crawlers: the same after every bib. */
  function Fixed(ms: int): int -> int {
    _ => ms
  }

  /** The wait of the paced crawlers, from the time each round took. */
  function Paced(period: int, durations: int -> int): int -> int {
    b => PacedDelay(period, durations(b))
  }

  /** What a crawl leaves behind: the records it kept (the final file), the
      file contents after each write (the empty file first, then one write
      per kept record), one console line per bib, and the wait after each bib. */
  datatype Crawl<R> = Crawl(records: seq<R>, writes: seq<seq<R>>, console: seq<string>, pauses: seq<int>)

  /** `c` is what the loop over the bibs `start .. end` leaves. */
  ghost predicate Ran<R>(c: Crawl<R>, start: int, end: int, scrape: int -> R, keep: R -> bool, show: R -> string, pause: int -> int) {
    && c.records == Persisted(start, end + 1, scrape, keep)
    && |c.writes| == |c.records| + 1
    && (forall k :: 0 <= k < |c.writes| ==> c.writes[k] == c.records[..k])
    && |c.console| == Span(start, end)
    && |c.pauses| == Span(start, end)
    && (forall i :: 0 <= i < |c.console| ==> c.console[i] == show(scrape(start + i)))
    && (forall i :: 0 <= i < |c.pauses| ==> c.pauses[i] == pause(start + i))
  }

  /** One crawl over the bibs `start .. end`. */
  method Run<R>(start: int, end: int, scrape: int -> R, keep: R -> bool, show: R -> string, pause: int -> int)
    returns (c: Crawl<R>)
    ensures Ran(c, start, end, scrape, keep, show, pause)
  {
    var records, writes, console, pauses := [], [[]], [], [];
    var bibNo := start;
    while bibNo <= end
      invariant bibNo == start || start <= bibNo <= end + 1
      invariant records == Persisted(start, bibNo, scrape, keep)
      invariant |writes| == |records| + 1 && forall k :: 0 <= k < |writes| ==> writes[k] == records[..k]
      invariant |console| == Span(start, bibNo - 1) && |pauses| == Span(start, bibNo - 1)
      invariant forall i :: 0 <= i < |console| ==> console[i] == show(scrape(start + i))
      invariant forall i :: 0 <= i < |pauses| ==> pauses[i] == pause(start + i)
      decreases end - bibNo
    {
      var record := scrape(bibNo);
      console := console + [show(record)];
      if keep(record) {
        records := records + [record];
        writes := writes + [records];
      }
      pauses := pauses + [pause(bibNo)];
      bibNo := bibNo + 1;
    }
    c := Crawl(records, writes, console, pauses);
  }

  /** A record is kept exactly when its bib lies in the range and passes the test. */
  lemma {:induction false} ChosenMembers<R>(start: int, stop: int, scrape: int -> R, keep: R -> bool, b: int)
    ensures b in Chosen(start, stop, scrape, keep) <==> start <= b < stop && keep(scrape(b))
    decreases stop - start
  {
    if stop > start {
      ChosenMembers(start, stop - 1, scrape, keep, b);
    }
  }

  predicate StrictlyAscending(s: seq<int>) {
    forall i, j :: 0 <= i < j < |s| ==> s[i] < s[j]
  }

  /** The kept bibs ascend strictly, so the records follow bib order and no
      bib is kept twice. */
  lemma {:induction false} ChosenAscending<R>(start: int, stop: int, scrape: int -> R, keep: R -> bool)
    ensures StrictlyAscending(Chosen(start, stop, scrape, keep))
    decreases stop - start
  {
    if stop > start {
      var c := Chosen(start, stop, scrape, keep);
      var earlier := Chosen(start, stop - 1, scrape, keep);
      ChosenAscending(start, stop - 1, scrape, keep);
      assert c == (if keep(scrape(stop - 1)) then earlier + [stop - 1] else earlier);
      forall b | b in earlier ensures b < stop - 1 {
        ChosenMembers(start, stop - 1, scrape, keep, b);
      }
      forall i, j | 0 <= i < j < |c| ensures c[i] < c[j] {
        if j < |earlier| {
          assert c[i] == earlier[i] && c[j] == earlier[j];
        } else {
          assert c[i] == earlier[i] && c[i] in earlier && c[j] == stop - 1;
        }
      }
    }
  }

  /** Keeping every record, the crawl keeps the whole range in bib order. */
  lemma {:induction false} PersistedAll<R>(start: int, stop: int, scrape: int -> R, keep: R -> bool)
    requires forall b :: start <= b < stop ==> keep(scrape(b))
    ensures var p := Persisted(start, stop, scrape, keep);
      |p| == (if stop <= start then 0 else stop - start)
      && forall k :: 0 <= k < |p| ==> p[k] == scrape(start + k)
    decreases stop - start
  {
    if stop > start {
      PersistedAll(start, stop - 1, scrape, keep);
    }
  }

  /** Keeping no record, the crawl leaves only the empty file. */
  lemma {:induction false} PersistedNone<R>(start: int, stop: int, scrape: int -> R, keep: R -> bool)
    requires forall b :: start <= b < stop ==> !keep(scrape(b))
    ensures Persisted(start, stop, scrape, keep) == []
    decreases stop - start
  {
    if stop > start {
      PersistedNone(start, stop - 1, scrape, keep);
    }
  }
}
