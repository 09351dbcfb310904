/** The result page of time.spct.kr as the three crawlers of that site see it
    once cheerio has picked out the parts they read, and the pieces of text
    handling they share: `formatTime`, the no-results markers and the
    `([MF]) (그란폰도|메디오폰도)` category match. */
module SptcPage {
  import opened Results
  import opened Text

  /** What the crawlers read from a page: the raw body, the text of
      `p.name span`, the text of `div.record div.time` when there is such an
      element, and the text of each `div.record p` paragraph in page order. */
  datatype Page = Page(body: string, playerInfo: string, timeNode: Option<string>, recordParagraphs: seq<string>)

  /** Either the request (or reading its body) threw, or a page came back. */
  datatype Response = Failed | Loaded(page: Page)

  const GRANFONDO := "그란폰도"
  const MEDIOFONDO := "메디오폰도"

  /** Either marker in the body means the bib has no result on the site. */
  predicate NoResults(body: string) {
    Contains(body, "데이터가 없습니다") || Contains(body, "No Results")
  }

  /** `formatTime`: the part before the first `.`, which drops fractions of
      a second; the empty string stays empty. */
  function FormatTime(s: string): (r: string)
    ensures r <= s && '.' !in r
    ensures |r| < |s| ==> s[|r|] == '.'
    ensures '.' !in s ==> r == s
  {
    if s == "" then "" else BeforeFirst(s, '.')
  }

  /** Formatting a formatted time changes nothing. */
  lemma FormatTimeIdempotent(s: string)
    ensures FormatTime(FormatTime(s)) == FormatTime(s)
  {
    BeforeFirstIdempotent(s, '.');
  }

  /** A gender and a division read from the player line. */
  datatype Category = Category(gender: string, event: string)

  /** The pattern `([MF]) (그란폰도|메디오폰도)` matches at position `i`. */
  predicate MatchAt(s: string, i: int) {
    0 <= i && i + 2 <= |s| && (s[i] == 'M' || s[i] == 'F') && s[i + 1] == ' '
    && (GRANFONDO <= s[i + 2..] || MEDIOFONDO <= s[i + 2..])
  }

  /** The two groups of a match at `i`; the divisions begin with different
      letters, so at most one of the alternatives matches there. */
  function CategoryAt(s: string, i: int): (c: Category)
    requires MatchAt(s, i)
    ensures c.gender == "M" || c.gender == "F"
    ensures c.event == GRANFONDO || c.event == MEDIOFONDO
    ensures c.gender + " " + c.event <= s[i..]
  {
    var event := if GRANFONDO <= s[i + 2..] then GRANFONDO else MEDIOFONDO;
    var c := Category([s[i]], event);
    assert s[i..] == [s[i], s[i + 1]] + s[i + 2..];
    c
  }

  /** `s.match(/([MF]) (그란폰도|메디오폰도)/)` from position `from` on: the
      groups of the leftmost match, or no match at all. */
  function FindCategory(s: string, from: nat): (r: Option<Category>)
    ensures r.None? <==> forall i :: from <= i < |s| ==> !MatchAt(s, i)
    ensures r.Some? ==>
      exists i :: from <= i < |s| && MatchAt(s, i) && r.value == CategoryAt(s, i) && forall j :: from <= j < i ==> !MatchAt(s, j)
    decreases |s| - from
  {
    if from >= |s| then None
    else if MatchAt(s, from) then Some(CategoryAt(s, from))
    else FindCategory(s, from + 1)
  }

  /** The category of a player line: the groups of the leftmost match. */
  function CategoryMatch(s: string): Option<Category> {
    FindCategory(s, 0)
  }

  /** Gender and event are both set from one match, and are a piece of the
      player line; with no match both are empty. */
  lemma CategoryMatchFields(s: string)
    ensures var c := CategoryMatch(s);
      c.Some? ==>
        && (c.value.gender == "M" || c.value.gender == "F")
        && (c.value.event == GRANFONDO || c.value.event == MEDIOFONDO)
        && Contains(s, c.value.gender + " " + c.value.event)
  {
    var c := CategoryMatch(s);
    if c.Some? {
      var i :| 0 <= i < |s| && MatchAt(s, i) && c.value == CategoryAt(s, i);
      var t := c.value.gender + " " + c.value.event;
      assert t <= s[i..];
    }
  }

  /** The paragraphs `.filter(... includes("Start Time"))` keeps: every
      kept paragraph is one of `ps` and mentions Start Time, and every
      paragraph of `ps` that mentions it is kept. */
  function StartTimeParagraphs(ps: seq<string>): (r: seq<string>)
    ensures forall k :: 0 <= k < |r| ==> Contains(r[k], "Start Time") && r[k] in ps
    ensures forall k :: 0 <= k < |ps| && Contains(ps[k], "Start Time") ==> ps[k] in r
    ensures |r| > 0 <==> exists k :: 0 <= k < |ps| && Contains(ps[k], "Start Time")
  {
    if ps == [] then []
    else
      var rest := StartTimeParagraphs(ps[1..]);
      assert forall k :: 1 <= k < |ps| ==> ps[k] == ps[1..][k - 1];
      if Contains(ps[0], "Start Time") then [ps[0]] + rest else rest
  }

  /** The filter keeps the order of the paragraphs: filtering two runs of
      paragraphs one after the other is filtering each and joining the
      results. */
  lemma {:induction false} StartTimeParagraphsAppend(a: seq<string>, b: seq<string>)
    ensures StartTimeParagraphs(a + b) == StartTimeParagraphs(a) + StartTimeParagraphs(b)
  {
    if a == [] {
      assert a + b == b;
    } else {
      assert a == [a[0]] + a[1..];
      assert a + b == [a[0]] + (a[1..] + b);
      StartTimeParagraphsAppend(a[1..], b);
      StartTimeParagraphsCons(a[0], a[1..]);
      StartTimeParagraphsCons(a[0], a[1..] + b);
      JoinAssociates(KeptHead(a[0]), StartTimeParagraphs(a[1..]), StartTimeParagraphs(b));
    }
  }

  /** What the filter keeps of a single paragraph. */
  function KeptHead(p: string): seq<string> {
    if Contains(p, "Start Time") then [p] else []
  }

  /** A single paragraph is kept exactly when it mentions Start Time, and
      ahead of what the rest keeps. */
  lemma StartTimeParagraphsCons(p: string, ps: seq<string>)
    ensures StartTimeParagraphs([p] + ps) == KeptHead(p) + StartTimeParagraphs(ps)
    ensures StartTimeParagraphs([p]) == if Contains(p, "Start Time") then [p] else []
  {
    assert ([p] + ps)[0] == p && ([p] + ps)[1..] == ps;
    assert [p][1..] == [];
    if !Contains(p, "Start Time") {
      assert KeptHead(p) + StartTimeParagraphs(ps) == StartTimeParagraphs(ps);
    }
  }

  /** `.text()` of several elements: their texts one after the other. */
  function Concat(ts: seq<string>): string {
    if ts == [] then "" else ts[0] + Concat(ts[1..])
  }
}
