/** granfondo/convert_seorak_2025.py: a one-off fix of the Seorak 2025
    results file. Riders listed under the event "코스제외자" (excluded from
    the course) become granfondo riders with status DNF, and the old event
    name is kept as a comment. The file is read, rewritten in memory, and
    written back. */
module ConvertSeorak {
  import opened Results

  /** A JSON value as far as the fix looks at it: a string, or anything else. */
  datatype JsonValue = JString(s: string) | JOther(json: string)

  /** One record of the file: a JSON object. */
  type Entry = map<string, JsonValue>

  const EXCLUDED := "코스제외자"
  const GRANFONDO := "그란폰도"

  /** `record['Event'] == '코스제외자'`, for a record that has an event. */
  predicate IsExcluded(e: Entry)
    requires "Event" in e
  {
    e["Event"] == JString(EXCLUDED)
  }

  /** The fix of one record: an excluded rider gets the comment, the
      granfondo event and the DNF status; every other record stays as it is. */
  function Convert(e: Entry): (r: Entry)
    requires "Event" in e
    ensures "Event" in r && !IsExcluded(r)
    ensures IsExcluded(e) ==>
      && r.Keys == e.Keys + {"Comment", "Status"}
      && r["Comment"] == JString(EXCLUDED) && r["Event"] == JString(GRANFONDO) && r["Status"] == JString("DNF")
      && forall k :: k in e && k != "Comment" && k != "Event" && k != "Status" ==> r[k] == e[k]
    ensures !IsExcluded(e) ==> r == e
  {
    if IsExcluded(e) then
      e["Comment" := JString(EXCLUDED)]["Event" := JString(GRANFONDO)]["Status" := JString("DNF")]
    else e
  }

  /** Every record has an event; otherwise `record['Event']` raises KeyError. */
  predicate AllHaveEvent(data: seq<Entry>) {
    forall i :: 0 <= i < |data| ==> "Event" in data[i]
  }

  /** The fixed file: every record fixed, in the same order. */
  function Converted(data: seq<Entry>): (r: seq<Entry>)
    requires AllHaveEvent(data)
    ensures |r| == |data|
    ensures forall i :: 0 <= i < |r| ==> r[i] == Convert(data[i])
  {
    seq(|data|, i requires 0 <= i < |data| => Convert(data[i]))
  }

  /** The index of the first record without an event, or `|data|`. */
  function FirstWithoutEvent(data: seq<Entry>): (m: nat)
    ensures m <= |data|
    ensures forall i :: 0 <= i < m ==> "Event" in data[i]
    ensures m < |data| ==> "Event" !in data[m]
    ensures m == |data| <==> AllHaveEvent(data)
  {
    if data == [] then 0
    else if "Event" !in data[0] then 0
    else 1 + FirstWithoutEvent(data[1..])
  }

  /** The loop over the records of the list, changing each in place. It
      stops at the first record without an event (the KeyError), leaving the
      records before it fixed and the rest untouched. */
  method ConvertRecords(data: array<Entry>) returns (ok: bool)
    modifies data
    ensures ok <==> AllHaveEvent(old(data[..]))
    ensures var m := FirstWithoutEvent(old(data[..]));
      && (forall i :: 0 <= i < m ==> data[i] == Convert(old(data[i])))
      && (forall i :: m <= i < data.Length ==> data[i] == old(data[i]))
  {
    ghost var original := data[..];
    var i := 0;
    while i < data.Length
      invariant 0 <= i <= data.Length
      invariant forall j :: 0 <= j < i ==> "Event" in original[j] && data[j] == Convert(original[j])
      invariant forall j :: i <= j < data.Length ==> data[j] == original[j]
    {
      var record := data[i];
      if "Event" !in record {
        assert FirstWithoutEvent(original) == i by { FirstMissing(original, i); }
        return false;
      }
      if record["Event"] == JString(EXCLUDED) {
        record := record["Comment" := JString(EXCLUDED)];
        record := record["Event" := JString(GRANFONDO)];
        record := record["Status" := JString("DNF")];
        data[i] := record;
      }
      i := i + 1;
    }
    return true;
  }

  /** The first record without an event is the one the loop meets first. */
  lemma {:induction false} FirstMissing(data: seq<Entry>, i: nat)
    requires i < |data| && "Event" !in data[i]
    requires forall j :: 0 <= j < i ==> "Event" in data[j]
    ensures FirstWithoutEvent(data) == i
  {
    if i > 0 {
      FirstMissing(data[1..], i - 1);
    }
  }

  /** `convert_data` on the records of the file: the fixed records to write
      back, or nothing written when a record has no event. */
  method ConvertData(file: seq<Entry>) returns (written: Option<seq<Entry>>)
    ensures written.None? <==> !AllHaveEvent(file)
    ensures written.Some? ==> AllHaveEvent(file) && written.value == Converted(file)
  {
    var data := new Entry[|file|](i requires 0 <= i < |file| => file[i]);
    assert data[..] == file;
    var ok := ConvertRecords(data);
    if !ok {
      return None;
    }
    return Some(data[..]);
  }

  /** After the fix no record is listed under the excluded event. */
  lemma NoneExcludedAfter(data: seq<Entry>)
    requires AllHaveEvent(data)
    ensures AllHaveEvent(Converted(data))
    ensures forall i :: 0 <= i < |data| ==> !IsExcluded(Converted(data)[i])
  {
  }

  /** So running the fix a second time changes nothing. */
  lemma ConvertIdempotent(data: seq<Entry>)
    requires AllHaveEvent(data)
    ensures AllHaveEvent(Converted(data)) && Converted(Converted(data)) == Converted(data)
  {
    NoneExcludedAfter(data);
    assert forall i :: 0 <= i < |data| ==> Convert(Converted(data)[i]) == Converted(data)[i];
  }

  /** The fix changes exactly the records of excluded riders. */
  lemma ChangedExactlyExcluded(data: seq<Entry>, i: int)
    requires AllHaveEvent(data) && 0 <= i < |data|
    ensures Converted(data)[i] != data[i] <==> IsExcluded(data[i])
  {
  }
}
