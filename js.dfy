/** The JavaScript number and object semantics the crawlers rely on:
    `parseInt` without a radix, `Number.prototype.toString` for whole numbers,
    truthiness of a number, `n.toString().padStart(6, "0")`, and the order in
    which `Object.keys` lists an object's keys. Numbers are whole and unbounded
    here; `NaN` is the one non-numeric value `parseInt` yields. */
module Js {
  import opened Text

  datatype Num = Int(n: int) | NaN

  /** `String(n)` for a whole number `n`. */
  function IntToString(n: int): (r: string)
    ensures |r| >= 1
    ensures n >= 0 ==> IsDigits(r)
  {
    if n < 0 then "-" + Decimal(-n) else Decimal(n)
  }

  /** Template-literal text of a number: `${x}`. */
  function NumToString(x: Num): string {
    match x
    case Int(n) => IntToString(n)
    case NaN => "NaN"
  }

  /** `x || default` and `x ? ... : ...` treat 0 and NaN as false. */
  predicate Truthy(x: Num) {
    x.Int? && x.n != 0
  }

  /** The longest prefix of `s` made of digits of the given radix. */
  function DigitRun(s: string, radix: nat): (r: string)
    ensures r <= s
    ensures IsRadixDigits(r, radix)
    ensures |r| < |s| ==> DigitValue(s[|r|]) >= radix
  {
    if s != [] && DigitValue(s[0]) < radix then [s[0]] + DigitRun(s[1..], radix) else []
  }

  /** `parseInt(input)` with no radix: leading white space is skipped, one
      sign is read, and the rest is read by `ParseUnsigned`. */
  function ParseInt(input: string): (r: Num)
  {
    var s := TrimStart(input);
    if |s| > 0 && s[0] == '-' then Negate(ParseUnsigned(s[1..]))
    else if |s| > 0 && s[0] == '+' then ParseUnsigned(s[1..])
    else ParseUnsigned(s)
  }

  function Negate(x: Num): Num {
    match x
    case Int(n) => Int(-n)
    case NaN => NaN
  }

  /** A `0x` or `0X` prefix selects radix 16, otherwise radix 10; the longest
      run of digits of that radix is the value, and with no digit the result
      is NaN. */
  function ParseUnsigned(u: string): (r: Num)
    ensures r.Int? ==> r.n >= 0
  {
    if |u| >= 2 && u[0] == '0' && (u[1] == 'x' || u[1] == 'X') then ReadDigits(u[2..], 16)
    else ReadDigits(u, 10)
  }

  function ReadDigits(t: string, radix: nat): (r: Num)
    ensures r.Int? ==> r.n >= 0
  {
    var d := DigitRun(t, radix);
    if d == [] then NaN else Int(Value(d, radix))
  }

  /** A decimal numeral is read in radix 10, whatever its second digit is. */
  lemma ParseUnsignedDecimal(d: string)
    requires |d| >= 1 && IsDigits(d)
    ensures ParseUnsigned(d) == Int(Value(d, 10))
  {
    assert |d| >= 2 ==> IsDigit(d[1]);
    DigitRunOfDigits(d, 10);
  }

  /** A run of digits followed by nothing is read whole. */
  lemma DigitRunOfDigits(s: string, radix: nat)
    requires IsRadixDigits(s, radix)
    ensures DigitRun(s, radix) == s
  {
  }

  /** A numeral of decimal digits is read whole, in radix 10. */
  lemma UnsignedNumeral(d: string)
    requires |d| >= 1 && IsDigits(d)
    ensures ParseInt(d) == Int(Value(d, 10))
  {
    ParseUnsignedDecimal(d);
    DigitIsNoSpace(d[0]);
    assert TrimStart(d) == d;
  }

  /** Text that starts with a minus sign is read as the negated rest. */
  lemma SignedNumeral(m: string)
    requires |m| >= 1 && m[0] == '-'
    ensures ParseInt(m) == Negate(ParseUnsigned(m[1..]))
  {
    assert !IsSpace(m[0]);
    assert TrimStart(m) == m;
  }

  /** `parseInt` reads back what `toString` wrote, for every whole number. */
  lemma ParseIntRoundTrip(n: int)
    ensures ParseInt(IntToString(n)) == Int(n)
  {
    var m := if n < 0 then -n else n;
    DecimalRoundTrip(m);
    if n < 0 {
      var t := IntToString(n);
      assert t[0] == '-' && t[1..] == Decimal(m);
      SignedNumeral(t);
      ParseUnsignedDecimal(Decimal(m));
    } else {
      UnsignedNumeral(Decimal(m));
    }
  }

  /** The bib as the URL builders write it: `bibNo.toString().padStart(6, "0")`. */
  function PaddedBib(bibNo: int): string {
    PadStart(IntToString(bibNo), 6, '0')
  }

  /** For a bib that is not negative the padded bib is all digits, has
      `max(6, digits(bib))` characters (exactly 6 below one million), and
      `parseInt` reads the bib back from it. */
  lemma PaddedBibRoundTrip(bibNo: int)
    requires bibNo >= 0
    ensures IsDigits(PaddedBib(bibNo))
    ensures |PaddedBib(bibNo)| == if |Decimal(bibNo)| >= 6 then |Decimal(bibNo)| else 6
    ensures bibNo < 1000000 ==> |PaddedBib(bibNo)| == 6
    ensures Value(PaddedBib(bibNo), 10) == bibNo
    ensures ParseInt(PaddedBib(bibNo)) == Int(bibNo)
  {
    PaddedBibValue(bibNo);
    UnsignedNumeral(PaddedBib(bibNo));
    if bibNo < 1000000 {
      DecimalLength(bibNo, 6);
    }
  }

  lemma PaddedBibValue(bibNo: int)
    requires bibNo >= 0
    ensures IsDigits(PaddedBib(bibNo))
    ensures Value(PaddedBib(bibNo), 10) == bibNo
  {
    var d := Decimal(bibNo);
    assert IntToString(bibNo) == d;
    PadZerosValue(d, 6);
    DecimalRoundTrip(bibNo);
  }

  /** Padding a numeral with zeros keeps it a numeral of the same value. */
  lemma PadZerosValue(s: string, width: nat)
    requires IsDigits(s)
    ensures IsDigits(PadStart(s, width, '0'))
    ensures Value(PadStart(s, width, '0'), 10) == Value(s, 10)
  {
    var p := PadStart(s, width, '0');
    var z := p[..|p| - |s|];
    assert p == z + s;
    LeadingZerosValue(z, s);
    forall i | 0 <= i < |p| ensures IsDigit(p[i]) {
      assert DigitValue(p[i]) < 10;
    }
  }

  /** Keys JavaScript treats as array indices: canonical decimal numerals
      below 2^32 - 1. `Object.keys` lists these first, in ascending numeric
      order, then the other keys in insertion order. */
  predicate IsArrayIndex(k: string) {
    |k| >= 1 && IsDigits(k) && (k[0] == '0' ==> |k| == 1) && Value(k, 10) < 0xFFFF_FFFF
  }

  function IndexValue(k: string): nat
    requires IsArrayIndex(k)
  {
    Value(k, 10)
  }

  predicate IndexKeys(s: seq<string>) {
    forall i :: 0 <= i < |s| ==> IsArrayIndex(s[i])
  }

  predicate AscendingIndices(s: seq<string>)
    requires IndexKeys(s)
  {
    forall i, j :: 0 <= i < j < |s| ==> IndexValue(s[i]) <= IndexValue(s[j])
  }

  function InsertIndex(k: string, sorted: seq<string>): (r: seq<string>)
    requires IsArrayIndex(k) && IndexKeys(sorted) && AscendingIndices(sorted)
    ensures IndexKeys(r)
    ensures forall x :: x in r ==> x == k || x in sorted
    ensures AscendingIndices(r)
    ensures multiset(r) == multiset(sorted) + multiset{k}
  {
    if sorted == [] then [k]
    else if IndexValue(k) <= IndexValue(sorted[0]) then [k] + sorted
    else
      var rest := InsertIndex(k, sorted[1..]);
      assert sorted == [sorted[0]] + sorted[1..];
      PrependAscending(sorted[0], k, sorted[1..], rest);
      [sorted[0]] + rest
  }

  lemma PrependAscending(h: string, k: string, tail: seq<string>, rest: seq<string>)
    requires IsArrayIndex(h) && IsArrayIndex(k) && IndexKeys(tail) && IndexKeys(rest)
    requires AscendingIndices([h] + tail) && AscendingIndices(rest)
    requires IndexValue(h) <= IndexValue(k)
    requires forall x :: x in rest ==> x == k || x in tail
    ensures IndexKeys([h] + rest) && AscendingIndices([h] + rest)
  {
    var r := [h] + rest;
    forall i, j | 0 <= i < j < |r| ensures IndexValue(r[i]) <= IndexValue(r[j]) {
      if i > 0 {
        assert r[i] == rest[i - 1] && r[j] == rest[j - 1];
      } else {
        assert r[j] == rest[j - 1] && r[j] in rest;
        if r[j] != k {
          var t :| 0 <= t < |tail| && tail[t] == r[j];
          assert ([h] + tail)[t + 1] == r[j] && ([h] + tail)[0] == h;
          assert IndexValue(([h] + tail)[0]) <= IndexValue(([h] + tail)[t + 1]);
        }
      }
    }
  }

  function IndexKeysOf(keys: seq<string>): (r: seq<string>)
    ensures IndexKeys(r)
  {
    if keys == [] then []
    else if IsArrayIndex(keys[|keys| - 1]) then IndexKeysOf(keys[..|keys| - 1]) + [keys[|keys| - 1]]
    else IndexKeysOf(keys[..|keys| - 1])
  }

  function OtherKeysOf(keys: seq<string>): (r: seq<string>)
    ensures forall i :: 0 <= i < |r| ==> !IsArrayIndex(r[i])
  {
    if keys == [] then []
    else if IsArrayIndex(keys[|keys| - 1]) then OtherKeysOf(keys[..|keys| - 1])
    else OtherKeysOf(keys[..|keys| - 1]) + [keys[|keys| - 1]]
  }

  function SortIndices(s: seq<string>): (r: seq<string>)
    requires IndexKeys(s)
    ensures IndexKeys(r) && AscendingIndices(r)
    ensures multiset(r) == multiset(s)
  {
    if s == [] then []
    else
      assert s == s[..|s| - 1] + [s[|s| - 1]];
      InsertIndex(s[|s| - 1], SortIndices(s[..|s| - 1]))
  }

  /** `Object.keys` of an object whose own keys were inserted in the order `keys`. */
  function ObjectKeys(keys: seq<string>): seq<string> {
    SortIndices(IndexKeysOf(keys)) + OtherKeysOf(keys)
  }

  lemma {:induction false} SplitKeys(keys: seq<string>)
    ensures multiset(IndexKeysOf(keys)) + multiset(OtherKeysOf(keys)) == multiset(keys)
  {
    if keys != [] {
      var init, last := keys[..|keys| - 1], keys[|keys| - 1];
      SplitKeys(init);
      assert keys == init + [last];
      assert multiset(keys) == multiset(init) + multiset{last};
      if IsArrayIndex(last) {
        assert multiset(IndexKeysOf(keys)) == multiset(IndexKeysOf(init)) + multiset{last};
      } else {
        assert multiset(OtherKeysOf(keys)) == multiset(OtherKeysOf(init)) + multiset{last};
      }
    }
  }

  /** `Object.keys` lists every key exactly once: the array-index keys first,
      in ascending numeric order, then the others in insertion order. */
  lemma ObjectKeysOrder(keys: seq<string>)
    ensures multiset(ObjectKeys(keys)) == multiset(keys)
    ensures var r := ObjectKeys(keys);
      forall i, j :: 0 <= i < j < |r| && IsArrayIndex(r[j]) ==>
        IsArrayIndex(r[i]) && IndexValue(r[i]) <= IndexValue(r[j])
    ensures OtherKeysOf(ObjectKeys(keys)) == OtherKeysOf(keys)
  {
    var a := SortIndices(IndexKeysOf(keys));
    var b := OtherKeysOf(keys);
    SplitKeys(keys);
    OtherKeysAppend(a, b);
  }

  lemma {:induction false} OtherKeysAppend(a: seq<string>, b: seq<string>)
    requires IndexKeys(a)
    requires forall i :: 0 <= i < |b| ==> !IsArrayIndex(b[i])
    ensures OtherKeysOf(a + b) == b
  {
    if b == [] {
      assert a + b == a;
      NoOtherKeys(a);
    } else {
      var b' := b[..|b| - 1];
      assert (a + b)[..|a + b| - 1] == a + b';
      OtherKeysAppend(a, b');
    }
  }

  lemma {:induction false} NoOtherKeys(a: seq<string>)
    requires IndexKeys(a)
    ensures OtherKeysOf(a) == []
  {
    if a != [] {
      NoOtherKeys(a[..|a| - 1]);
    }
  }
}
