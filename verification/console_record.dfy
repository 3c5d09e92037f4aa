/**
 One console record: an optional capture time, a marker, and somewhere behind
 it the JSON object that is the payload.
 */
module ConsoleRecord {
  import T = Text
  import opened ObjectText
  import opened JsonText
  import opened Sequences

  datatype Reason = MissingObject | IncompleteObject

  datatype Extraction = Unsupported | Malformed(reason: Reason) | Payload(text: string)

  const TELE_MARKER := "[EXT] Tele-Out: "
  const OUT_MARKER := "[EXT] Out: "

  predicate IsCaptureTime(value: string) {
    && |value| == 8
    && value[2] == ':' && value[5] == ':'
    && forall i :: 0 <= i < 8 && i != 2 && i != 5 ==> T.IsDigit(value[i])
  }

  function TrimCapturePrefix(record: string): string {
    if |record| < 10 || record[0] != '[' then record
    else
      var closeIndex := T.IndexOf(record, ']');
      if closeIndex != 9 || !IsCaptureTime(record[1..closeIndex]) then record
      else T.Trim(record[closeIndex + 1..])
  }

  function AfterMarker(record: string): T.Option<string> {
    if T.HasPrefix(record, TELE_MARKER) then T.Some(record[|TELE_MARKER|..])
    else if T.HasPrefix(record, OUT_MARKER) then T.Some(record[|OUT_MARKER|..])
    else T.None
  }

  function FirstObject(body: string): Extraction {
    var start := T.IndexOf(body, '{');
    if start < 0 then Malformed(MissingObject)
    else
      var n := Scan(body[start..], 0, false, false);
      if n < 0 then Malformed(IncompleteObject) else Payload(body[start..start + n])
  }

  function Extract(record: string): Extraction {
    match AfterMarker(TrimCapturePrefix(T.Trim(record)))
    case None => Unsupported
    case Some(body) => FirstObject(body)
  }

  /** The first marker that the record starts with, or -1. */
  method MarkerOf(record: string, markers: seq<string>) returns (j: int)
    ensures -1 <= j < |markers|
    ensures j >= 0 ==> T.HasPrefix(record, markers[j])
    ensures forall i :: 0 <= i < (if j < 0 then |markers| else j) ==> !T.HasPrefix(record, markers[i])
  {
    for i := 0 to |markers|
      invariant forall k :: 0 <= k < i ==> !T.HasPrefix(record, markers[k])
    {
      if T.HasPrefix(record, markers[i]) {
        return i;
      }
    }
    return -1;
  }

  method ExtractExtPayload(input: string) returns (r: Extraction)
    ensures r == Extract(input)
  {
    var record := TrimCapturePrefix(T.Trim(input));
    var markers := [TELE_MARKER, OUT_MARKER];
    var j := MarkerOf(record, markers);
    MarkerDecides(record, markers, j);
    if j < 0 {
      return Unsupported;
    }
    r := PayloadOf(record[|markers[j]|..]);
  }

  lemma MarkerDecides(record: string, markers: seq<string>, j: int)
    requires markers == [TELE_MARKER, OUT_MARKER] && -1 <= j < 2
    requires j >= 0 ==> T.HasPrefix(record, markers[j])
    requires forall i :: 0 <= i < (if j < 0 then 2 else j) ==> !T.HasPrefix(record, markers[i])
    ensures AfterMarker(record) == if j < 0 then T.None else T.Some(record[|markers[j]|..])
  {
    assert markers[0] == TELE_MARKER && markers[1] == OUT_MARKER;
  }

  /** The object at the first brace. */
  method PayloadOf(body: string) returns (r: Extraction)
    ensures r == FirstObject(body)
  {
    var start := T.IndexOf(body, '{');
    if start < 0 {
      return Malformed(MissingObject);
    }
    var end, ok := MatchingObjectEnd(body[start..]);
    if !ok {
      return Malformed(IncompleteObject);
    }
    return Payload(body[start..start + end]);
  }

  // ----- extraction is exact

  predicate AllSpace(s: string) {
    forall i :: 0 <= i < |s| ==> T.IsSpace(s[i])
  }

  predicate IsMarker(s: string) {
    s == TELE_MARKER || s == OUT_MARKER
  }

  lemma {:induction false} TrimRightAfter(x: string, tail: string)
    requires x != "" && !T.IsSpace(x[|x| - 1])
    ensures T.TrimRight(x + tail) == x + T.TrimRight(tail)
    decreases |tail|
  {
    if tail == "" {
      assert x + tail == x;
    } else if T.IsSpace(tail[|tail| - 1]) {
      assert (x + tail)[..|x + tail| - 1] == x + tail[..|tail| - 1];
      TrimRightAfter(x, tail[..|tail| - 1]);
    }
  }

  lemma {:induction false} TrimLeftBefore(lead: string, y: string)
    requires AllSpace(lead) && y != "" && !T.IsSpace(y[0])
    ensures T.TrimLeft(lead + y) == y
    decreases |lead|
  {
    if lead == "" {
      assert lead + y == y;
    } else {
      assert (lead + y)[1..] == lead[1..] + y;
      TrimLeftBefore(lead[1..], y);
    }
  }

  /** Trimming eats only the spaces before `x` and the trailing spaces of `tail`. */
  lemma TrimAround(lead: string, x: string, tail: string)
    requires AllSpace(lead) && x != "" && !T.IsSpace(x[0]) && !T.IsSpace(x[|x| - 1])
    ensures T.Trim(lead + (x + tail)) == x + T.TrimRight(tail)
  {
    TrimLeftBefore(lead, x + tail);
    TrimRightAfter(x, tail);
  }

  lemma NoCaptureTime(record: string)
    requires |record| > 4 && record[..5] == "[EXT]"
    ensures TrimCapturePrefix(record) == record
  {
    T.IndexOfFirst("[EXT", ']', record[5..]);
    assert record == "[EXT" + "]" + record[5..];
  }

  lemma CaptureTimeCut(time: string, rest: string)
    requires IsCaptureTime(time)
    ensures TrimCapturePrefix("[" + time + "]" + rest) == T.Trim(rest)
  {
    var record := "[" + time + "]" + rest;
    assert ']' !in time;
    T.IndexOfFirst("[" + time, ']', rest);
    assert record[1..9] == time;
    assert record[10..] == rest;
  }

  lemma ObjectEnds(t: string)
    requires IsObject(t)
    ensures |t| >= 2 && t[0] == '{' && t[|t| - 1] == '}'
  {
    var body :| Wf(body) && t == "{" + Text(body) + "}";
  }

  /** The scanner cuts an object text out of whatever follows it. */
  lemma ScanObject(t: string, tail: string)
    requires IsObject(t)
    ensures Scan(t + tail, 0, false, false) == |t|
  {
    ObjectEnds(t);
    assert (t + tail)[..|t|] == t;
    BalancedFromBrace(t);
    ScanExact(t + tail, |t|);
  }

  lemma DropFront(noise: string, data: string)
    ensures (noise + data)[|noise|..] == data
  {}

  lemma FromFirstBrace(noise: string, data: string)
    requires '{' !in noise && data != "" && data[0] == '{'
    ensures T.IndexOf(noise + data, '{') == |noise|
  {
    T.IndexOfFirst(noise, '{', data[1..]);
    Assoc(noise, ['{'], data[1..]);
    assert ['{'] + data[1..] == data;
  }

  lemma Within(noise: string, data: string, n: nat)
    requires n <= |data|
    ensures (noise + data)[|noise|..|noise| + n] == data[..n]
  {}

  /** What `FirstObject` finds from the first opening brace on. */
  lemma FirstObjectAt(noise: string, data: string)
    requires '{' !in noise && data != "" && data[0] == '{'
    ensures var n := Scan(data, 0, false, false);
      FirstObject(noise + data) == if n < 0 then Malformed(IncompleteObject) else Payload(data[..n])
  {
    FromFirstBrace(noise, data);
    DropFront(noise, data);
    var n := Scan(data, 0, false, false);
    if n >= 0 {
      Within(noise, data, n);
    }
  }

  lemma FirstObjectExact(noise: string, t: string, tail: string)
    requires '{' !in noise && IsObject(t)
    ensures FirstObject(noise + (t + tail)) == Payload(t)
  {
    ObjectEnds(t);
    ScanObject(t, tail);
    FirstObjectAt(noise, t + tail);
    assert (t + tail)[..|t|] == t;
  }

  lemma MarkerCut(marker: string, body: string)
    requires IsMarker(marker)
    ensures AfterMarker(marker + body) == T.Some(body)
    ensures (marker + body)[..5] == "[EXT]"
  {
    var r := marker + body;
    assert r[..|marker|] == marker && r[|marker|..] == body;
    assert r[6] == marker[6];
    assert T.HasPrefix(r, TELE_MARKER) ==> r[6] == TELE_MARKER[6];
    assert r[..5] == marker[..5];
  }

  lemma Regrouped(a: string, b: string, c: string, d: string)
    ensures a + (b + c) + d == a + (b + (c + d))
  {}

  lemma MarkedExact(marker: string, noise: string, t: string, tail: string)
    requires IsMarker(marker) && '{' !in noise && IsObject(t)
    ensures AfterMarker(marker + (noise + t) + tail) == T.Some(noise + (t + tail))
    ensures FirstObject(noise + (t + tail)) == Payload(t)
  {
    Regrouped(marker, noise, t, tail);
    MarkerCut(marker, noise + (t + tail));
    FirstObjectExact(noise, t, tail);
  }

  lemma MarkedEnds(marker: string, noise: string, t: string)
    requires IsMarker(marker) && IsObject(t)
    ensures var y := marker + (noise + t); y != "" && y[0] == '[' && y[|y| - 1] == '}'
  {
    ObjectEnds(t);
  }

  /** What is left after trimming decides. */
  lemma ExtractMarked(record: string, marker: string, noise: string, t: string, tail: string)
    requires IsMarker(marker) && '{' !in noise && IsObject(t)
    requires TrimCapturePrefix(T.Trim(record)) == marker + (noise + t) + tail
    ensures Extract(record) == Payload(t)
  {
    MarkedExact(marker, noise, t, tail);
  }

  lemma MarkedIsUntimed(marker: string, noise: string, t: string, rest: string)
    requires IsMarker(marker)
    ensures TrimCapturePrefix(marker + (noise + t) + rest) == marker + (noise + t) + rest
  {
    assert marker + (noise + t) + rest == marker + ((noise + t) + rest);
    MarkerCut(marker, (noise + t) + rest);
    NoCaptureTime(marker + (noise + t) + rest);
  }

  /**
   Extraction is exact: spaces, then a marker, then text without an opening
   brace, then an object text T, then anything, yields T itself.
   */
  lemma ExtractExact(lead: string, marker: string, noise: string, t: string, tail: string)
    requires AllSpace(lead) && IsMarker(marker) && '{' !in noise && IsObject(t)
    ensures Extract(lead + (marker + (noise + t) + tail)) == Payload(t)
  {
    var rest := T.TrimRight(tail);
    MarkedEnds(marker, noise, t);
    TrimAround(lead, marker + (noise + t), tail);
    MarkedIsUntimed(marker, noise, t, rest);
    ExtractMarked(lead + (marker + (noise + t) + tail), marker, noise, t, rest);
  }

  lemma TimedEnds(time: string, gap: string, y: string)
    requires y != ""
    ensures var x := "[" + time + "]" + (gap + y); x != "" && x[0] == '[' && x[|x| - 1] == y[|y| - 1]
  {}

  /** Trimming a timed record and cutting its time leaves the marked part. */
  lemma TimedCut(lead: string, time: string, gap: string, y: string, tail: string)
    requires AllSpace(lead) && IsCaptureTime(time) && AllSpace(gap)
    requires y != "" && !T.IsSpace(y[0]) && !T.IsSpace(y[|y| - 1])
    ensures TrimCapturePrefix(T.Trim(lead + ("[" + time + "]" + (gap + y) + tail))) ==
      y + T.TrimRight(T.TrimRight(tail))
  {
    var rest := T.TrimRight(tail);
    TimedEnds(time, gap, y);
    TrimAround(lead, "[" + time + "]" + (gap + y), tail);
    Regrouped("[" + time + "]", gap, y, rest);
    CaptureTimeCut(time, gap + (y + rest));
    TrimAround(gap, y, rest);
  }

  /** The same behind a capture time such as `[12:34:56]`. */
  lemma ExtractExactTimed(lead: string, time: string, gap: string, marker: string, noise: string, t: string,
                          tail: string)
    requires AllSpace(lead) && IsCaptureTime(time) && AllSpace(gap)
    requires IsMarker(marker) && '{' !in noise && IsObject(t)
    ensures Extract(lead + ("[" + time + "]" + (gap + (marker + (noise + t))) + tail)) == Payload(t)
  {
    var y := marker + (noise + t);
    MarkedEnds(marker, noise, t);
    TimedCut(lead, time, gap, y, tail);
    ExtractMarked(lead + ("[" + time + "]" + (gap + y) + tail), marker, noise, t, T.TrimRight(T.TrimRight(tail)));
  }

  /** In particular for every JSON object, whatever is nested or quoted in it. */
  lemma ExtractJsonObject(lead: string, marker: string, noise: string, v: Json, tail: string)
    requires AllSpace(lead) && IsMarker(marker) && '{' !in noise && v.Obj? && WfJson(v)
    ensures Extract(lead + (marker + (noise + JsonString(v)) + tail)) == Payload(JsonString(v))
  {
    JsonBody(v);
    ExtractExact(lead, marker, noise, JsonString(v), tail);
  }

  /** At an opening brace the scanner finds the object text there, or there is none. */
  lemma ScanAtBrace(data: string)
    requires data != "" && data[0] == '{'
    ensures var n := Scan(data, 0, false, false);
      if n >= 0 then IsObject(data[..n]) else forall k :: 0 < k <= |data| ==> !IsObject(data[..k])
  {
    forall k | 0 < k <= |data| ensures Scan(data, 0, false, false) == k <==> IsObject(data[..k]) {
      ScanExact(data, k);
      BalancedFromBrace(data[..k]);
    }
  }

  lemma ObjectAtBrace(noise: string, data: string)
    requires '{' !in noise && data != "" && data[0] == '{'
    ensures match FirstObject(noise + data)
      case Payload(t) => IsObject(t) && t <= data
      case Malformed(IncompleteObject) => forall k :: 0 < k <= |data| ==> !IsObject(data[..k])
      case _ => false
  {
    hide FirstObject, Scan, IsObject;
    FirstObjectAt(noise, data);
    ScanAtBrace(data);
  }

  /**
   What a marked record yields: the object text at its first opening brace, or
   an error precisely when there is no brace, or no object text begins there.
   */
  lemma FirstObjectMeaning(body: string)
    ensures var start := T.IndexOf(body, '{');
      match FirstObject(body)
      case Payload(t) => start >= 0 && IsObject(t) && t <= body[start..]
      case Malformed(MissingObject) => '{' !in body
      case Malformed(IncompleteObject) =>
        start >= 0 && forall k :: 0 < k <= |body| - start ==> !IsObject(body[start..][..k])
      case Unsupported => false
  {
    var start := T.IndexOf(body, '{');
    assert start < 0 ==> FirstObject(body) == Malformed(MissingObject);
    hide FirstObject, IsObject, T.IndexOf;
    if start >= 0 {
      assert body == body[..start] + body[start..];
      ObjectAtBrace(body[..start], body[start..]);
    }
  }

  lemma TrimShorter(s: string)
    ensures |T.Trim(s)| <= |s|
  {
    var i, j := T.TrimIsSlice(s);
  }

  /** Conversely a payload is always one whole object text, no longer than its record. */
  lemma PayloadIsObject(record: string)
    requires Extract(record).Payload?
    ensures IsObject(Extract(record).text)
    ensures |Extract(record).text| <= |record|
  {
    var trimmed := T.Trim(record);
    var cut := TrimCapturePrefix(trimmed);
    TrimShorter(record);
    if |trimmed| >= 10 {
      TrimShorter(trimmed[10..]);
    }
    FirstObjectMeaning(AfterMarker(cut).value);
  }

  /** Behind its capture time the record is a marker, text without an opening brace, `t`, and anything. */
  ghost predicate Carries(record: string, t: string, marker: string, noise: string, tail: string) {
    && IsMarker(marker) && '{' !in noise
    && TrimCapturePrefix(T.Trim(record)) == marker + (noise + t) + tail
  }

  lemma SplitAtObject(body: string) returns (noise: string, tail: string)
    requires FirstObject(body).Payload?
    ensures '{' !in noise && body == noise + (FirstObject(body).text + tail)
  {
    hide FirstObject, IsObject, T.IndexOf;
    FirstObjectMeaning(body);
    var start := T.IndexOf(body, '{');
    var rest, t := body[start..], FirstObject(body).text;
    noise, tail := body[..start], rest[|t|..];
    assert rest == t + tail;
  }

  lemma SplitAtMarker(record: string) returns (marker: string, body: string)
    requires AfterMarker(record).Some?
    ensures IsMarker(marker) && AfterMarker(record) == T.Some(body) && record == marker + body
  {
    marker := if T.HasPrefix(record, TELE_MARKER) then TELE_MARKER else OUT_MARKER;
    body := record[|marker|..];
    assert record[..|marker|] == marker;
  }

  /** Extraction yields `t` if and only if the record carries `t` and `t` is an object text. */
  lemma ExtractIff(record: string, t: string)
    ensures Extract(record) == Payload(t) <==>
      IsObject(t) && exists marker, noise, tail :: Carries(record, t, marker, noise, tail)
  {
    if Extract(record) == Payload(t) {
      PayloadIsObject(record);
      var marker, body := SplitAtMarker(TrimCapturePrefix(T.Trim(record)));
      var noise, tail := SplitAtObject(body);
      Regrouped(marker, noise, t, tail);
      assert Carries(record, t, marker, noise, tail);
    }
    if IsObject(t) && exists marker, noise, tail :: Carries(record, t, marker, noise, tail) {
      var marker, noise, tail :| Carries(record, t, marker, noise, tail);
      ExtractMarked(record, marker, noise, t, tail);
    }
  }

  // ----- the other outcomes

  /** A record without its outer space and its capture time. */
  function Bare(record: string): string {
    TrimCapturePrefix(T.Trim(record))
  }

  /** No result at all: no marker. */
  lemma UnsupportedIff(record: string)
    ensures Extract(record) == Unsupported <==>
      !("[EXT] Tele-Out: " <= Bare(record)) && !("[EXT] Out: " <= Bare(record))
  {}

  /** A marker and text without an opening brace. */
  ghost predicate Braceless(line: string, marker: string, body: string) {
    IsMarker(marker) && '{' !in body && line == marker + body
  }

  lemma MissingIff(record: string)
    ensures Extract(record) == Malformed(MissingObject) <==>
      exists marker, body :: Braceless(Bare(record), marker, body)
  {
    if Extract(record) == Malformed(MissingObject) {
      var marker, body := SplitAtMarker(Bare(record));
      FirstObjectMeaning(body);
      assert Braceless(Bare(record), marker, body);
    }
    if marker, body :| Braceless(Bare(record), marker, body) {
      MarkerCut(marker, body);
      FirstObjectMeaning(body);
    }
  }

  /** A marker, text without an opening brace, and a rest from a brace on that starts with no object. */
  ghost predicate CutShort(line: string, marker: string, noise: string, rest: string) {
    && IsMarker(marker) && '{' !in noise && rest != "" && rest[0] == '{'
    && line == marker + (noise + rest)
    && forall k :: 0 < k <= |rest| ==> !IsObject(rest[..k])
  }

  lemma IncompleteIff(record: string)
    ensures Extract(record) == Malformed(IncompleteObject) <==>
      exists marker, noise, rest :: CutShort(Bare(record), marker, noise, rest)
  {
    hide FirstObject, Scan, IsObject, TrimCapturePrefix, T.IndexOf, T.Trim;
    if Extract(record) == Malformed(IncompleteObject) {
      var marker, body := SplitAtMarker(Bare(record));
      FirstObjectMeaning(body);
      var start := T.IndexOf(body, '{');
      assert body == body[..start] + body[start..];
      assert CutShort(Bare(record), marker, body[..start], body[start..]);
    }
    if marker, noise, rest :| CutShort(Bare(record), marker, noise, rest) {
      MarkerCut(marker, noise + rest);
      FirstObjectAt(noise, rest);
      ScanAtBrace(rest);
    }
  }

  // ----- capture times

  predicate ClockReading(t: string, a: char, b: char, c: char, d: char, e: char, f: char) {
    && t == [a, b, ':', c, d, ':', e, f]
    && '0' <= a <= '9' && '0' <= b <= '9' && '0' <= c <= '9' && '0' <= d <= '9' && '0' <= e <= '9' && '0' <= f <= '9'
  }

  lemma CaptureTimeIff(t: string)
    ensures IsCaptureTime(t) <==> exists a, b, c, d, e, f :: ClockReading(t, a, b, c, d, e, f)
  {
    if IsCaptureTime(t) {
      assert ClockReading(t, t[0], t[1], t[3], t[4], t[6], t[7]);
    }
  }

  predicate Timed(record: string, time: string, rest: string) {
    IsCaptureTime(time) && record == "[" + time + "]" + rest
  }

  /** A capture time in brackets is cut off with the space behind it, and nothing else is. */
  lemma CaptureTimeMeaning(record: string)
    ensures forall time, rest :: Timed(record, time, rest) ==> TrimCapturePrefix(record) == T.Trim(rest)
    ensures (forall time, rest :: !Timed(record, time, rest)) ==> TrimCapturePrefix(record) == record
  {
    forall time, rest | Timed(record, time, rest) ensures TrimCapturePrefix(record) == T.Trim(rest) {
      CaptureTimeCut(time, rest);
    }
    if TrimCapturePrefix(record) != record {
      var time, rest := record[1..9], record[10..];
      assert record == "[" + time + "]" + rest;
      assert Timed(record, time, rest);
    }
  }
}
