/**
 The streaming decoder.  Bytes arrive in arbitrary chunks; a record ends at a
 line feed and may not exceed a limit.  An over-long record is reported once and
 skipped up to its line feed.
 */
module ConsoleDecoder {
  import opened ConsoleRecord
  import opened LineStream
  import opened Sequences

  datatype Error = RecordTooLong | BadRecord(reason: Reason)

  // ----- what a whole stream means, line by line

  /** The outcome of one complete line of at most `max` bytes. */
  function LineResult(line: string): Extraction {
    Extract(T.TrimSuffix(line, "\r"))
  }

  function LinePayloads(line: string, max: nat): seq<string> {
    if |line| <= max && LineResult(line).Payload? then [LineResult(line).text] else []
  }

  function LineErrors(line: string, max: nat): seq<Error> {
    if |line| > max then [RecordTooLong]
    else if LineResult(line).Malformed? then [BadRecord(LineResult(line).reason)]
    else []
  }

  /** The payloads of all complete lines of a stream. */
  function Payloads(stream: string, max: nat): seq<string> {
    Results(stream, PayloadHandler(max))
  }

  /** The errors of all complete lines, and of an unfinished one that is already too long. */
  function Errors(stream: string, max: nat): seq<Error> {
    Results(stream, ErrorHandler(max)) + if |Unfinished(stream)| > max then [RecordTooLong] else []
  }

  function PayloadHandler(max: nat): string -> seq<string> {
    line => LinePayloads(line, max)
  }

  function ErrorHandler(max: nat): string -> seq<Error> {
    line => LineErrors(line, max)
  }

  /** How one more byte changes the meaning of a stream. */
  lemma NextByte(s: string, x: char, max: nat)
    ensures Unfinished(s + [x]) == if x == LF then "" else Unfinished(s) + [x]
    ensures Payloads(s + [x], max) == Payloads(s, max) + if x == LF then LinePayloads(Unfinished(s), max) else []
    ensures Errors(s + [x], max) == Errors(s, max) +
      if x == LF then (if |Unfinished(s)| > max then [] else LineErrors(Unfinished(s), max))
      else if |Unfinished(s)| == max then [RecordTooLong] else []
  {
    OneMore(s, x, PayloadHandler(max));
    OneMore(s, x, ErrorHandler(max));
    var open, before := Unfinished(s), Results(s, ErrorHandler(max));
    if x == LF && |open| > max {
      assert Errors(s, max) == before + [RecordTooLong] == Errors(s + [x], max);
    } else if |open| <= max {
      assert Errors(s, max) == before;
    }
  }

  /** Payload arrays as texts. */
  ghost function Texts(payloads: seq<array<char>>): seq<string>
    reads payloads
  {
    if payloads == [] then []
    else Texts(payloads[..|payloads| - 1]) + [payloads[|payloads| - 1][..]]
  }

  class Decoder {
    const maxRecordBytes: nat
    const record: array<char>
    var length: nat
    var discarding: bool
    /** Everything fed so far; a flush counts as a line feed. */
    ghost var fed: string

    ghost predicate Valid()
      reads this, record
    {
      && record.Length == maxRecordBytes
      && length <= maxRecordBytes
      && (discarding <==> |Unfinished(fed)| > maxRecordBytes)
      && (discarding ==> length == 0)
      && (!discarding ==> record[..length] == Unfinished(fed))
    }

    constructor (maxRecordBytes: nat)
      requires maxRecordBytes > 0
      ensures Valid() && fed == "" && fresh(record) && this.maxRecordBytes == maxRecordBytes
    {
      this.maxRecordBytes := maxRecordBytes;
      record := new char[maxRecordBytes];
      length, discarding, fed := 0, false, "";
    }

    /** The bytes held back between calls never exceed the limit. */
    function BufferedBytes(): (n: nat)
      requires Valid()
      reads this, record
      ensures n <= maxRecordBytes
      ensures !discarding ==> n == |Unfinished(fed)|
    {
      length
    }

    /** Ends the buffered record; a payload is copied out of the buffer. */
    method FinishRecord() returns (payloads: seq<array<char>>, errors: seq<Error>)
      requires Valid() && !discarding
      modifies this
      ensures length == 0 && !discarding && fed == old(fed)
      ensures Texts(payloads) == LinePayloads(old(Unfinished(fed)), maxRecordBytes)
      ensures errors == LineErrors(old(Unfinished(fed)), maxRecordBytes)
      ensures forall p :: p in payloads ==> fresh(p) && p.Length <= maxRecordBytes
    {
      hide Unfinished, Extract, Results;
      payloads, errors := [], [];
      var line := record[..length];
      length := 0;
      var trimmed := T.TrimSuffix(line, "\r");
      var r := ExtractExtPayload(trimmed);
      match r {
        case Malformed(reason) => errors := [BadRecord(reason)];
        case Unsupported =>
        case Payload(text) =>
          PayloadIsObject(trimmed);
          var payload := new char[|text|](i requires 0 <= i < |text| => text[i]);
          assert payload[..] == text;
          payloads := [payload];
      }
    }

    /** What a line feed does to a record that is not being skipped. */
    method EndLine() returns (payloads: seq<array<char>>, errors: seq<Error>)
      requires Valid() && !discarding
      modifies this
      ensures Valid() && fed == old(fed) + [LF]
      ensures Payloads(fed, maxRecordBytes) == Payloads(old(fed), maxRecordBytes) + Texts(payloads)
      ensures Errors(fed, maxRecordBytes) == Errors(old(fed), maxRecordBytes) + errors
      ensures forall p :: p in payloads ==> fresh(p) && p.Length <= maxRecordBytes
    {
      NextByte(fed, LF, maxRecordBytes);
      payloads, errors := FinishRecord();
      fed := fed + [LF];
    }

    method ConsumeByte(value: char) returns (payloads: seq<array<char>>, errors: seq<Error>)
      requires Valid()
      modifies this, record
      ensures Valid() && fed == old(fed) + [value]
      ensures Payloads(fed, maxRecordBytes) == Payloads(old(fed), maxRecordBytes) + Texts(payloads)
      ensures Errors(fed, maxRecordBytes) == Errors(old(fed), maxRecordBytes) + errors
      ensures forall p :: p in payloads ==> fresh(p) && p.Length <= maxRecordBytes
    {
      payloads, errors := [], [];
      if discarding {
        NextByte(fed, value, maxRecordBytes);
        if value == LF {
          discarding := false;
        }
        fed := fed + [value];
        return;
      }
      if value == LF {
        payloads, errors := EndLine();
        return;
      }
      NextByte(fed, value, maxRecordBytes);
      fed := fed + [value];
      if length >= maxRecordBytes {
        length := 0;
        discarding := true;
        errors := [RecordTooLong];
        return;
      }
      record[length] := value;
      length := length + 1;
    }

    /**
     One chunk.  Together with what came before, it yields exactly what the
     whole stream means, and its payloads are new arrays that no later call can
     change: later calls write to the decoder and its buffer only.
     */
    method Feed(data: string) returns (payloads: seq<array<char>>, errors: seq<Error>)
      requires Valid()
      modifies this, record
      ensures Valid() && fed == old(fed) + data
      ensures Payloads(fed, maxRecordBytes) == Payloads(old(fed), maxRecordBytes) + Texts(payloads)
      ensures Errors(fed, maxRecordBytes) == Errors(old(fed), maxRecordBytes) + errors
      ensures forall p :: p in payloads ==> fresh(p) && p.Length <= maxRecordBytes
    {
      payloads, errors := [], [];
      ghost var ps0, es0 := Payloads(fed, maxRecordBytes), Errors(fed, maxRecordBytes);
      for i := 0 to |data|
        invariant Valid() && fed == old(fed) + data[..i]
        invariant Payloads(fed, maxRecordBytes) == ps0 + Texts(payloads)
        invariant Errors(fed, maxRecordBytes) == es0 + errors
        invariant forall p :: p in payloads ==> fresh(p) && p.Length <= maxRecordBytes
      {
        ghost var before := Texts(payloads);
        var ps, es := ConsumeByte(data[i]);
        TextsConcat(payloads, ps);
        Assoc(ps0, before, Texts(ps));
        Assoc(es0, errors, es);
        payloads, errors := payloads + ps, errors + es;
        TakeOneMore(old(fed), data, i);
      }
    }

    /** A flush does what feeding a single line feed does. */
    method Flush() returns (payloads: seq<array<char>>, errors: seq<Error>)
      requires Valid()
      modifies this, record
      ensures Valid() && fed == old(fed) + [LF]
      ensures Payloads(fed, maxRecordBytes) == Payloads(old(fed), maxRecordBytes) + Texts(payloads)
      ensures Errors(fed, maxRecordBytes) == Errors(old(fed), maxRecordBytes) + errors
      ensures forall p :: p in payloads ==> fresh(p) && p.Length <= maxRecordBytes
    {
      payloads, errors := [], [];
      if discarding {
        SkippedLine(fed, maxRecordBytes);
        discarding := false;
        length := 0;
        fed := fed + [LF];
      } else if length == 0 {
        BlankLine(fed, maxRecordBytes);
        fed := fed + [LF];
      } else {
        payloads, errors := EndLine();
      }
    }
  }

  lemma {:induction false} TextsConcat(a: seq<array<char>>, b: seq<array<char>>)
    ensures Texts(a + b) == Texts(a) + Texts(b)
    decreases |b|
  {
    if b == [] {
      assert a + b == a;
    } else {
      assert (a + b)[..|a + b| - 1] == a + b[..|b| - 1];
      TextsConcat(a, b[..|b| - 1]);
    }
  }

  lemma EmptyLine(max: nat)
    ensures LinePayloads("", max) == [] && LineErrors("", max) == []
  {
    assert T.Trim("") == "";
    assert AfterMarker(TrimCapturePrefix("")) == T.None;
  }

  lemma SkippedLine(s: string, max: nat)
    requires |Unfinished(s)| > max
    ensures Unfinished(s + [LF]) == "" && Payloads(s + [LF], max) == Payloads(s, max) &&
      Errors(s + [LF], max) == Errors(s, max)
  {
    NextByte(s, LF, max);
    assert Payloads(s, max) + [] == Payloads(s, max) && Errors(s, max) + [] == Errors(s, max);
  }

  lemma BlankLine(s: string, max: nat)
    requires Unfinished(s) == ""
    ensures Unfinished(s + [LF]) == "" && Payloads(s + [LF], max) == Payloads(s, max) &&
      Errors(s + [LF], max) == Errors(s, max)
  {
    NextByte(s, LF, max);
    EmptyLine(max);
    assert Payloads(s, max) + [] == Payloads(s, max) && Errors(s, max) + [] == Errors(s, max);
  }

  // ----- independence of the chunking

  function Join(chunks: seq<string>): string {
    if chunks == [] then "" else Join(chunks[..|chunks| - 1]) + chunks[|chunks| - 1]
  }

  lemma JoinMore(chunks: seq<string>, k: nat)
    requires k < |chunks|
    ensures Join(chunks[..k + 1]) == Join(chunks[..k]) + chunks[k]
  {
    assert chunks[..k + 1][..k] == chunks[..k];
  }

  lemma NothingYet(max: nat)
    ensures Payloads("", max) == [] && Errors("", max) == []
  {
    NoLine("", PayloadHandler(max));
    NoLine("", ErrorHandler(max));
  }

  /** The payloads and errors so far are those of the stream so far, and none lives in the decoder's buffer. */
  ghost predicate Collected(d: Decoder, payloads: seq<array<char>>, errors: seq<Error>)
    reads d, d.record, payloads
  {
    && d.Valid() && d.record !in payloads
    && Texts(payloads) == Payloads(d.fed, d.maxRecordBytes) && errors == Errors(d.fed, d.maxRecordBytes)
  }

  method FeedNext(d: Decoder, payloads: seq<array<char>>, errors: seq<Error>, chunk: string)
    returns (payloads': seq<array<char>>, errors': seq<Error>)
    requires Collected(d, payloads, errors)
    modifies d, d.record
    ensures Collected(d, payloads', errors') && d.fed == old(d.fed) + chunk
    ensures payloads <= payloads' && forall p :: p in payloads'[|payloads|..] ==> fresh(p)
  {
    ghost var before := Texts(payloads);
    var ps, es := d.Feed(chunk);
    assert Texts(payloads) == before;
    TextsConcat(payloads, ps);
    payloads', errors' := payloads + ps, errors + es;
    assert payloads'[|payloads|..] == ps;
  }

  /**
   However a stream is cut into chunks, the calls together yield what the whole
   stream means; and all payloads can be read at the end, the first ones included:
   no later call has changed them.
   */
  method FeedAll(d: Decoder, chunks: seq<string>) returns (payloads: seq<array<char>>, errors: seq<Error>)
    requires d.Valid() && d.fed == ""
    modifies d, d.record
    ensures d.Valid() && d.fed == Join(chunks)
    ensures Texts(payloads) == Payloads(Join(chunks), d.maxRecordBytes)
    ensures errors == Errors(Join(chunks), d.maxRecordBytes)
  {
    payloads, errors := [], [];
    NothingYet(d.maxRecordBytes);
    for k := 0 to |chunks|
      invariant Collected(d, payloads, errors) && d.fed == Join(chunks[..k])
    {
      JoinMore(chunks, k);
      payloads, errors := FeedNext(d, payloads, errors, chunks[k]);
    }
    assert chunks[..|chunks|] == chunks;
  }

  lemma FirstLineHandled(line: string, rest: string, max: nat)
    requires LF !in line
    ensures Payloads(line + [LF] + rest, max) == PayloadHandler(max)(line) + Payloads(rest, max)
    ensures Errors(line + [LF] + rest, max) == ErrorHandler(max)(line) + Errors(rest, max)
  {
    FirstLine(line, rest, PayloadHandler(max));
    FirstLine(line, rest, ErrorHandler(max));
    Assoc(ErrorHandler(max)(line), Results(rest, ErrorHandler(max)),
          if |Unfinished(rest)| > max then [RecordTooLong] else []);
  }

  /**
   The lines of a stream are handled independently.  An over-long one costs one error;
   any other yields its payload, or its error, or nothing.
   */
  lemma LineByLine(line: string, rest: string, max: nat)
    requires LF !in line
    ensures Payloads(line + [LF] + rest, max) == LinePayloads(line, max) + Payloads(rest, max)
    ensures Errors(line + [LF] + rest, max) == LineErrors(line, max) + Errors(rest, max)
    ensures |line| > max ==> LinePayloads(line, max) == [] && LineErrors(line, max) == [RecordTooLong]
    ensures |line| <= max ==>
      match Extract(T.TrimSuffix(line, "\r"))
      case Payload(t) => LinePayloads(line, max) == [t] && LineErrors(line, max) == []
      case Malformed(reason) => LinePayloads(line, max) == [] && LineErrors(line, max) == [BadRecord(reason)]
      case Unsupported => LinePayloads(line, max) == [] && LineErrors(line, max) == []
  {
    FirstLineHandled(line, rest, max);
    assert PayloadHandler(max)(line) == LinePayloads(line, max);
    assert ErrorHandler(max)(line) == LineErrors(line, max);
  }

  // ----- ordinary console lines

  /** A line within the limit and without a marker behind its capture time. */
  predicate Ordinary(line: string, max: nat) {
    var bare := Bare(T.TrimSuffix(line, "\r"));
    LF !in line && |line| <= max && !("[EXT] Tele-Out: " <= bare) && !("[EXT] Out: " <= bare)
  }

  /** Wherever it stands in the stream, such a line yields nothing. */
  lemma OrdinaryLineIsSilent(before: string, line: string, rest: string, max: nat)
    requires Unfinished(before) == "" && Ordinary(line, max)
    ensures Payloads(before + (line + [LF] + rest), max) == Payloads(before + rest, max)
    ensures Errors(before + (line + [LF] + rest), max) == Errors(before + rest, max)
  {
    hide Results, Unfinished, Extract, Bare;
    UnsupportedIff(T.TrimSuffix(line, "\r"));
    FirstLine(line, rest, PayloadHandler(max));
    FirstLine(line, rest, ErrorHandler(max));
    AfterLines(before, line + [LF] + rest, PayloadHandler(max));
    AfterLines(before, line + [LF] + rest, ErrorHandler(max));
    AfterLines(before, rest, PayloadHandler(max));
    AfterLines(before, rest, ErrorHandler(max));
    assert LinePayloads(line, max) == [] && LineErrors(line, max) == [];
  }

  function JoinLines(lines: seq<string>): string {
    if lines == [] then "" else lines[0] + [LF] + JoinLines(lines[1..])
  }

  lemma {:induction false} OrdinaryLinesAreSilent(lines: seq<string>, max: nat)
    requires forall i :: 0 <= i < |lines| ==> Ordinary(lines[i], max)
    ensures Payloads(JoinLines(lines), max) == [] && Errors(JoinLines(lines), max) == []
  {
    NothingYet(max);
    if lines != [] {
      OrdinaryLinesAreSilent(lines[1..], max);
      NoLine("", PayloadHandler(max));
      OrdinaryLineIsSilent("", lines[0], JoinLines(lines[1..]), max);
      assert "" + JoinLines(lines) == JoinLines(lines) && "" + JoinLines(lines[1..]) == JoinLines(lines[1..]);
    }
  }

  /** Ordinary lines, however they are cut into chunks, yield neither payloads nor errors. */
  method FeedOrdinary(d: Decoder, chunks: seq<string>, ghost lines: seq<string>)
    returns (payloads: seq<array<char>>, errors: seq<Error>)
    requires d.Valid() && d.fed == "" && Join(chunks) == JoinLines(lines)
    requires forall i :: 0 <= i < |lines| ==> Ordinary(lines[i], d.maxRecordBytes)
    modifies d, d.record
    ensures d.Valid() && payloads == [] && errors == []
  {
    payloads, errors := FeedAll(d, chunks);
    OrdinaryLinesAreSilent(lines, d.maxRecordBytes);
  }
}
