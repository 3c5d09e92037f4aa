/**
 The compressing response writer.  It holds back what a handler writes until it
 can decide between gzip and plain forwarding, and must be transparent: the
 client gets the handler's bytes.  Gzip is an abstract lossless stream.
 */
module CompressedResponse {
  import opened Text
  import opened Sequences

  /** The header fields the writer looks at or changes. */
  datatype Headers = Headers(
    contentEncoding: string,
    contentRange: string,
    contentType: string,
    contentLength: Option<nat>,
    vary: string)

  /** What goes down the connection behind the header: plain bytes, or pieces of one gzip stream. */
  datatype Wire = Raw(bytes: string) | Gz(bytes: string) | GzEnd

  datatype Sent = Sent(status: int, headers: Headers)

  datatype State = Undecided | Compressing | Bypassed

  type Detector = string -> string

  // ----- eligibility

  const COMPRESSIBLE_PREFIXES: seq<string> := [
    "text/",
    "application/json",
    "application/javascript",
    "application/x-javascript",
    "application/xml",
    "application/xhtml+xml",
    "application/atom+xml",
    "application/rss+xml",
    "image/svg+xml"]

  function LowerChar(c: char): char {
    if 'A' <= c <= 'Z' then (c as int + 32) as char else c
  }

  function Lower(s: string): string {
    seq(|s|, i requires 0 <= i < |s| => LowerChar(s[i]))
  }

  predicate HasAnyPrefix(s: string, prefixes: seq<string>) {
    prefixes != [] && (HasPrefix(s, prefixes[0]) || HasAnyPrefix(s, prefixes[1..]))
  }

  predicate Contains(s: string, part: string) {
    exists i :: 0 <= i <= |s| && HasPrefix(s[i..], part)
  }

  predicate IsCompressible(contentType: string) {
    var ct := Lower(Trim(Before(contentType, ';')));
    ct != "" && HasAnyPrefix(ct, COMPRESSIBLE_PREFIXES)
  }

  /** The content type the decision uses: the declared one, or a guess from the bytes. */
  function TypeOf(h: Headers, buf: string, detect: Detector): string {
    if h.contentType == "" && |buf| > 0 then detect(buf) else h.contentType
  }

  predicate Eligible(h: Headers, buf: string, detect: Detector) {
    && h.contentEncoding == "" && h.contentRange == ""
    && !Contains(Lower(TypeOf(h, buf, detect)), "text/event-stream")
    && IsCompressible(TypeOf(h, buf, detect))
  }

  predicate HasToken(list: string, value: string)
    decreases |list|
  {
    var head := Before(list, ',');
    Lower(Trim(head)) == Lower(value) ||
    (|head| < |list| && HasToken(list[|head| + 1..], value))
  }

  function AddVary(vary: string, value: string): string {
    if vary == "" then value else if HasToken(vary, value) then vary else vary + ", " + value
  }

  /** The header of a compressed response. */
  function GzipHeaders(h: Headers, buf: string, detect: Detector): Headers {
    Headers("gzip", h.contentRange, TypeOf(h, buf, detect), None, AddVary(h.vary, "Accept-Encoding"))
  }

  /** The header with which a response goes out whose bytes reached the threshold. */
  function DecidedHeaders(h: Headers, buf: string, detect: Detector): Headers {
    if Eligible(h, buf, detect) then GzipHeaders(h, buf, detect)
    else if h.contentEncoding != "" || h.contentRange != "" then h
    else h.(contentType := TypeOf(h, buf, detect))
  }

  // ----- the client's view

  function Plain(wire: seq<Wire>): string {
    if wire == [] then ""
    else Plain(wire[..|wire| - 1]) + if wire[|wire| - 1].GzEnd? then "" else wire[|wire| - 1].bytes
  }

  predicate AllRaw(wire: seq<Wire>) {
    forall i :: 0 <= i < |wire| ==> wire[i].Raw?
  }

  predicate AllGz(wire: seq<Wire>) {
    forall i :: 0 <= i < |wire| ==> wire[i].Gz?
  }

  predicate IsGzip(wire: seq<Wire>) {
    wire != [] && wire[|wire| - 1] == GzEnd && AllGz(wire[..|wire| - 1])
  }

  /** The body a client reads: plain bytes as they are, a finished gzip stream unpacked, nothing else. */
  function Decode(wire: seq<Wire>): Option<string> {
    if AllRaw(wire) || IsGzip(wire) then Some(Plain(wire)) else None
  }

  lemma PlainNext(wire: seq<Wire>, w: Wire)
    ensures Plain(wire + [w]) == Plain(wire) + if w.GzEnd? then "" else w.bytes
  {
    assert (wire + [w])[..|wire|] == wire;
  }

  lemma PlainFirst(b: string)
    ensures Plain([] + [Raw(b)]) == b && "" + Plain([] + [Raw(b)]) == b
  {
    PlainNext([], Raw(b));
    assert Plain([]) + b == b;
  }

  /** Statuses that forbid a body. */
  predicate IsBodyless(code: int) {
    code == 204 || code == 304 || code < 200
  }

  function StatusOrOk(code: int): int {
    if code == 0 then 200 else code
  }

  // ----- the writer

  class Writer {
    const minimumSize: nat
    const detect: Detector
    var headers: Headers
    var sent: seq<Sent>
    var wire: seq<Wire>
    var buf: string
    var statusCode: int
    var state: State
    /** The open gzip writer with what it has not passed on yet. */
    var gz: Option<string>
    var headerForwarded: bool
    ghost var written: string

    ghost predicate Valid()
      reads this
    {
      && minimumSize > 0
      && (headerForwarded <==> state != Undecided)
      && |sent| == (if headerForwarded then 1 else 0)
      && match state
         case Undecided => wire == [] && gz == None && |buf| < minimumSize && written == buf
         case Bypassed => AllRaw(wire) && gz == None && written == buf + Plain(wire)
         case Compressing => AllGz(wire) && gz.Some? && buf == "" && written == Plain(wire) + gz.value
    }

    /** The decision was taken on `bytes`, with `h` as the header and `code` as the status. */
    ghost predicate DecidedOn(h: Headers, code: int, bytes: string)
      reads this
    {
      && state != Undecided && buf == ""
      && (state == Compressing <==> Eligible(h, bytes, detect))
      && sent == [Sent(StatusOrOk(code), DecidedHeaders(h, bytes, detect))]
    }

    constructor (minimumSize: nat, detect: Detector, headers: Headers)
      requires minimumSize > 0
      ensures Valid() && state == Undecided && written == "" && statusCode == 0
      ensures this.minimumSize == minimumSize && this.detect == detect && this.headers == headers
    {
      this.minimumSize, this.detect, this.headers := minimumSize, detect, headers;
      sent, wire, buf, statusCode, state, gz, headerForwarded := [], [], "", 0, Undecided, None, false;
      written := "";
    }

    method ForwardHeader()
      modifies this`sent, this`statusCode, this`headerForwarded
      ensures statusCode == StatusOrOk(old(statusCode)) && headerForwarded
      ensures sent == old(sent) + [Sent(statusCode, headers)]
    {
      if statusCode == 0 {
        statusCode := 200;
      }
      sent := sent + [Sent(statusCode, headers)];
      headerForwarded := true;
    }

    method ForwardBypass()
      modifies this`state, this`sent, this`statusCode, this`headerForwarded
      ensures state == Bypassed && headerForwarded
      ensures old(headerForwarded) ==> sent == old(sent) && statusCode == old(statusCode)
      ensures !old(headerForwarded) ==>
        statusCode == StatusOrOk(old(statusCode)) && sent == old(sent) + [Sent(statusCode, headers)]
    {
      state := Bypassed;
      if !headerForwarded {
        ForwardHeader();
      }
    }

    /** Plain forwarding from here on; what was held back goes first. */
    method ForwardBypassWithBuf()
      requires state == Undecided && !headerForwarded && sent == [] && wire == [] && gz == None
      requires written == buf && minimumSize > 0
      modifies this`state, this`sent, this`statusCode, this`headerForwarded, this`wire, this`buf
      ensures Valid() && state == Bypassed && buf == ""
      ensures sent == [Sent(StatusOrOk(old(statusCode)), headers)]
    {
      ForwardBypass();
      if |buf| > 0 {
        PlainFirst(buf);
        wire := wire + [Raw(buf)];
        buf := "";
      }
    }

    method WriteHeader(code: int)
      requires Valid()
      modifies this
      ensures Valid() && written == old(written) && headers == old(headers)
      ensures buf == old(buf) && wire == old(wire) && gz == old(gz)
      ensures old(headerForwarded) ==> state == old(state) && sent == old(sent) && statusCode == old(statusCode)
      ensures !old(headerForwarded) && !IsBodyless(code) ==> state == Undecided && statusCode == code
      ensures !old(headerForwarded) && IsBodyless(code) ==>
        state == Bypassed && sent == [Sent(StatusOrOk(code), headers)]
    {
      if headerForwarded {
        return;
      }
      statusCode := code;
      if IsBodyless(code) {
        ForwardBypass();
        assert buf + Plain(wire) == buf;
      }
    }

    /** From here on the response is a gzip stream, which takes over the held-back bytes. */
    method StartGzip()
      requires state == Undecided && !headerForwarded && sent == [] && wire == [] && gz == None
      requires written == buf && minimumSize > 0
      modifies this
      ensures Valid() && state == Compressing && buf == "" && written == old(written)
      ensures headers == old(headers).(contentLength := None, contentEncoding := "gzip",
                                       vary := AddVary(old(headers).vary, "Accept-Encoding"))
      ensures sent == [Sent(StatusOrOk(old(statusCode)), headers)]
    {
      state := Compressing;
      headers := headers.(contentLength := None, contentEncoding := "gzip",
                          vary := AddVary(headers.vary, "Accept-Encoding"));
      ForwardHeader();
      gz := Some(buf);
      buf := "";
    }

    /** Takes the decision on the buffered bytes. */
    method Decide()
      requires state == Undecided && !headerForwarded && sent == [] && wire == [] && gz == None
      requires written == buf && |buf| >= minimumSize > 0
      modifies this
      ensures Valid() && written == old(written)
      ensures DecidedOn(old(headers), old(statusCode), old(buf))
    {
      hide Valid, Contains, Lower, IsCompressible, AddVary, Plain, StatusOrOk;
      if headers.contentEncoding != "" {
        ForwardBypassWithBuf();
        return;
      }
      if headers.contentRange != "" {
        ForwardBypassWithBuf();
        return;
      }
      var ct := headers.contentType;
      if ct == "" && |buf| > 0 {
        ct := detect(buf);
        headers := headers.(contentType := ct);
      }
      if Contains(Lower(ct), "text/event-stream") {
        ForwardBypassWithBuf();
        return;
      }
      if !IsCompressible(ct) {
        ForwardBypassWithBuf();
        return;
      }
      StartGzip();
    }

    method Write(b: string)
      requires Valid()
      modifies this
      ensures Valid() && written == old(written) + b
      ensures old(state) != Undecided ==>
        state == old(state) && buf == old(buf) && sent == old(sent) && headers == old(headers) &&
          statusCode == old(statusCode)
      ensures old(state) == Undecided && |old(buf) + b| < minimumSize ==>
        state == Undecided && headers == old(headers) && statusCode == old(statusCode)
      ensures old(state) == Undecided && |old(buf) + b| >= minimumSize ==>
        DecidedOn(old(headers), old(statusCode), old(buf) + b)
    {
      hide DecidedOn, Plain;
      if |b| == 0 {
        assert written + b == written && buf + b == buf;
        return;
      }
      written := written + b;
      match state {
        case Bypassed =>
          PlainNext(wire, Raw(b));
          Assoc(buf, Plain(wire), b);
          wire := wire + [Raw(b)];
        case Compressing =>
          Assoc(Plain(wire), gz.value, b);
          gz := Some(gz.value + b);
        case Undecided =>
          buf := buf + b;
          if |buf| >= minimumSize {
            Decide();
          }
      }
    }

    /** After a flush the client can decode everything that was written and not lost. */
    method Flush()
      requires Valid()
      modifies this
      ensures Valid() && written == old(written) && headers == old(headers)
      ensures state == (if old(state) == Undecided then Bypassed else old(state))
      ensures old(state) != Undecided ==> sent == old(sent) && statusCode == old(statusCode) && buf == old(buf)
      ensures old(state) == Undecided ==> sent == [Sent(StatusOrOk(old(statusCode)), headers)] && buf == ""
      ensures written == buf + Plain(wire)
    {
      match state {
        case Compressing =>
          PlainNext(wire, Gz(gz.value));
          wire := wire + [Gz(gz.value)];
          gz := Some("");
        case Bypassed =>
        case Undecided =>
          ForwardBypassWithBuf();
      }
    }

    /** Ends the response. */
    method Close()
      requires Valid()
      modifies this
      ensures headerForwarded && |sent| == 1
      ensures Decode(wire).Some? && old(written) == buf + Decode(wire).value
      ensures IsGzip(wire) <==> old(state) == Compressing
      ensures old(state) == Undecided ==> sent == [Sent(StatusOrOk(old(statusCode)), old(headers))] && buf == ""
      ensures old(state) != Undecided ==> sent == old(sent) && buf == old(buf)
    {
      match state {
        case Undecided =>
          ForwardBypassWithBuf();
        case Compressing =>
          PlainNext(wire, Gz(gz.value));
          wire := wire + [Gz(gz.value)];
          PlainNext(wire, GzEnd);
          wire := wire + [GzEnd];
          gz := None;
          assert wire[..|wire| - 1] == old(wire) + [Gz(old(gz).value)];
        case Bypassed =>
      }
    }
  }

  // ----- whole responses

  /** What a handler may do with its response writer. */
  datatype Op = SetHeaders(headers: Headers) | WriteHeader(code: int) | Write(bytes: string) | Flush

  /** Everything the handler wrote. */
  function Writes(ops: seq<Op>): string {
    if ops == [] then ""
    else Writes(ops[..|ops| - 1]) + if ops[|ops| - 1].Write? then ops[|ops| - 1].bytes else ""
  }

  /** The header as the handler left it. */
  function HeadersAfter(start: Headers, ops: seq<Op>): Headers {
    if ops == [] then start
    else if ops[|ops| - 1].SetHeaders? then ops[|ops| - 1].headers
    else HeadersAfter(start, ops[..|ops| - 1])
  }

  /** The last status the handler asked for, 0 for none. */
  function LastCode(ops: seq<Op>): int {
    if ops == [] then 0
    else if ops[|ops| - 1].WriteHeader? then ops[|ops| - 1].code
    else LastCode(ops[..|ops| - 1])
  }

  /** Whether an operation forces the decision when `before` was written up to it. */
  predicate Forces(op: Op, before: string, min: nat) {
    match op
    case Flush => true
    case WriteHeader(code) => IsBodyless(code)
    case Write(bytes) => |before + bytes| >= min
    case SetHeaders(_) => false
  }

  predicate ForcesAt(ops: seq<Op>, i: nat, min: nat)
    requires i < |ops|
  {
    Forces(ops[i], Writes(ops[..i]), min)
  }

  /** The first operation that forces the decision; the number of operations if none does. */
  function Decision(ops: seq<Op>, min: nat): (d: nat)
    ensures d <= |ops|
  {
    if ops == [] then 0
    else
      var n := |ops| - 1;
      var d := Decision(ops[..n], min);
      if d < n || ForcesAt(ops, n, min) then d else n + 1
  }

  /** The decision falls at the first forcing operation, if there is one. */
  lemma {:induction false} DecisionIsFirst(ops: seq<Op>, min: nat)
    ensures Decision(ops, min) < |ops| ==> ForcesAt(ops, Decision(ops, min), min)
    ensures forall i :: 0 <= i < Decision(ops, min) ==> !ForcesAt(ops, i, min)
  {
    if ops != [] {
      var n := |ops| - 1;
      DecisionIsFirst(ops[..n], min);
      forall i | 0 <= i < n ensures ForcesAt(ops[..n], i, min) <==> ForcesAt(ops, i, min) {
        assert ops[..n][..i] == ops[..i];
      }
    }
  }

  /** A bodyless status was set while bytes were being held back. */
  predicate LosesBody(ops: seq<Op>, min: nat) {
    var d := Decision(ops, min);
    d < |ops| && ops[d].WriteHeader? && Writes(ops[..d]) != ""
  }

  /** Gzip is used: enough bytes were held back, and the response is eligible. */
  predicate Compresses(start: Headers, ops: seq<Op>, min: nat, detect: Detector) {
    var d := Decision(ops, min);
    d < |ops| && ops[d].Write? && Eligible(HeadersAfter(start, ops[..d]), Writes(ops[..d + 1]), detect)
  }

  /** The bytes that never reach the client. */
  function Lost(ops: seq<Op>, min: nat): string {
    if LosesBody(ops, min) then Writes(ops[..Decision(ops, min)]) else ""
  }

  function StatusSent(ops: seq<Op>, min: nat): int {
    var d := Decision(ops, min);
    StatusOrOk(LastCode(if d < |ops| then ops[..d + 1] else ops))
  }

  /** The header that the deciding operation sends. */
  function Forwarded(op: Op, h: Headers, held: string, detect: Detector): Headers {
    if op.Write? then DecidedHeaders(h, held + op.bytes, detect) else h
  }

  /** The header that goes out: the handler's at the decision, adapted if a write took it. */
  function HeadersSent(start: Headers, ops: seq<Op>, min: nat, detect: Detector): Headers {
    var d := Decision(ops, min);
    var h := HeadersAfter(start, ops[..d]);
    if d < |ops| then Forwarded(ops[d], h, Writes(ops[..d]), detect) else h
  }

  /** Once the decision is forced, later operations do not change what it was. */
  lemma AfterDecision(start: Headers, ops: seq<Op>, op: Op, min: nat, detect: Detector)
    requires Decision(ops, min) < |ops|
    ensures var d, more := Decision(ops, min), ops + [op];
      && Decision(more, min) == d
      && Lost(more, min) == Lost(ops, min) && StatusSent(more, min) == StatusSent(ops, min)
      && Compresses(start, more, min, detect) == Compresses(start, ops, min, detect)
      && HeadersSent(start, more, min, detect) == HeadersSent(start, ops, min, detect)
      && more[..d] == ops[..d] && more[..d + 1] == ops[..d + 1]
  {
    var d, more := Decision(ops, min), ops + [op];
    assert more[..|ops|] == ops;
    assert more[..d] == ops[..d] && more[..d + 1] == ops[..d + 1];
  }

  /** Before that, the next operation either leaves it open or takes it. */
  lemma BeforeDecision(start: Headers, ops: seq<Op>, op: Op, min: nat, detect: Detector)
    requires Decision(ops, min) == |ops|
    ensures var more := ops + [op];
      && Decision(more, min) == (if Forces(op, Writes(ops), min) then |ops| else |ops| + 1)
      && (Forces(op, Writes(ops), min) ==>
            && StatusSent(more, min) == StatusOrOk(LastCode(more))
            && Lost(more, min) == (if op.WriteHeader? then Writes(ops) else "")
            && HeadersSent(start, more, min, detect) == Forwarded(op, HeadersAfter(start, ops), Writes(ops), detect)
            && (Compresses(start, more, min, detect) <==>
                  op.Write? && Eligible(HeadersAfter(start, ops), Writes(ops) + op.bytes, detect)))
  {
    var more := ops + [op];
    assert more[..|ops|] == ops && more[..|ops| + 1] == more;
    Continues(start, ops, op);
  }

  lemma Continues(start: Headers, ops: seq<Op>, op: Op)
    ensures Writes(ops + [op]) == Writes(ops) + if op.Write? then op.bytes else ""
    ensures LastCode(ops + [op]) == if op.WriteHeader? then op.code else LastCode(ops)
    ensures HeadersAfter(start, ops + [op]) == if op.SetHeaders? then op.headers else HeadersAfter(start, ops)
  {
    assert (ops + [op])[..|ops|] == ops;
  }

  /** Where the writer stands after the operations `ops`. */
  ghost predicate Tracks(w: Writer, start: Headers, ops: seq<Op>)
    reads w
  {
    var min, d := w.minimumSize, Decision(ops, w.minimumSize);
    && w.Valid() && w.written == Writes(ops)
    && (d == |ops| ==> w.state == Undecided && w.headers == HeadersAfter(start, ops) && w.statusCode == LastCode(ops))
    && (d < |ops| ==>
          && w.state == (if Compresses(start, ops, min, w.detect) then Compressing else Bypassed)
          && w.buf == Lost(ops, min)
          && w.sent[0] == Sent(StatusSent(ops, min), HeadersSent(start, ops, min, w.detect)))
  }

  method Apply(w: Writer, op: Op)
    requires w.Valid()
    modifies w
    ensures w.Valid() && w.written == old(w.written) + if op.Write? then op.bytes else ""
    ensures old(w.state) != Undecided ==> w.state == old(w.state) && w.buf == old(w.buf) && w.sent == old(w.sent)
    ensures old(w.state) == Undecided && !Forces(op, old(w.buf), w.minimumSize) ==>
      && w.state == Undecided
      && w.headers == (if op.SetHeaders? then op.headers else old(w.headers))
      && w.statusCode == (if op.WriteHeader? then op.code else old(w.statusCode))
    ensures old(w.state) == Undecided && Forces(op, old(w.buf), w.minimumSize) ==>
      && w.state != Undecided && w.buf == (if op.WriteHeader? then old(w.buf) else "")
      && (w.state == Compressing <==> op.Write? && Eligible(old(w.headers), old(w.buf) + op.bytes, w.detect))
      && w.sent[0].status == StatusOrOk(if op.WriteHeader? then op.code else old(w.statusCode))
      && w.sent[0].headers == Forwarded(op, old(w.headers), old(w.buf), w.detect)
  {
    match op {
      case SetHeaders(headers) => w.headers := headers;
      case WriteHeader(code) => w.WriteHeader(code);
      case Write(bytes) => w.Write(bytes);
      case Flush => w.Flush();
    }
  }

  method PerformDecided(w: Writer, op: Op, ghost start: Headers, ghost ops: seq<Op>)
    requires Tracks(w, start, ops) && Decision(ops, w.minimumSize) < |ops|
    modifies w
    ensures Tracks(w, start, ops + [op])
  {
    Continues(start, ops, op);
    AfterDecision(start, ops, op, w.minimumSize, w.detect);
    Apply(w, op);
  }

  method PerformOpen(w: Writer, op: Op, ghost start: Headers, ghost ops: seq<Op>)
    requires Tracks(w, start, ops) && Decision(ops, w.minimumSize) == |ops|
    modifies w
    ensures Tracks(w, start, ops + [op])
  {
    Continues(start, ops, op);
    BeforeDecision(start, ops, op, w.minimumSize, w.detect);
    Apply(w, op);
  }

  /** One operation of the handler. */
  method Perform(w: Writer, op: Op, ghost start: Headers, ghost ops: seq<Op>)
    requires Tracks(w, start, ops)
    modifies w
    ensures Tracks(w, start, ops + [op])
  {
    if w.headerForwarded {
      PerformDecided(w, op, start, ops);
    } else {
      PerformOpen(w, op, start, ops);
    }
  }

  // ----- the decision, spelled out

  /** A flush, a status without a body, or a write with which at least `min` bytes are written. */
  predicate Takes(ops: seq<Op>, min: nat, i: nat)
    requires i < |ops|
  {
    ops[i] == Flush || SetsBodyless(ops[i]) || (ops[i].Write? && |Writes(ops[..i + 1])| >= min)
  }

  lemma ForcesIsTakes(ops: seq<Op>, min: nat, i: nat)
    requires i < |ops|
    ensures ForcesAt(ops, i, min) <==> Takes(ops, min, i)
  {
    assert ops[..i + 1] == ops[..i] + [ops[i]];
    Continues(Headers("", "", "", None, ""), ops[..i], ops[i]);
  }

  /** The decision falls at the first operation that takes it. */
  lemma DecisionIff(ops: seq<Op>, min: nat, d: nat)
    requires d < |ops|
    ensures Decision(ops, min) == d <==> Takes(ops, min, d) && forall i :: 0 <= i < d ==> !Takes(ops, min, i)
  {
    DecisionIsFirst(ops, min);
    forall i | 0 <= i < |ops| ensures ForcesAt(ops, i, min) <==> Takes(ops, min, i) {
      ForcesIsTakes(ops, min, i);
    }
  }

  /** The type is that of an event stream, in whatever case and with whatever parameters. */
  predicate IsEventStream(ct: string) {
    exists i :: 0 <= i <= |ct| && "text/event-stream" <= Lower(ct)[i..]
  }

  lemma EventStreamIff(ct: string)
    ensures Contains(Lower(ct), "text/event-stream") <==> IsEventStream(ct)
  {
    assert |Lower(ct)| == |ct|;
  }

  /** Without its parameters the type starts like one of the list. */
  predicate StartsLikeListed(ct: string) {
    exists i :: 0 <= i < |COMPRESSIBLE_PREFIXES| && COMPRESSIBLE_PREFIXES[i] <= Lower(Trim(Before(ct, ';')))
  }

  lemma {:induction false} AnyPrefixIff(s: string, prefixes: seq<string>)
    ensures HasAnyPrefix(s, prefixes) <==> exists i :: 0 <= i < |prefixes| && prefixes[i] <= s
  {
    if prefixes != [] {
      AnyPrefixIff(s, prefixes[1..]);
      if i :| 0 <= i < |prefixes[1..]| && prefixes[1..][i] <= s { assert prefixes[i + 1] <= s; }
      if i :| 0 <= i < |prefixes| && prefixes[i] <= s {
        assert i > 0 ==> prefixes[1..][i - 1] <= s;
      }
    }
  }

  lemma CompressibleIff(ct: string)
    ensures IsCompressible(ct) <==> StartsLikeListed(ct)
  {
    AnyPrefixIff(Lower(Trim(Before(ct, ';'))), COMPRESSIBLE_PREFIXES);
  }

  /** The write at `d` takes the decision, and the header set by then and the type allow gzip. */
  predicate GzipAt(start: Headers, ops: seq<Op>, min: nat, detect: Detector, d: nat) {
    && d < |ops| && ops[d].Write? && |Writes(ops[..d + 1])| >= min
    && (forall i :: 0 <= i < d ==> !Takes(ops, min, i))
    && var h := HeadersAfter(start, ops[..d]);
      var ct := if h.contentType == "" then detect(Writes(ops[..d + 1])) else h.contentType;
      h.contentEncoding == "" && h.contentRange == "" && !IsEventStream(ct) && StartsLikeListed(ct)
  }

  lemma EligibleIff(h: Headers, held: string, detect: Detector)
    requires held != ""
    ensures Eligible(h, held, detect) <==>
      var ct := if h.contentType == "" then detect(held) else h.contentType;
      h.contentEncoding == "" && h.contentRange == "" && !IsEventStream(ct) && StartsLikeListed(ct)
  {
    hide IsCompressible, StartsLikeListed, IsEventStream, Contains;
    CompressibleIff(TypeOf(h, held, detect));
    EventStreamIff(TypeOf(h, held, detect));
  }

  lemma CompressesIff(start: Headers, ops: seq<Op>, min: nat, detect: Detector)
    requires min > 0
    ensures Compresses(start, ops, min, detect) <==> exists d :: GzipAt(start, ops, min, detect, d)
  {
    hide Eligible, IsEventStream, StartsLikeListed, Decision;
    var d := Decision(ops, min);
    if d < |ops| && ops[d].Write? {
      DecisionIff(ops, min, d);
      EligibleIff(HeadersAfter(start, ops[..d]), Writes(ops[..d + 1]), detect);
      assert Compresses(start, ops, min, detect) <==> GzipAt(start, ops, min, detect, d);
    }
    if e: nat :| GzipAt(start, ops, min, detect, e) {
      DecisionIff(ops, min, e);
      EligibleIff(HeadersAfter(start, ops[..e]), Writes(ops[..e + 1]), detect);
    }
  }

  /**
   A handler's whole run through the middleware.  One header goes out, with the
   status in force at the decision; the client's body and the bytes lost to a
   bodyless status make up exactly what was written, so that the client gets all
   of it if and only if no bodyless status is set while something is held back; gzip
   is used exactly when enough was held back and the response is eligible.
   */
  method Serve(min: nat, detect: Detector, start: Headers, ops: seq<Op>) returns (sent: seq<Sent>, wire: seq<Wire>)
    requires min > 0
    ensures sent == [Sent(StatusSent(ops, min), HeadersSent(start, ops, min, detect))]
    ensures Decode(wire).Some? && Writes(ops) == Lost(ops, min) + Decode(wire).value
    ensures Decode(wire).value == Writes(ops) <==> !exists i :: LossAt(ops, min, i)
    ensures IsGzip(wire) <==> Compresses(start, ops, min, detect)
    ensures IsGzip(wire) <==> exists d :: GzipAt(start, ops, min, detect, d)
  {
    hide GzipAt, LossAt;
    var w := new Writer(min, detect, start);
    for i := 0 to |ops|
      invariant w.minimumSize == min && w.detect == detect && Tracks(w, start, ops[..i])
    {
      assert ops[..i + 1] == ops[..i] + [ops[i]];
      Perform(w, ops[i], start, ops[..i]);
    }
    assert ops[..|ops|] == ops;
    w.Close();
    sent, wire := w.sent, w.wire;
    LosesBodyMeaning(ops, min);
    LostOrNot(ops, min, Decode(wire).value);
    CompressesIff(start, ops, min, detect);
  }

  /**
   The header tells the truth: it announces gzip, and drops the length, exactly when
   the body is compressed by this writer; the handler's range, and any encoding and
   length of its own, go out as set.
   */
  lemma HeadersTellTheEncoding(start: Headers, ops: seq<Op>, min: nat, detect: Detector)
    requires min > 0
    ensures var h, s := HeadersAfter(start, ops[..Decision(ops, min)]), HeadersSent(start, ops, min, detect);
      && (Compresses(start, ops, min, detect) <==> s.contentEncoding == "gzip" && h.contentEncoding == "")
      && (!Compresses(start, ops, min, detect) ==>
            s.contentEncoding == h.contentEncoding && s.contentLength == h.contentLength && s.vary == h.vary)
      && (Compresses(start, ops, min, detect) ==> s.contentLength == None)
      && s.contentRange == h.contentRange
      && (h.contentType != "" ==> s.contentType == h.contentType)
  {
    var d := Decision(ops, min);
    if d < |ops| {
      assert ops[..d + 1][..d] == ops[..d];
      Continues(start, ops[..d], ops[d]);
      assert ops[..d + 1] == ops[..d] + [ops[d]];
    }
  }

  lemma {:induction false} WritesPrefix(ops: seq<Op>, k: nat)
    requires k <= |ops|
    ensures Writes(ops[..k]) <= Writes(ops)
  {
    if k < |ops| {
      WritesPrefix(ops[..|ops| - 1], k);
      assert ops[..|ops| - 1][..k] == ops[..k];
    } else {
      assert ops[..k] == ops;
    }
  }

  /** While no operation forces the decision, fewer than `min` bytes are held back. */
  lemma {:induction false} HeldBack(ops: seq<Op>, min: nat, k: nat)
    requires min > 0 && k <= Decision(ops, min)
    ensures |Writes(ops[..k])| < min
  {
    if k > 0 {
      HeldBack(ops, min, k - 1);
      DecisionIsFirst(ops, min);
      assert !ForcesAt(ops, k - 1, min);
      assert ops[..k] == ops[..k - 1] + [ops[k - 1]];
      Continues(Headers("", "", "", None, ""), ops[..k - 1], ops[k - 1]);
    }
  }

  /** Sets a status of 204, 304 or below 200. */
  predicate SetsBodyless(op: Op) {
    op.WriteHeader? && (op.code == 204 || op.code == 304 || op.code < 200)
  }

  /** At `i` a bodyless status is set with something but too little written and nothing flushed. */
  predicate LossAt(ops: seq<Op>, min: nat, i: nat) {
    && i < |ops| && SetsBodyless(ops[i])
    && 0 < |Writes(ops[..i])| < min
    && forall j :: 0 <= j < i ==> ops[j] != Flush && !SetsBodyless(ops[j])
  }

  lemma LossAtIsDecision(ops: seq<Op>, min: nat, i: nat)
    requires LossAt(ops, min, i)
    ensures Decision(ops, min) == i
  {
    var d := Decision(ops, min);
    DecisionIsFirst(ops, min);
    assert ForcesAt(ops, i, min);
    if d < i {
      assert ForcesAt(ops, d, min);
      WritesPrefix(ops[..i], d + 1);
      assert ops[..i][..d + 1] == ops[..d + 1] == ops[..d] + [ops[d]];
      Continues(Headers("", "", "", None, ""), ops[..d], ops[d]);
    }
  }

  /** Losing the body, spelled out operation by operation. */
  lemma LosesBodyMeaning(ops: seq<Op>, min: nat)
    requires min > 0
    ensures LosesBody(ops, min) <==> exists i :: LossAt(ops, min, i)
  {
    if LosesBody(ops, min) {
      HeldBack(ops, min, Decision(ops, min));
      DecisionIsFirst(ops, min);
      assert ForcesAt(ops, Decision(ops, min), min);
      forall j | 0 <= j < Decision(ops, min)
        ensures ops[j] != Flush && !SetsBodyless(ops[j])
      {
        assert !ForcesAt(ops, j, min);
      }
      assert LossAt(ops, min, Decision(ops, min));
    }
    if i :| LossAt(ops, min, i) {
      LossAtIsDecision(ops, min, i);
    }
  }

  /** What arrives is everything exactly when nothing is lost. */
  lemma LostOrNot(ops: seq<Op>, min: nat, body: string)
    requires Writes(ops) == Lost(ops, min) + body
    ensures body == Writes(ops) <==> !LosesBody(ops, min)
  {
    assert body == Writes(ops) <==> |body| == |Writes(ops)|;
    if LosesBody(ops, min) {
      assert Writes(ops[..Decision(ops, min)]) != "";
    }
  }

  /** The failing family has a member: three bytes, then status 204. */
  lemma LosesBodyExample()
    ensures LosesBody([Write("abc"), WriteHeader(204)], 1024)
  {
    var ops := [Write("abc"), WriteHeader(204)];
    assert ops[..1] == [Write("abc")] && [Write("abc")][..0] == [];
    assert Writes(ops[..1]) == "abc";
    LosesBodyMeaning(ops, 1024);
    assert LossAt(ops, 1024, 1);
  }
}
