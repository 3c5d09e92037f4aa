/**
 Acknowledgements in direct conversations: an incoming acknowledgement is booked
 on the latest matching outbound row, if there is one.  The SQL table is a
 sequence of rows, a row's position being its id.
 */
module ChatAcks {
  import opened Text
  import opened ChatDedupe

  /** The acknowledgement booked on a row, and the row that brought it. */
  datatype Ack = Ack(status: string, receivedAt: int, acker: nat)

  datatype ChatRow = ChatRow(
    conversation: string,
    outbound: bool,
    sequence: string,
    receivedAt: int,
    src: string,
    dst: string,
    msg: string,
    ack: Option<Ack>)

  /** What the acknowledgement patterns find in a text: a status and a sequence number, both empty for none. */
  datatype Parsed = Parsed(status: string, sequence: string)

  function Sender(row: ChatRow): string {
    Upper(Trim(row.src))
  }

  /** Whether `row` can take the acknowledgement of `sequence` that `acker` brings. */
  predicate Matches(row: ChatRow, acker: ChatRow, sequence: string) {
    && row.conversation == acker.conversation && row.outbound && row.sequence == sequence
    && Upper(row.dst) == Upper(Sender(acker))
    && acker.receivedAt - DEDUPE_WINDOW <= row.receivedAt <= acker.receivedAt
  }

  predicate Open(row: ChatRow, acker: ChatRow, sequence: string) {
    row.ack == None && Matches(row, acker, sequence)
  }

  /** Newest first; among equally new rows the higher id first. */
  predicate Later(rows: seq<ChatRow>, i: nat, j: nat)
    requires i < |rows| && j < |rows|
  {
    rows[i].receivedAt > rows[j].receivedAt || (rows[i].receivedAt == rows[j].receivedAt && i > j)
  }

  ghost predicate IsLatestOpen(rows: seq<ChatRow>, acker: ChatRow, sequence: string, i: nat) {
    && i < |rows| && Open(rows[i], acker, sequence)
    && forall j :: 0 <= j < |rows| && j != i && Open(rows[j], acker, sequence) ==> Later(rows, i, j)
  }

  /** The subquery: the latest open row, if any. */
  method LatestOpen(rows: seq<ChatRow>, acker: ChatRow, sequence: string) returns (r: Option<nat>)
    ensures r.Some? ==> IsLatestOpen(rows, acker, sequence, r.value)
    ensures r.Some? ==> forall j :: 0 <= j < |rows| && j != r.value && Open(rows[j], acker, sequence) ==>
      rows[j].receivedAt < rows[r.value].receivedAt || (rows[j].receivedAt == rows[r.value].receivedAt && j < r.value)
    ensures r.None? ==> forall j :: 0 <= j < |rows| ==> !Open(rows[j], acker, sequence)
  {
    r := None;
    for i := 0 to |rows|
      invariant r.Some? ==> r.value < i && Open(rows[r.value], acker, sequence)
      invariant r.Some? ==> forall j :: 0 <= j < i && j != r.value && Open(rows[j], acker, sequence) ==>
        Later(rows, r.value, j)
      invariant r.None? ==> forall j :: 0 <= j < i ==> !Open(rows[j], acker, sequence)
    {
      if Open(rows[i], acker, sequence) {
        if r.None? || Later(rows, i, r.value) {
          r := Some(i);
        }
      }
    }
  }

  /** Whether a text acknowledges anything at all. */
  predicate Acknowledges(row: ChatRow, p: Parsed) {
    p.status != "" && p.sequence != "" && Sender(row) != ""
  }

  /** One append: the row goes to the end, and its acknowledgement to the latest open row. */
  ghost predicate Step(rows: seq<ChatRow>, row: ChatRow, p: Parsed, rows': seq<ChatRow>) {
    var all := rows + [row];
    if Acknowledges(row, p) && exists j :: 0 <= j < |all| && Open(all[j], row, p.sequence) then
      exists i: nat :: IsLatestOpen(all, row, p.sequence, i)
        && rows' == all[i := all[i].(ack := Some(Ack(p.status, row.receivedAt, |rows|)))]
    else
      rows' == all
  }

  class DirectLog {
    var rows: seq<ChatRow>

    constructor ()
      ensures rows == []
    {
      rows := [];
    }

    method Append(row: ChatRow, p: Parsed)
      requires row.ack == None
      modifies this
      ensures Step(old(rows), row, p, rows)
    {
      hide Open, Later;
      rows := rows + [row];
      if p.status == "" || p.sequence == "" {
        return;
      }
      if Upper(Trim(row.src)) == "" {
        return;
      }
      var target := LatestOpen(rows, row, p.sequence);
      if target.Some? {
        rows := rows[target.value := rows[target.value].(ack := Some(Ack(p.status, row.receivedAt, |rows| - 1)))];
      }
    }
  }

  // ----- over any run of appends

  ghost predicate AckOk(rows: seq<ChatRow>, i: nat)
    requires i < |rows|
  {
    rows[i].ack.Some? ==>
      var a := rows[i].ack.value;
      && i <= a.acker < |rows| && a.receivedAt == rows[a.acker].receivedAt
      && Matches(rows[i], rows[a.acker], rows[i].sequence)
  }

  /** Every booked acknowledgement fits the row that brought it, and each row brought at most one. */
  ghost predicate Inv(rows: seq<ChatRow>) {
    && (forall i :: 0 <= i < |rows| ==> AckOk(rows, i))
    && (forall i, j :: 0 <= i < |rows| && 0 <= j < |rows| && i != j && rows[i].ack.Some? && rows[j].ack.Some? ==>
          rows[i].ack.value.acker != rows[j].ack.value.acker)
  }

  /** What one append may do to an existing row: nothing, or book an acknowledgement where there was none. */
  ghost predicate RowKept(before: ChatRow, after: ChatRow) {
    before == after || (before.ack == None && after == before.(ack := after.ack))
  }

  lemma StepKeepsRows(rows: seq<ChatRow>, row: ChatRow, p: Parsed, rows': seq<ChatRow>)
    requires row.ack == None && Step(rows, row, p, rows')
    ensures |rows'| == |rows| + 1 && rows'[|rows|].(ack := None) == row
    ensures forall i :: 0 <= i < |rows| ==> RowKept(rows[i], rows'[i])
    ensures forall i :: 0 <= i < |rows'| && rows'[i] != (rows + [row])[i] ==>
      Open((rows + [row])[i], row, p.sequence) && rows'[i].ack == Some(Ack(p.status, row.receivedAt, |rows|))
    ensures forall i, j ::
      0 <= i < |rows'| && 0 <= j < |rows'| && rows'[i] != (rows + [row])[i] && rows'[j] != (rows + [row])[j] ==> i == j
  {
    hide Matches, Acknowledges, Later;
    var all := rows + [row];
    if Acknowledges(row, p) && exists j :: 0 <= j < |all| && Open(all[j], row, p.sequence) {
      var i: nat :| IsLatestOpen(all, row, p.sequence, i)
        && rows' == all[i := all[i].(ack := Some(Ack(p.status, row.receivedAt, |rows|)))];
    }
  }

  lemma StepKeepsInv(rows: seq<ChatRow>, row: ChatRow, p: Parsed, rows': seq<ChatRow>)
    requires Inv(rows) && row.ack == None && Step(rows, row, p, rows')
    ensures Inv(rows')
  {
    StepKeepsRows(rows, row, p, rows');
    var all := rows + [row];
    forall i | 0 <= i < |rows'| ensures AckOk(rows', i) {
      if rows'[i] == all[i] {
        if i < |rows| { assert AckOk(rows, i); }
      }
    }
    forall i, j | 0 <= i < |rows'| && 0 <= j < |rows'| && i != j && rows'[i].ack.Some? && rows'[j].ack.Some?
      ensures rows'[i].ack.value.acker != rows'[j].ack.value.acker
    {
      if rows'[i] == all[i] { assert AckOk(rows, i); }
      if rows'[j] == all[j] { assert AckOk(rows, j); }
    }
  }

  datatype Event = Event(row: ChatRow, parsed: Parsed)

  ghost predicate Run(events: seq<Event>, states: seq<seq<ChatRow>>) {
    && |states| == |events| + 1 && states[0] == []
    && forall i :: 0 <= i < |events| ==>
         events[i].row.ack == None && Step(states[i], events[i].row, events[i].parsed, states[i + 1])
  }

  /** In every reachable log acknowledged rows map injectively to fitting acknowledgement messages. */
  lemma {:induction false} ReachableInv(events: seq<Event>, states: seq<seq<ChatRow>>, n: nat)
    requires Run(events, states) && n < |states|
    ensures Inv(states[n]) && |states[n]| == n
  {
    if n > 0 {
      ReachableInv(events, states, n - 1);
      StepKeepsInv(states[n - 1], events[n - 1].row, events[n - 1].parsed, states[n]);
    }
  }

  /** A row once acknowledged never changes again. */
  lemma {:induction false} AcksAreFinal(events: seq<Event>, states: seq<seq<ChatRow>>, m: nat, n: nat, i: nat)
    requires Run(events, states) && m <= n < |states| && i < |states[m]|
    ensures i < |states[n]| && RowKept(states[m][i], states[n][i])
    ensures states[m][i].ack.Some? ==> states[n][i] == states[m][i]
    decreases n
  {
    if m < n {
      AcksAreFinal(events, states, m, n - 1, i);
      StepKeepsRows(states[n - 1], events[n - 1].row, events[n - 1].parsed, states[n]);
      assert RowKept(states[n - 1][i], states[n][i]);
    }
  }

  // ----- a message and its acknowledgement

  /** Nothing that waits could take an acknowledgement of `sequence` in this conversation. */
  predicate NoneWaits(rows: seq<ChatRow>, conversation: string, sequence: string) {
    forall i :: 0 <= i < |rows| && rows[i].outbound && rows[i].ack == None && rows[i].conversation == conversation ==>
      rows[i].sequence != sequence
  }

  lemma UpperTwice(s: string)
    ensures Upper(Upper(s)) == Upper(s)
  {}

  lemma OnlySentIsOpen(rows: seq<ChatRow>, sent: ChatRow, back: ChatRow)
    requires NoneWaits(rows, back.conversation, sent.sequence) && !back.outbound && sent.outbound && sent.ack == None
    ensures var all := rows + [sent] + [back];
      && (forall i :: 0 <= i < |all| && i != |rows| ==> !Open(all[i], back, sent.sequence))
      && (Open(all[|rows|], back, sent.sequence) <==>
            && sent.conversation == back.conversation && Upper(sent.dst) == Upper(Trim(back.src))
            && 0 <= back.receivedAt - sent.receivedAt <= 300_000_000_000)
  {
    UpperTwice(Trim(back.src));
  }

  /**
   A message is sent and an acknowledgement of its number comes in.  It is booked on
   the message if and only if it belongs to the same conversation, comes from the
   station the message went to, in whatever case, and not more than five minutes later.
   */
  method SendAndAcknowledge(log: DirectLog, sent: ChatRow, back: ChatRow, p: Parsed) returns (booked: bool)
    requires sent.outbound && !back.outbound && sent.ack == None && back.ack == None
    requires p.status != "" && p.sequence == sent.sequence != ""
    requires NoneWaits(log.rows, back.conversation, sent.sequence)
    modifies log
    ensures |log.rows| == |old(log.rows)| + 2 && log.rows[..|old(log.rows)|] == old(log.rows)
    ensures booked <==>
      && sent.conversation == back.conversation && Trim(back.src) != "" && Upper(sent.dst) == Upper(Trim(back.src))
      && 0 <= back.receivedAt - sent.receivedAt <= 300_000_000_000
    ensures var n := |old(log.rows)|;
      && log.rows[n] == sent.(ack := if booked then Some(Ack(p.status, back.receivedAt, n + 1)) else None)
      && log.rows[n + 1] == back
  {
    hide Matches, Later;
    ghost var rows := log.rows;
    log.Append(sent, Parsed("", ""));
    assert log.rows == rows + [sent];
    log.Append(back, p);
    OnlySentIsOpen(rows, sent, back);
    booked := log.rows[|log.rows| - 2].ack.Some?;
  }
}
