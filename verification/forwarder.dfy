/**
 Mirroring of received datagrams to several targets.  The receiver reads every
 datagram into the same buffer, so a Forward queues a copy of it; all queues
 share that copy, which nobody writes again.  The targets' goroutines take
 datagrams at any time, also between the channel operations of one Forward: how
 many they take at each such moment is an input of the methods below.
 */
module Forwarding {
  import opened ForwardQueue
  import opened Sequences

  // ----- the bytes behind the references

  /** The copies that were made, with the bytes they were made with. */
  type Copies = map<array<char>, Datagram>

  /** No copy was written since. */
  ghost predicate Intact(copies: Copies)
    reads copies.Keys
  {
    forall cp :: cp in copies ==> cp[..] == copies[cp]
  }

  ghost function Bytes(queue: seq<array<char>>, copies: Copies): (bytes: seq<Datagram>)
    ensures |bytes| == |queue|
    ensures forall j :: 0 <= j < |queue| ==> bytes[j] == if queue[j] in copies then copies[queue[j]] else ""
  {
    seq(|queue|, j requires 0 <= j < |queue| => if queue[j] in copies then copies[queue[j]] else "")
  }

  lemma BytesMore(queue: seq<array<char>>, cp: array<char>, copies: Copies)
    requires cp in copies
    ensures Bytes(queue + [cp], copies) == Bytes(queue, copies) + [copies[cp]]
  {}

  lemma BytesRest(queue: seq<array<char>>, copies: Copies)
    requires queue != []
    ensures Bytes(queue[1..], copies) == Bytes(queue, copies)[1..]
  {}

  // ----- one target and its channel

  /** What waits for a target, and what its goroutine has taken so far. */
  datatype Target = Target(queue: seq<array<char>>, delivered: seq<array<char>>)

  const NEW_TARGET := Target([], [])

  /** How many datagrams the target takes before each channel operation of a Forward. */
  datatype Pauses = Pauses(beforeSend: nat, beforeDrop: nat, beforeRetry: nat)

  const NO_PAUSE := Pauses(0, 0, 0)

  function Arrays(t: Target): set<array<char>> {
    (set cp | cp in t.queue) + (set cp | cp in t.delivered)
  }

  /** The arrays of the target are copies, and hold the bytes of the abstract channel. */
  ghost predicate Mirrors(t: Target, c: Channel, copies: Copies) {
    Arrays(t) <= copies.Keys && Bytes(t.queue, copies) == c.queue && Bytes(t.delivered, copies) == c.delivered
  }

  /** The target's goroutine receives one datagram, if one is there. */
  method TakeOne(t: Target, ghost c: Channel, ghost copies: Copies) returns (t': Target)
    requires Mirrors(t, c, copies)
    ensures Mirrors(t', Apply(c, Event.Receive), copies)
    ensures t.delivered <= t'.delivered
  {
    t' := t;
    if |t.queue| > 0 {
      BytesRest(t.queue, copies);
      BytesMore(t.delivered, t.queue[0], copies);
      t' := Target(t.queue[1..], t.delivered + [t.queue[0]]);
    }
  }

  lemma OneMoreReceive(c: Channel, n: nat)
    ensures Run(c, Receives(n + 1)) == Apply(Run(c, Receives(n)), Event.Receive)
  {
    assert Receives(n + 1) == Receives(n) + [Event.Receive];
    RunInParts(c, Receives(n), [Event.Receive]);
  }

  /** It receives up to `n` datagrams. */
  method Drain(t: Target, n: nat, ghost c: Channel, ghost copies: Copies) returns (t': Target)
    requires Mirrors(t, c, copies)
    ensures Mirrors(t', Run(c, Receives(n)), copies)
    ensures t.delivered <= t'.delivered && (n == 0 ==> t' == t)
  {
    t' := t;
    for i := 0 to n
      invariant Mirrors(t', Run(c, Receives(i)), copies)
      invariant t.delivered <= t'.delivered && (i == 0 ==> t' == t)
    {
      OneMoreReceive(c, i);
      t' := TakeOne(t', Run(c, Receives(i)), copies);
    }
  }

  /** `select` with a send and a default case. */
  method TrySend(t: Target, cp: array<char>, ghost c: Channel, ghost copies: Copies) returns (t': Target, sent: bool)
    requires Mirrors(t, c, copies) && (c.phase.Sending? || c.phase.Retrying?) && cp in copies && copies[cp] == c.phase.x
    ensures t'.delivered == t.delivered
    ensures Mirrors(t', Advance(c), copies) && sent == (|c.queue| < CAPACITY)
    ensures t'.queue == if sent then t.queue + [cp] else t.queue
  {
    sent := |t.queue| < CAPACITY;
    t' := t;
    if sent {
      BytesMore(t.queue, cp, copies);
      t' := t.(queue := t.queue + [cp]);
    }
  }

  /** `select` with a receive and a default case. */
  method DropOldest(t: Target, ghost c: Channel, ghost copies: Copies) returns (t': Target)
    requires Mirrors(t, c, copies) && c.phase.Dropping?
    ensures t'.delivered == t.delivered && Mirrors(t', Advance(c), copies)
    ensures t'.queue == if |t.queue| > 0 then t.queue[1..] else []
  {
    t' := t;
    if |t.queue| > 0 {
      BytesRest(t.queue, copies);
      t' := t.(queue := t.queue[1..]);
    }
  }

  // ----- one Forward to one target

  lemma {:induction false} ReceivesKeepPhase(c: Channel, n: nat)
    ensures Run(c, Receives(n)).phase == c.phase && Run(c, Receives(n)).forwarded == c.forwarded
    decreases n
  {
    if n > 0 {
      assert Receives(n)[1..] == Receives(n - 1);
      ReceivesKeepPhase(Apply(c, Event.Receive), n - 1);
    }
  }

  /** The events of the target's goroutine and then the next channel operation. */
  function Turn(n: nat): seq<Event> {
    Receives(n) + [Proceed]
  }

  lemma AfterTurn(c: Channel, n: nat)
    ensures Run(c, Turn(n)) == Advance(Run(c, Receives(n)))
    ensures Run(c, Receives(n)).phase == c.phase && Run(c, Turn(n)).forwarded == c.forwarded
  {
    RunInParts(c, Receives(n), [Proceed]);
    ReceivesKeepPhase(c, n);
  }

  /** An attempt to send, after the target has taken up to `n` datagrams. */
  method SendTurn(t: Target, cp: array<char>, n: nat, ghost c: Channel, ghost copies: Copies)
    returns (t': Target, sent: bool)
    requires Mirrors(t, c, copies) && (c.phase.Sending? || c.phase.Retrying?) && cp in copies && copies[cp] == c.phase.x
    ensures t.delivered <= t'.delivered
    ensures Mirrors(t', Run(c, Turn(n)), copies) && sent == (|Run(c, Receives(n)).queue| < CAPACITY)
    ensures n == 0 ==> t' == if sent then t.(queue := t.queue + [cp]) else t
  {
    AfterTurn(c, n);
    t' := Drain(t, n, c, copies);
    t', sent := TrySend(t', cp, Run(c, Receives(n)), copies);
  }

  method DropTurn(t: Target, n: nat, ghost c: Channel, ghost copies: Copies) returns (t': Target)
    requires Mirrors(t, c, copies) && c.phase.Dropping?
    ensures t.delivered <= t'.delivered
    ensures Mirrors(t', Run(c, Turn(n)), copies)
    ensures n == 0 && |t.queue| > 0 ==> t' == t.(queue := t.queue[1..])
  {
    AfterTurn(c, n);
    t' := Drain(t, n, c, copies);
    t' := DropOldest(t', Run(c, Receives(n)), copies);
  }

  /** The phases of the second half of a Forward that found the queue full. */
  lemma DropThenRetry(c: Channel, p: Pauses)
    requires c.phase.Dropping?
    ensures var dropped := Run(c, Turn(p.beforeDrop)); var retried := Run(dropped, Turn(p.beforeRetry));
      && dropped.phase == Retrying(c.phase.x) && retried.phase == Idle && retried.forwarded == c.forwarded
  {
    AfterTurn(c, p.beforeDrop);
    AfterTurn(Run(c, Turn(p.beforeDrop)), p.beforeRetry);
  }

  method DropAndRetry(t: Target, cp: array<char>, p: Pauses, ghost c: Channel, ghost copies: Copies)
    returns (t': Target)
    requires Mirrors(t, c, copies) && c.phase.Dropping? && cp in copies && copies[cp] == c.phase.x
    ensures t.delivered <= t'.delivered
    ensures Mirrors(t', Run(Run(c, Turn(p.beforeDrop)), Turn(p.beforeRetry)), copies)
    ensures p == NO_PAUSE && |t.queue| == CAPACITY ==> t' == t.(queue := t.queue[1..] + [cp])
  {
    DropThenRetry(c, p);
    t' := DropTurn(t, p.beforeDrop, c, copies);
    ghost var dropped := Run(c, Turn(p.beforeDrop));
    var sent;
    t', sent := SendTurn(t', cp, p.beforeRetry, dropped, copies);
    assert p == NO_PAUSE ==> Run(dropped, Receives(0)) == dropped;
  }

  lemma NewestOneMore<T>(s: seq<T>, x: T)
    requires |s| <= CAPACITY
    ensures Newest(s + [x]) == if |s| < CAPACITY then s + [x] else s[1..] + [x]
  {
    if |s| == CAPACITY {
      assert (s + [x])[1..] == s[1..] + [x];
    }
  }

  /** The events of one whole Forward; after a successful first attempt there are no more. */
  function ForwardEvents(c: Channel, x: Datagram, p: Pauses): seq<Event> {
    var first := [Event.Forward(x)] + Turn(p.beforeSend);
    if Run(c, first).phase.Idle? then first else first + (Turn(p.beforeDrop) + Turn(p.beforeRetry))
  }

  lemma ForwardRun(c: Channel, x: Datagram, p: Pauses)
    ensures var sending := Apply(c, Event.Forward(x)); var tried := Run(sending, Turn(p.beforeSend));
      Run(c, ForwardEvents(c, x, p)) ==
      if tried.phase.Idle? then tried else Run(Run(tried, Turn(p.beforeDrop)), Turn(p.beforeRetry))
  {
    var sending := Apply(c, Event.Forward(x));
    var first := [Event.Forward(x)] + Turn(p.beforeSend);
    RunInParts(c, [Event.Forward(x)], Turn(p.beforeSend));
    assert Run(c, [Event.Forward(x)]) == sending;
    var tried := Run(sending, Turn(p.beforeSend));
    RunInParts(c, first, Turn(p.beforeDrop) + Turn(p.beforeRetry));
    RunInParts(tried, Turn(p.beforeDrop), Turn(p.beforeRetry));
  }

  /** Whatever the target does meanwhile, a Forward comes to its end. */
  lemma ForwardEnds(c: Channel, x: Datagram, p: Pauses)
    requires c.phase.Idle?
    ensures Run(c, ForwardEvents(c, x, p)).phase == Idle
    ensures Run(c, ForwardEvents(c, x, p)).forwarded == c.forwarded + [x]
  {
    var sending := Apply(c, Event.Forward(x));
    ForwardRun(c, x, p);
    AfterTurn(sending, p.beforeSend);
    var tried := Run(sending, Turn(p.beforeSend));
    if tried.phase.Dropping? {
      DropThenRetry(tried, p);
    }
  }

  method ForwardTo(t: Target, cp: array<char>, p: Pauses, ghost c: Channel, ghost copies: Copies) returns (t': Target)
    requires cp in copies && Mirrors(t, c, copies) && c.phase.Idle? && |c.queue| <= CAPACITY
    ensures t.delivered <= t'.delivered
    ensures Mirrors(t', Run(c, ForwardEvents(c, copies[cp], p)), copies)
    ensures p == NO_PAUSE ==> t' == t.(queue := Newest(t.queue + [cp]))
  {
    ghost var sending := Apply(c, Event.Forward(copies[cp]));
    ForwardRun(c, copies[cp], p);
    AfterTurn(sending, p.beforeSend);
    NewestOneMore(t.queue, cp);
    var sent;
    t', sent := SendTurn(t, cp, p.beforeSend, sending, copies);
    if !sent {
      t' := DropAndRetry(t', cp, p, Run(sending, Turn(p.beforeSend)), copies);
    }
  }

  /** A Forward that no target disturbs leaves the newest datagrams, its own included. */
  lemma ForwardUndisturbed(c: Channel, x: Datagram)
    requires c.phase.Idle? && |c.queue| <= CAPACITY
    ensures Run(c, ForwardEvents(c, x, NO_PAUSE)).queue == Newest(c.queue + [x])
    ensures Run(c, ForwardEvents(c, x, NO_PAUSE)).delivered == c.delivered
  {
    var sending := Apply(c, Event.Forward(x));
    ForwardRun(c, x, NO_PAUSE);
    AfterTurn(sending, 0);
    NewestOneMore(c.queue, x);
    var tried := Run(sending, Turn(0));
    assert Run(sending, Receives(0)) == sending;
    if tried.phase.Dropping? {
      var dropped := Run(tried, Turn(0));
      AfterTurn(tried, 0);
      AfterTurn(dropped, 0);
      assert Run(tried, Receives(0)) == tried && Run(dropped, Receives(0)) == dropped;
    }
  }

  /** A target between two Forwards. */
  ghost predicate Holds(t: Target, c: Channel, copies: Copies) {
    Mirrors(t, c, copies) && Inv(c) && c.phase.Idle?
  }

  /** The channel of a target after one more Forward. */
  function Next(c: Channel, x: Datagram, p: Pauses): Channel {
    Run(c, ForwardEvents(c, x, p))
  }

  lemma HeldWithMore(t: Target, c: Channel, copies: Copies, cp: array<char>, x: Datagram)
    requires Holds(t, c, copies) && cp !in copies
    ensures Holds(t, c, copies[cp := x])
  {}

  method ServeTarget(t: Target, cp: array<char>, p: Pauses, ghost c: Channel, ghost copies: Copies) returns (t': Target)
    requires Holds(t, c, copies) && cp in copies
    ensures Holds(t', StepFor(copies[cp])(c, p), copies) && t.delivered <= t'.delivered
  {
    t' := ForwardTo(t, cp, p, c, copies);
    ForwardEnds(c, copies[cp], p);
    RunKeepsInv(c, ForwardEvents(c, copies[cp], p));
  }

  function Taken(c: Channel): Channel {
    Apply(c, Event.Receive)
  }

  method TakeHeld(t: Target, ghost c: Channel, ghost copies: Copies) returns (t': Target)
    requires Holds(t, c, copies)
    ensures Holds(t', Taken(c), copies) && t.delivered <= t'.delivered
  {
    ReceiveKeepsInv(c);
    t' := TakeOne(t, c, copies);
  }

  // ----- all targets

  ghost predicate AllHold(targets: seq<Target>, channels: seq<Channel>, copies: Copies) {
    |channels| == |targets| && forall i :: 0 <= i < |targets| ==> Holds(targets[i], channels[i], copies)
  }

  lemma AllHeldWithMore(targets: seq<Target>, channels: seq<Channel>, copies: Copies, cp: array<char>, x: Datagram)
    requires AllHold(targets, channels, copies) && cp !in copies
    ensures AllHold(targets, channels, copies[cp := x])
  {
    forall i | 0 <= i < |targets| ensures Holds(targets[i], channels[i], copies[cp := x]) {
      HeldWithMore(targets[i], channels[i], copies, cp, x);
    }
  }

  type Step = (Channel, Pauses) -> Channel

  /** One more Forward of `x`, as a function of what the target does meanwhile. */
  function StepFor(x: Datagram): Step {
    (c, p) => Next(c, x, p)
  }

  /** Every channel has made its step. */
  ghost predicate AllStepped(before: seq<Channel>, after: seq<Channel>, step: Step, pauses: seq<Pauses>) {
    |after| == |before| <= |pauses| && forall i :: 0 <= i < |before| ==> after[i] == step(before[i], pauses[i])
  }

  /** What a target has taken is never taken back. */
  predicate AllKeep(before: seq<Target>, after: seq<Target>) {
    |after| == |before| && forall i :: 0 <= i < |before| ==> before[i].delivered <= after[i].delivered
  }

  /** The first `i` targets have been served. */
  ghost predicate Served(before: seq<Target>, channels: seq<Channel>, i: nat, after: seq<Target>,
                         channels': seq<Channel>, step: Step, pauses: seq<Pauses>, copies: Copies)
    requires i <= |before| == |channels|
  {
    && AllHold(after, channels', copies)
    && AllStepped(channels[..i], channels', step, pauses) && AllKeep(before[..i], after)
  }

  lemma HoldMore(targets: seq<Target>, channels: seq<Channel>, copies: Copies, t: Target, c: Channel)
    requires AllHold(targets, channels, copies) && Holds(t, c, copies)
    ensures AllHold(targets + [t], channels + [c], copies)
  {
    forall i | 0 <= i < |targets + [t]| ensures Holds((targets + [t])[i], (channels + [c])[i], copies) {
      if i < |targets| {
        assert Holds(targets[i], channels[i], copies);
      }
    }
  }

  lemma SteppedMore(channels: seq<Channel>, i: nat, after: seq<Channel>, step: Step, pauses: seq<Pauses>)
    requires i < |channels| == |pauses| && AllStepped(channels[..i], after, step, pauses)
    ensures AllStepped(channels[..i + 1], after + [step(channels[i], pauses[i])], step, pauses)
  {}

  lemma KeepMore(targets: seq<Target>, i: nat, after: seq<Target>, t: Target)
    requires i < |targets| && AllKeep(targets[..i], after) && targets[i].delivered <= t.delivered
    ensures AllKeep(targets[..i + 1], after + [t])
  {}

  lemma ServedMore(before: seq<Target>, channels: seq<Channel>, i: nat, after: seq<Target>, channels': seq<Channel>,
                   step: Step, pauses: seq<Pauses>, copies: Copies, t: Target)
    requires i < |before| == |channels| == |pauses|
    requires Served(before, channels, i, after, channels', step, pauses, copies)
    requires Holds(t, step(channels[i], pauses[i]), copies) && before[i].delivered <= t.delivered
    ensures Served(before, channels, i + 1, after + [t], channels' + [step(channels[i], pauses[i])], step, pauses,
                   copies)
  {
    HoldMore(after, channels', copies, t, step(channels[i], pauses[i]));
    SteppedMore(channels, i, channels', step, pauses);
    KeepMore(before, i, after, t);
  }

  /** One copy for every target, one after the other; none waits for another. */
  method ServeAll(targets: seq<Target>, cp: array<char>, pauses: seq<Pauses>,
                  ghost channels: seq<Channel>, ghost copies: Copies)
    returns (targets': seq<Target>, ghost channels': seq<Channel>)
    requires AllHold(targets, channels, copies) && cp in copies && |pauses| == |targets|
    ensures AllHold(targets', channels', copies)
    ensures AllStepped(channels, channels', StepFor(copies[cp]), pauses) && AllKeep(targets, targets')
  {
    targets', channels' := [], [];
    ghost var step := StepFor(copies[cp]);
    for i := 0 to |targets|
      invariant Served(targets, channels, i, targets', channels', step, pauses, copies)
    {
      var t := ServeTarget(targets[i], cp, pauses[i], channels[i], copies);
      ServedMore(targets, channels, i, targets', channels', step, pauses, copies, t);
      targets', channels' := targets' + [t], channels' + [step(channels[i], pauses[i])];
    }
    assert targets[..|targets|] == targets && channels[..|targets|] == channels;
  }

  lemma HoldOne(targets: seq<Target>, channels: seq<Channel>, copies: Copies, i: nat, t: Target, c: Channel)
    requires AllHold(targets, channels, copies) && i < |targets| && Holds(t, c, copies)
    requires targets[i].delivered <= t.delivered
    ensures AllHold(targets[i := t], channels[i := c], copies) && AllKeep(targets, targets[i := t])
  {
    var ts, cs := targets[i := t], channels[i := c];
    forall k | 0 <= k < |ts| ensures Holds(ts[k], cs[k], copies) {
      if k != i {
        assert Holds(targets[k], channels[k], copies);
      }
    }
  }

  // ----- the receive loop

  /** What a buffer of this size receives of a packet. */
  function Cut(packet: Datagram, size: nat): Datagram {
    if |packet| <= size then packet else packet[..size]
  }

  function Received(packets: seq<Datagram>, size: nat): (data: seq<Datagram>)
    ensures |data| == |packets|
    ensures forall k :: 0 <= k < |packets| ==> data[k] == Cut(packets[k], size)
  {
    seq(|packets|, k requires 0 <= k < |packets| => Cut(packets[k], size))
  }

  lemma OneMoreReceived(packets: seq<Datagram>, k: nat, size: nat)
    requires k < |packets|
    ensures Received(packets[..k + 1], size) == Received(packets[..k], size) + [Cut(packets[k], size)]
  {}

  method CopyOf(data: array<char>, n: nat) returns (cp: array<char>)
    requires n <= data.Length
    ensures fresh(cp) && cp[..] == data[..n]
  {
    cp := new char[n];
    forall k | 0 <= k < n {
      cp[k] := data[k];
    }
  }

  /** Every channel has been given `data` in addition. */
  ghost predicate Heard(before: seq<Channel>, now: seq<Channel>, data: seq<Datagram>) {
    |now| == |before| && forall i :: 0 <= i < |now| ==> now[i].forwarded == before[i].forwarded + data
  }

  /** No Forward is under way on any channel. */
  ghost predicate AllIdle(channels: seq<Channel>) {
    forall i :: 0 <= i < |channels| ==> channels[i].phase.Idle? && |channels[i].queue| <= CAPACITY
  }

  lemma HeldAreIdle(targets: seq<Target>, channels: seq<Channel>, copies: Copies)
    requires AllHold(targets, channels, copies)
    ensures AllIdle(channels)
  {
    forall i | 0 <= i < |channels| ensures channels[i].phase.Idle? && |channels[i].queue| <= CAPACITY {
      assert Holds(targets[i], channels[i], copies);
    }
  }

  lemma NextHears(c: Channel, x: Datagram, p: Pauses, before: seq<Datagram>, data: seq<Datagram>)
    requires c.phase.Idle? && c.forwarded == before + data
    ensures Next(c, x, p).forwarded == before + (data + [x])
  {
    ForwardEnds(c, x, p);
    Assoc(before, data, [x]);
  }

  lemma HeardMore(before: seq<Channel>, now: seq<Channel>, after: seq<Channel>,
                  data: seq<Datagram>, x: Datagram, pauses: seq<Pauses>)
    requires AllIdle(now) && Heard(before, now, data) && AllStepped(now, after, StepFor(x), pauses)
    ensures Heard(before, after, data + [x])
  {
    forall i | 0 <= i < |after| ensures after[i].forwarded == before[i].forwarded + (data + [x]) {
      NextHears(now[i], x, pauses[i], before[i].forwarded, data);
      assert after[i] == StepFor(x)(now[i], pauses[i]);
    }
  }

  type Schedule = seq<seq<Pauses>>

  /** Target `i` takes nothing during the first `k` Forwards. */
  predicate Stalled(schedule: Schedule, i: nat, k: nat) {
    k <= |schedule| && forall j :: 0 <= j < k ==> i < |schedule[j]| && schedule[j][i] == NO_PAUSE
  }

  /** A target that has stalled is left with the newest of what it had and what came. */
  ghost predicate Piled(before: seq<Channel>, now: seq<Channel>, data: seq<Datagram>, schedule: Schedule, k: nat) {
    |now| == |before| && forall i :: 0 <= i < |now| && Stalled(schedule, i, k) ==> PiledAt(before[i], now[i], data)
  }

  predicate PiledAt(before: Channel, now: Channel, data: seq<Datagram>) {
    now.queue == Newest(before.queue + data) && now.delivered == before.delivered
  }

  lemma PileOne(before: Channel, now: Channel, data: seq<Datagram>, x: Datagram)
    requires PiledAt(before, now, data) && now.phase.Idle? && |now.queue| <= CAPACITY
    ensures PiledAt(before, Next(now, x, NO_PAUSE), data + [x])
  {
    ForwardUndisturbed(now, x);
    NewestInParts(before.queue + data, [x]);
    assert before.queue + (data + [x]) == before.queue + data + [x];
  }

  lemma PiledMore(before: seq<Channel>, now: seq<Channel>, after: seq<Channel>,
                  data: seq<Datagram>, x: Datagram, schedule: Schedule, k: nat)
    requires AllIdle(now) && k < |schedule| && Piled(before, now, data, schedule, k)
    requires AllStepped(now, after, StepFor(x), schedule[k])
    ensures Piled(before, after, data + [x], schedule, k + 1)
  {
    forall i | 0 <= i < |after| && Stalled(schedule, i, k + 1) ensures PiledAt(before[i], after[i], data + [x]) {
      assert Stalled(schedule, i, k) && schedule[k][i] == NO_PAUSE;
      PileOne(before[i], now[i], data, x);
      assert after[i] == StepFor(x)(now[i], schedule[k][i]);
    }
  }

  lemma NothingYet(channels: seq<Channel>, schedule: Schedule, none: seq<Datagram>)
    requires AllIdle(channels) && none == []
    ensures Heard(channels, channels, none) && Piled(channels, channels, none, schedule, 0)
  {
    forall i | 0 <= i < |channels| ensures channels[i].forwarded == channels[i].forwarded + none
      ensures PiledAt(channels[i], channels[i], none)
    {
      assert channels[i].queue + none == channels[i].queue;
    }
  }

  // ----- the bytes that are read in the end

  ghost function Contents(queue: seq<array<char>>): (bytes: seq<Datagram>)
    reads queue
    ensures |bytes| == |queue|
    ensures forall j :: 0 <= j < |queue| ==> bytes[j] == queue[j][..]
  {
    seq(|queue|, j requires 0 <= j < |queue| reads queue => queue[j][..])
  }

  /**
   The arrays that were delivered and those that wait hold what was forwarded, in
   order, short of the lost datagrams.
   */
  ghost predicate Accounts(t: Target, c: Channel)
    reads t.delivered, t.queue
  {
    Shuffle(Contents(t.delivered) + Contents(t.queue), c.lost, c.forwarded)
  }

  lemma HeldIsAccounted(t: Target, c: Channel, copies: Copies)
    requires Intact(copies) && Holds(t, c, copies)
    ensures Accounts(t, c)
  {
    assert Contents(t.delivered) == Bytes(t.delivered, copies);
    assert Contents(t.queue) == Bytes(t.queue, copies);
    ShuffleAll(c.delivered, c.lost, Settled(c), Open(c));
    assert Open(c) == c.queue;
  }

  lemma AllAccounted(targets: seq<Target>, channels: seq<Channel>, copies: Copies)
    requires Intact(copies) && AllHold(targets, channels, copies)
    ensures |channels| == |targets| && forall i :: 0 <= i < |targets| ==> Accounts(targets[i], channels[i])
  {
    forall i | 0 <= i < |targets| ensures Accounts(targets[i], channels[i]) {
      HeldIsAccounted(targets[i], channels[i], copies);
    }
  }

  class Forwarder {
    var targets: seq<Target>
    /** The channel of each target with its history. */
    ghost var channels: seq<Channel>
    ghost var copies: Copies

    ghost predicate Valid()
      reads this, copies.Keys
    {
      Intact(copies) && AllHold(targets, channels, copies)
    }

    constructor (n: nat)
      ensures Valid() && copies == map[] && |targets| == n
      ensures forall i :: 0 <= i < n ==> channels[i] == EMPTY
    {
      targets := seq(n, i => NEW_TARGET);
      channels := seq(n, i => EMPTY);
      copies := map[];
    }

    /** The goroutine of target `i` receives while no Forward is under way. */
    method Deliver(i: nat)
      requires Valid() && i < |targets|
      modifies this
      ensures Valid() && copies == old(copies) && AllKeep(old(targets), targets)
      ensures channels == old(channels)[i := Taken(old(channels)[i])]
    {
      var t := TakeHeld(targets[i], channels[i], copies);
      HoldOne(targets, channels, copies, i, t, Taken(channels[i]));
      channels := channels[i := Taken(channels[i])];
      targets := targets[i := t];
    }

    /**
     Queues the first `n` bytes of `data` for every target without waiting for any;
     meanwhile each target takes what `pauses` says.
     */
    method Forward(data: array<char>, n: nat, pauses: seq<Pauses>)
      requires Valid() && n <= data.Length && |pauses| == |targets|
      modifies this
      ensures Valid() && AllKeep(old(targets), targets)
      ensures old(copies).Keys <= copies.Keys && fresh(copies.Keys - old(copies).Keys)
      ensures forall cp :: cp in old(copies) ==> copies[cp] == old(copies)[cp]
      ensures AllStepped(old(channels), channels, StepFor(data[..n]), pauses)
    {
      if |targets| == 0 {
        return;
      }
      var cp := CopyOf(data, n);
      AllHeldWithMore(targets, channels, copies, cp, data[..n]);
      copies := copies[cp := data[..n]];
      targets, channels := ServeAll(targets, cp, pauses, channels, copies);
    }

    /**
     The receive loop of the UDP transport: every datagram arrives in the same
     buffer, cut to its length.  Whatever each target takes meanwhile, its arrays
     hold the bytes as they were received, those taken long ago included.
     */
    method Listen(packets: seq<Datagram>, buffer: array<char>, schedule: Schedule)
      requires Valid() && buffer !in copies && |schedule| == |packets|
      requires forall k :: 0 <= k < |schedule| ==> |schedule[k]| == |targets|
      modifies this, buffer
      ensures Valid() && AllKeep(old(targets), targets)
      ensures Heard(old(channels), channels, Received(packets, buffer.Length))
      ensures Piled(old(channels), channels, Received(packets, buffer.Length), schedule, |packets|)
      ensures forall i :: 0 <= i < |targets| ==> Accounts(targets[i], channels[i])
    {
      hide AllHold, Heard, Piled, StepFor, AllStepped, Received, Accounts;
      ghost var before, size := channels, buffer.Length;
      HeldAreIdle(targets, channels, copies);
      NothingYet(channels, schedule, Received(packets[..0], size));
      var k := 0;
      while k < |packets|
        invariant 0 <= k <= |packets| && Valid() && buffer !in copies
        invariant AllKeep(old(targets), targets) && Heard(before, channels, Received(packets[..k], size))
        invariant Piled(before, channels, Received(packets[..k], size), schedule, k)
      {
        ghost var now := channels;
        HeldAreIdle(targets, channels, copies);
        ghost var done, x := Received(packets[..k], size), Cut(packets[k], size);
        var n := if |packets[k]| <= buffer.Length then |packets[k]| else buffer.Length;
        forall j | 0 <= j < n {
          buffer[j] := packets[k][j];
        }
        assert buffer[..n] == x;
        Forward(buffer, n, schedule[k]);
        HeardMore(before, now, channels, done, x, schedule[k]);
        PiledMore(before, now, channels, done, x, schedule, k);
        OneMoreReceived(packets, k, size);
        k := k + 1;
      }
      assert packets[..k] == packets;
      AllAccounted(targets, channels, copies);
    }
  }
}
