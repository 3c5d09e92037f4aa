/**
 The network console: sessions that dial, authenticate, enable the output of packets
 and read until something fails, and the reconnect loop around them with exponential
 backoff and jitter, reset by a session that stayed connected long enough.  Delays are 64-bit
 durations, so every multiplication and addition must be in range; the retry
 counter is an unsigned 64-bit number that wraps around.
 */
module Backoff {
  import opened Text
  import D = ConsoleDecoder

  const MAX_DURATION := 0x7fff_ffff_ffff_ffff
  const RETRY_COUNTS := 0x1_0000_0000_0000_0000

  newtype Duration = d: int | -MAX_DURATION - 1 <= d <= MAX_DURATION

  datatype Config = Config(initial: Duration, maximum: Duration, stableAfter: Duration, maxRecordBytes: nat) {
    predicate Valid() {
      0 < initial <= maximum && 0 < stableAfter && 0 < maxRecordBytes
    }
  }

  // ----- one session

  datatype ReadError = EndOfFile | Broken(cause: string)

  /** One read: its bytes, the failure that a writer has reported by then, and the error of the read itself. */
  datatype Read = Read(bytes: string, failure: Option<string>, error: Option<ReadError>)

  predicate Stops(r: Read) {
    r.failure.Some? || r.error.Some?
  }

  /**
   What the network does in one session: the errors of its steps, if any, what the
   clock shows when the session is established and when it is over, and the reads.
   */
  datatype Network = Network(
    dial: Option<string>,
    auth: Option<string>,
    enable: Option<string>,
    connectedAt: int,
    endedAt: int,
    chunks: seq<Read>)

  predicate Established(n: Network) {
    n.dial.None? && n.auth.None? && n.enable.None?
  }

  /** An established session goes on until the first read that stops it. */
  predicate Ends(n: Network) {
    Established(n) ==>
      && n.chunks != [] && Stops(n.chunks[|n.chunks| - 1])
      && forall i :: 0 <= i < |n.chunks| - 1 ==> !Stops(n.chunks[i])
  }

  /** A difference of clock readings, kept within the range of durations. */
  function Elapsed(from: int, to: int): Duration {
    if to - from > MAX_DURATION then MAX_DURATION as Duration
    else if to - from < -MAX_DURATION - 1 then (-MAX_DURATION - 1) as Duration
    else (to - from) as Duration
  }

  function Connected(n: Network): Duration {
    if Established(n) then Elapsed(n.connectedAt, n.endedAt) else 0
  }

  /** The error of the first step that failed; of a read, a writer's failure comes first. */
  function SessionError(n: Network): string
    requires Ends(n)
  {
    if n.dial.Some? then "connect netconsole: " + n.dial.value
    else if n.auth.Some? then n.auth.value
    else if n.enable.Some? then "enable netconsole packet output: " + n.enable.value
    else StopError(n.chunks[|n.chunks| - 1])
  }

  function StopError(r: Read): string
    requires Stops(r)
  {
    if r.failure.Some? then r.failure.value
    else if r.error.value.EndOfFile? then "EOF"
    else "read netconsole: " + r.error.value.cause
  }

  function Chunks(chunks: seq<Read>): (texts: seq<string>)
    ensures |texts| == |chunks|
  {
    seq(|chunks|, i requires 0 <= i < |chunks| => chunks[i].bytes)
  }

  lemma OneMoreChunk(chunks: seq<Read>, i: nat)
    requires i < |chunks|
    ensures D.Join(Chunks(chunks[..i + 1])) == D.Join(Chunks(chunks[..i])) + chunks[i].bytes
  {
    assert Chunks(chunks[..i + 1])[..i] == Chunks(chunks[..i]);
  }

  predicate IsStable(config: Config, n: Network) {
    Connected(n) >= config.stableAfter
  }

  /** A session that was established and lasted long enough by its clock readings. */
  predicate LastedLong(config: Config, n: Network) {
    n.dial.None? && n.auth.None? && n.enable.None? && n.endedAt - n.connectedAt >= config.stableAfter as int
  }

  /** By the clock: a session is stable if and only if it was established and lasted long enough. */
  lemma StableIff(config: Config, n: Network)
    requires config.Valid()
    ensures IsStable(config, n) <==> LastedLong(config, n)
  {}

  // ----- delays

  function NextDelay(current: Duration, maximum: Duration): (next: Duration)
    requires 0 < current && 0 < maximum
    ensures 0 < next && next as int == Min(2 * current as int, maximum as int)
  {
    if current >= maximum || current > maximum / 2 then maximum else current * 2
  }

  /** A draw stands for the random number; it is reduced to the range asked for. */
  function JitterDelay(delay: Duration, draw: nat): (wait: Duration)
    requires 0 <= delay
    ensures delay / 2 <= wait <= delay
  {
    if delay <= 1 then delay else delay / 2 + (draw % (delay as int / 2 + 1)) as Duration
  }

  function Min(a: int, b: int): int {
    if a <= b then a else b
  }

  function Pow2(n: nat): (p: nat)
    ensures p >= 1
  {
    if n == 0 then 1 else 2 * Pow2(n - 1)
  }

  /** The closed form of the base delay. */
  function Base(config: Config, failures: nat): int {
    Min(config.initial as int * Pow2(failures), config.maximum as int)
  }

  lemma BaseStart(config: Config)
    requires config.Valid()
    ensures Base(config, 0) == config.initial as int
  {
    assert Pow2(0) == 1;
  }

  /** One more failure doubles the base delay, up to the maximum. */
  lemma BaseNext(config: Config, n: nat)
    requires config.Valid()
    ensures 0 < Base(config, n) <= config.maximum as int
    ensures Base(config, n + 1) == Min(2 * Base(config, n), config.maximum as int)
  {
    var initial, p := config.initial as int, Pow2(n);
    assert initial * (2 * p) == 2 * (initial * p);
    assert initial * p >= 1;
  }

  lemma NextIsClosedForm(config: Config, delay: Duration, failures: nat)
    requires config.Valid() && delay as int == Base(config, failures) && 0 < delay
    ensures NextDelay(delay, config.maximum) as int == Base(config, failures + 1)
  {
    BaseNext(config, failures);
  }

  /** The base delay grows with the failures, and stays at the maximum once there. */
  lemma {:induction false} BaseGrows(config: Config, k: nat, n: nat)
    requires config.Valid() && k <= n
    ensures Base(config, k) <= Base(config, n) <= config.maximum as int
    ensures n - k >= 1 && Base(config, n) < config.maximum as int ==> Base(config, n) >= 2 * Base(config, k)
    decreases n - k
  {
    BaseNext(config, n);
    if k < n {
      BaseGrows(config, k, n - 1);
      BaseNext(config, n - 1);
    }
  }

  lemma SmallRemainder(n: nat, m: nat)
    requires n < m
    ensures n % m == n
  {}

  /** Every wait between half the delay and the delay can occur. */
  lemma JitterReaches(delay: Duration, wait: Duration)
    requires 1 < delay && delay / 2 <= wait <= delay / 2 + delay / 2
    ensures JitterDelay(delay, (wait - delay / 2) as int) == wait
  {
    var draw := (wait - delay / 2) as int;
    SmallRemainder(draw, delay as int / 2 + 1);
  }

  /** The last stable session up to session `i`, or the first session if there is none. */
  function LastReset(config: Config, sessions: seq<Network>, i: nat): (m: nat)
    requires i < |sessions|
    ensures m <= i && (m == 0 || IsStable(config, sessions[m]))
    ensures forall k :: m < k <= i ==> !IsStable(config, sessions[k])
  {
    if i == 0 || IsStable(config, sessions[i]) then i else LastReset(config, sessions, i - 1)
  }

  /** A session that was never established does not reset the delay, however many there are. */
  lemma {:induction false} FailedSessionsNeverReset(config: Config, sessions: seq<Network>, k: nat, i: nat)
    requires config.Valid() && k <= i < |sessions|
    requires forall j :: k < j <= i ==> !Established(sessions[j])
    ensures LastReset(config, sessions, i) == LastReset(config, sessions, k)
    decreases i
  {
    if k < i {
      FailedSessionsNeverReset(config, sessions, k, i - 1);
    }
  }

  /** The unsigned 64-bit counter after one more failure. */
  function Incremented(count: nat): nat {
    if count + 1 == RETRY_COUNTS then 0 else count + 1
  }

  /** The number of failed sessions as the retry counter shows it: modulo its range. */
  function Count(failed: nat): nat {
    failed % RETRY_COUNTS
  }

  lemma CountNext(failed: nat)
    ensures Count(failed + 1) == Incremented(Count(failed))
  {}

  datatype State = Disconnected | Connecting | Live | Degraded | Stopped

  datatype Status = Status(state: State, retryCount: nat, lastError: string)

  /** Where a run is when its context is cancelled, after the given sessions have failed. */
  datatype Ending = BeforeSession | InSession | InWait

  /** Every base delay is the closed form of the failures since the last reset. */
  predicate InClosedForm(config: Config, sessions: seq<Network>, bases: seq<Duration>)
    requires |bases| <= |sessions|
  {
    forall i :: 0 <= i < |bases| ==> bases[i] as int == Base(config, i - LastReset(config, sessions, i))
  }

  predicate Jittered(bases: seq<Duration>, waits: seq<Duration>) {
    && |waits| == |bases|
    && forall i :: 0 <= i < |bases| ==> 0 < bases[i] && bases[i] / 2 <= waits[i] <= bases[i]
  }

  /** While waiting, the status counts the failed sessions and shows the last error. */
  predicate Reported(sessions: seq<Network>, reports: seq<Status>) {
    && |reports| <= |sessions|
    && forall i :: 0 <= i < |reports| ==>
         Ends(sessions[i]) && reports[i] == Status(Degraded, Count(i + 1), SessionError(sessions[i]))
  }

  /** The delay with which session `k` starts, before a reset. */
  predicate DelayBefore(config: Config, sessions: seq<Network>, k: nat, delay: Duration)
    requires k <= |sessions|
  {
    && 0 < delay
    && delay as int == if k == 0 then Base(config, 0) else Base(config, k - LastReset(config, sessions, k - 1))
  }

  lemma ResetOrNot(config: Config, sessions: seq<Network>, k: nat, before: Duration, delay: Duration)
    requires config.Valid() && k < |sessions| && DelayBefore(config, sessions, k, before)
    requires delay == if IsStable(config, sessions[k]) then config.initial else before
    ensures 0 < delay && delay as int == Base(config, k - LastReset(config, sessions, k))
    ensures DelayBefore(config, sessions, k + 1, NextDelay(delay, config.maximum))
  {
    hide Base, Pow2, NextDelay;
    BaseStart(config);
    var m := LastReset(config, sessions, k);
    if k == 0 || IsStable(config, sessions[k]) {
      assert m == k;
    } else {
      assert m == LastReset(config, sessions, k - 1);
    }
    NextIsClosedForm(config, delay, k - m);
  }

  /**
   The base delay after session `i`: the initial one after a long session, else twice the last
   one, up to the maximum.
   */
  function DelayNow(config: Config, sessions: seq<Network>, bases: seq<Duration>, i: nat): int
    requires i < |sessions| == |bases|
  {
    if i == 0 || LastedLong(config, sessions[i]) then config.initial as int
    else if 2 * bases[i - 1] as int <= config.maximum as int then 2 * bases[i - 1] as int
    else config.maximum as int
  }

  lemma ClosedIsStepwise(config: Config, sessions: seq<Network>, bases: seq<Duration>)
    requires config.Valid() && |bases| == |sessions| && InClosedForm(config, sessions, bases)
    ensures forall i :: 0 <= i < |sessions| ==> bases[i] as int == DelayNow(config, sessions, bases, i)
  {
    forall i | 0 <= i < |sessions| ensures bases[i] as int == DelayNow(config, sessions, bases, i) {
      OneStep(config, sessions, bases, i);
    }
  }

  lemma OneStep(config: Config, sessions: seq<Network>, bases: seq<Duration>, i: nat)
    requires config.Valid() && i < |bases| == |sessions| && InClosedForm(config, sessions, bases)
    ensures bases[i] as int == DelayNow(config, sessions, bases, i)
  {
    hide Base, IsStable;
    StableIff(config, sessions[i]);
    BaseStart(config);
    if i > 0 && !LastedLong(config, sessions[i]) {
      assert bases[i - 1] as int == Base(config, i - 1 - LastReset(config, sessions, i - 1));
      BaseNext(config, i - 1 - LastReset(config, sessions, i - 1));
    }
  }

  /** The bases, waits and reports of the first sessions. */
  ghost predicate Progress(config: Config, sessions: seq<Network>, reports: seq<Status>,
                           bases: seq<Duration>, waits: seq<Duration>) {
    && |reports| == |bases| <= |sessions|
    && InClosedForm(config, sessions, bases) && Jittered(bases, waits) && Reported(sessions, reports)
  }

  lemma NoSessionYet(config: Config, sessions: seq<Network>)
    requires config.Valid()
    ensures Progress(config, sessions, [], [], []) && DelayBefore(config, sessions, 0, config.initial) && Count(0) == 0
  {
    BaseStart(config);
  }

  lemma ProgressMore(config: Config, sessions: seq<Network>, reports: seq<Status>, bases: seq<Duration>,
                     waits: seq<Duration>, report: Status, delay: Duration, wait: Duration)
    requires Progress(config, sessions, reports, bases, waits) && |bases| < |sessions| && Ends(sessions[|bases|])
    requires report == Status(Degraded, Count(|bases| + 1), SessionError(sessions[|bases|]))
    requires delay as int == Base(config, |bases| - LastReset(config, sessions, |bases|))
    requires 0 < delay && delay / 2 <= wait <= delay
    ensures Progress(config, sessions, reports + [report], bases + [delay], waits + [wait])
  {
    hide InClosedForm, Jittered, Base, LastReset, SessionError, Count, Ends;
    ClosedMore(config, sessions, bases, delay);
    JitteredMore(bases, waits, delay, wait);
    JitteredLength(bases, waits);
  }

  lemma ClosedMore(config: Config, sessions: seq<Network>, bases: seq<Duration>, delay: Duration)
    requires |bases| < |sessions| && InClosedForm(config, sessions, bases)
    requires delay as int == Base(config, |bases| - LastReset(config, sessions, |bases|))
    ensures InClosedForm(config, sessions, bases + [delay])
  {}

  lemma JitteredLength(bases: seq<Duration>, waits: seq<Duration>)
    requires Jittered(bases, waits)
    ensures |waits| == |bases|
  {}

  lemma JitteredMore(bases: seq<Duration>, waits: seq<Duration>, delay: Duration, wait: Duration)
    requires Jittered(bases, waits) && 0 < delay && delay / 2 <= wait <= delay
    ensures Jittered(bases + [delay], waits + [wait])
  {}

  lemma StoppedAt(chunks: seq<Read>, i: nat)
    requires i < |chunks| && Stops(chunks[i])
    requires forall j :: 0 <= j < |chunks| - 1 ==> !Stops(chunks[j])
    ensures i == |chunks| - 1 && chunks[..i + 1] == chunks
  {}

  /** The reads of an established session: every chunk goes through the session's own decoder. */
  method ReadUntilStopped(d: D.Decoder, chunks: seq<Read>) returns (error: string, payloads: seq<array<char>>)
    requires d.Valid() && d.fed == "" && chunks != [] && Stops(chunks[|chunks| - 1])
    requires forall i :: 0 <= i < |chunks| - 1 ==> !Stops(chunks[i])
    modifies d, d.record
    ensures error == StopError(chunks[|chunks| - 1])
    ensures D.Texts(payloads) == D.Payloads(D.Join(Chunks(chunks)), d.maxRecordBytes)
  {
    payloads := [];
    var errors := [];
    D.NothingYet(d.maxRecordBytes);
    for i := 0 to |chunks|
      invariant D.Collected(d, payloads, errors) && d.fed == D.Join(Chunks(chunks[..i]))
      invariant forall j :: 0 <= j < i ==> !Stops(chunks[j])
    {
      var r := chunks[i];
      OneMoreChunk(chunks, i);
      payloads, errors := D.FeedNext(d, payloads, errors, r.bytes);
      if r.failure.Some? {
        StoppedAt(chunks, i);
        return r.failure.value, payloads;
      }
      if r.error.Some? {
        StoppedAt(chunks, i);
        return StopError(r), payloads;
      }
    }
    assert false;
  }

  class Bridge {
    const config: Config
    var status: Status

    constructor (config: Config)
      requires config.Valid()
      ensures this.config == config && status == Status(Disconnected, 0, "")
    {
      this.config := config;
      status := Status(Disconnected, 0, "");
    }

    /**
     One session.  Only an established one takes time that counts, and it hands on
     exactly the payloads of the stream it read.
     */
    method RunSession(n: Network) returns (connected: Duration, error: string, payloads: seq<array<char>>)
      requires config.Valid() && Ends(n)
      modifies this
      ensures !Established(n) ==> connected == 0 && payloads == [] && status == old(status)
      ensures Established(n) ==>
        && connected == Elapsed(n.connectedAt, n.endedAt) && status == old(status).(state := Live, lastError := "")
        && D.Texts(payloads) == D.Payloads(D.Join(Chunks(n.chunks)), config.maxRecordBytes)
      ensures error == SessionError(n)
    {
      if n.dial.Some? {
        return 0, "connect netconsole: " + n.dial.value, [];
      }
      if n.auth.Some? {
        return 0, n.auth.value, [];
      }
      var d := new D.Decoder(config.maxRecordBytes);
      if n.enable.Some? {
        return 0, "enable netconsole packet output: " + n.enable.value, [];
      }
      status := status.(state := Live, lastError := "");
      error, payloads := ReadUntilStopped(d, n.chunks);
      connected := Elapsed(n.connectedAt, n.endedAt);
    }

    /** One connection attempt and the report of its failure. */
    method Attempt(n: Network, retryCount: nat) returns (connected: Duration, count: nat)
      requires config.Valid() && Ends(n)
      modifies this
      ensures connected == Connected(n) && count == Incremented(retryCount)
      ensures status == Status(Degraded, count, SessionError(n))
    {
      status := status.(state := Connecting, retryCount := retryCount);
      var error, payloads;
      connected, error, payloads := RunSession(n);
      count := Incremented(retryCount);
      status := Status(Degraded, count, error);
    }

    /** The delay after a session, reset if the session was stable, and the wait that jitter makes of it. */
    method DelayAndWait(n: Network, connected: Duration, before: Duration, draw: nat, ghost sessions: seq<Network>,
                        ghost k: nat)
      returns (delay: Duration, wait: Duration)
      requires config.Valid() && k < |sessions| && n == sessions[k] && connected == Connected(n)
      requires DelayBefore(config, sessions, k, before)
      ensures 0 < delay && delay as int == Base(config, k - LastReset(config, sessions, k))
      ensures DelayBefore(config, sessions, k + 1, NextDelay(delay, config.maximum))
      ensures delay / 2 <= wait <= delay
    {
      delay := before;
      if connected >= config.stableAfter {
        delay := config.initial;
      }
      ResetOrNot(config, sessions, k, before, delay);
      wait := JitterDelay(delay, draw);
    }

    /** One round of the loop, up to its wait. */
    method Round(sessions: seq<Network>, k: nat, draw: nat, before: Duration, retryCount: nat,
                 reports: seq<Status>, bases: seq<Duration>, waits: seq<Duration>)
      returns (delay: Duration, count: nat, reports': seq<Status>, bases': seq<Duration>, waits': seq<Duration>)
      requires config.Valid() && Progress(config, sessions, reports, bases, waits) && |bases| == k < |sessions|
      requires Ends(sessions[k]) && retryCount == Count(k) && DelayBefore(config, sessions, k, before)
      modifies this
      ensures Progress(config, sessions, reports', bases', waits') && |bases'| == k + 1
      ensures count == Count(k + 1) && status.retryCount == count
      ensures 0 < delay && DelayBefore(config, sessions, k + 1, NextDelay(delay, config.maximum))
    {
      var connected, wait;
      hide Count, DelayBefore, Progress, Base;
      CountNext(k);
      connected, count := Attempt(sessions[k], retryCount);
      delay, wait := DelayAndWait(sessions[k], connected, before, draw, sessions, k);
      ProgressMore(config, sessions, reports, bases, waits, status, delay, wait);
      reports', bases', waits' := reports + [status], bases + [delay], waits + [wait];
    }

    /**
     One run of the reconnect loop.  `reports` are the statuses shown while waiting,
     `bases` the delays before jitter and `waits` those after it.
     */
    method Run(sessions: seq<Network>, draws: seq<nat>, ending: Ending)
        returns (reports: seq<Status>, bases: seq<Duration>, waits: seq<Duration>)
      requires config.Valid() && |draws| == |sessions| && forall i :: 0 <= i < |sessions| ==> Ends(sessions[i])
      requires ending.InWait? ==> sessions != []
      modifies this
      ensures |reports| == |bases| == |sessions|
      ensures InClosedForm(config, sessions, bases) && Jittered(bases, waits) && Reported(sessions, reports)
      ensures forall i :: 0 <= i < |sessions| ==> bases[i] as int == DelayNow(config, sessions, bases, i)
      ensures status.state == Stopped
      ensures status.retryCount ==
        if sessions == [] && ending.BeforeSession? then old(status).retryCount else Count(|sessions|)
    {
      hide Count, DelayBefore, NextDelay, InClosedForm, Jittered, Reported;
      reports, bases, waits := [], [], [];
      var delay := config.initial;
      var retryCount := 0;
      NoSessionYet(config, sessions);
      for k := 0 to |sessions|
        invariant Progress(config, sessions, reports, bases, waits) && |bases| == k
        invariant retryCount == Count(k)
        invariant k < |sessions| || !ending.InWait? ==> DelayBefore(config, sessions, k, delay)
        invariant status.retryCount == if k == 0 then old(status).retryCount else Count(k)
      {
        delay, retryCount, reports, bases, waits :=
          Round(sessions, k, draws[k], delay, retryCount, reports, bases, waits);
        if k + 1 < |sessions| || !ending.InWait? {
          delay := NextDelay(delay, config.maximum);
        }
      }
      ClosedIsStepwise(config, sessions, bases);
      if ending.InSession? {
        status := status.(state := Connecting, retryCount := retryCount);
      }
      status := status.(state := Stopped);
    }
  }
}
