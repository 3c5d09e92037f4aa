/**
 The bounded queue between the receiver of datagrams and one forwarding target.
 One producer enqueues without blocking, dropping the oldest entry when the
 queue is full; the target's goroutine receives whenever it likes, also between
 the three channel operations of one Forward.
 */
module ForwardQueue {
  import opened Sequences

  type Datagram = string

  const CAPACITY := 256

  /** Where the producer is: between two Forwards, or before one of its channel operations. */
  datatype Phase = Idle | Sending(x: Datagram) | Dropping(x: Datagram) | Retrying(x: Datagram)

  datatype Channel = Channel(forwarded: seq<Datagram>, queue: seq<Datagram>, delivered: seq<Datagram>,
    lost: seq<Datagram>, phase: Phase)

  datatype Event = Forward(x: Datagram) | Proceed | Receive

  const EMPTY := Channel([], [], [], [], Idle)

  /** The producer's next channel operation; every one has a default case and returns at once. */
  function Advance(c: Channel): Channel {
    match c.phase
    case Idle => c
    case Sending(x) =>
      if |c.queue| < CAPACITY then c.(queue := c.queue + [x], phase := Idle)
      else c.(phase := Dropping(x))
    case Dropping(x) =>
      if c.queue == [] then c.(phase := Retrying(x))
      else c.(queue := c.queue[1..], lost := c.lost + [c.queue[0]], phase := Retrying(x))
    case Retrying(x) =>
      if |c.queue| < CAPACITY then c.(queue := c.queue + [x], phase := Idle)
      else c.(lost := c.lost + [x], phase := Idle)
  }

  /** One step; an event that is not possible in a state leaves it as it is. */
  function Apply(c: Channel, e: Event): Channel {
    match e
    case Forward(x) => if c.phase.Idle? then c.(forwarded := c.forwarded + [x], phase := Sending(x)) else c
    case Proceed => Advance(c)
    case Receive =>
      if c.queue == [] then c
      else c.(queue := c.queue[1..], delivered := c.delivered + [c.queue[0]])
  }

  function Run(c: Channel, events: seq<Event>): Channel
    decreases |events|
  {
    if events == [] then c else Run(Apply(c, events[0]), events[1..])
  }

  lemma {:induction false} RunInParts(c: Channel, first: seq<Event>, second: seq<Event>)
    ensures Run(c, first + second) == Run(Run(c, first), second)
    decreases |first|
  {
    if first == [] {
      assert first + second == second;
    } else {
      assert (first + second)[1..] == first[1..] + second;
      RunInParts(Apply(c, first[0]), first[1..], second);
    }
  }

  // ----- interleavings

  /** `c` consists of the elements of `a` and those of `b`, each in their order. */
  predicate Shuffle<T(==)>(a: seq<T>, b: seq<T>, c: seq<T>)
    decreases |c|
  {
    if c == [] then a == [] && b == []
    else
      var n := |c| - 1;
      || (a != [] && a[|a| - 1] == c[n] && Shuffle(a[..|a| - 1], b, c[..n]))
      || (b != [] && b[|b| - 1] == c[n] && Shuffle(a, b[..|b| - 1], c[..n]))
  }

  lemma ShuffleMore<T>(a: seq<T>, b: seq<T>, c: seq<T>, x: T)
    requires Shuffle(a, b, c)
    ensures Shuffle(a + [x], b, c + [x]) && Shuffle(a, b + [x], c + [x])
  {
    assert (a + [x])[..|a|] == a && (b + [x])[..|b|] == b && (c + [x])[..|c|] == c;
  }

  lemma {:induction false} ShuffleAll<T>(a: seq<T>, b: seq<T>, c: seq<T>, t: seq<T>)
    requires Shuffle(a, b, c)
    ensures Shuffle(a + t, b, c + t)
    decreases |t|
  {
    if t == [] {
      assert a + t == a && c + t == c;
    } else {
      ShuffleMore(a, b, c, t[0]);
      ShuffleAll(a + [t[0]], b, c + [t[0]], t[1..]);
      assert a + [t[0]] + t[1..] == a + t && c + [t[0]] + t[1..] == c + t;
    }
  }

  predicate Increasing(places: seq<nat>, limit: nat) {
    && (forall i, j :: 0 <= i < j < |places| ==> places[i] < places[j])
    && (forall i :: 0 <= i < |places| ==> places[i] < limit)
  }

  /** `a` is found in `c` at these places. */
  predicate FoundAt<T(==)>(a: seq<T>, c: seq<T>, places: seq<nat>) {
    && |places| == |a| && Increasing(places, |c|)
    && forall i :: 0 <= i < |a| ==> a[i] == c[places[i]]
  }

  lemma FoundMore<T>(a: seq<T>, c: seq<T>, places: seq<nat>, x: T)
    requires FoundAt(a, c, places)
    ensures FoundAt(a, c + [x], places) && FoundAt(a + [x], c + [x], places + [|c|])
  {}

  function Front<T>(s: seq<T>): seq<T>
    requires s != []
  {
    s[..|s| - 1]
  }

  /** The last element of a shuffle is the last of one of its parts. */
  lemma ShuffleLast<T>(a: seq<T>, b: seq<T>, c: seq<T>) returns (first: bool)
    requires Shuffle(a, b, c) && c != []
    ensures first ==> a != [] && a[|a| - 1] == c[|c| - 1] && Shuffle(Front(a), b, Front(c))
    ensures !first ==> b != [] && b[|b| - 1] == c[|c| - 1] && Shuffle(a, Front(b), Front(c))
  {
    first := a != [] && a[|a| - 1] == c[|c| - 1] && Shuffle(Front(a), b, Front(c));
  }

  lemma CountLast<T>(s: seq<T>)
    requires s != []
    ensures multiset(s) == multiset(Front(s)) + multiset{s[|s| - 1]}
  {
    assert s == Front(s) + [s[|s| - 1]];
  }

  /** A shuffle loses and invents nothing. */
  lemma {:induction false} ShuffleCounts<T>(a: seq<T>, b: seq<T>, c: seq<T>)
    requires Shuffle(a, b, c)
    ensures multiset(c) == multiset(a) + multiset(b)
    decreases |c|
  {
    if c != [] {
      var first := ShuffleLast(a, b, c);
      CountLast(c);
      if first {
        CountLast(a);
        ShuffleCounts(Front(a), b, Front(c));
      } else {
        CountLast(b);
        ShuffleCounts(a, Front(b), Front(c));
      }
    }
  }

  /** A shuffle keeps the order of its first part. */
  lemma {:induction false} ShuffleKeepsOrder<T>(a: seq<T>, b: seq<T>, c: seq<T>) returns (places: seq<nat>)
    requires Shuffle(a, b, c)
    ensures FoundAt(a, c, places)
    decreases |c|
  {
    if c == [] {
      places := [];
    } else {
      var first := ShuffleLast(a, b, c);
      assert c == Front(c) + [c[|c| - 1]];
      if first {
        assert a == Front(a) + [a[|a| - 1]];
        places := ShuffleKeepsOrder(Front(a), b, Front(c));
        FoundMore(Front(a), Front(c), places, c[|c| - 1]);
        places := places + [|c| - 1];
      } else {
        places := ShuffleKeepsOrder(a, Front(b), Front(c));
        FoundMore(a, Front(c), places, c[|c| - 1]);
      }
    }
  }

  // ----- what every reachable state satisfies

  function Pending(c: Channel): seq<Datagram> {
    if c.phase.Idle? then [] else [c.phase.x]
  }

  /** The newest datagrams, which are neither delivered nor lost. */
  function Open(c: Channel): seq<Datagram> {
    c.queue + Pending(c)
  }

  function Settled(c: Channel): seq<Datagram> {
    if |Open(c)| <= |c.forwarded| then c.forwarded[..|c.forwarded| - |Open(c)|] else []
  }

  predicate EndsAlike(s: seq<Datagram>, t: seq<Datagram>) {
    t != [] ==> s != [] && s[|s| - 1] == t[|t| - 1]
  }

  /**
   The queue never exceeds its capacity and holds the newest datagrams without a
   gap; the older ones are delivered or lost, in order; after the drop there is
   room; and between two Forwards the newest datagram is queued or delivered.
   */
  predicate Inv(c: Channel) {
    && |c.queue| <= CAPACITY
    && (c.phase.Retrying? ==> |c.queue| < CAPACITY)
    && c.forwarded == Settled(c) + Open(c)
    && Shuffle(c.delivered, c.lost, Settled(c))
    && (c.phase.Idle? ==> EndsAlike(c.delivered + c.queue, c.forwarded))
  }

  lemma HeadSettles(c: Channel, c': Channel)
    requires Inv(c) && c.queue != [] && c'.forwarded == c.forwarded && c'.queue == c.queue[1..]
    requires Pending(c') == Pending(c)
    ensures Settled(c') == Settled(c) + [c.queue[0]] && c'.forwarded == Settled(c') + Open(c')
    ensures Shuffle(c.delivered + [c.queue[0]], c.lost, Settled(c'))
    ensures Shuffle(c.delivered, c.lost + [c.queue[0]], Settled(c'))
  {
    assert Open(c) == [c.queue[0]] + Open(c');
    Assoc(Settled(c), [c.queue[0]], Open(c'));
    ShuffleMore(c.delivered, c.lost, Settled(c), c.queue[0]);
  }

  lemma ReceiveKeepsInv(c: Channel)
    requires Inv(c)
    ensures Inv(Apply(c, Receive))
  {
    if c.queue != [] {
      var c' := Apply(c, Receive);
      HeadSettles(c, c');
      assert c.queue == [c.queue[0]] + c'.queue;
      Assoc(c.delivered, [c.queue[0]], c'.queue);
    }
  }

  lemma EnqueueKeepsInv(c: Channel, c': Channel)
    requires Inv(c) && !c.phase.Idle? && |c.queue| < CAPACITY
    requires c' == c.(queue := c.queue + [c.phase.x], phase := Idle)
    ensures Inv(c')
  {
    var x := c.phase.x;
    var kept := c.delivered + c.queue;
    assert Open(c') == c'.queue + [] == Open(c);
    Assoc(c.delivered, c.queue, [x]);
    assert (kept + [x])[|kept|] == x;
    assert c.forwarded[|c.forwarded| - 1] == Open(c)[|c.queue|] == x;
  }

  lemma AdvanceKeepsInv(c: Channel)
    requires Inv(c)
    ensures Inv(Advance(c))
    ensures Advance(c).phase.Idle? ==> Advance(c).lost == c.lost
  {
    var c' := Advance(c);
    if c.phase.Dropping? {
      if c.queue != [] {
        HeadSettles(c, c');
      }
    } else if !c.phase.Idle? && c'.phase.Idle? {
      EnqueueKeepsInv(c, c');
    }
  }

  lemma ForwardKeepsInv(c: Channel, x: Datagram)
    requires Inv(c)
    ensures Inv(Apply(c, Forward(x)))
  {
    if c.phase.Idle? {
      var c' := Apply(c, Forward(x));
      assert Open(c) == c.queue && Open(c') == c.queue + [x];
      Assoc(Settled(c), c.queue, [x]);
      assert Settled(c') == Settled(c);
    }
  }

  lemma StepKeepsInv(c: Channel, e: Event)
    requires Inv(c)
    ensures Inv(Apply(c, e))
    ensures e.Proceed? && !c.phase.Dropping? ==> Apply(c, e).lost == c.lost
  {
    match e {
      case Forward(x) => ForwardKeepsInv(c, x);
      case Proceed => AdvanceKeepsInv(c);
      case Receive => ReceiveKeepsInv(c);
    }
  }

  lemma {:induction false} RunKeepsInv(c: Channel, events: seq<Event>)
    requires Inv(c)
    ensures Inv(Run(c, events))
    decreases |events|
  {
    if events != [] {
      StepKeepsInv(c, events[0]);
      RunKeepsInv(Apply(c, events[0]), events[1..]);
    }
  }

  /**
   After any interleaving: what was delivered and what is still to be delivered
   is an in-order subsequence of what was forwarded, and together with the lost
   datagrams it is all of it.
   */
  lemma DeliversInOrder(events: seq<Event>) returns (places: seq<nat>)
    ensures var c := Run(EMPTY, events); var kept := c.delivered + Open(c);
      && |c.queue| <= 256
      && multiset(c.forwarded) == multiset(kept) + multiset(c.lost)
      && FoundAt(kept, c.forwarded, places)
  {
    var c := Run(EMPTY, events);
    RunKeepsInv(EMPTY, events);
    ShuffleAll(c.delivered, c.lost, Settled(c), Open(c));
    ShuffleCounts(c.delivered + Open(c), c.lost, c.forwarded);
    places := ShuffleKeepsOrder(c.delivered + Open(c), c.lost, c.forwarded);
  }

  /** However the target interferes, a Forward returns with its own datagram queued or delivered. */
  lemma NewestIsEnqueued(events: seq<Event>)
    requires var c := Run(EMPTY, events); c.phase.Idle? && c.forwarded != []
    ensures var c := Run(EMPTY, events); var kept := c.delivered + c.queue;
      kept != [] && kept[|kept| - 1] == c.forwarded[|c.forwarded| - 1]
  {
    RunKeepsInv(EMPTY, events);
  }

  // ----- when datagrams are lost

  /** The drop of a Forward always finds the queue empty: the target has emptied it since the failed attempt. */
  predicate DropsNothing(c: Channel, events: seq<Event>)
    decreases |events|
  {
    events != [] ==>
      && (events[0].Proceed? && c.phase.Dropping? ==> c.queue == [])
      && DropsNothing(Apply(c, events[0]), events[1..])
  }

  /** Lost datagrams are never found again. */
  lemma {:induction false} LossIsFinal(c: Channel, events: seq<Event>)
    ensures c.lost <= Run(c, events).lost
    decreases |events|
  {
    if events != [] {
      LossIsFinal(Apply(c, events[0]), events[1..]);
    }
  }

  /** Exactly when a run loses nothing. */
  lemma {:induction false} NothingLostIff(c: Channel, events: seq<Event>)
    requires Inv(c)
    ensures Run(c, events).lost == c.lost <==> DropsNothing(c, events)
    decreases |events|
  {
    if events != [] {
      var d := Apply(c, events[0]);
      StepKeepsInv(c, events[0]);
      NothingLostIff(d, events[1..]);
      LossIsFinal(d, events[1..]);
      assert |d.lost| > |c.lost| <==> events[0].Proceed? && c.phase.Dropping? && c.queue != [];
    }
  }

  /** The queue is never found full by the first attempt of a Forward. */
  predicate NeverFull(c: Channel, events: seq<Event>)
    decreases |events|
  {
    && (c.phase.Sending? ==> |c.queue| < CAPACITY)
    && (events != [] ==> NeverFull(Apply(c, events[0]), events[1..]))
  }

  /** A target that keeps up receives everything: nothing is lost unless the queue was full. */
  lemma {:induction false} NothingLostUnlessFull(c: Channel, events: seq<Event>)
    requires NeverFull(c, events) && !c.phase.Dropping? && !c.phase.Retrying?
    ensures Run(c, events).lost == c.lost
    decreases |events|
  {
    if events != [] {
      NothingLostUnlessFull(Apply(c, events[0]), events[1..]);
    }
  }

  function Receives(n: nat): (events: seq<Event>)
    ensures |events| == n
  {
    seq(n, i => Receive)
  }

  lemma {:induction false} ReceivesTake(c: Channel, n: nat)
    requires n <= |c.queue|
    ensures Run(c, Receives(n)) == c.(queue := c.queue[n..], delivered := c.delivered + c.queue[..n])
    decreases n
  {
    if n == 0 {
      assert c.queue[0..] == c.queue && c.delivered + c.queue[..0] == c.delivered;
    } else {
      var c' := Apply(c, Receive);
      assert Receives(n)[1..] == Receives(n - 1);
      ReceivesTake(c', n - 1);
      assert c'.queue[n - 1..] == c.queue[n..];
      assert c.queue[..n] == [c.queue[0]] + c'.queue[..n - 1];
      Assoc(c.delivered, [c.queue[0]], c'.queue[..n - 1]);
    }
  }

  /**
   The dropped datagram need not be an old one: when the target empties the queue
   between the failed attempt and the drop, the loss hits the previous datagram.
   */
  lemma DropMayHitThePrevious(c: Channel)
    requires c.phase.Sending? && |c.queue| == CAPACITY
    ensures var t := Run(c, [Proceed] + Receives(CAPACITY - 1) + [Proceed, Proceed]);
      && t.lost == c.lost + [c.queue[CAPACITY - 1]] && t.queue == [c.phase.x] && t.phase == Idle
      && t.forwarded == c.forwarded && t.delivered == c.delivered + c.queue[..CAPACITY - 1]
  {
    var d := Apply(c, Proceed);
    var e := d.(queue := d.queue[CAPACITY - 1..], delivered := d.delivered + d.queue[..CAPACITY - 1]);
    ReceivesTake(d, CAPACITY - 1);
    RunInParts(c, [Proceed], Receives(CAPACITY - 1));
    assert Run(c, [Proceed]) == d;
    RunInParts(c, [Proceed] + Receives(CAPACITY - 1), [Proceed, Proceed]);
    assert [Proceed, Proceed][1..] == [Proceed];
    assert Run(e, [Proceed, Proceed]) == Run(Apply(e, Proceed), [Proceed]);
  }

  /** Forwards without interference, each done with its first attempt. */
  function Fill(xs: seq<Datagram>): seq<Event> {
    if xs == [] then [] else Fill(xs[..|xs| - 1]) + [Forward(xs[|xs| - 1]), Proceed]
  }

  lemma {:induction false} FillsQueue(xs: seq<Datagram>)
    requires |xs| <= CAPACITY
    ensures Run(EMPTY, Fill(xs)) == Channel(xs, xs, [], [], Idle)
  {
    if xs != [] {
      var front, x := xs[..|xs| - 1], xs[|xs| - 1];
      assert xs == front + [x];
      FillsQueue(front);
      RunInParts(EMPTY, Fill(front), [Forward(x), Proceed]);
      assert [Forward(x), Proceed][1..] == [Proceed];
      assert Run(Channel(xs, front, [], [], Sending(x)), [Proceed]) == Channel(xs, xs, [], [], Idle);
    }
  }

  /** 256 datagrams fill the queue, and the target takes all but one of them in the middle of the next Forward. */
  function UnluckySchedule(xs: seq<Datagram>, x: Datagram): seq<Event> {
    Fill(xs) + ([Forward(x)] + ([Proceed] + Receives(CAPACITY - 1) + [Proceed, Proceed]))
  }

  /**
   Such a run starts from the empty channel: of 257 datagrams the last but one is
   lost, and only the last one is left in the queue.
   */
  lemma PreviousIsLost(xs: seq<Datagram>, x: Datagram)
    requires |xs| == 256
    ensures var t := Run(EMPTY, UnluckySchedule(xs, x));
      && t.forwarded == xs + [x] && t.phase == Idle
      && t.delivered == xs[..CAPACITY - 1] && t.lost == [xs[CAPACITY - 1]] && t.queue == [x]
  {
    var rest := [Proceed] + Receives(CAPACITY - 1) + [Proceed, Proceed];
    var full := Channel(xs, xs, [], [], Idle);
    var sending := Apply(full, Forward(x));
    FillsQueue(xs);
    RunInParts(EMPTY, Fill(xs), [Forward(x)] + rest);
    RunInParts(full, [Forward(x)], rest);
    assert Run(full, [Forward(x)]) == sending;
    DropMayHitThePrevious(sending);
    assert [] + xs[..CAPACITY - 1] == xs[..CAPACITY - 1] && [] + [xs[CAPACITY - 1]] == [xs[CAPACITY - 1]];
  }

  // ----- a target that has stalled

  function Newest<T>(s: seq<T>): seq<T> {
    if |s| <= CAPACITY then s else s[|s| - CAPACITY..]
  }

  lemma NewestInParts<T>(s: seq<T>, t: seq<T>)
    ensures Newest(Newest(s) + t) == Newest(s + t)
  {
    if |s| > CAPACITY {
      assert Newest(s) + t == (s + t)[|s| - CAPACITY..];
    }
  }

  lemma ProceedThrice(c: Channel)
    ensures Run(c, [Proceed, Proceed, Proceed]) == Advance(Advance(Advance(c)))
  {
    RunInParts(c, [Proceed], [Proceed, Proceed]);
    RunInParts(Advance(c), [Proceed], [Proceed]);
    assert [Proceed] + [Proceed, Proceed] == [Proceed, Proceed, Proceed];
  }

  /** One Forward without interference leaves the newest datagrams, its own included. */
  lemma ForwardAlone(c: Channel, x: Datagram)
    requires c.phase.Idle? && |c.queue| <= CAPACITY
    ensures var t := Run(c, [Forward(x)] + [Proceed, Proceed, Proceed]);
      && t.queue == Newest(c.queue + [x]) && t.phase == Idle
      && t.delivered == c.delivered && t.forwarded == c.forwarded + [x]
  {
    var sent := Apply(c, Forward(x));
    RunInParts(c, [Forward(x)], [Proceed, Proceed, Proceed]);
    assert Run(c, [Forward(x)]) == sent;
    ProceedThrice(sent);
    if |c.queue| == CAPACITY {
      assert (c.queue + [x])[1..] == c.queue[1..] + [x];
    }
  }
}
