/**
 The outbox itself: the pending messages, their index by match key and their
 timers, updated in place under one lock.
 */
module Outbox {
  import opened Text
  import opened MessageIds
  import opened EchoMatching
  import opened OutboxLedger
  import opened OutboxIndex

  const NO_MESSAGE := PendingMessage("", "", "", "", 0)

  function KeyOf(p: PendingMessage): string {
    MatchKey(p.source, p.destination, p.message)
  }

  /** The n-th registered message. */
  function Composed(stamp: string, source: string, destination: string, message: string, now: int,
                    n: int64): PendingMessage {
    PendingMessage(MessageId(stamp, source, n), Norm(source), Trim(destination), message, now)
  }

  method Compose(stamp: string, source: string, destination: string, message: string, now: int, n: int64)
    returns (p: PendingMessage)
    requires n >= 0
    ensures p == Composed(stamp, source, destination, message, now, n)
    ensures CounterOf(p.id) == n && Stored(p)
  {
    var counter := StringId(n);
    var id := stamp + "-" + Trim(source) + "-" + counter;
    p := PendingMessage(id, Upper(Trim(source)), Trim(destination), message, now);
    CounterReadBack(stamp, source, n);
    NormIsFixed(source);
    var i, j := TrimIsSlice(destination);
    TrimmedIsFixed(Trim(destination));
  }

  // ----- which message an observed echo answers

  predicate Exact(p: PendingMessage, origin: string, destination: string, message: string) {
    KeyOf(p) == MatchKey(origin, destination, message)
  }

  predicate Echoes(p: PendingMessage, origin: string, destination: string, message: string) {
    p.source == origin && p.destination == destination && MessageMatches(p.message, message)
  }

  /** Same key: the first registered wins.  Otherwise: a numbered echo, answered by a longest waiting message. */
  ghost predicate Chosen(l: Ledger, origin: string, destination: string, message: string, p: PendingMessage) {
    && Waits(l, p)
    && if exists q :: Waits(l, q) && Exact(q, origin, destination, message) then
         && Exact(p, origin, destination, message)
         && FirstQueued(KeyOf, l.issued, l.waiting, KeyOf(p), p)
       else
         && Echoes(p, origin, destination, message)
         && (forall q :: Waits(l, q) && Echoes(q, origin, destination, message) ==> p.createdAt <= q.createdAt)
  }

  ghost predicate Unanswered(l: Ledger, origin: string, destination: string, message: string) {
    forall q :: Waits(l, q) ==>
      !Exact(q, origin, destination, message) && !Echoes(q, origin, destination, message)
  }

  class Outbox {
    const ttl: int
    const hooked: bool
    var nextID: int64
    var pending: map<string, PendingMessage>
    var byKey: map<string, seq<string>>
    var timers: set<string>
    var calls: seq<PendingMessage>
    ghost var ledger: Ledger

    ghost predicate Valid()
      reads this
    {
      Consistent(KeyOf, hooked, ledger, nextID, ttl, pending, byKey, timers, calls)
    }

    constructor (ttl: int, hooked: bool)
      ensures Valid() && ledger == EMPTY_LEDGER
      ensures this.ttl == ttl && this.hooked == hooked
    {
      this.ttl := ttl;
      this.hooked := hooked;
      nextID, pending, byKey, timers, calls := 0, map[], map[], {}, [];
      ledger := EMPTY_LEDGER;
    }

    /** `stamp` is the clock reading printed into the identifier. */
    method Register(stamp: string, source: string, destination: string, message: string, now: int)
      returns (p: PendingMessage)
      requires Valid() && nextID < MAX_INT64
      modifies this
      ensures Valid() && Step(hooked, old(ledger), OutboxLedger.Register(p), ledger)
      ensures p.id !in IdsOf(old(ledger).issued)
      ensures nextID == old(nextID) + 1 && p == Composed(stamp, source, destination, message, now, nextID)
      ensures p.id == stamp + "-" + Trim(source) + "-" + Decimal(nextID)
      ensures p.source == Upper(Trim(source)) && p.destination == Trim(destination)
      ensures p.message == message && p.createdAt == now
      ensures calls == old(calls)
    {
      p := Compose(stamp, source, destination, message, now, nextID + 1);
      Enlist(p);
    }

    /** Enters a numbered message into all three tables. */
    method Enlist(p: PendingMessage)
      requires Valid() && nextID < MAX_INT64 && CounterOf(p.id) == nextID + 1
      modifies this
      ensures Valid() && nextID == old(nextID) + 1 && calls == old(calls)
      ensures ledger == old(ledger).(issued := old(ledger).issued + [p], waiting := old(ledger).waiting + {p.id})
      ensures p.id !in IdsOf(old(ledger).issued)
    {
      hide Consistent, KeyOf, CounterOf, Listed;
      AfterRegister(KeyOf, hooked, ledger, nextID, ttl, pending, byKey, timers, calls, p);
      nextID := nextID + 1;
      pending := pending[p.id := p];
      byKey := Listed(byKey, KeyOf(p), p.id);
      if ttl > 0 {
        timers := timers + {p.id};
      }
      ledger := ledger.(issued := ledger.issued + [p], waiting := ledger.waiting + {p.id});
    }

    /** Takes a pending message out of all three tables. */
    method RemoveLocked(p: PendingMessage, ghost outcome: Outcome)
      requires Valid() && p.id in pending && pending[p.id] == p
      modifies this
      ensures Valid() && ledger == Settle(hooked, old(ledger), p.id, outcome)
      ensures calls == old(calls) && nextID == old(nextID)
    {
      var unlisted := Unlist(byKey, KeyOf(p), p.id);
      Detach(p, unlisted, outcome);
    }

    /** Drops `p` from the pending map and its timer, and installs the index without it. */
    method Detach(p: PendingMessage, unlisted: map<string, seq<string>>, ghost outcome: Outcome)
      requires Valid() && p.id in pending && pending[p.id] == p
      requires unlisted == Unlisted(byKey, KeyOf(p), p.id)
      modifies this
      ensures Valid() && ledger == Settle(hooked, old(ledger), p.id, outcome)
      ensures calls == old(calls) && nextID == old(nextID)
    {
      hide Consistent, KeyOf, Unlisted, Settle;
      AfterRemoval(KeyOf, hooked, ledger, nextID, ttl, pending, byKey, timers, calls, p, outcome);
      pending := pending - {p.id};
      timers := timers - {p.id};
      byKey := unlisted;
      ledger := Settle(hooked, ledger, p.id, outcome);
    }

    /** The fast path: the first registered waiting message with this key. */
    method TakeQueued(key: string) returns (p: PendingMessage, ok: bool)
      requires Valid()
      modifies this
      ensures Valid() && calls == old(calls) && nextID == old(nextID)
      ensures ok ==> Waits(old(ledger), p) && KeyOf(p) == key
      ensures ok ==> FirstQueued(KeyOf, old(ledger).issued, old(ledger).waiting, key, p)
      ensures ok ==> ledger == Settle(hooked, old(ledger), p.id, Confirmed)
      ensures !ok ==> p == NO_MESSAGE && ledger == old(ledger) && byKey == old(byKey)
      ensures !ok ==> forall q :: Waits(ledger, q) ==> KeyOf(q) != key
    {
      hide KeyOf, FirstQueued, Queue, Settle;
      var ids := Lookup(byKey, key);
      ghost var k := 0;
      while |ids| > 0 && ids[0] !in pending
        invariant 0 <= k <= |Lookup(byKey, key)| && ids == Lookup(byKey, key)[k..]
        invariant forall j :: 0 <= j < k ==> Lookup(byKey, key)[j] !in pending
        decreases |ids|
      {
        ids := ids[1..];
        k := k + 1;
      }
      if |ids| == 0 {
        NoneInQueue(KeyOf, ledger, ttl, pending, byKey, timers, key);
        byKey := byKey - {key};
        assert byKey == old(byKey);
        return NO_MESSAGE, false;
      }
      FirstInQueue(KeyOf, ledger, ttl, pending, byKey, timers, key, k);
      p, ok := pending[ids[0]], true;
      Detach(p, if |ids| == 1 then byKey - {key} else byKey[key := ids[1..]], Confirmed);
    }

    /** The fallback: scans the pending map in whatever order it yields its entries. */
    method OldestEcho(origin: string, dest: string, message: string) returns (matched: PendingMessage)
      requires Valid()
      ensures matched.id == "" ==>
        matched == NO_MESSAGE && forall q :: Waits(ledger, q) ==> !Echoes(q, origin, dest, message)
      ensures matched.id != "" ==>
        && matched.id in pending && pending[matched.id] == matched
        && Waits(ledger, matched) && Echoes(matched, origin, dest, message)
        && forall q :: Waits(ledger, q) && Echoes(q, origin, dest, message) ==> matched.createdAt <= q.createdAt
    {
      matched := NO_MESSAGE;
      var unseen := pending.Keys;
      while unseen != {}
        invariant unseen <= pending.Keys
        invariant matched.id == "" ==> matched == NO_MESSAGE
        invariant matched.id == "" ==>
          forall q :: q in pending.Keys - unseen ==> !Echoes(pending[q], origin, dest, message)
        invariant matched.id != "" ==>
          && matched.id in pending && pending[matched.id] == matched && Echoes(matched, origin, dest, message)
          && forall q :: q in pending.Keys - unseen && Echoes(pending[q], origin, dest, message) ==>
               matched.createdAt <= pending[q].createdAt
        decreases unseen
      {
        var id :| id in unseen;
        unseen := unseen - {id};
        var q := pending[id];
        if q.source != origin { continue; }
        if q.destination != dest { continue; }
        if !MessageMatches(q.message, message) { continue; }
        if matched.id == "" || q.createdAt < matched.createdAt {
          matched := q;
        }
      }
      PendingIsWaiting(KeyOf, ledger, ttl, pending, byKey, timers);
    }

    /** Finds the waiting message that an observed echo confirms, and settles it. */
    method Confirm(source: string, destination: string, message: string) returns (p: PendingMessage, ok: bool)
      requires Valid()
      modifies this
      ensures Valid() && calls == old(calls) && nextID == old(nextID)
      ensures ok ==> Chosen(old(ledger), OriginOf(source), Trim(destination), message, p)
      ensures ok ==> Step(hooked, old(ledger), OutboxLedger.Confirm(p.id), ledger)
      ensures !ok ==> Unanswered(old(ledger), OriginOf(source), Trim(destination), message)
      ensures !ok ==> p == NO_MESSAGE && ledger == old(ledger) && byKey == old(byKey)
    {
      var origin := OriginOf(source);
      var dest := Trim(destination);
      p, ok := TakeQueued(MatchKey(origin, dest, message));
      if ok {
        return;
      }
      p := OldestEcho(origin, dest, message);
      if p.id == "" {
        return;
      }
      RemoveLocked(p, Confirmed);
      ok := true;
    }

    method Cancel(id: string) returns (ok: bool)
      requires Valid()
      modifies this
      ensures Valid() && calls == old(calls) && nextID == old(nextID)
      ensures ok <==> id in old(pending)
      ensures Step(hooked, old(ledger), if ok then OutboxLedger.Cancel(id) else Miss, ledger)
    {
      PendingIsWaiting(KeyOf, ledger, ttl, pending, byKey, timers);
      if id == "" || id !in pending {
        return false;
      }
      RemoveLocked(pending[id], Cancelled);
      return true;
    }

    /**
     The locked part of a timer's work.  The result is what the timer's goroutine
     still has to hand to the failure callback after it has released the lock.
     */
    method Expire(id: string) returns (failed: Option<PendingMessage>)
      requires Valid()
      modifies this
      ensures Valid() && calls == old(calls) && nextID == old(nextID)
      ensures Step(hooked, old(ledger), Fire(id), ledger)
      ensures failed == if hooked && id in old(pending) then Some(old(pending)[id]) else None
    {
      if id !in pending {
        return None;
      }
      var p := pending[id];
      RemoveLocked(p, Failed);
      return if hooked then Some(p) else None;
    }

    /** The failure callback, run outside the lock by the goroutine that owes it. */
    method RunCallback(p: PendingMessage)
      requires Valid() && p.id in ledger.owed && p in ledger.issued
      modifies this
      ensures Valid() && nextID == old(nextID) && pending == old(pending)
      ensures calls == old(calls) + [p]
      ensures Step(hooked, old(ledger), Notify(p), ledger)
    {
      AfterCallback(KeyOf, hooked, ledger, nextID, ttl, pending, byKey, timers, calls, p);
      calls := calls + [p];
      ledger := ledger.(owed := ledger.owed - {p.id}, notified := ledger.notified + [p]);
    }
  }

  // ----- the two-stage search is one linear scan

  ghost predicate AllNulFree(l: Ledger) {
    forall q :: q in l.issued ==> Stored(q) && NulFree(q.source) && NulFree(q.destination)
  }

  lemma ExactIsFieldEquality(q: PendingMessage, source: string, destination: string, message: string)
    requires Stored(q) && NulFree(q.source) && NulFree(q.destination)
    requires NulFree(source) && NulFree(destination)
    ensures Exact(q, OriginOf(source), Trim(destination), message) <==>
            q.source == OriginOf(source) && q.destination == Trim(destination) && q.message == message
  {
    BeforeIsFree(source, ',');
    BeforeKeepsNulFree(source);
    var head := Before(source, ',');
    TrimKeepsNulFree(head);
    TrimKeepsNulFree(destination);
    NormIsFixed(head);
    var i, j := TrimIsSlice(destination);
    TrimmedIsFixed(Trim(destination));
    MatchKeyFields(q.source, q.destination, q.message, OriginOf(source), Trim(destination), message);
  }

  lemma {:induction false} BeforeKeepsNulFree(s: string)
    requires NulFree(s)
    ensures NulFree(Before(s, ','))
  {
    if s != "" && s[0] != ',' {
      BeforeKeepsNulFree(s[1..]);
    }
  }

  /** What the linear scan sees of the ledger when keys and fields say the same. */
  lemma ScanFields(l: Ledger, source: string, destination: string, message: string)
    requires AllNulFree(l) && NulFree(source) && NulFree(destination)
    ensures forall q :: q in l.issued ==>
      (Exact(q, OriginOf(source), Trim(destination), message) <==>
       Echoes(q, OriginOf(source), Trim(destination), message) && q.message == message)
  {
    forall q | q in l.issued
      ensures Exact(q, OriginOf(source), Trim(destination), message) <==>
              Echoes(q, OriginOf(source), Trim(destination), message) && q.message == message
    {
      ExactIsFieldEquality(q, source, destination, message);
    }
  }

  /**
   For NUL-free addresses the index and the fallback together are one linear
   scan by fields: nothing is confirmed exactly when no waiting message has
   the echo's origin and destination and a matching text.
   */
  lemma NoConfirmIsEmptyScan(l: Ledger, source: string, destination: string, message: string)
    requires AllNulFree(l) && NulFree(source) && NulFree(destination)
    ensures Unanswered(l, OriginOf(source), Trim(destination), message) <==>
            forall q :: Waits(l, q) ==> !Echoes(q, OriginOf(source), Trim(destination), message)
  {
    ScanFields(l, source, destination, message);
  }

  /**
   ... and what is confirmed is the scan's choice: an identical text wins, first
   registered first; otherwise the confirmed text is the echo's text before its
   last `{`, the same for every candidate, and a longest waiting one is taken.
   */
  lemma ConfirmIsLinearScan(l: Ledger, source: string, destination: string, message: string, p: PendingMessage)
    requires AllNulFree(l) && NulFree(source) && NulFree(destination)
    requires Chosen(l, OriginOf(source), Trim(destination), message, p)
    ensures Waits(l, p) && Echoes(p, OriginOf(source), Trim(destination), message)
    ensures var o, d := OriginOf(source), Trim(destination);
      if exists q :: Waits(l, q) && Echoes(q, o, d, message) && q.message == message then
        && p.message == message
        && forall i, j :: 0 <= i < |l.issued| && 0 <= j < |l.issued| && l.issued[j] == p
             && Waits(l, l.issued[i]) && Echoes(l.issued[i], o, d, message) && l.issued[i].message == message
             ==> j <= i
      else
        && p.message == BeforeLastBrace(message)
        && forall q :: Waits(l, q) && Echoes(q, o, d, message) ==>
             q.message == p.message && p.createdAt <= q.createdAt
  {
    var o, d := OriginOf(source), Trim(destination);
    ScanFields(l, source, destination, message);
    if exists q :: Waits(l, q) && Echoes(q, o, d, message) && q.message == message {
      var q :| Waits(l, q) && Echoes(q, o, d, message) && q.message == message;
      assert Exact(q, o, d, message);
      forall i, j | 0 <= i < |l.issued| && 0 <= j < |l.issued| && l.issued[j] == p
          && Waits(l, l.issued[i]) && Echoes(l.issued[i], o, d, message) && l.issued[i].message == message
        ensures j <= i
      {
        assert QueuedAt(KeyOf, l.issued, l.waiting, KeyOf(p), i);
      }
    } else {
      forall q | Waits(l, q) && Echoes(q, o, d, message) ensures q.message == BeforeLastBrace(message) {
        SuffixMatchText(q.message, message);
      }
      assert Echoes(p, o, d, message);
    }
  }

  // ----- what was sent comes back

  /** What the node makes of a text: it may append a number, and may close it with a brace. */
  function AsHeard(message: string, number: Option<string>, closed: bool): string {
    match number
    case None => message
    case Some(n) => message + "{" + n + if closed then "}" else ""
  }

  lemma HeardMatches(message: string, number: Option<string>, closed: bool)
    requires number.Some? ==> number.value != "" && AllDigits(number.value)
    ensures MessageMatches(message, AsHeard(message, number, closed))
  {
    if number.Some? {
      assert message + "{" + number.value + "" == message + "{" + number.value;
      NumberMatches(message, number.value, AsHeard(message, number, closed));
    }
  }

  /** The path of an echo: the station that sent it, and then the relays, if there were any. */
  function PathOf(call: string, relays: Option<string>): string {
    if relays.Some? then call + "," + relays.value else call
  }

  lemma PathStarts(call: string, relays: Option<string>)
    requires ',' !in call
    ensures OriginOf(PathOf(call, relays)) == OriginOf(call) == Upper(Trim(call))
  {
    BeforeIsFree(call, ',');
    if relays.Some? { BeforeFirst(call, ',', relays.value); }
  }

  ghost predicate SameFields(q: PendingMessage, p: PendingMessage, message: string) {
    q.source == p.source && q.destination == p.destination && q.message == message
  }

  /** An echo that matches just one waiting message, counting its own text too, chooses that message. */
  lemma OnlyMatchIsChosen(l: Ledger, p: PendingMessage, call: string, to: string, heard: string, r: PendingMessage)
    requires AllNulFree(l) && NulFree(call) && NulFree(to) && Waits(l, p)
    requires p.source == OriginOf(call) && p.destination == Trim(to) && MessageMatches(p.message, heard)
    requires forall q :: Waits(l, q) && (SameFields(q, p, p.message) || SameFields(q, p, heard)) ==> q == p
    ensures !Unanswered(l, OriginOf(call), Trim(to), heard)
    ensures Chosen(l, OriginOf(call), Trim(to), heard, r) ==> r == p
  {
    var o, d := OriginOf(call), Trim(to);
    assert Echoes(p, o, d, heard);
    if Chosen(l, o, d, heard, r) {
      ConfirmIsLinearScan(l, call, to, heard, r);
      if p.message != heard {
        SuffixMatchText(p.message, heard);
      }
    }
  }

  lemma NothingElseWaits(l: Ledger, p: PendingMessage, heard: string, q: PendingMessage)
    requires p.id !in IdsOf(l.issued)
    requires forall q :: Waits(l, q) ==> !SameFields(q, p, p.message) && !SameFields(q, p, heard)
    requires Waits(l.(issued := l.issued + [p], waiting := l.waiting + {p.id}), q)
    requires SameFields(q, p, p.message) || SameFields(q, p, heard)
    ensures q == p
  {
    if q in l.issued {
      var i :| 0 <= i < |l.issued| && l.issued[i] == q;
      IdsMember(l.issued, q.id);
      assert Waits(l, q);
    }
  }

  /** After its registration a message is the one that its echo chooses. */
  lemma SentIsChosen(hooked: bool, before: Ledger, l: Ledger, sent: PendingMessage, call: string, to: string,
                     heard: string)
    requires AllNulFree(before) && NulFree(call) && NulFree(to)
    requires sent.source == OriginOf(call) && sent.destination == Trim(to) && MessageMatches(sent.message, heard)
    requires Step(hooked, before, OutboxLedger.Register(sent), l) && sent.id !in IdsOf(before.issued)
    requires NulFree(sent.source) && NulFree(sent.destination)
    requires forall q :: Waits(before, q) ==> !SameFields(q, sent, sent.message) && !SameFields(q, sent, heard)
    ensures !Unanswered(l, OriginOf(call), Trim(to), heard)
    ensures forall r :: Chosen(l, OriginOf(call), Trim(to), heard, r) ==> r == sent
  {
    forall q | Waits(l, q) && (SameFields(q, sent, sent.message) || SameFields(q, sent, heard)) ensures q == sent {
      NothingElseWaits(before, sent, heard, q);
    }
    forall r ensures Chosen(l, OriginOf(call), Trim(to), heard, r) ==> r == sent {
      OnlyMatchIsChosen(l, sent, call, to, heard, r);
    }
    OnlyMatchIsChosen(l, sent, call, to, heard, sent);
  }

  /**
   A message is registered, sent, and heard again: from its own source in whatever
   case, over whatever relays, to its own destination, with or without a number.
   Unless another waiting message has these addresses and one of the two texts, the
   echo confirms this very message.  NUL-free addresses keep the keys apart.
   */
  method SendAndHear(
      box: Outbox, stamp: string, source: string, destination: string, message: string, now: int,
      call: string, relays: Option<string>, to: string, number: Option<string>, closed: bool)
    returns (sent: PendingMessage, confirmed: PendingMessage, ok: bool)
    requires box.Valid() && box.nextID < MAX_INT64 && AllNulFree(box.ledger)
    requires NulFree(source) && NulFree(destination) && NulFree(call) && NulFree(to)
    requires ',' !in call && Upper(Trim(call)) == Upper(Trim(source)) && Trim(to) == Trim(destination)
    requires number.Some? ==> number.value != "" && AllDigits(number.value)
    requires forall q ::
      Waits(box.ledger, q) && q.source == Upper(Trim(source)) && q.destination == Trim(destination) ==>
      q.message != message && q.message != AsHeard(message, number, closed)
    modifies box
    ensures box.Valid() && ok && confirmed == sent
    ensures sent.source == Upper(Trim(source)) && sent.destination == Trim(destination)
    ensures sent.message == message && sent.createdAt == now
    ensures box.ledger.issued == old(box.ledger.issued) + [sent]
    ensures box.ledger.waiting == old(box.ledger.waiting) - {sent.id}
    ensures box.ledger.resolved == old(box.ledger.resolved) + [Resolution(sent.id, Confirmed)]
  {
    hide AllNulFree, Chosen, Unanswered, AsHeard, Composed, Decimal, MessageMatches, OriginOf, Trim, Upper;
    hide Consistent, IdsOf, NulFree, PathOf, KeyOf, CounterOf, Waits, AllDigits, Stored;
    ghost var before := box.ledger;
    var heard := AsHeard(message, number, closed);
    TrimKeepsNulFree(source);
    TrimKeepsNulFree(destination);
    HeardMatches(message, number, closed);
    PathStarts(call, relays);
    PathStarts(call, None);
    sent := box.Register(stamp, source, destination, message, now);
    SentIsChosen(box.hooked, before, box.ledger, sent, call, to, heard);
    confirmed, ok := box.Confirm(PathOf(call, relays), to, heard);
  }
}
