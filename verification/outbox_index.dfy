/**
 The outbox keeps three tables over the same messages.  The index lists, per
 match key, the identifiers of the waiting messages in registration order.
 Nothing here depends on how a key is computed.
 */
module OutboxIndex {
  import opened Sequences
  import opened MessageIds
  import opened OutboxLedger

  type KeyFunction = PendingMessage -> string

  /** The identifiers of waiting messages with a given key, in registration order. */
  function Queue(keyOf: KeyFunction, issued: seq<PendingMessage>, waiting: set<string>, key: string): seq<string> {
    if issued == [] then []
    else
      var p := issued[|issued| - 1];
      Queue(keyOf, issued[..|issued| - 1], waiting, key) + if p.id in waiting && keyOf(p) == key then [p.id] else []
  }

  /** A map lookup that yields an empty list for an absent key. */
  function Lookup(byKey: map<string, seq<string>>, key: string): seq<string> {
    if key in byKey then byKey[key] else []
  }

  /** `byKey` is exactly the index of the waiting messages, without empty lists. */
  ghost predicate Indexes(keyOf: KeyFunction, byKey: map<string, seq<string>>, issued: seq<PendingMessage>,
                          waiting: set<string>) {
    && (forall key :: Lookup(byKey, key) == Queue(keyOf, issued, waiting, key))
    && (forall key :: key in byKey ==> byKey[key] != [])
  }

  ghost predicate DistinctIds(issued: seq<PendingMessage>) {
    forall i, j :: 0 <= i < j < |issued| ==> issued[i].id != issued[j].id
  }

  ghost predicate QueuedAt(keyOf: KeyFunction, issued: seq<PendingMessage>, waiting: set<string>, key: string, i: int) {
    0 <= i < |issued| && issued[i].id in waiting && keyOf(issued[i]) == key
  }

  lemma NumberedAreDistinct(issued: seq<PendingMessage>)
    requires Numbered(issued)
    ensures DistinctIds(issued)
  {
    forall i | 0 <= i < |issued| ensures CounterOf(issued[i].id) == i + 1 {
      NumberedAt(issued, i);
    }
  }

  lemma {:induction false} QueueMembers(keyOf: KeyFunction, issued: seq<PendingMessage>, waiting: set<string>,
                                        key: string, id: string)
    ensures id in Queue(keyOf, issued, waiting, key) <==>
      exists i :: QueuedAt(keyOf, issued, waiting, key, i) && issued[i].id == id
  {
    if issued != [] {
      var n := |issued| - 1;
      QueueMembers(keyOf, issued[..n], waiting, key, id);
      if i :| QueuedAt(keyOf, issued[..n], waiting, key, i) && issued[..n][i].id == id {
        assert QueuedAt(keyOf, issued, waiting, key, i);
      }
      if i :| QueuedAt(keyOf, issued, waiting, key, i) && issued[i].id == id {
        assert i < n ==> QueuedAt(keyOf, issued[..n], waiting, key, i);
      }
      if QueuedAt(keyOf, issued, waiting, key, n) && issued[n].id == id {
        assert id in Queue(keyOf, issued, waiting, key);
      }
    }
  }

  /** With distinct identifiers no message is listed twice. */
  lemma {:induction false} QueueDistinct(keyOf: KeyFunction, issued: seq<PendingMessage>, waiting: set<string>,
                                         key: string)
    requires DistinctIds(issued)
    ensures Distinct(Queue(keyOf, issued, waiting, key))
  {
    if issued != [] {
      var n := |issued| - 1;
      QueueDistinct(keyOf, issued[..n], waiting, key);
      QueueMembers(keyOf, issued[..n], waiting, key, issued[n].id);
      var front := Queue(keyOf, issued[..n], waiting, key);
      if issued[n].id in waiting && keyOf(issued[n]) == key {
        DistinctConcat(front, [issued[n].id]);
      } else {
        assert Queue(keyOf, issued, waiting, key) == front;
      }
    }
  }

  /** The head of a queue is the first registered of the messages it lists. */
  lemma {:induction false} QueueHead(keyOf: KeyFunction, issued: seq<PendingMessage>, waiting: set<string>,
                                     key: string) returns (h: nat)
    requires Queue(keyOf, issued, waiting, key) != []
    ensures QueuedAt(keyOf, issued, waiting, key, h) && issued[h].id == Queue(keyOf, issued, waiting, key)[0]
    ensures forall i :: QueuedAt(keyOf, issued, waiting, key, i) ==> h <= i
  {
    var n := |issued| - 1;
    if Queue(keyOf, issued[..n], waiting, key) == [] {
      h := n;
      forall i | QueuedAt(keyOf, issued, waiting, key, i) ensures h <= i {
        QueueMembers(keyOf, issued[..n], waiting, key, issued[i].id);
        assert i < n ==> QueuedAt(keyOf, issued[..n], waiting, key, i);
      }
    } else {
      h := QueueHead(keyOf, issued[..n], waiting, key);
      assert forall i :: QueuedAt(keyOf, issued, waiting, key, i) && i < n ==>
        QueuedAt(keyOf, issued[..n], waiting, key, i);
    }
  }

  lemma {:induction false} QueueFrame(keyOf: KeyFunction, issued: seq<PendingMessage>, w: set<string>, w': set<string>,
                                      key: string)
    requires forall p :: p in issued && keyOf(p) == key ==> (p.id in w <==> p.id in w')
    ensures Queue(keyOf, issued, w, key) == Queue(keyOf, issued, w', key)
  {
    if issued != [] {
      QueueFrame(keyOf, issued[..|issued| - 1], w, w', key);
    }
  }

  /** Removes the first occurrence of `target`. */
  function Without(ids: seq<string>, target: string): seq<string> {
    if ids == [] then []
    else if ids[0] == target then ids[1..]
    else [ids[0]] + Without(ids[1..], target)
  }

  lemma {:induction false} WithoutSnoc(ids: seq<string>, x: string, target: string)
    ensures Without(ids + [x], target) ==
            if target in ids then Without(ids, target) + [x] else if x == target then ids else ids + [x]
  {
    if ids == [] {
      assert Without([x][1..], target) == [];
    } else {
      assert (ids + [x])[1..] == ids[1..] + [x];
      WithoutSnoc(ids[1..], x, target);
    }
  }

  /** Taking one message out of the waiting set takes its identifier out of its queue. */
  lemma {:induction false} QueueWithout(keyOf: KeyFunction, issued: seq<PendingMessage>, waiting: set<string>, k: nat)
    requires DistinctIds(issued) && k < |issued| && issued[k].id in waiting
    ensures var p := issued[k];
            Queue(keyOf, issued, waiting - {p.id}, keyOf(p)) == Without(Queue(keyOf, issued, waiting, keyOf(p)), p.id)
  {
    var p, n := issued[k], |issued| - 1;
    var key, less, front, last := keyOf(p), waiting - {p.id}, issued[..n], issued[n];
    var q := Queue(keyOf, front, waiting, key);
    QueueMembers(keyOf, front, waiting, key, p.id);
    if k < n {
      QueueWithout(keyOf, front, waiting, k);
      assert Queue(keyOf, front, less, key) == Without(q, p.id);
      assert QueuedAt(keyOf, front, waiting, key, k);
      assert last.id != p.id;
      if last.id in waiting && keyOf(last) == key {
        assert Queue(keyOf, issued, waiting, key) == q + [last.id];
        assert Queue(keyOf, issued, less, key) == Without(q, p.id) + [last.id];
      } else {
        assert Queue(keyOf, issued, waiting, key) == q;
        assert Queue(keyOf, issued, less, key) == Without(q, p.id);
      }
      WithoutSnoc(q, last.id, p.id);
    } else {
      forall x | x in front ensures x.id in waiting <==> x.id in less {}
      QueueFrame(keyOf, front, waiting, less, key);
      WithoutSnoc(q, p.id, p.id);
      assert p.id !in q;
      assert Queue(keyOf, issued, waiting, key) == q + [p.id];
      assert Queue(keyOf, issued, less, key) == q;
    }
  }

  lemma QueueAfterRegister(keyOf: KeyFunction, issued: seq<PendingMessage>, waiting: set<string>,
                           p: PendingMessage, key: string)
    requires forall q :: q in issued ==> q.id != p.id
    ensures Queue(keyOf, issued + [p], waiting + {p.id}, key) ==
            Queue(keyOf, issued, waiting, key) + if keyOf(p) == key then [p.id] else []
  {
    assert (issued + [p])[..|issued|] == issued;
    QueueFrame(keyOf, issued, waiting, waiting + {p.id}, key);
  }

  lemma IndexAfterRegister(keyOf: KeyFunction, byKey: map<string, seq<string>>, issued: seq<PendingMessage>,
                           waiting: set<string>, p: PendingMessage)
    requires Indexes(keyOf, byKey, issued, waiting)
    requires forall q :: q in issued ==> q.id != p.id
    ensures Indexes(keyOf, Listed(byKey, keyOf(p), p.id), issued + [p], waiting + {p.id})
  {
    forall key ensures Lookup(Listed(byKey, keyOf(p), p.id), key) == Queue(keyOf, issued + [p], waiting + {p.id}, key) {
      QueueAfterRegister(keyOf, issued, waiting, p, key);
      assert Lookup(byKey, key) == Queue(keyOf, issued, waiting, key);
    }
  }

  /** The index after `id` has joined the list under `key`. */
  function Listed(byKey: map<string, seq<string>>, key: string, id: string): map<string, seq<string>> {
    byKey[key := Lookup(byKey, key) + [id]]
  }

  /** The index after `id` has left the list under `key`; an emptied list goes too. */
  function Unlisted(byKey: map<string, seq<string>>, key: string, id: string): map<string, seq<string>> {
    var rest := Without(Lookup(byKey, key), id);
    if rest == [] then byKey - {key} else byKey[key := rest]
  }

  lemma QueueAfterRemoval(keyOf: KeyFunction, issued: seq<PendingMessage>, waiting: set<string>, k: nat, key: string)
    requires DistinctIds(issued)
    requires k < |issued| && issued[k].id in waiting
    ensures Queue(keyOf, issued, waiting - {issued[k].id}, key) ==
            var queue := Queue(keyOf, issued, waiting, key);
            if key == keyOf(issued[k]) then Without(queue, issued[k].id) else queue
  {
    if key == keyOf(issued[k]) {
      QueueWithout(keyOf, issued, waiting, k);
    } else {
      QueueFrame(keyOf, issued, waiting, waiting - {issued[k].id}, key);
    }
  }

  lemma IndexAfterRemoval(keyOf: KeyFunction, byKey: map<string, seq<string>>, issued: seq<PendingMessage>,
                          waiting: set<string>, k: nat)
    requires Indexes(keyOf, byKey, issued, waiting) && DistinctIds(issued)
    requires k < |issued| && issued[k].id in waiting
    ensures Indexes(keyOf, Unlisted(byKey, keyOf(issued[k]), issued[k].id), issued, waiting - {issued[k].id})
  {
    hide Queue, Without, DistinctIds;
    forall key
      ensures Lookup(Unlisted(byKey, keyOf(issued[k]), issued[k].id), key) ==
              Queue(keyOf, issued, waiting - {issued[k].id}, key)
    {
      assert Lookup(byKey, key) == Queue(keyOf, issued, waiting, key);
      QueueAfterRemoval(keyOf, issued, waiting, k, key);
    }
  }

  /** Deletes from a slice by shifting the elements behind the hit. */
  method RemoveId(ids: seq<string>, target: string) returns (r: seq<string>)
    ensures r == Without(ids, target)
  {
    for i := 0 to |ids|
      invariant target !in ids[..i]
      invariant Without(ids, target) == ids[..i] + Without(ids[i..], target)
    {
      if ids[i] == target {
        return ids[..i] + ids[i + 1..];
      }
      assert ids[..i + 1] == ids[..i] + [ids[i]];
      assert ids[i..][1..] == ids[i + 1..];
    }
    return ids;
  }

  /** Takes `id` out of the list under `key`, and the list out of the index when it is empty. */
  method Unlist(byKey: map<string, seq<string>>, key: string, id: string) returns (r: map<string, seq<string>>)
    ensures r == Unlisted(byKey, key, id)
  {
    var rest := RemoveId(Lookup(byKey, key), id);
    r := byKey[key := rest];
    if |r[key]| == 0 {
      r := r - {key};
      assert r == byKey - {key};
    }
  }

  ghost predicate Waits(l: Ledger, p: PendingMessage) {
    p in l.issued && p.id in l.waiting
  }

  // ----- the three tables against the ledger

  /** The tables hold exactly what the ledger says is waiting. */
  ghost predicate Tabled(keyOf: KeyFunction, l: Ledger, ttl: int, pending: map<string, PendingMessage>,
                         byKey: map<string, seq<string>>, timers: set<string>)
  {
    && pending.Keys == l.waiting
    && (forall id :: id in pending ==> id != "" && pending[id].id == id && pending[id] in l.issued)
    && Indexes(keyOf, byKey, l.issued, l.waiting)
    && timers == (if ttl > 0 then l.waiting else {})
  }

  lemma PendingIsQueued(keyOf: KeyFunction, l: Ledger, ttl: int, pending: map<string, PendingMessage>,
                        byKey: map<string, seq<string>>, timers: set<string>, id: string) returns (k: nat)
    requires Tabled(keyOf, l, ttl, pending, byKey, timers) && id in pending
    ensures k < |l.issued| && l.issued[k] == pending[id] && l.issued[k].id == id
    ensures id in Lookup(byKey, keyOf(pending[id]))
  {
    k :| 0 <= k < |l.issued| && l.issued[k] == pending[id];
    assert QueuedAt(keyOf, l.issued, l.waiting, keyOf(pending[id]), k);
    QueueMembers(keyOf, l.issued, l.waiting, keyOf(pending[id]), id);
  }

  /** A waiting message is found under its identifier, and nothing else is. */
  lemma PendingIsWaiting(keyOf: KeyFunction, l: Ledger, ttl: int, pending: map<string, PendingMessage>,
                         byKey: map<string, seq<string>>, timers: set<string>)
    requires Numbered(l.issued)
    requires Tabled(keyOf, l, ttl, pending, byKey, timers)
    ensures forall q :: Waits(l, q) ==> q.id in pending && pending[q.id] == q
    ensures forall id :: id in pending ==> Waits(l, pending[id])
  {
    NumberedAreDistinct(l.issued);
    forall q | Waits(l, q) ensures q.id in pending && pending[q.id] == q {
      var j :| 0 <= j < |l.issued| && l.issued[j] == q;
      var k :| 0 <= k < |l.issued| && l.issued[k] == pending[q.id];
      assert j == k;
    }
  }

  /** No message with this key waits longer than `p`. */
  ghost predicate FirstQueued(keyOf: KeyFunction, issued: seq<PendingMessage>, waiting: set<string>, key: string,
                              p: PendingMessage)
  {
    forall i, j :: QueuedAt(keyOf, issued, waiting, key, i) && 0 <= j < |issued| && issued[j] == p ==> j <= i
  }

  /** The first listed identifier that is still pending heads its queue. */
  lemma FirstInQueue(keyOf: KeyFunction, l: Ledger, ttl: int, pending: map<string, PendingMessage>,
                     byKey: map<string, seq<string>>, timers: set<string>, key: string, n: nat)
    requires Numbered(l.issued)
    requires Tabled(keyOf, l, ttl, pending, byKey, timers) && n < |Lookup(byKey, key)|
    requires forall j :: 0 <= j < n ==> Lookup(byKey, key)[j] !in pending
    ensures n == 0
    ensures var id := Lookup(byKey, key)[n];
      && id in pending && Waits(l, pending[id]) && keyOf(pending[id]) == key
      && FirstQueued(keyOf, l.issued, l.waiting, key, pending[id])
      && Unlisted(byKey, key, id) ==
         if |Lookup(byKey, key)| == 1 then byKey - {key} else byKey[key := Lookup(byKey, key)[1..]]
  {
    var h := QueueHead(keyOf, l.issued, l.waiting, key);
    assert Waits(l, l.issued[h]);
    PendingIsWaiting(keyOf, l, ttl, pending, byKey, timers);
    NumberedAreDistinct(l.issued);
  }

  lemma NoneInQueue(keyOf: KeyFunction, l: Ledger, ttl: int, pending: map<string, PendingMessage>,
                    byKey: map<string, seq<string>>, timers: set<string>, key: string)
    requires Numbered(l.issued)
    requires Tabled(keyOf, l, ttl, pending, byKey, timers)
    requires forall j :: 0 <= j < |Lookup(byKey, key)| ==> Lookup(byKey, key)[j] !in pending
    ensures key !in byKey
    ensures forall q :: Waits(l, q) ==> keyOf(q) != key
  {
    if key in byKey {
      QueueMembers(keyOf, l.issued, l.waiting, key, byKey[key][0]);
    }
    PendingIsWaiting(keyOf, l, ttl, pending, byKey, timers);
    forall q | Waits(l, q) ensures keyOf(q) != key {
      var k := PendingIsQueued(keyOf, l, ttl, pending, byKey, timers, q.id);
    }
  }

  /** The whole state of an outbox. */
  ghost predicate Consistent(keyOf: KeyFunction, hooked: bool, l: Ledger, nextID: int, ttl: int,
                             pending: map<string, PendingMessage>, byKey: map<string, seq<string>>,
                             timers: set<string>, calls: seq<PendingMessage>)
  {
    && Inv(hooked, l) && nextID == |l.issued| && calls == l.notified
    && Tabled(keyOf, l, ttl, pending, byKey, timers)
  }

  lemma TabledAfterRegister(keyOf: KeyFunction, l: Ledger, ttl: int, pending: map<string, PendingMessage>,
                            byKey: map<string, seq<string>>, timers: set<string>, p: PendingMessage)
    requires Tabled(keyOf, l, ttl, pending, byKey, timers)
    requires p.id != "" && forall q :: q in l.issued ==> q.id != p.id
    ensures Tabled(keyOf, l.(issued := l.issued + [p], waiting := l.waiting + {p.id}), ttl, pending[p.id := p],
                   Listed(byKey, keyOf(p), p.id), if ttl > 0 then timers + {p.id} else timers)
  {
    IndexAfterRegister(keyOf, byKey, l.issued, l.waiting, p);
  }

  /** Registering a message with a fresh identifier. */
  lemma AfterRegister(keyOf: KeyFunction, hooked: bool, l: Ledger, nextID: int, ttl: int,
                      pending: map<string, PendingMessage>, byKey: map<string, seq<string>>,
                      timers: set<string>, calls: seq<PendingMessage>, p: PendingMessage)
    requires Consistent(keyOf, hooked, l, nextID, ttl, pending, byKey, timers, calls)
    requires CounterOf(p.id) == nextID + 1
    ensures Consistent(keyOf, hooked, l.(issued := l.issued + [p], waiting := l.waiting + {p.id}), nextID + 1, ttl,
                       pending[p.id := p], Listed(byKey, keyOf(p), p.id),
                       if ttl > 0 then timers + {p.id} else timers, calls)
    ensures p.id !in IdsOf(l.issued)
  {
    RegisterIsFresh(hooked, l, p.id);
    RegisterKeepsInv(hooked, l, p);
    IdsMember(l.issued, p.id);
    TabledAfterRegister(keyOf, l, ttl, pending, byKey, timers, p);
  }

  lemma TabledAfterRemoval(keyOf: KeyFunction, l: Ledger, ttl: int, pending: map<string, PendingMessage>,
                           byKey: map<string, seq<string>>, timers: set<string>, p: PendingMessage,
                           hooked: bool, outcome: Outcome)
    requires Numbered(l.issued) && Tabled(keyOf, l, ttl, pending, byKey, timers)
    requires p.id in pending && pending[p.id] == p
    ensures Tabled(keyOf, Settle(hooked, l, p.id, outcome), ttl, pending - {p.id},
                   Unlisted(byKey, keyOf(p), p.id), timers - {p.id})
  {
    var k := PendingIsQueued(keyOf, l, ttl, pending, byKey, timers, p.id);
    NumberedAreDistinct(l.issued);
    IndexAfterRemoval(keyOf, byKey, l.issued, l.waiting, k);
  }

  /** Taking a waiting message out of all three tables gives it its outcome. */
  lemma AfterRemoval(keyOf: KeyFunction, hooked: bool, l: Ledger, nextID: int, ttl: int,
                     pending: map<string, PendingMessage>, byKey: map<string, seq<string>>,
                     timers: set<string>, calls: seq<PendingMessage>, p: PendingMessage, outcome: Outcome)
    requires Consistent(keyOf, hooked, l, nextID, ttl, pending, byKey, timers, calls)
    requires p.id in pending && pending[p.id] == p
    ensures Consistent(keyOf, hooked, Settle(hooked, l, p.id, outcome), nextID, ttl, pending - {p.id},
                       Unlisted(byKey, keyOf(p), p.id), timers - {p.id}, calls)
  {
    TabledAfterRemoval(keyOf, l, ttl, pending, byKey, timers, p, hooked, outcome);
    SettleKeepsInv(hooked, l, p.id, outcome);
  }

  /** Running an owed callback. */
  lemma AfterCallback(keyOf: KeyFunction, hooked: bool, l: Ledger, nextID: int, ttl: int,
                      pending: map<string, PendingMessage>, byKey: map<string, seq<string>>,
                      timers: set<string>, calls: seq<PendingMessage>, p: PendingMessage)
    requires Consistent(keyOf, hooked, l, nextID, ttl, pending, byKey, timers, calls) && p.id in l.owed
    ensures Consistent(keyOf, hooked, l.(owed := l.owed - {p.id}, notified := l.notified + [p]), nextID, ttl,
                       pending, byKey, timers, calls + [p])
  {
    NotifyKeepsInv(hooked, l, p);
  }
}
