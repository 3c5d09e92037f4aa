/**
 The outbox as its callers see it: which messages were issued, which still
 wait, which answers were given, and which failure callbacks are owed or done.
 Calls by different goroutines interleave as steps of this ledger; a timer may
 fire for any identifier at any moment, however late or often.
 */
module OutboxLedger {
  import opened Text
  import opened MessageIds

  datatype PendingMessage = PendingMessage(
    id: string,
    source: string,
    destination: string,
    message: string,
    createdAt: int)

  datatype Outcome = Confirmed | Cancelled | Failed

  /** One answer the outbox gave: this message ended this way. */
  datatype Resolution = Resolution(id: string, outcome: Outcome)

  datatype Ledger = Ledger(
    issued: seq<PendingMessage>,
    waiting: set<string>,
    resolved: seq<Resolution>,
    owed: set<string>,
    notified: seq<PendingMessage>)

  const EMPTY_LEDGER := Ledger([], {}, [], {}, [])

  datatype Event =
    | Register(p: PendingMessage)
    | Confirm(id: string)
    | Cancel(id: string)
    | Fire(id: string)
    | Notify(p: PendingMessage)
    | Miss

  /** The stored fields are in normal form. */
  predicate Stored(p: PendingMessage) {
    p.source == Norm(p.source) && p.destination == Trim(p.destination)
  }

  /** `hooked` says whether a failure callback was given to the outbox. */
  ghost predicate Step(hooked: bool, l: Ledger, e: Event, l': Ledger) {
    match e
    case Register(p) =>
      && CounterOf(p.id) == |l.issued| + 1
      && Stored(p)
      && l' == l.(issued := l.issued + [p], waiting := l.waiting + {p.id})
    case Confirm(id) =>
      id in l.waiting && l' == Settle(hooked, l, id, Confirmed)
    case Cancel(id) =>
      id in l.waiting && l' == Settle(hooked, l, id, Cancelled)
    case Fire(id) =>
      if id in l.waiting then
        l' == Settle(hooked, l, id, Failed)
      else
        l' == l
    case Notify(p) =>
      p.id in l.owed && p in l.issued && l' == l.(owed := l.owed - {p.id}, notified := l.notified + [p])
    case Miss =>
      l' == l
  }

  /** The message gets its outcome; a failure leaves one callback owed when there is one. */
  function Settle(hooked: bool, l: Ledger, id: string, outcome: Outcome): Ledger {
    l.(waiting := l.waiting - {id},
       resolved := l.resolved + [Resolution(id, outcome)],
       owed := if hooked && outcome == Failed then l.owed + {id} else l.owed)
  }

  // ----- what a ledger says, as sets of identifiers

  function IdsOf(issued: seq<PendingMessage>): set<string> {
    if issued == [] then {} else IdsOf(issued[..|issued| - 1]) + {issued[|issued| - 1].id}
  }

  function ResolvedIds(resolved: seq<Resolution>): set<string> {
    if resolved == [] then {} else ResolvedIds(resolved[..|resolved| - 1]) + {resolved[|resolved| - 1].id}
  }

  function FailedIds(resolved: seq<Resolution>): set<string> {
    if resolved == [] then {}
    else
      var r := resolved[|resolved| - 1];
      FailedIds(resolved[..|resolved| - 1]) + if r.outcome == Failed then {r.id} else {}
  }

  /** The n-th message carries the number n. */
  predicate Numbered(issued: seq<PendingMessage>) {
    issued == [] || (Numbered(issued[..|issued| - 1]) && CounterOf(issued[|issued| - 1].id) == |issued|)
  }

  /** No message was answered twice. */
  predicate AnsweredOnce(resolved: seq<Resolution>) {
    resolved == [] ||
    (AnsweredOnce(resolved[..|resolved| - 1]) &&
     resolved[|resolved| - 1].id !in ResolvedIds(resolved[..|resolved| - 1]))
  }

  predicate NotifiedOnce(s: seq<PendingMessage>) {
    s == [] || (NotifiedOnce(s[..|s| - 1]) && s[|s| - 1].id !in IdsOf(s[..|s| - 1]))
  }

  /** What holds in every reachable ledger. */
  ghost predicate Inv(hooked: bool, l: Ledger) {
    && Numbered(l.issued)
    && AnsweredOnce(l.resolved)
    && NotifiedOnce(l.notified)
    && l.waiting !! ResolvedIds(l.resolved)
    && IdsOf(l.issued) == l.waiting + ResolvedIds(l.resolved)
    && l.owed !! IdsOf(l.notified)
    && l.owed + IdsOf(l.notified) == (if hooked then FailedIds(l.resolved) else {})
  }

  lemma {:induction false} IdsMember(issued: seq<PendingMessage>, id: string)
    ensures id in IdsOf(issued) <==> exists i :: 0 <= i < |issued| && issued[i].id == id
  {
    if issued != [] {
      var n := |issued| - 1;
      IdsMember(issued[..n], id);
      if i :| 0 <= i < n && issued[..n][i].id == id { assert issued[i].id == id; }
      if i :| 0 <= i < |issued| && issued[i].id == id { assert i < n ==> issued[..n][i].id == id; }
    }
  }

  lemma {:induction false} NumberedAt(issued: seq<PendingMessage>, i: nat)
    requires Numbered(issued) && i < |issued|
    ensures CounterOf(issued[i].id) == i + 1
  {
    if i < |issued| - 1 {
      NumberedAt(issued[..|issued| - 1], i);
    }
  }

  lemma {:induction false} FailedAreResolved(resolved: seq<Resolution>)
    ensures FailedIds(resolved) <= ResolvedIds(resolved)
  {
    if resolved != [] {
      FailedAreResolved(resolved[..|resolved| - 1]);
    }
  }

  /** Any schedule of calls and timers, from a new outbox on. */
  ghost predicate Run(hooked: bool, events: seq<Event>, states: seq<Ledger>) {
    && |states| == |events| + 1
    && states[0] == EMPTY_LEDGER
    && forall i :: 0 <= i < |events| ==> Step(hooked, states[i], events[i], states[i + 1])
  }

  /** A new identifier was never used before. */
  lemma RegisterIsFresh(hooked: bool, l: Ledger, id: string)
    requires Inv(hooked, l) && CounterOf(id) == |l.issued| + 1
    ensures id !in IdsOf(l.issued)
  {
    IdsMember(l.issued, id);
    if i :| 0 <= i < |l.issued| && l.issued[i].id == id {
      NumberedAt(l.issued, i);
    }
  }

  lemma RegisterKeepsInv(hooked: bool, l: Ledger, p: PendingMessage)
    requires Inv(hooked, l) && CounterOf(p.id) == |l.issued| + 1
    ensures Inv(hooked, l.(issued := l.issued + [p], waiting := l.waiting + {p.id}))
  {
    RegisterIsFresh(hooked, l, p.id);
    assert (l.issued + [p])[..|l.issued|] == l.issued;
  }

  lemma SettleKeepsInv(hooked: bool, l: Ledger, id: string, outcome: Outcome)
    requires Inv(hooked, l) && id in l.waiting
    ensures Inv(hooked, Settle(hooked, l, id, outcome))
  {
    var r := Resolution(id, outcome);
    assert (l.resolved + [r])[..|l.resolved|] == l.resolved;
    FailedAreResolved(l.resolved);
  }

  lemma NotifyKeepsInv(hooked: bool, l: Ledger, p: PendingMessage)
    requires Inv(hooked, l) && p.id in l.owed
    ensures Inv(hooked, l.(owed := l.owed - {p.id}, notified := l.notified + [p]))
  {
    assert (l.notified + [p])[..|l.notified|] == l.notified;
  }

  /** Every step of every caller keeps the invariant. */
  lemma StepKeepsInv(hooked: bool, l: Ledger, e: Event, l': Ledger)
    requires Inv(hooked, l) && Step(hooked, l, e, l')
    ensures Inv(hooked, l')
  {
    match e
    case Register(p) => RegisterKeepsInv(hooked, l, p);
    case Confirm(id) => SettleKeepsInv(hooked, l, id, Confirmed);
    case Cancel(id) => SettleKeepsInv(hooked, l, id, Cancelled);
    case Fire(id) => if id in l.waiting { SettleKeepsInv(hooked, l, id, Failed); }
    case Notify(p) => NotifyKeepsInv(hooked, l, p);
    case Miss =>
  }

  lemma {:induction false} ReachableInv(hooked: bool, events: seq<Event>, states: seq<Ledger>, n: nat)
    requires Run(hooked, events, states) && n < |states|
    ensures Inv(hooked, states[n])
  {
    if n > 0 {
      ReachableInv(hooked, events, states, n - 1);
      StepKeepsInv(hooked, states[n - 1], events[n - 1], states[n]);
    }
  }

  lemma {:induction false} IssuedAreStored(hooked: bool, events: seq<Event>, states: seq<Ledger>, n: nat, i: nat)
    requires Run(hooked, events, states) && n < |states| && i < |states[n].issued|
    ensures Stored(states[n].issued[i])
    decreases n
  {
    var e := events[n - 1];
    assert Step(hooked, states[n - 1], e, states[n]);
    if i < |states[n - 1].issued| {
      IssuedAreStored(hooked, events, states, n - 1, i);
    } else {
      assert e.Register? && states[n].issued[i] == e.p;
    }
  }

  /** The past is never rewritten: issued messages, answers and callbacks only accumulate. */
  lemma {:induction false} HistoryGrows(hooked: bool, events: seq<Event>, states: seq<Ledger>, m: nat, n: nat)
    requires Run(hooked, events, states) && m <= n < |states|
    ensures states[m].issued <= states[n].issued
    ensures states[m].resolved <= states[n].resolved
    ensures states[m].notified <= states[n].notified
    decreases n
  {
    if m < n {
      HistoryGrows(hooked, events, states, m, n - 1);
      assert Step(hooked, states[n - 1], events[n - 1], states[n]);
    }
  }

  ghost predicate IsIssued(l: Ledger, id: string) {
    exists i :: 0 <= i < |l.issued| && l.issued[i].id == id
  }

  ghost predicate HasOutcome(l: Ledger, id: string, outcome: Outcome) {
    Resolution(id, outcome) in l.resolved
  }

  /** An answered message has exactly one answer. */
  lemma {:induction false} AnswerUnique(resolved: seq<Resolution>, id: string)
    requires AnsweredOnce(resolved)
    ensures id in ResolvedIds(resolved) <==> exists o :: Resolution(id, o) in resolved
    ensures id in FailedIds(resolved) <==> Resolution(id, Failed) in resolved
    ensures forall o, o' :: Resolution(id, o) in resolved && Resolution(id, o') in resolved ==> o == o'
  {
    if resolved != [] {
      var n := |resolved| - 1;
      AnswerUnique(resolved[..n], id);
      FailedAreResolved(resolved[..n]);
      assert resolved == resolved[..n] + [resolved[n]];
      if id == resolved[n].id {
        assert Resolution(id, resolved[n].outcome) in resolved;
      }
    }
  }

  /** How often the failure callback ran for `id`. */
  function Calls(notified: seq<PendingMessage>, id: string): nat {
    if notified == [] then 0
    else Calls(notified[..|notified| - 1], id) + if notified[|notified| - 1].id == id then 1 else 0
  }

  lemma {:induction false} CallsCounted(s: seq<PendingMessage>, id: string)
    requires NotifiedOnce(s)
    ensures Calls(s, id) == if id in IdsOf(s) then 1 else 0
  {
    if s != [] {
      CallsCounted(s[..|s| - 1], id);
    }
  }

  /**
   Exactly one outcome per message, over every schedule: an issued message is
   either waiting or was answered once, with an outcome that no later step
   changes; the callback has run once for it if it failed and its call is no
   longer owed, and not at all otherwise.
   */
  lemma OneOutcomePerMessage(hooked: bool, events: seq<Event>, states: seq<Ledger>, m: nat, n: nat, id: string)
    requires Run(hooked, events, states) && m <= n < |states|
    requires IsIssued(states[m], id)
    ensures IsIssued(states[n], id)
    ensures id in states[n].waiting <==> forall o: Outcome :: !HasOutcome(states[n], id, o)
    ensures forall o, o' :: HasOutcome(states[n], id, o) && HasOutcome(states[n], id, o') ==> o == o'
    ensures forall o :: HasOutcome(states[m], id, o) ==> HasOutcome(states[n], id, o)
    ensures Calls(states[n].notified, id) ==
            if hooked && HasOutcome(states[n], id, Failed) && id !in states[n].owed then 1 else 0
  {
    var l, k := states[n], states[m];
    ReachableInv(hooked, events, states, n);
    HistoryGrows(hooked, events, states, m, n);
    var i :| 0 <= i < |k.issued| && k.issued[i].id == id;
    assert l.issued[i].id == id;
    IdsMember(l.issued, id);
    AnswerUnique(l.resolved, id);
    forall o ensures HasOutcome(l, id, o) <==> Resolution(id, o) in l.resolved {}
    CallsCounted(l.notified, id);
  }

  /** Nothing is ever answered, or called back, that was not issued. */
  lemma OnlyIssuedAreAnswered(hooked: bool, events: seq<Event>, states: seq<Ledger>, n: nat, id: string)
    requires Run(hooked, events, states) && n < |states|
    requires !IsIssued(states[n], id)
    ensures id !in states[n].waiting && id !in states[n].owed && Calls(states[n].notified, id) == 0
    ensures forall o :: !HasOutcome(states[n], id, o)
  {
    var l := states[n];
    ReachableInv(hooked, events, states, n);
    IdsMember(l.issued, id);
    AnswerUnique(l.resolved, id);
    FailedAreResolved(l.resolved);
    CallsCounted(l.notified, id);
  }
}
