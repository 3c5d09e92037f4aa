/** The position store: freshness rules for packets, and the two-phase save. */
module Positions {
  import opened Text
  import opened WriteBehind

  /** What a packet says about the place of its origin. */
  datatype Report = Report(latitude: real, longitude: real, altitude: int, hardwareID: string)

  /** When a packet came in, and how well its last transmission was received. */
  datatype Contact = Contact(rssi: Option<int>, snr: Option<int>, seenAt: int)

  /** `lastSeen` always moves; only a direct contact tells about the radio link. */
  function Freshened(r: Record, direct: bool, k: Contact): Record {
    if !direct then r.(lastSeen := k.seenAt)
    else r.(
      lastSeen := k.seenAt,
      lastDirectSeen := Some(k.seenAt),
      rssi := if k.rssi.Some? then k.rssi.value else r.rssi,
      snr := if k.snr.Some? then k.snr.value else r.snr)
  }

  /** One station, if it is known. */
  function OneTouched(records: Records, c: string, direct: bool, k: Contact): Records {
    if c in records then map[c := Freshened(records[c], direct, k)] else map[]
  }

  /** The first `n` relays of a chain, one after the other; the last of the chain was heard directly. */
  function Touched(records: Records, via: seq<string>, n: nat, k: Contact): Records
    requires n <= |via|
  {
    if n == 0 then map[]
    else
      var before := Touched(records, via, n - 1, k);
      before + OneTouched(records + before, via[n - 1], n == |via|, k)
  }

  function ChainTouched(records: Records, via: seq<string>, k: Contact): Records {
    Touched(records, via, |via|, k)
  }

  /** The record a position packet makes of what was known about its origin. */
  function Reported(current: Option<Record>, p: Report, via: seq<string>, k: Contact): Record {
    var r := Record(p.latitude, p.longitude, p.altitude, p.hardwareID,
      if current.Some? then current.value.firstSeen else k.seenAt,
      k.seenAt,
      if current.Some? then current.value.lastDirectSeen else None,
      if current.Some? then current.value.rssi else 0,
      if current.Some? then current.value.snr else 0,
      via);
    Freshened(r, via == [], k)
  }

  function Lookup(records: Records, c: string): Option<Record> {
    if c in records then Some(records[c]) else None
  }

  /** The packet says nothing new about its origin. */
  predicate Repeats(records: Records, c: string, p: Report, via: seq<string>, k: Contact) {
    Lookup(records, c) == Some(Reported(Lookup(records, c), p, via, k))
  }

  /** Everything one position packet changes. */
  function UpdateTouches(records: Records, c: string, p: Report, via: seq<string>, k: Contact): Records {
    var chain := ChainTouched(records, via, k);
    if Repeats(records, c, p, via, k) then chain
    else chain + map[c := Reported(Lookup(records, c), p, via, k)]
  }

  /** Everything a packet without position changes: known stations only, the origin before its relays. */
  function PacketTouches(records: Records, c: string, via: seq<string>, k: Contact): Records {
    var origin := OneTouched(records, c, via == [], k);
    origin + ChainTouched(records + origin, via, k)
  }

  // ----- changes of the store

  /** `after` is `before` with `touched` written and marked. */
  predicate Writes(before: Records, marks: set<string>, touched: Records, after: Records, marks': set<string>) {
    after == before + touched && marks' == marks + touched.Keys
  }

  lemma WritesNothing(before: Records, marks: set<string>)
    ensures Writes(before, marks, map[], before, marks)
  {
    assert before + map[] == before;
  }

  lemma WritesTwice(r0: Records, m0: set<string>, t1: Records, r1: Records, m1: set<string>,
                    t2: Records, r2: Records, m2: set<string>)
    requires Writes(r0, m0, t1, r1, m1) && Writes(r1, m1, t2, r2, m2)
    ensures Writes(r0, m0, t1 + t2, r2, m2)
    ensures (t1 + t2).Keys == t1.Keys + t2.Keys
  {
    assert r0 + t1 + t2 == r0 + (t1 + t2);
    assert m0 + t1.Keys + t2.Keys == m0 + (t1.Keys + t2.Keys);
  }

  class PositionStore {
    var records: Records
    var dirtyNodes: set<string>
    var dirty: bool
    /** The table, and the saver's local snapshot between its two critical sections. */
    var db: Records
    var flight: Option<Records>

    ghost function State(): Store
      reads this
    {
      Store(records, dirtyNodes, db, flight)
    }

    ghost predicate Valid()
      reads this
    {
      Agrees(State()) && (dirty <==> dirtyNodes != {})
    }

    /** A store that was just loaded. */
    constructor (rows: Records)
      ensures Valid() && State() == Store(rows, {}, rows, None)
    {
      records, dirtyNodes, dirty, db, flight := rows, {}, false, rows, None;
    }

    method SetRecordLocked(c: string, r: Record)
      requires dirty <==> dirtyNodes != {}
      modifies this`records, this`dirtyNodes, this`dirty
      ensures Writes(old(records), old(dirtyNodes), map[c := r], records, dirtyNodes) && dirty && dirtyNodes != {}
    {
      assert records[c := r] == records + map[c := r];
      records := records[c := r];
      dirtyNodes := dirtyNodes + {c};
      dirty := true;
    }

    method TouchOne(c: string, direct: bool, k: Contact) returns (known: bool)
      requires dirty <==> dirtyNodes != {}
      modifies this`records, this`dirtyNodes, this`dirty
      ensures dirty <==> dirtyNodes != {}
      ensures var touched := OneTouched(old(records), c, direct, k);
        Writes(old(records), old(dirtyNodes), touched, records, dirtyNodes) && known == (touched.Keys != {})
    {
      known := c in records;
      if known {
        SetRecordLocked(c, Freshened(records[c], direct, k));
      } else {
        WritesNothing(records, dirtyNodes);
      }
    }

    method TouchViaChainLocked(via: seq<string>, k: Contact) returns (changed: bool)
      requires dirty <==> dirtyNodes != {}
      modifies this`records, this`dirtyNodes, this`dirty
      ensures dirty <==> dirtyNodes != {}
      ensures var touched := ChainTouched(old(records), via, k);
        Writes(old(records), old(dirtyNodes), touched, records, dirtyNodes) && changed == (touched.Keys != {})
    {
      changed := false;
      ghost var before, marks := records, dirtyNodes;
      WritesNothing(records, dirtyNodes);
      for i := 0 to |via|
        invariant dirty <==> dirtyNodes != {}
        invariant Writes(before, marks, Touched(before, via, i, k), records, dirtyNodes)
        invariant changed <==> Touched(before, via, i, k).Keys != {}
      {
        ghost var now, dirtied := records, dirtyNodes;
        ghost var done, one := Touched(before, via, i, k), OneTouched(records, via[i], i + 1 == |via|, k);
        var known := TouchOne(via[i], i + 1 == |via|, k);
        WritesTwice(before, marks, done, now, dirtied, one, records, dirtyNodes);
        changed := changed || known;
      }
    }

    /** A position packet; the result says whether the origin's own record changed. */
    method Update(c: string, p: Report, via: seq<string>, k: Contact) returns (updated: bool)
      requires Valid()
      modifies this`records, this`dirtyNodes, this`dirty
      ensures Valid()
      ensures Step(old(State()), Change(if c == "" then map[] else UpdateTouches(old(records), c, p, via, k)), State())
      ensures updated <==> c != "" && !Repeats(old(records), c, p, via, k)
    {
      ghost var before := State();
      if c == "" {
        assert records + map[] == records;
        return false;
      }
      updated := UpdateLocked(c, p, via, k);
      StepKeepsAgreement(before, Change(UpdateTouches(before.records, c, p, via, k)), State());
    }

    method UpdateLocked(c: string, p: Report, via: seq<string>, k: Contact) returns (updated: bool)
      requires dirty <==> dirtyNodes != {}
      modifies this`records, this`dirtyNodes, this`dirty
      ensures dirty <==> dirtyNodes != {}
      ensures var touched := UpdateTouches(old(records), c, p, via, k);
        Writes(old(records), old(dirtyNodes), touched, records, dirtyNodes)
      ensures updated == !Repeats(old(records), c, p, via, k)
    {
      var current := Lookup(records, c);
      var record := Reported(current, p, via, k);
      ghost var before, marks, chain := records, dirtyNodes, ChainTouched(records, via, k);
      if via != [] {
        var changed := TouchViaChainLocked(via, k);
      } else {
        WritesNothing(records, dirtyNodes);
      }
      if current == Some(record) {
        return false;
      }
      ghost var now, dirtied := records, dirtyNodes;
      SetRecordLocked(c, record);
      WritesTwice(before, marks, chain, now, dirtied, map[c := record], records, dirtyNodes);
      return true;
    }

    /** A text or telemetry packet; it never creates a record. */
    method TouchFromPacket(c: string, via: seq<string>, k: Contact) returns (changed: bool)
      requires Valid()
      modifies this`records, this`dirtyNodes, this`dirty
      ensures Valid()
      ensures var touched := if c == "" then map[] else PacketTouches(old(records), c, via, k);
        Step(old(State()), Change(touched), State()) && (changed <==> touched.Keys != {})
    {
      ghost var before := State();
      if c == "" {
        assert records + map[] == records;
        return false;
      }
      changed := TouchFromPacketLocked(c, via, k);
      StepKeepsAgreement(before, Change(PacketTouches(before.records, c, via, k)), State());
    }

    method TouchFromPacketLocked(c: string, via: seq<string>, k: Contact) returns (changed: bool)
      requires dirty <==> dirtyNodes != {}
      modifies this`records, this`dirtyNodes, this`dirty
      ensures dirty <==> dirtyNodes != {}
      ensures var touched := PacketTouches(old(records), c, via, k);
        Writes(old(records), old(dirtyNodes), touched, records, dirtyNodes) && (changed <==> touched.Keys != {})
    {
      ghost var before, marks, origin := records, dirtyNodes, OneTouched(records, c, via == [], k);
      changed := TouchOne(c, via == [], k);
      ghost var now, dirtied, chain := records, dirtyNodes, ChainTouched(records, via, k);
      if via != [] {
        var relays := TouchViaChainLocked(via, k);
        changed := relays || changed;
      } else {
        WritesNothing(records, dirtyNodes);
      }
      WritesTwice(before, marks, origin, now, dirtied, chain, records, dirtyNodes);
    }

    /** First half of a save: takes the snapshot and clears the marks. */
    method BeginSave() returns (started: bool)
      requires Valid() && flight == None
      modifies this
      ensures Valid() && Step(old(State()), WriteBehind.BeginSave, State())
      ensures started == old(dirty) && started == flight.Some?
    {
      if !dirty {
        return false;
      }
      flight := Some(Restrict(records, dirtyNodes));
      dirty := false;
      dirtyNodes := {};
      return true;
    }

    /** Second half: the transaction committed, or it did not and the marks come back. */
    method FinishSave(ok: bool)
      requires Valid() && flight.Some?
      modifies this
      ensures Valid() && Step(old(State()), WriteBehind.FinishSave(ok), State())
      ensures ok && !dirty ==> db == records
    {
      if ok {
        db := db + flight.value;
      } else {
        dirty := true;
        dirtyNodes := dirtyNodes + flight.value.Keys;
      }
      flight := None;
      if ok && !dirty {
        QuietIsSaved(State());
      }
    }
  }

  // ----- the freshness rules

  /** One after the other every known relay is touched, the last of the chain directly, whatever repeats. */
  lemma {:induction false} TouchedMeaning(records: Records, via: seq<string>, i: nat, k: Contact, n: string)
    requires i <= |via|
    ensures n in Touched(records, via, i, k) <==> n in records && n in via[..i]
    ensures n in records && n in via[..i] ==>
      Touched(records, via, i, k)[n] == Freshened(records[n], i == |via| && n == via[i - 1], k)
  {
    if i > 0 {
      hide Freshened;
      TouchedMeaning(records, via, i - 1, k, n);
      assert via[..i] == via[..i - 1] + [via[i - 1]];
    }
  }

  lemma ChainMeaning(records: Records, via: seq<string>, k: Contact, n: string)
    ensures n in ChainTouched(records, via, k) <==> n in records && n in via
    ensures n in records && n in via ==>
      ChainTouched(records, via, k)[n] == Freshened(records[n], n == via[|via| - 1], k)
  {
    TouchedMeaning(records, via, |via|, k, n);
    assert via[..|via|] == via;
  }

  /** No packet without position creates a record. */
  lemma PacketsCreateNothing(records: Records, c: string, via: seq<string>, k: Contact)
    ensures PacketTouches(records, c, via, k).Keys <= records.Keys
  {
    forall n | n in PacketTouches(records, c, via, k) ensures n in records {
      ChainMeaning(records + OneTouched(records, c, via == [], k), via, k, n);
    }
  }

  /** A position packet leaves the identity and first sighting of every known station alone. */
  lemma UpdateKeepsFirstSeen(records: Records, c: string, p: Report, via: seq<string>, k: Contact, n: string)
    requires n in records
    ensures var now := records + UpdateTouches(records, c, p, via, k);
      && now[n].firstSeen == records[n].firstSeen
      && (n != c ==> now[n].latitude == records[n].latitude && now[n].longitude == records[n].longitude)
      && (n != c ==> now[n].via == records[n].via)
      && (n != c && n !in via ==> now[n] == records[n])
  {
    ChainMeaning(records, via, k, n);
  }

  /** The station that was heard directly: the last relay, or the origin itself. */
  function Speaker(c: string, via: seq<string>): string {
    if via == [] then c else via[|via| - 1]
  }

  /** What is known about the radio link to a station. */
  predicate SameLink(a: Record, b: Record) {
    a.rssi == b.rssi && a.snr == b.snr && a.lastDirectSeen == b.lastDirectSeen
  }

  /** `after` is `before` heard now: directly, with the readings that came along, or not. */
  predicate Heard(before: Record, after: Record, direct: bool, k: Contact) {
    && after.lastSeen == k.seenAt
    && (!direct ==> SameLink(before, after))
    && (direct ==> after.lastDirectSeen == Some(k.seenAt))
    && (direct ==> after.rssi == if k.rssi.Some? then k.rssi.value else before.rssi)
    && (direct ==> after.snr == if k.snr.Some? then k.snr.value else before.snr)
  }

  /**
   The freshness rules for a packet without position: the known stations on its
   path were heard, only the speaker directly; nobody else changes.
   */
  lemma PacketFreshness(records: Records, c: string, via: seq<string>, k: Contact, n: string)
    requires n in records
    ensures var now := records + PacketTouches(records, c, via, k);
      if n == c || n in via then Heard(records[n], now[n], n == Speaker(c, via), k) else now[n] == records[n]
  {
    ChainMeaning(records + OneTouched(records, c, via == [], k), via, k, n);
  }

  /**
   The same rules for a position packet, with one exception: on a path that ends in
   its own origin the direct contact is recorded only if nothing else changes.
   */
  lemma UpdateFreshness(records: Records, c: string, p: Report, via: seq<string>, k: Contact, n: string)
    requires n in records
    ensures var now := records + UpdateTouches(records, c, p, via, k);
      var direct := n == Speaker(c, via) && (via == [] || n != c || Repeats(records, c, p, via, k));
      if n == c || n in via then Heard(records[n], now[n], direct, k) else now[n] == records[n]
  {
    ChainMeaning(records, via, k, n);
  }

  /** A position packet creates no record but that of its origin. */
  lemma UpdateCreatesOrigin(records: Records, c: string, p: Report, via: seq<string>, k: Contact)
    ensures var now := records + UpdateTouches(records, c, p, via, k);
      && now.Keys == records.Keys + {c}
      && now[c].latitude == p.latitude && now[c].longitude == p.longitude && now[c].altitude == p.altitude
      && now[c].hardwareID == p.hardwareID && now[c].via == via
      && (c !in records ==> now[c].firstSeen == now[c].lastSeen == k.seenAt)
      && (c !in records ==> (now[c].lastDirectSeen.Some? <==> via == []))
      && (c !in records ==> now[c].rssi == if via == [] && k.rssi.Some? then k.rssi.value else 0)
      && (c !in records ==> now[c].snr == if via == [] && k.snr.Some? then k.snr.value else 0)
  {
    forall n | n in ChainTouched(records, via, k) ensures n in records {
      ChainMeaning(records, via, k, n);
    }
    ChainMeaning(records, via, k, c);
  }

  /**
   The exception happens: a station known through a relay sends its position over a
   path that ends in itself.  It was the one that was heard, and stays without a
   direct contact; the same path with a text packet records one.
   */
  method LoseDirectContact(p: Report, relayed: Contact, looped: Contact) returns (lost: Record, kept: Record)
    requires relayed.seenAt < looped.seenAt
    ensures Speaker("A", ["A"]) == "A" && lost.lastSeen == kept.lastSeen == looped.seenAt
    ensures lost.lastDirectSeen == None && kept.lastDirectSeen == Some(looped.seenAt)
  {
    var store := new PositionStore(map[]);
    var updated := store.Update("A", p, ["B"], relayed);
    UpdateCreatesOrigin(map[], "A", p, ["B"], relayed);
    ghost var known := store.records;
    updated := store.Update("A", p, ["A"], looped);
    UpdateFreshness(known, "A", p, ["A"], looped, "A");
    lost := store.records["A"];
    known := store.records;
    var changed := store.TouchFromPacket("A", ["A"], looped);
    PacketFreshness(known, "A", ["A"], looped, "A");
    kept := store.records["A"];
  }

  /**
   The result of an update tells whether anything was written, except when the packet
   repeats the record of its origin and names a known relay.
   */
  lemma UpdateTellsIff(records: Records, c: string, p: Report, via: seq<string>, k: Contact)
    ensures var touched := if c == "" then map[] else UpdateTouches(records, c, p, via, k);
      var updated := c != "" && !Repeats(records, c, p, via, k);
      (updated <==> touched.Keys != {}) <==>
        !(c != "" && Repeats(records, c, p, via, k) && exists n :: n in via && n in records)
  {
    var chain := ChainTouched(records, via, k);
    forall n ensures n in chain <==> n in records && n in via {
      ChainMeaning(records, via, k, n);
    }
    if n :| n in via && n in records {
      assert n in chain;
    }
    if chain.Keys != {} {
      var n :| n in chain;
    }
    assert c in map[c := Reported(Lookup(records, c), p, via, k)];
  }

  /** The same report at the same time over the same relays, however it is received, repeats the origin's record. */
  lemma AgainRepeats(records: Records, c: string, p: Report, via: seq<string>, first: Contact, again: Contact)
    requires via != [] && c !in via && first.seenAt == again.seenAt
    ensures Repeats(records + UpdateTouches(records, c, p, via, first), c, p, via, again)
  {
    ChainMeaning(records, via, first, c);
  }

  /** It happens: the relay of such a report is received at another strength, and its record changes silently. */
  method RefreshSilently(p: Report, first: Contact, again: Contact)
    returns (before: Record, after: Record, updated: bool)
    requires first.seenAt == again.seenAt && first.rssi.Some? && again.rssi.Some? && first.rssi != again.rssi
    ensures !updated && before.rssi == first.rssi.value && after.rssi == again.rssi.value && before != after
  {
    var store := new PositionStore(map[]);
    updated := store.Update("R", p, [], first);
    UpdateCreatesOrigin(map[], "R", p, [], first);
    ghost var known := store.records;
    updated := store.Update("A", p, ["R"], first);
    UpdateFreshness(known, "A", p, ["R"], first, "R");
    AgainRepeats(known, "A", p, ["R"], first, again);
    before, known := store.records["R"], store.records;
    updated := store.Update("A", p, ["R"], again);
    UpdateFreshness(known, "A", p, ["R"], again, "R");
    after := store.records["R"];
  }
}
