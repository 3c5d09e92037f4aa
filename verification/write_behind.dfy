/**
 Write-behind persistence of node positions.  Packets change the records in
 memory and mark them dirty; a saver takes a snapshot under the lock, writes it
 without the lock, and puts the marks back if the write fails.
 */
module WriteBehind {
  import opened Text

  datatype Record = Record(
    latitude: real,
    longitude: real,
    altitude: int,
    hardwareID: string,
    firstSeen: int,
    lastSeen: int,
    lastDirectSeen: Option<int>,
    rssi: int,
    snr: int,
    via: seq<string>)

  type Records = map<string, Record>

  /** Memory, its dirty marks, the table, and the snapshot that is being written, if one is. */
  datatype Store = Store(records: Records, dirty: set<string>, db: Records, flight: Option<Records>)

  datatype Event = Change(touched: Records) | BeginSave | FinishSave(ok: bool)

  function Restrict(records: Records, keys: set<string>): Records {
    map c | c in keys && c in records :: records[c]
  }

  /** One atomic step of a packet handler or of the only saver. */
  ghost predicate Step(s: Store, e: Event, s': Store) {
    match e
    case Change(touched) =>
      s' == s.(records := s.records + touched, dirty := s.dirty + touched.Keys)
    case BeginSave =>
      && s.flight == None
      && s' == if s.dirty == {} then s else s.(dirty := {}, flight := Some(Restrict(s.records, s.dirty)))
    case FinishSave(ok) =>
      && s.flight.Some?
      && s' == if ok then s.(db := s.db + s.flight.value, flight := None)
               else s.(dirty := s.dirty + s.flight.value.Keys, flight := None)
  }

  function InFlight(s: Store): set<string> {
    if s.flight.Some? then s.flight.value.Keys else {}
  }

  /**
   Memory and table agree on every callsign that is neither dirty nor being
   written; and what is being written is current unless it is dirty again.
   */
  ghost predicate Agrees(s: Store) {
    && s.dirty <= s.records.Keys && InFlight(s) <= s.records.Keys && s.db.Keys <= s.records.Keys
    && (forall c :: c in s.records && c !in s.dirty && c !in InFlight(s) ==> c in s.db && s.db[c] == s.records[c])
    && (forall c :: c in InFlight(s) && c !in s.dirty ==> s.flight.value[c] == s.records[c])
    && (s.flight.Some? ==> InFlight(s) != {})
  }

  lemma StepKeepsAgreement(s: Store, e: Event, s': Store)
    requires Agrees(s) && Step(s, e, s')
    ensures Agrees(s')
  {}

  /** A started or failed save loses no mark: what was dirty is dirty again or on its way. */
  lemma MarksAreKept(s: Store, e: Event, s': Store)
    requires Agrees(s) && Step(s, e, s')
    ensures e != FinishSave(true) ==> s.dirty + InFlight(s) <= s'.dirty + InFlight(s')
    ensures e == FinishSave(false) ==> InFlight(s) <= s'.dirty && s'.db == s.db
  {}

  /** With nothing dirty and nothing being written the table is memory. */
  lemma QuietIsSaved(s: Store)
    requires Agrees(s) && s.dirty == {} && s.flight == None
    ensures s.db == s.records
  {
    assert s.db.Keys == s.records.Keys;
  }

  /** Any schedule of packets and of the saver, from a loaded store on. */
  ghost predicate Run(events: seq<Event>, states: seq<Store>) {
    && |states| == |events| + 1
    && states[0] == Store(states[0].db, {}, states[0].db, None)
    && forall i :: 0 <= i < |events| ==> Step(states[i], events[i], states[i + 1])
  }

  lemma {:induction false} ReachableAgrees(events: seq<Event>, states: seq<Store>, n: nat)
    requires Run(events, states) && n < |states|
    ensures Agrees(states[n])
  {
    if n > 0 {
      ReachableAgrees(events, states, n - 1);
      StepKeepsAgreement(states[n - 1], events[n - 1], states[n]);
    }
  }

  /** `r` was the record of `c` in memory at some time up to `n`. */
  ghost predicate WasInMemory(states: seq<Store>, n: nat, c: string, r: Record)
    requires n < |states|
  {
    exists i :: 0 <= i <= n && c in states[i].records && states[i].records[c] == r
  }

  ghost predicate FromThePast(states: seq<Store>, n: nat, rows: Records)
    requires n < |states|
  {
    forall c :: c in rows ==> WasInMemory(states, n, c, rows[c])
  }

  lemma PastGrows(states: seq<Store>, n: nat, rows: Records)
    requires n + 1 < |states| && FromThePast(states, n, rows)
    ensures FromThePast(states, n + 1, rows)
  {
    forall c | c in rows ensures WasInMemory(states, n + 1, c, rows[c]) {
      assert WasInMemory(states, n, c, rows[c]);
    }
  }

  /** The table never holds anything that memory did not hold before. */
  lemma {:induction false} TableIsFromThePast(events: seq<Event>, states: seq<Store>, n: nat)
    requires Run(events, states) && n < |states|
    ensures FromThePast(states, n, states[n].db)
    ensures states[n].flight.Some? ==> FromThePast(states, n, states[n].flight.value)
  {
    if n > 0 {
      TableIsFromThePast(events, states, n - 1);
      ReachableAgrees(events, states, n - 1);
      var s, s' := states[n - 1], states[n];
      assert Step(s, events[n - 1], s');
      PastGrows(states, n - 1, s.db);
      if s.flight.Some? {
        PastGrows(states, n - 1, s.flight.value);
      }
      if s'.flight.Some? && s.flight == None {
        forall c | c in s'.flight.value ensures WasInMemory(states, n, c, s'.flight.value[c]) {
          assert s.records[c] == s'.flight.value[c];
        }
      }
    } else {
      forall c | c in states[0].db ensures WasInMemory(states, 0, c, states[0].db[c]) {
        assert states[0].records[c] == states[0].db[c];
      }
    }
  }

  /** A change that a successful save picked up, and that nothing followed, is in the table. */
  lemma SavedAfterSuccess(events: seq<Event>, states: seq<Store>, n: nat)
    requires Run(events, states) && n + 2 < |states|
    requires events[n] == BeginSave && events[n + 1] == FinishSave(true)
    ensures states[n + 2].db == states[n].records
  {
    ReachableAgrees(events, states, n + 2);
    assert Step(states[n], BeginSave, states[n + 1]) && Step(states[n + 1], FinishSave(true), states[n + 2]);
    QuietIsSaved(states[n + 2]);
  }
}
