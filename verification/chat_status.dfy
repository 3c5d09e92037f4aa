/**
 Read and unread: which messages of each conversation came after it was last
 read.  Nothing is counted when messages arrive; every snapshot goes through the
 stored rows again and folds them into one entry per conversation.
 */
module ChatStatus {
  import opened Text
  import opened Sequences
  import opened ConversationKeys

  /** The time of a conversation that was never read. */
  const NEVER := 0

  datatype Entry = Entry(lastMsgReceived: int, lastRead: int, unreadCount: nat, lastMsg: string)

  const NO_ENTRY := Entry(NEVER, NEVER, 0, "")

  type Snapshot = map<string, Entry>

  /** A stored row under the key of its conversation. */
  datatype Received = Received(key: string, at: int, msg: string)

  datatype DirectRow = DirectRow(conversation: string, src: string, dst: string, at: int, msg: string)

  function Lookup(snapshot: Snapshot, key: string): Entry {
    if key in snapshot then snapshot[key] else NO_ENTRY
  }

  function ReadAt(marks: map<string, int>, key: string): int {
    if key in marks then marks[key] else NEVER
  }

  predicate IsUnread(r: Received, read: int) {
    read == NEVER || r.at > read
  }

  // ----- what a snapshot should say

  /** The rows of one conversation, without the notices of the store-and-forward service. */
  function Messages(rows: seq<Received>, key: string, isNotice: string -> bool): seq<Received> {
    if rows == [] then []
    else
      var r := rows[|rows| - 1];
      Messages(rows[..|rows| - 1], key, isNotice) + if r.key == key && !isNotice(r.msg) then [r] else []
  }

  function Unread(messages: seq<Received>, read: int): nat {
    if messages == [] then 0
    else Unread(messages[..|messages| - 1], read) + if IsUnread(messages[|messages| - 1], read) then 1 else 0
  }

  /** The latest message, and how many came after the conversation was read. */
  function Summary(messages: seq<Received>, read: int): Entry {
    if messages == [] then NO_ENTRY.(lastRead := read)
    else Entry(messages[|messages| - 1].at, read, Unread(messages, read), messages[|messages| - 1].msg)
  }

  ghost predicate Summarises(snapshot: Snapshot, rows: seq<Received>, marks: map<string, int>,
                             isNotice: string -> bool) {
    forall key :: SummarisedAt(snapshot, key, Messages(rows, key, isNotice), ReadAt(marks, key))
  }

  predicate SummarisedAt(snapshot: Snapshot, key: string, messages: seq<Received>, read: int) {
    && (key in snapshot <==> messages != [])
    && (key in snapshot ==> snapshot[key] == Summary(messages, read))
  }

  /** The key of a direct row is that of the operator's device it came through. */
  function KeyFromRow(): DirectRow -> string {
    (r: DirectRow) => DMStatusKey(r.conversation, r.src, r.dst)
  }

  /** The direct rows under their keys; a row of no direct conversation is left out. */
  function Keyed(rows: seq<DirectRow>, keyOf: DirectRow -> string): seq<Received> {
    if rows == [] then []
    else
      var r := rows[|rows| - 1];
      Keyed(rows[..|rows| - 1], keyOf) + if keyOf(r) == "" then [] else [Received(keyOf(r), r.at, r.msg)]
  }

  lemma KeyedNext(rows: seq<DirectRow>, i: nat, keyOf: DirectRow -> string)
    requires i < |rows|
    ensures Keyed(rows[..i + 1], keyOf) ==
      if keyOf(rows[i]) == "" then Keyed(rows[..i], keyOf)
      else Keyed(rows[..i], keyOf) + [Received(keyOf(rows[i]), rows[i].at, rows[i].msg)]
  {
    assert rows[..i + 1][..i] == rows[..i];
    assert Keyed(rows[..i], keyOf) + [] == Keyed(rows[..i], keyOf);
  }

  function AllRows(publicRows: seq<Received>, directRows: seq<DirectRow>): seq<Received> {
    publicRows + Keyed(directRows, KeyFromRow())
  }

  // ----- the fold

  method ApplySnapshotRecord(snapshot: Snapshot, marks: map<string, int>, key: string, at: int, msg: string,
                             isNotice: string -> bool, ghost rows: seq<Received>)
    returns (r: Snapshot)
    requires Summarises(snapshot, rows, marks, isNotice)
    ensures Summarises(r, rows + [Received(key, at, msg)], marks, isNotice)
  {
    r := snapshot;
    if !isNotice(msg) {
      var entry := Lookup(snapshot, key);
      entry := entry.(lastRead := ReadAt(marks, key));
      entry := entry.(lastMsgReceived := at, lastMsg := msg);
      if entry.lastRead == NEVER || at > entry.lastRead {
        entry := entry.(unreadCount := entry.unreadCount + 1);
      }
      r := r[key := entry];
    }
    OneMoreRow(snapshot, r, rows, Received(key, at, msg), marks, isNotice);
  }

  lemma SummaryNext(messages: seq<Received>, r: Received, read: int)
    ensures Summary(messages + [r], read) ==
      Entry(r.at, read, Unread(messages, read) + (if IsUnread(r, read) then 1 else 0), r.msg)
  {
    assert (messages + [r])[..|messages|] == messages;
  }

  lemma MessagesNext(rows: seq<Received>, row: Received, key: string, isNotice: string -> bool)
    ensures Messages(rows + [row], key, isNotice) ==
      if row.key == key && !isNotice(row.msg) then Messages(rows, key, isNotice) + [row]
      else Messages(rows, key, isNotice)
  {
    assert (rows + [row])[..|rows|] == rows;
    assert Messages(rows, key, isNotice) + [] == Messages(rows, key, isNotice);
  }

  lemma OneMoreRow(snapshot: Snapshot, r: Snapshot, rows: seq<Received>, row: Received, marks: map<string, int>,
                   isNotice: string -> bool)
    requires Summarises(snapshot, rows, marks, isNotice)
    requires r == if isNotice(row.msg) then snapshot else
      var entry, read := Lookup(snapshot, row.key), ReadAt(marks, row.key);
      snapshot[row.key := Entry(row.at, read, entry.unreadCount + (if IsUnread(row, read) then 1 else 0), row.msg)]
    ensures Summarises(r, rows + [row], marks, isNotice)
  {
    hide Messages, IsUnread;
    forall key ensures SummarisedAt(r, key, Messages(rows + [row], key, isNotice), ReadAt(marks, key)) {
      MessagesNext(rows, row, key, isNotice);
      assert SummarisedAt(snapshot, key, Messages(rows, key, isNotice), ReadAt(marks, key));
      SummaryNext(Messages(rows, key, isNotice), row, ReadAt(marks, key));
    }
  }

  /** Public rows first, then the direct ones. */
  method Fold(publicRows: seq<Received>, directRows: seq<DirectRow>, marks: map<string, int>, isNotice: string -> bool,
              keyOf: DirectRow -> string)
    returns (snapshot: Snapshot)
    ensures Summarises(snapshot, publicRows + Keyed(directRows, keyOf), marks, isNotice)
  {
    snapshot := map[];
    for i := 0 to |publicRows|
      invariant Summarises(snapshot, publicRows[..i], marks, isNotice)
    {
      var r := publicRows[i];
      snapshot := ApplySnapshotRecord(snapshot, marks, r.key, r.at, r.msg, isNotice, publicRows[..i]);
      assert publicRows[..i + 1] == publicRows[..i] + [r];
    }
    snapshot := FoldDirect(snapshot, publicRows, directRows, marks, isNotice, keyOf);
  }

  method FoldDirect(snapshot0: Snapshot, ghost publicRows: seq<Received>, directRows: seq<DirectRow>,
                    marks: map<string, int>, isNotice: string -> bool, keyOf: DirectRow -> string)
    returns (snapshot: Snapshot)
    requires Summarises(snapshot0, publicRows[..|publicRows|], marks, isNotice)
    ensures Summarises(snapshot, publicRows + Keyed(directRows, keyOf), marks, isNotice)
  {
    snapshot := snapshot0;
    assert publicRows[..|publicRows|] == publicRows + Keyed(directRows[..0], keyOf);
    hide Summarises, Keyed;
    for i := 0 to |directRows|
      invariant Summarises(snapshot, publicRows + Keyed(directRows[..i], keyOf), marks, isNotice)
    {
      var r := directRows[i];
      var key := keyOf(r);
      KeyedNext(directRows, i, keyOf);
      if key == "" { continue; }
      ghost var done := Keyed(directRows[..i], keyOf);
      snapshot := ApplySnapshotRecord(snapshot, marks, key, r.at, r.msg, isNotice, publicRows + done);
      Assoc(publicRows, done, [Received(key, r.at, r.msg)]);
    }
    assert directRows[..|directRows|] == directRows;
  }

  /** Every conversation that has messages or was read is shown, with its latest message and its unread count. */
  ghost predicate Shows(snapshot: Snapshot, rows: seq<Received>, marks: map<string, int>, isNotice: string -> bool) {
    forall key :: ShownAt(snapshot, key, Messages(rows, key, isNotice), marks)
  }

  predicate ShownAt(snapshot: Snapshot, key: string, messages: seq<Received>, marks: map<string, int>) {
    && (key in snapshot <==> messages != [] || key in marks)
    && (key in snapshot ==> snapshot[key] == Summary(messages, ReadAt(marks, key)))
  }

  method SnapshotOf(publicRows: seq<Received>, directRows: seq<DirectRow>, marks: map<string, int>,
                    isNotice: string -> bool)
    returns (snapshot: Snapshot)
    ensures Shows(snapshot, AllRows(publicRows, directRows), marks, isNotice)
  {
    var folded := Fold(publicRows, directRows, marks, isNotice, KeyFromRow());
    snapshot := folded;
    var rest := marks.Keys;
    while rest != {}
      invariant rest <= marks.Keys
      invariant forall key :: key in snapshot <==> key in folded || (key in marks && key !in rest)
      invariant forall key :: key in snapshot ==>
        snapshot[key] ==
          if key in marks && key !in rest then Lookup(folded, key).(lastRead := marks[key]) else folded[key]
      decreases rest
    {
      var key :| key in rest;
      rest := rest - {key};
      var entry := Lookup(snapshot, key);
      snapshot := snapshot[key := entry.(lastRead := marks[key])];
    }
    ghost var rows := AllRows(publicRows, directRows);
    forall key ensures ShownAt(snapshot, key, Messages(rows, key, isNotice), marks) {
      assert SummarisedAt(folded, key, Messages(rows, key, isNotice), ReadAt(marks, key));
    }
  }

  // ----- what the counts mean

  predicate InOrder(messages: seq<Received>) {
    forall i, j :: 0 <= i < j < |messages| ==> messages[i].at <= messages[j].at
  }

  /** As the rows come in order of time, the unread messages are the last ones, as many as counted. */
  lemma {:induction false} UnreadAreTheLatest(messages: seq<Received>, read: int)
    requires InOrder(messages)
    ensures Unread(messages, read) <= |messages|
    ensures forall i :: 0 <= i < |messages| ==>
      (IsUnread(messages[i], read) <==> i >= |messages| - Unread(messages, read))
  {
    if messages != [] {
      var n := |messages| - 1;
      UnreadAreTheLatest(messages[..n], read);
      assert forall i :: 0 <= i < n ==> messages[..n][i] == messages[i];
      assert n > 0 ==> messages[n - 1].at <= messages[n].at;
    }
  }

  lemma {:induction false} MessagesAreRows(rows: seq<Received>, key: string, isNotice: string -> bool)
    ensures forall m :: m in Messages(rows, key, isNotice) ==> m in rows && m.key == key
  {
    if rows != [] {
      MessagesAreRows(rows[..|rows| - 1], key, isNotice);
    }
  }

  lemma {:induction false} MessagesInOrder(rows: seq<Received>, key: string, isNotice: string -> bool)
    requires InOrder(rows)
    ensures InOrder(Messages(rows, key, isNotice))
  {
    if rows != [] {
      var front, r := rows[..|rows| - 1], rows[|rows| - 1];
      MessagesInOrder(front, key, isNotice);
      MessagesAreRows(front, key, isNotice);
      forall m | m in front ensures m.at <= r.at {
        var i :| 0 <= i < |front| && front[i] == m;
        assert rows[i] == m;
      }
    }
  }

  lemma {:induction false} MessagesConcat(a: seq<Received>, b: seq<Received>, key: string, isNotice: string -> bool)
    ensures Messages(a + b, key, isNotice) == Messages(a, key, isNotice) + Messages(b, key, isNotice)
    decreases |b|
  {
    if b == [] {
      assert a + b == a;
    } else {
      assert (a + b)[..|a + b| - 1] == a + b[..|b| - 1];
      MessagesConcat(a, b[..|b| - 1], key, isNotice);
    }
  }

  /** The direct rows as the table returns them, ordered by time. */
  predicate DirectInOrder(rows: seq<DirectRow>) {
    forall i, j :: 0 <= i < j < |rows| ==> rows[i].at <= rows[j].at
  }

  ghost predicate OnlyDirect(keyOf: DirectRow -> string) {
    forall r :: keyOf(r) == "" || HasPrefix(keyOf(r), "DM_")
  }

  /** The keys of direct rows are those of direct conversations. */
  lemma RowsAreDirect()
    ensures OnlyDirect(KeyFromRow())
  {
    forall r ensures KeyFromRow()(r) == "" || HasPrefix(KeyFromRow()(r), "DM_") {
      DMStatusKeyIsDirect(r.conversation, r.src, r.dst);
    }
  }

  lemma {:induction false} KeyedUpTo(rows: seq<DirectRow>, keyOf: DirectRow -> string, ts: int)
    requires OnlyDirect(keyOf) && forall i :: 0 <= i < |rows| ==> rows[i].at <= ts
    ensures forall r :: r in Keyed(rows, keyOf) ==> r.at <= ts && HasPrefix(r.key, "DM_")
  {
    if rows != [] {
      KeyedUpTo(rows[..|rows| - 1], keyOf, ts);
      assert rows[|rows| - 1].at <= ts;
    }
  }

  lemma {:induction false} KeyedInOrder(rows: seq<DirectRow>, keyOf: DirectRow -> string)
    requires OnlyDirect(keyOf) && DirectInOrder(rows)
    ensures InOrder(Keyed(rows, keyOf))
    ensures forall r :: r in Keyed(rows, keyOf) ==> HasPrefix(r.key, "DM_")
  {
    if rows != [] {
      KeyedInOrder(rows[..|rows| - 1], keyOf);
      KeyedUpTo(rows[..|rows| - 1], keyOf, rows[|rows| - 1].at);
    }
  }

  lemma {:induction false} NoMessages(rows: seq<Received>, key: string, isNotice: string -> bool)
    requires forall r :: r in rows ==> r.key != key
    ensures Messages(rows, key, isNotice) == []
  {
    if rows != [] {
      assert rows[|rows| - 1] in rows;
      NoMessages(rows[..|rows| - 1], key, isNotice);
    }
  }

  /** The two tables hold different conversations, each in order of time. */
  predicate InTables(publicRows: seq<Received>, directRows: seq<DirectRow>) {
    && InOrder(publicRows) && DirectInOrder(directRows)
    && forall i :: 0 <= i < |publicRows| ==> !HasPrefix(publicRows[i].key, "DM_")
  }

  /** So the messages of every conversation come in order of time. */
  lemma ConversationInOrder(publicRows: seq<Received>, directRows: seq<DirectRow>, key: string,
                            isNotice: string -> bool)
    requires InTables(publicRows, directRows)
    ensures InOrder(Messages(AllRows(publicRows, directRows), key, isNotice))
  {
    var direct := Keyed(directRows, KeyFromRow());
    RowsAreDirect();
    KeyedInOrder(directRows, KeyFromRow());
    MessagesConcat(publicRows, direct, key, isNotice);
    MessagesInOrder(publicRows, key, isNotice);
    MessagesInOrder(direct, key, isNotice);
    if HasPrefix(key, "DM_") {
      NoMessages(publicRows, key, isNotice);
      assert [] + Messages(direct, key, isNotice) == Messages(direct, key, isNotice);
    } else {
      NoMessages(direct, key, isNotice);
      assert Messages(publicRows, key, isNotice) + [] == Messages(publicRows, key, isNotice);
    }
  }

  /** What the unread count of a snapshot says: the unread messages are the last ones, that many of them. */
  lemma UnreadInSnapshot(publicRows: seq<Received>, directRows: seq<DirectRow>, marks: map<string, int>,
                         isNotice: string -> bool, snapshot: Snapshot, key: string)
    requires InTables(publicRows, directRows)
    requires Shows(snapshot, AllRows(publicRows, directRows), marks, isNotice) && key in snapshot
    ensures var m := Messages(AllRows(publicRows, directRows), key, isNotice);
      && snapshot[key].unreadCount <= |m|
      && forall i :: 0 <= i < |m| ==> (IsUnread(m[i], ReadAt(marks, key)) <==> i >= |m| - snapshot[key].unreadCount)
  {
    var m := Messages(AllRows(publicRows, directRows), key, isNotice);
    ConversationInOrder(publicRows, directRows, key, isNotice);
    UnreadAreTheLatest(m, ReadAt(marks, key));
    assert ShownAt(snapshot, key, m, marks);
  }

  predicate AllUpTo(messages: seq<Received>, ts: int) {
    forall i :: 0 <= i < |messages| ==> messages[i].at <= ts
  }

  /** A mark at or after the last message leaves nothing unread, and a later mark never leaves more. */
  lemma {:induction false} LaterMarkReadsMore(messages: seq<Received>, earlier: int, later: int)
    requires earlier == NEVER || earlier <= later
    requires later != NEVER
    ensures Unread(messages, later) <= Unread(messages, earlier)
    ensures Unread(messages, later) == 0 <==> AllUpTo(messages, later)
  {
    if messages != [] {
      var n := |messages| - 1;
      LaterMarkReadsMore(messages[..n], earlier, later);
      assert forall i :: 0 <= i < n ==> messages[..n][i] == messages[i];
    }
  }

  class StatusStore {
    var entries: Snapshot
    var dirty: bool

    /** The times at which conversations were read. */
    function Reads(): map<string, int>
      reads this
    {
      map key | key in entries :: entries[key].lastRead
    }

    constructor ()
      ensures Reads() == map[] && !dirty
    {
      entries, dirty := map[], false;
    }

    method MarkRead(key: string, ts: int)
      modifies this
      ensures Reads() == old(Reads())[key := ts] && dirty
    {
      entries := entries[key := Lookup(entries, key).(unreadCount := 0, lastRead := ts)];
      dirty := true;
    }

    method Remove(key: string)
      modifies this
      ensures Reads() == old(Reads()) - {key} && dirty == (old(dirty) || key in old(entries))
    {
      if key in entries {
        entries := entries - {key};
        dirty := true;
      }
      assert key !in old(entries) ==> old(Reads()) - {key} == old(Reads());
    }
  }

  lemma {:induction false} NeverReadCountsAll(messages: seq<Received>)
    ensures Unread(messages, NEVER) == |messages|
  {
    if messages != [] {
      NeverReadCountsAll(messages[..|messages| - 1]);
    }
  }

  predicate SameAt(a: Snapshot, b: Snapshot, key: string) {
    (key in a <==> key in b) && (key in a ==> a[key] == b[key])
  }

  /**
   After marking a conversation as read, its next snapshot counts no message up to
   that time, and the other conversations look as before.
   */
  method ReadThenSnapshot(store: StatusStore, key: string, ts: int, publicRows: seq<Received>,
                          directRows: seq<DirectRow>, isNotice: string -> bool)
    returns (before: Snapshot, after: Snapshot)
    requires ts != NEVER
    modifies store
    ensures key in after && after[key].lastRead == ts
    ensures after[key].unreadCount == 0 <==> AllUpTo(Messages(AllRows(publicRows, directRows), key, isNotice), ts)
    ensures forall other :: other != key ==> SameAt(before, after, other)
  {
    ghost var rows := AllRows(publicRows, directRows);
    ghost var marks := store.Reads();
    before := SnapshotOf(publicRows, directRows, store.Reads(), isNotice);
    store.MarkRead(key, ts);
    after := SnapshotOf(publicRows, directRows, store.Reads(), isNotice);
    LaterMarkReadsMore(Messages(rows, key, isNotice), NEVER, ts);
    assert ShownAt(after, key, Messages(rows, key, isNotice), store.Reads());
    forall other | other != key ensures SameAt(before, after, other) {
      assert ShownAt(before, other, Messages(rows, other, isNotice), marks);
      assert ShownAt(after, other, Messages(rows, other, isNotice), store.Reads());
    }
  }

  /**
   After the mark of a conversation was removed it is shown only if it has messages,
   all of them unread, and the other conversations look as before.
   */
  method RemoveThenSnapshot(store: StatusStore, key: string, publicRows: seq<Received>, directRows: seq<DirectRow>,
                            isNotice: string -> bool)
    returns (before: Snapshot, after: Snapshot)
    modifies store
    ensures key in after <==> Messages(AllRows(publicRows, directRows), key, isNotice) != []
    ensures key in after ==> after[key].lastRead == NEVER
    ensures key in after ==> after[key].unreadCount == |Messages(AllRows(publicRows, directRows), key, isNotice)|
    ensures forall other :: other != key ==> SameAt(before, after, other)
  {
    ghost var rows := AllRows(publicRows, directRows);
    ghost var marks := store.Reads();
    before := SnapshotOf(publicRows, directRows, store.Reads(), isNotice);
    store.Remove(key);
    after := SnapshotOf(publicRows, directRows, store.Reads(), isNotice);
    NeverReadCountsAll(Messages(rows, key, isNotice));
    assert ShownAt(after, key, Messages(rows, key, isNotice), store.Reads());
    forall other | other != key ensures SameAt(before, after, other) {
      assert ShownAt(before, other, Messages(rows, other, isNotice), marks);
      assert ShownAt(after, other, Messages(rows, other, isNotice), store.Reads());
    }
  }
}
