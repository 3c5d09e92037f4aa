/** Reading a conversation: repeated receptions of one message are shown once. */
module ChatDedupe {
  import opened Text

  /** Five minutes in nanoseconds. */
  const DEDUPE_WINDOW: int := 300_000_000_000

  datatype Row = Row(receivedAt: int, src: string, msgId: string, msg: string)

  predicate Near(a: int, b: int) {
    (if a - b < 0 then b - a else a - b) <= DEDUPE_WINDOW
  }

  /** One transmission, received twice. */
  predicate SameMessage(a: Row, b: Row) {
    b.msgId != "" && a.msgId == b.msgId && OriginOf(a.src) == OriginOf(b.src) && Near(a.receivedAt, b.receivedAt)
  }

  /** The same identifier from the same station, at most five minutes apart, whichever came first. */
  lemma SameMessageIff(a: Row, b: Row)
    ensures SameMessage(a, b) <==>
      && a.msgId == b.msgId != "" && Upper(Trim(Before(a.src, ','))) == Upper(Trim(Before(b.src, ',')))
      && -300_000_000_000 <= a.receivedAt - b.receivedAt <= 300_000_000_000
    ensures SameMessage(a, b) <==> SameMessage(b, a)
  {}

  predicate IsDuplicate(seen: seq<Row>, candidate: Row) {
    exists i :: 0 <= i < |seen| && SameMessage(seen[i], candidate)
  }

  /** The rows that survive, in order: each is compared with the survivors before it. */
  function Kept(rows: seq<Row>): seq<Row> {
    if rows == [] then []
    else
      var before, r := Kept(rows[..|rows| - 1]), rows[|rows| - 1];
      if IsDuplicate(before, r) then before else before + [r]
  }

  function Since(rows: seq<Row>, since: int): seq<Row> {
    if rows == [] then []
    else
      Since(rows[..|rows| - 1], since) + if rows[|rows| - 1].receivedAt >= since then [rows[|rows| - 1]] else []
  }

  lemma {:induction false} SinceMembers(rows: seq<Row>, since: int, r: Row)
    ensures r in Since(rows, since) <==> r in rows && since <= r.receivedAt
  {
    if rows != [] {
      SinceMembers(rows[..|rows| - 1], since, r);
      assert rows == rows[..|rows| - 1] + [rows[|rows| - 1]];
    }
  }

  /** Rows without a message identifier are shown but never compared with. */
  function Identified(rows: seq<Row>): seq<Row> {
    if rows == [] then []
    else Identified(rows[..|rows| - 1]) + if rows[|rows| - 1].msgId != "" then [rows[|rows| - 1]] else []
  }

  lemma {:induction false} IdentifiedMember(rows: seq<Row>, r: Row)
    ensures r in Identified(rows) <==> r in rows && r.msgId != ""
  {
    if rows != [] {
      IdentifiedMember(rows[..|rows| - 1], r);
      assert rows == rows[..|rows| - 1] + [rows[|rows| - 1]];
    }
  }

  /** Comparing with the identified survivors is comparing with all of them. */
  lemma IdentifiedSuffice(rows: seq<Row>, r: Row)
    ensures IsDuplicate(Identified(rows), r) <==> IsDuplicate(rows, r)
  {
    if i :| 0 <= i < |rows| && SameMessage(rows[i], r) {
      IdentifiedMember(rows, rows[i]);
      var j :| 0 <= j < |Identified(rows)| && Identified(rows)[j] == rows[i];
    }
    if i :| 0 <= i < |Identified(rows)| && SameMessage(Identified(rows)[i], r) {
      IdentifiedMember(rows, Identified(rows)[i]);
      var j :| 0 <= j < |rows| && rows[j] == Identified(rows)[i];
    }
  }

  lemma KeptNext(rows: seq<Row>, i: nat)
    requires i < |rows|
    ensures Kept(rows[..i + 1]) ==
      var kept := Kept(rows[..i]);
      if IsDuplicate(kept, rows[i]) then kept else kept + [rows[i]]
  {
    assert rows[..i + 1][..i] == rows[..i];
  }

  /** What one more survivor adds to the list compared with and to the list shown. */
  lemma SurvivorNext(kept: seq<Row>, r: Row, since: int)
    ensures Identified(kept + [r]) == Identified(kept) + if r.msgId != "" then [r] else []
    ensures Since(kept + [r], since) == Since(kept, since) + if r.receivedAt >= since then [r] else []
  {
    assert (kept + [r])[..|kept|] == kept;
  }

  method IsDuplicateRecord(seen: seq<Row>, candidate: Row) returns (duplicate: bool)
    ensures duplicate == IsDuplicate(seen, candidate)
  {
    if candidate.msgId == "" {
      return false;
    }
    for i := 0 to |seen|
      invariant forall j :: 0 <= j < i ==> !SameMessage(seen[j], candidate)
    {
      if SameMessage(seen[i], candidate) {
        return true;
      }
    }
    return false;
  }

  /** The rows of a conversation from a time on, in table order. */
  method ReadSince(rows: seq<Row>, since: int) returns (records: seq<Row>)
    ensures records == Since(Kept(rows), since)
  {
    var seen: seq<Row> := [];
    records := [];
    ghost var kept: seq<Row> := [];
    for i := 0 to |rows|
      invariant kept == Kept(rows[..i]) && seen == Identified(kept) && records == Since(kept, since)
    {
      var rec := rows[i];
      KeptNext(rows, i);
      IdentifiedSuffice(kept, rec);
      var duplicate := IsDuplicateRecord(seen, rec);
      if duplicate { continue; }
      SurvivorNext(kept, rec, since);
      if rec.msgId != "" {
        seen := seen + [rec];
      }
      if rec.receivedAt >= since {
        records := records + [rec];
      }
      kept := kept + [rec];
    }
    assert rows[..|rows|] == rows;
  }

  // ----- what duplicate removal guarantees

  ghost predicate NoDuplicates(rows: seq<Row>) {
    forall i, j :: 0 <= i < j < |rows| ==> !SameMessage(rows[i], rows[j])
  }

  /** No two survivors are one message. */
  lemma {:induction false} KeptHasNoDuplicates(rows: seq<Row>)
    ensures NoDuplicates(Kept(rows))
  {
    if rows != [] {
      KeptHasNoDuplicates(rows[..|rows| - 1]);
    }
  }

  lemma {:induction false} KeptGrows(rows: seq<Row>, k: nat)
    requires k <= |rows|
    ensures Kept(rows[..k]) <= Kept(rows)
  {
    if k < |rows| {
      KeptGrows(rows[..|rows| - 1], k);
      assert rows[..|rows| - 1][..k] == rows[..k];
    } else {
      assert rows[..k] == rows;
    }
  }

  lemma FirstDuplicate(seen: seq<Row>, candidate: Row) returns (j: nat)
    requires IsDuplicate(seen, candidate)
    ensures j < |seen| && SameMessage(seen[j], candidate)
  {
    j :| j < |seen| && SameMessage(seen[j], candidate);
  }

  /**
   What becomes of row `i`: either it repeats an earlier survivor, which is still
   there at the end, and adds nothing; or it is itself the next survivor.
   */
  lemma DroppedRepeatsSurvivor(rows: seq<Row>, i: nat) returns (j: nat)
    requires i < |rows|
    ensures j < |Kept(rows)|
    ensures IsDuplicate(Kept(rows[..i]), rows[i]) ==>
      && Kept(rows[..i + 1]) == Kept(rows[..i])
      && j < |Kept(rows[..i])| && Kept(rows)[j] == Kept(rows[..i])[j]
      && SameMessage(Kept(rows)[j], rows[i])
    ensures !IsDuplicate(Kept(rows[..i]), rows[i]) ==>
      && Kept(rows[..i + 1]) == Kept(rows[..i]) + [rows[i]]
      && j == |Kept(rows[..i])| && Kept(rows)[j] == rows[i]
  {
    KeptNext(rows, i);
    KeptGrows(rows, i + 1);
    if IsDuplicate(Kept(rows[..i]), rows[i]) {
      j := FirstDuplicate(Kept(rows[..i]), rows[i]);
    } else {
      j := |Kept(rows[..i])|;
    }
  }

  /** A list without duplicates stays as it is. */
  lemma {:induction false} NothingToDrop(rows: seq<Row>)
    requires NoDuplicates(rows)
    ensures Kept(rows) == rows
  {
    if rows != [] {
      NothingToDrop(rows[..|rows| - 1]);
    }
  }

  lemma KeptIdempotent(rows: seq<Row>)
    ensures Kept(Kept(rows)) == Kept(rows)
  {
    KeptHasNoDuplicates(rows);
    NothingToDrop(Kept(rows));
  }

  lemma {:induction false} SinceSince(rows: seq<Row>, s1: int, s2: int)
    requires s1 <= s2
    ensures Since(Since(rows, s1), s2) == Since(rows, s2)
  {
    if rows != [] {
      var front, r := rows[..|rows| - 1], rows[|rows| - 1];
      SinceSince(front, s1, s2);
      if r.receivedAt >= s1 {
        assert (Since(front, s1) + [r])[..|Since(front, s1)|] == Since(front, s1);
      } else {
        assert Since(front, s1) + [] == Since(front, s1);
      }
    }
  }

  /** Reading from a later time is reading from an earlier one and cutting: paging never changes what is a duplicate. */
  lemma ReadSinceConsistent(rows: seq<Row>, s1: int, s2: int)
    requires s1 <= s2
    ensures Since(Since(Kept(rows), s1), s2) == Since(Kept(rows), s2)
  {
    SinceSince(Kept(rows), s1, s2);
  }
}
