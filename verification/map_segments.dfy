/**
 The path segments of the map: every active station contributes the steps of its
 relay path between stations whose position is known; a segment collects the
 stations whose paths use it, and lights up when it leads to the selected one.
 */
module MapSegments {
  import opened Text
  import opened Sequences
  import opened GraphBuilding
  import MapPaths

  /** A segment as the map shows it, named by the callsigns of its ends. */
  datatype ActiveSegment = ActiveSegment(from: string, to: string, distanceKm: real, pathNodeIds: seq<string>,
                                         highlighted: bool)

  type SegmentMap = map<(string, string), ActiveSegment>

  // ----- which segments there are

  predicate IsActive(p: Position) {
    Norm(p.source) != "" && (p.freshness.Direct? || p.freshness.Indirect?) && p.place.Some?
  }

  /** The name under which a report is active; none for the others. */
  function ActiveName(): Position -> string {
    (p: Position) => if IsActive(p) then Norm(p.source) else ""
  }

  /** The latest active report of each station. */
  function ActiveTable(positions: seq<Position>): (table: Table) {
    LatestBy(positions, ActiveName())
  }

  /** Active stations have names and coordinates. */
  predicate Placed(table: Table) {
    forall n :: n in table ==> n != "" && table[n].place.Some?
  }

  lemma {:induction false} ActiveArePlaced(positions: seq<Position>)
    ensures Placed(ActiveTable(positions))
  {
    if positions != [] {
      ActiveArePlaced(positions[..|positions| - 1]);
    }
  }

  /** The active stations in the order of their first active report. */
  function ActiveOrder(positions: seq<Position>): seq<string> {
    if positions == [] then []
    else
      var p := positions[|positions| - 1];
      var order := ActiveOrder(positions[..|positions| - 1]);
      if IsActive(p) && Norm(p.source) !in order then order + [Norm(p.source)] else order
  }

  lemma {:induction false} OrderOfTable(positions: seq<Position>)
    ensures Distinct(ActiveOrder(positions))
    ensures forall n :: n in ActiveOrder(positions) <==> n in ActiveTable(positions)
  {
    if positions != [] {
      OrderOfTable(positions[..|positions| - 1]);
    }
  }

  /** Report `i` is the first active one of station `n`. */
  predicate IsFirst(positions: seq<Position>, n: string, i: int) {
    && 0 <= i < |positions| && n != "" && ActiveName()(positions[i]) == n
    && forall j :: 0 <= j < i ==> ActiveName()(positions[j]) != n
  }

  /** `firsts` are the first active reports of the stations in `order`, and they follow each other. */
  ghost predicate FirstReports(positions: seq<Position>, order: seq<string>, firsts: seq<nat>) {
    && |firsts| == |order|
    && (forall k :: 0 <= k < |order| ==> IsFirst(positions, order[k], firsts[k]))
    && (forall k, l :: 0 <= k < l < |order| ==> firsts[k] < firsts[l])
  }

  lemma FirstStays(positions: seq<Position>, p: Position, n: string, i: int)
    requires IsFirst(positions, n, i)
    ensures IsFirst(positions + [p], n, i)
  {}

  /** An active station that is not in the order yet has its first active report now. */
  lemma FirstNow(positions: seq<Position>, p: Position)
    requires IsActive(p) && Norm(p.source) !in ActiveTable(positions)
    ensures IsFirst(positions + [p], Norm(p.source), |positions|)
  {
    var n := Norm(p.source);
    forall j | 0 <= j < |positions| ensures ActiveName()(positions[j]) != n {
      if ActiveName()(positions[j]) == n { ActiveIsListed(positions, n, j); }
    }
  }

  lemma {:induction false} ActiveIsListed(positions: seq<Position>, n: string, j: nat)
    requires j < |positions| && n != "" && ActiveName()(positions[j]) == n
    ensures n in ActiveTable(positions)
  {
    var last := |positions| - 1;
    if j < last { ActiveIsListed(positions[..last], n, j); }
  }

  /** The stations stand in the order of their first active reports. */
  lemma {:induction false} OrderByFirstReport(positions: seq<Position>) returns (firsts: seq<nat>)
    ensures FirstReports(positions, ActiveOrder(positions), firsts)
  {
    firsts := [];
    if positions != [] {
      var last := |positions| - 1;
      var front, p := positions[..last], positions[last];
      var order := ActiveOrder(front);
      firsts := OrderByFirstReport(front);
      assert positions == front + [p];
      forall k | 0 <= k < |order| ensures IsFirst(positions, order[k], firsts[k]) {
        FirstStays(front, p, order[k], firsts[k]);
      }
      if IsActive(p) && Norm(p.source) !in order {
        OrderOfTable(front);
        FirstNow(front, p);
        firsts := firsts + [last];
      }
    }
  }

  function Norms(via: seq<string>): (names: seq<string>)
    ensures |names| == |via| && forall i :: 0 <= i < |via| ==> names[i] == Norm(via[i])
  {
    seq(|via|, i requires 0 <= i < |via| => Norm(via[i]))
  }

  /** Relayed or heard directly, and not the own station. */
  predicate HasPath(root: string, n: string, p: Position) {
    n != root && (p.via != [] || p.freshness.Direct?)
  }

  /** From the root over the relays, last relay first, to the station, repetitions and empty names included. */
  function WholePath(root: string, n: string, p: Position): seq<string> {
    [root] + (Reverse(Norms(p.via)) + [n])
  }

  function PathOf(root: string, n: string, p: Position): seq<string> {
    Compacted(WholePath(root, n, p))
  }

  lemma WholePathAt(root: string, n: string, p: Position, k: nat)
    ensures var path := WholePath(root, n, p);
      && |path| == |p.via| + 2 && path[0] == root && path[|path| - 1] == n
      && (k < |p.via| ==> path[|p.via| - k] == Norm(p.via[k]))
  {
    ReverseLength(Norms(p.via));
    if k < |p.via| {
      ReverseAt(Norms(p.via), |p.via| - 1 - k);
    }
  }

  /** The path keeps the order of first occurrences, and all of it if no name repeats and none is empty. */
  lemma PathOrder(root: string, n: string, p: Position, i: nat)
    requires var path := WholePath(root, n, p); i < |path| && path[i] != "" && path[i] !in path[..i]
    ensures var path := WholePath(root, n, p); var k := |Compacted(path[..i])|;
      k < |PathOf(root, n, p)| && PathOf(root, n, p)[k] == path[i]
    ensures Distinct(WholePath(root, n, p)) && "" !in WholePath(root, n, p) ==>
      PathOf(root, n, p) == WholePath(root, n, p)
  {
    CompactedPlace(WholePath(root, n, p), i);
    if Distinct(WholePath(root, n, p)) && "" !in WholePath(root, n, p) {
      CompactedFixed(WholePath(root, n, p));
    }
  }

  /** Somewhere before position `k` the path steps from `a` to `b`. */
  ghost predicate StepsBefore(path: seq<string>, k: nat, a: string, b: string) {
    exists i :: 0 < i < k && i < |path| && path[i - 1] == a && path[i] == b
  }

  /** The path of station `n` uses the segment from `a` to `b`, both of known position. */
  ghost predicate Uses(root: string, table: Table, n: string, a: string, b: string) {
    && n in table && HasPath(root, n, table[n]) && a in table && b in table
    && var path := PathOf(root, n, table[n]); StepsBefore(path, |path|, a, b)
  }

  /** The stations whose paths use a segment, in order. */
  ghost function Users(root: string, table: Table, order: seq<string>, a: string, b: string): seq<string> {
    if order == [] then []
    else
      var n := order[|order| - 1];
      Users(root, table, order[..|order| - 1], a, b) + if Uses(root, table, n, a, b) then [n] else []
  }

  lemma {:induction false} UsersMember(root: string, table: Table, order: seq<string>, a: string, b: string, n: string)
    ensures n in Users(root, table, order, a, b) <==> n in order && Uses(root, table, n, a, b)
  {
    if order != [] {
      var front := order[..|order| - 1];
      UsersMember(root, table, front, a, b, n);
      assert order == front + [order[|order| - 1]];
    }
  }

  // ----- building them

  function UsersAt(segments: SegmentMap, a: string, b: string): seq<string> {
    if (a, b) in segments then segments[(a, b)].pathNodeIds else []
  }

  /** Entries carry their own ends and distance, and someone uses them. */
  ghost predicate Sound(table: Table, km: (Place, Place) -> real, segments: SegmentMap) {
    forall a, b :: (a, b) in segments ==> SoundAt(table, km, a, b, segments[(a, b)])
  }

  predicate SoundAt(table: Table, km: (Place, Place) -> real, a: string, b: string, s: ActiveSegment) {
    && a in table && b in table && s.from == a && s.to == b && s.pathNodeIds != [] && !s.highlighted
    && DistanceBetween(table, km)(a, b) == Some(s.distanceKm)
  }

  /** The users of a segment once station `n` has made a step from `a` to `b`. */
  function Stepped(segments: SegmentMap, table: Table, n: string, a: string, b: string, x: string,
                   y: string): seq<string> {
    UsersAt(segments, x, y) + if x == a && y == b && a in table && b in table then [n] else []
  }

  /** What one step of a path does to the table of segments. */
  method AddStep(segments: SegmentMap, table: Table, km: (Place, Place) -> real, n: string, a: string, b: string)
    returns (r: SegmentMap)
    requires Sound(table, km, segments) && n !in UsersAt(segments, a, b)
    requires Placed(table)
    ensures Sound(table, km, r)
    ensures forall x, y :: UsersAt(r, x, y) == Stepped(segments, table, n, a, b, x, y)
  {
    if a !in table || b !in table {
      return segments;
    }
    var distance := km(table[a].place.value, table[b].place.value);
    if (a, b) in segments {
      var current := segments[(a, b)];
      if n !in current.pathNodeIds {
        current := current.(pathNodeIds := current.pathNodeIds + [n]);
      }
      r := segments[(a, b) := current];
    } else {
      r := segments[(a, b) := ActiveSegment(a, b, distance, [n], false)];
    }
  }

  /** The segments of the stations in `order`. */
  ghost predicate Complete(segments: SegmentMap, root: string, table: Table, order: seq<string>) {
    forall a, b :: UsersAt(segments, a, b) == Users(root, table, order, a, b)
  }

  /** ... and of the first steps of the path of one more station. */
  ghost predicate Midway(segments: SegmentMap, root: string, table: Table, order: seq<string>, n: string,
                         path: seq<string>, k: nat) {
    forall a, b :: UsersAt(segments, a, b) == UsersMidway(root, table, order, n, path, k, a, b)
  }

  ghost function UsersMidway(root: string, table: Table, order: seq<string>, n: string, path: seq<string>, k: nat,
                             a: string, b: string): seq<string> {
    Users(root, table, order, a, b) + if a in table && b in table && StepsBefore(path, k, a, b) then [n] else []
  }

  lemma StepOnce(path: seq<string>, k: nat, a: string, b: string)
    requires Distinct(path) && 0 < k < |path|
    ensures StepsBefore(path, k + 1, a, b) <==> StepsBefore(path, k, a, b) || (path[k - 1] == a && path[k] == b)
    ensures !StepsBefore(path, k, path[k - 1], path[k])
  {
    if path[k - 1] == a && path[k] == b {
      assert 0 < k < k + 1 && path[k - 1] == a && path[k] == b;
    }
  }

  lemma NotYetUsed(segments: SegmentMap, root: string, table: Table, order: seq<string>, n: string, path: seq<string>,
                   k: nat)
    requires Midway(segments, root, table, order, n, path, k)
    requires Distinct(path) && 0 < k < |path| && n !in order
    ensures n !in UsersAt(segments, path[k - 1], path[k])
  {
    StepOnce(path, k, path[k - 1], path[k]);
    UsersMember(root, table, order, path[k - 1], path[k], n);
    assert UsersAt(segments, path[k - 1], path[k]) == UsersMidway(root, table, order, n, path, k, path[k - 1], path[k]);
  }

  lemma OneMoreUser(users: seq<string>, n: string, earlier: bool, now: bool)
    requires !(earlier && now)
    ensures (users + if earlier then [n] else []) + (if now then [n] else [])
            == users + if earlier || now then [n] else []
  {}

  lemma MidwayNext(segments: SegmentMap, r: SegmentMap, root: string, table: Table, order: seq<string>, n: string,
                   path: seq<string>, k: nat)
    requires Midway(segments, root, table, order, n, path, k)
    requires Distinct(path) && 0 < k < |path|
    requires forall x, y :: UsersAt(r, x, y) == Stepped(segments, table, n, path[k - 1], path[k], x, y)
    ensures Midway(r, root, table, order, n, path, k + 1)
  {
    hide Users, UsersAt, StepsBefore;
    forall x, y ensures UsersAt(r, x, y) == UsersMidway(root, table, order, n, path, k + 1, x, y) {
      StepOnce(path, k, x, y);
      assert UsersAt(segments, x, y) == UsersMidway(root, table, order, n, path, k, x, y);
      assert UsersAt(r, x, y) == Stepped(segments, table, n, path[k - 1], path[k], x, y);
      var within := x in table && y in table;
      OneMoreUser(Users(root, table, order, x, y), n,
                  within && StepsBefore(path, k, x, y), within && x == path[k - 1] && y == path[k]);
    }
  }

  lemma PathDone(segments: SegmentMap, root: string, table: Table, order: seq<string>, n: string, path: seq<string>)
    requires n in table && HasPath(root, n, table[n]) && path == PathOf(root, n, table[n])
    requires Midway(segments, root, table, order, n, path, |path|)
    ensures Complete(segments, root, table, order + [n])
  {
    forall a, b ensures UsersAt(segments, a, b) == Users(root, table, order + [n], a, b) {
      assert (order + [n])[..|order|] == order;
      assert UsersAt(segments, a, b) == UsersMidway(root, table, order, n, path, |path|, a, b);
    }
  }

  lemma NoPath(segments: SegmentMap, root: string, table: Table, order: seq<string>, n: string)
    requires n !in table || !HasPath(root, n, table[n])
    requires Complete(segments, root, table, order)
    ensures Complete(segments, root, table, order + [n])
  {
    forall a, b ensures UsersAt(segments, a, b) == Users(root, table, order + [n], a, b) {
      assert (order + [n])[..|order|] == order;
    }
  }

  /** All steps of one path. */
  method AddPathSteps(segments0: SegmentMap, root: string, table: Table, km: (Place, Place) -> real, n: string,
                      ghost order: seq<string>)
    returns (segments: SegmentMap)
    requires root != "" && n in table && n !in order && HasPath(root, n, table[n])
    requires Sound(table, km, segments0) && Placed(table)
    requires Complete(segments0, root, table, order)
    ensures Sound(table, km, segments) && Complete(segments, root, table, order + [n])
  {
    var names := [root] + (Reverse(Norms(table[n].via)) + [n]);
    var path := CompactPath(names);
    CompactedKeeps(names);
    CompactedStart(root, Reverse(Norms(table[n].via)) + [n]);
    segments := segments0;
    for k := 1 to |path|
      invariant Sound(table, km, segments) && Midway(segments, root, table, order, n, path, k)
    {
      NotYetUsed(segments, root, table, order, n, path, k);
      var next := AddStep(segments, table, km, n, path[k - 1], path[k]);
      MidwayNext(segments, next, root, table, order, n, path, k);
      segments := next;
    }
    PathDone(segments, root, table, order, n, path);
  }

  /** The segments of all active stations but the own one. */
  method CollectSegments(root: string, table: Table, order: seq<string>, km: (Place, Place) -> real)
    returns (segments: SegmentMap)
    requires root != "" && Distinct(order) && forall n :: n in order ==> n in table
    requires Placed(table)
    ensures Sound(table, km, segments) && Complete(segments, root, table, order)
  {
    segments := map[];
    for i := 0 to |order|
      invariant Sound(table, km, segments) && Complete(segments, root, table, order[..i])
    {
      var n := order[i];
      assert n in order;
      assert order[..i] + [n] == order[..i + 1];
      if HasPath(root, n, table[n]) {
        segments := AddPathSteps(segments, root, table, km, n, order[..i]);
      } else {
        NoPath(segments, root, table, order[..i], n);
      }
    }
    assert order[..|order|] == order;
  }

  lemma ActiveNext(positions: seq<Position>, i: nat)
    requires i < |positions|
    ensures var p, table, order := positions[i], ActiveTable(positions[..i]), ActiveOrder(positions[..i]);
      var source := Norm(p.source);
      && ActiveTable(positions[..i + 1]) == (if IsActive(p) then table[source := p] else table)
      && ActiveOrder(positions[..i + 1]) == if IsActive(p) && source !in order then order + [source] else order
  {
    assert positions[..i + 1][..i] == positions[..i];
  }

  lemma ActiveLatest(positions: seq<Position>)
    ensures forall n :: n in ActiveTable(positions) <==> exists i :: IsLatest(positions, ActiveName(), n, i)
    ensures forall n, i :: IsLatest(positions, ActiveName(), n, i) ==> ActiveTable(positions)[n] == positions[i]
  {
    forall n
      ensures n in ActiveTable(positions) <==> exists i :: IsLatest(positions, ActiveName(), n, i)
      ensures forall i :: IsLatest(positions, ActiveName(), n, i) ==> ActiveTable(positions)[n] == positions[i]
    {
      LastReportWins(positions, ActiveName(), n);
    }
  }

  method ActiveStations(positions: seq<Position>) returns (table: Table, order: seq<string>)
    ensures table == ActiveTable(positions) && order == ActiveOrder(positions)
    ensures forall n :: n in table <==> exists i :: IsLatest(positions, ActiveName(), n, i)
    ensures forall n, i :: IsLatest(positions, ActiveName(), n, i) ==> table[n] == positions[i]
  {
    table, order := map[], [];
    ActiveLatest(positions);
    assert ActiveTable(positions[..0]) == map[];
    hide ActiveTable, ActiveOrder, IsLatest;
    for i := 0 to |positions|
      invariant table == ActiveTable(positions[..i]) && order == ActiveOrder(positions[..i])
    {
      ActiveNext(positions, i);
      var p := positions[i];
      var source := Norm(p.source);
      if source == "" { continue; }
      if !p.freshness.Direct? && !p.freshness.Indirect? { continue; }
      if p.place.None? { continue; }
      if source !in order {
        order := order + [source];
      }
      table := table[source := p];
    }
    assert positions[..|positions|] == positions;
  }

  // ----- the list that is shown

  function Plain(s: ActiveSegment): MapPaths.Segment {
    MapPaths.Segment(s.from, s.to)
  }

  function Plains(list: seq<ActiveSegment>): (plain: seq<MapPaths.Segment>)
    ensures |plain| == |list| && forall i :: 0 <= i < |list| ==> plain[i] == Plain(list[i])
  {
    seq(|list|, i requires 0 <= i < |list| => Plain(list[i]))
  }

  /** Each entry once, under its own ends. */
  ghost predicate Lists(list: seq<ActiveSegment>, segments: SegmentMap) {
    && (forall i :: 0 <= i < |list| ==> Listed(list[i], segments))
    && (forall a, b :: (a, b) in segments ==> segments[(a, b)] in list)
    && OnceEach(list)
  }

  /** No two entries join the same ends. */
  ghost predicate OnceEach(list: seq<ActiveSegment>) {
    forall i, j :: 0 <= i < j < |list| ==> list[i].from != list[j].from || list[i].to != list[j].to
  }

  predicate Listed(s: ActiveSegment, segments: SegmentMap) {
    (s.from, s.to) in segments && segments[(s.from, s.to)] == s
  }

  method ListOf(segments: SegmentMap) returns (list: seq<ActiveSegment>)
    requires forall a, b :: (a, b) in segments ==> segments[(a, b)].from == a && segments[(a, b)].to == b
    ensures Lists(list, segments)
  {
    list := [];
    var rest := segments.Keys;
    while rest != {}
      invariant rest <= segments.Keys
      invariant forall i :: 0 <= i < |list| ==> Listed(list[i], segments) && (list[i].from, list[i].to) !in rest
      invariant forall a, b :: (a, b) in segments && (a, b) !in rest ==> segments[(a, b)] in list
      invariant forall i, j :: 0 <= i < j < |list| ==> list[i].from != list[j].from || list[i].to != list[j].to
      decreases rest
    {
      var key :| key in rest;
      rest := rest - {key};
      list := list + [segments[(key.0, key.1)]];
    }
  }

  /** A segment of the map: its ends are known, and its users are exactly the stations whose paths use it. */
  ghost predicate Shown(s: ActiveSegment, root: string, table: Table, order: seq<string>, km: (Place, Place) -> real) {
    && s.from in table && s.to in table && s.from != "" && s.to != ""
    && DistanceBetween(table, km)(s.from, s.to) == Some(s.distanceKm)
    && s.pathNodeIds == Users(root, table, order, s.from, s.to) && s.pathNodeIds != []
  }

  ghost predicate ShowsAll(list: seq<ActiveSegment>, root: string, table: Table, order: seq<string>) {
    forall n, a, b :: n in order && Uses(root, table, n, a, b) ==> exists s :: s in list && s.from == a && s.to == b
  }

  lemma ListShown(list: seq<ActiveSegment>, segments: SegmentMap, root: string, table: Table, order: seq<string>,
                  km: (Place, Place) -> real)
    requires Lists(list, segments) && Sound(table, km, segments) && Complete(segments, root, table, order)
    requires Placed(table)
    ensures forall s :: s in list ==> Shown(s, root, table, order, km) && !s.highlighted
    ensures ShowsAll(list, root, table, order)
  {
    forall s | s in list ensures Shown(s, root, table, order, km) && !s.highlighted {
      assert Listed(s, segments);
      assert SoundAt(table, km, s.from, s.to, s);
      assert UsersAt(segments, s.from, s.to) == s.pathNodeIds;
    }
    forall n, a, b | n in order && Uses(root, table, n, a, b)
      ensures exists s :: s in list && s.from == a && s.to == b
    {
      UsersMember(root, table, order, a, b, n);
      assert UsersAt(segments, a, b) == Users(root, table, order, a, b);
      assert segments[(a, b)] in list && SoundAt(table, km, a, b, segments[(a, b)]);
    }
  }

  /** The station whose paths are to be highlighted, if one is selected. */
  function Selected(selectedNodeId: Option<string>): string {
    if selectedNodeId.Some? then Norm(selectedNodeId.value) else ""
  }

  /** Highlighted exactly when on a walk of at most five shown segments to the selected station. */
  ghost predicate LitRight(list: seq<ActiveSegment>, root: string, selected: string) {
    forall s :: s in list ==>
      (s.highlighted <==> selected != "" && MapPaths.OnShortWalk(Plains(list), root, selected, Plain(s)))
  }

  /** Switches the lights on. */
  method Highlight(list: seq<ActiveSegment>, lit: set<MapPaths.Segment>) returns (r: seq<ActiveSegment>)
    ensures |r| == |list| && Plains(r) == Plains(list)
    ensures forall i :: 0 <= i < |list| ==> r[i] == list[i].(highlighted := Plain(list[i]) in lit)
  {
    r := [];
    for i := 0 to |list|
      invariant |r| == i && forall k :: 0 <= k < i ==> r[k] == list[k].(highlighted := Plain(list[k]) in lit)
    {
      r := r + [list[i].(highlighted := Plain(list[i]) in lit)];
    }
  }

  method BuildActiveMapPathSegments(myCall: string, positions: seq<Position>, selectedNodeId: Option<string>,
                                    km: (Place, Place) -> real)
    returns (list: seq<ActiveSegment>)
    ensures var root, table, order := Norm(myCall), ActiveTable(positions), ActiveOrder(positions);
      if root == "" || root !in table then list == []
      else
        && (forall s :: s in list ==> Shown(s, root, table, order, km))
        && ShowsAll(list, root, table, order) && OnceEach(list)
        && LitRight(list, root, if selectedNodeId.Some? then Norm(selectedNodeId.value) else "")
  {
    list := [];
    var root := Norm(myCall);
    if root == "" {
      return;
    }
    var table, order := ActiveStations(positions);
    OrderOfTable(positions);
    ActiveArePlaced(positions);
    if root !in table {
      return;
    }
    var segments := CollectSegments(root, table, order, km);
    var dark := ListOf(segments);
    ListShown(dark, segments, root, table, order, km);
    var lit: set<MapPaths.Segment> := {};
    var selected := Selected(selectedNodeId);
    if selected != "" {
      lit := MapPaths.EdgeIdsReachingSelected(root, selected, Plains(dark));
    }
    list := Highlight(dark, lit);
    StillShown(dark, list, lit, root, table, order, km);
  }

  lemma StillShown(dark: seq<ActiveSegment>, list: seq<ActiveSegment>, lit: set<MapPaths.Segment>,
                   root: string, table: Table, order: seq<string>, km: (Place, Place) -> real)
    requires |list| == |dark| && forall i :: 0 <= i < |list| ==>
      list[i] == dark[i].(highlighted := Plain(dark[i]) in lit)
    requires forall s :: s in dark ==> Shown(s, root, table, order, km)
    requires ShowsAll(dark, root, table, order) && OnceEach(dark)
    ensures forall s :: s in list ==> Shown(s, root, table, order, km) && (s.highlighted <==> Plain(s) in lit)
    ensures ShowsAll(list, root, table, order) && OnceEach(list)
  {
    forall s | s in list ensures Shown(s, root, table, order, km) && (s.highlighted <==> Plain(s) in lit) {
      var i :| 0 <= i < |list| && list[i] == s;
      assert dark[i] in dark;
    }
    forall n, a, b | n in order && Uses(root, table, n, a, b)
      ensures exists s :: s in list && s.from == a && s.to == b
    {
      var s :| s in dark && s.from == a && s.to == b;
      var i :| 0 <= i < |dark| && dark[i] == s;
      assert list[i] in list;
    }
  }
}
