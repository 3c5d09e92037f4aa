/**
 From reported positions to the node graph: which relay path each position
 contributes, and what shape the merged graph always has.
 */
module GraphBuilding {
  import opened Text
  import opened Sequences
  import opened NodePaths
  import opened NodeGraphs

  const DEFAULT_ROOT := "NO-CALL"

  datatype Place = Place(lat: real, lon: real)

  /** A report: who, through whom, how fresh it is now, and where, if coordinates are known. */
  datatype Position = Position(source: string, id: string, via: seq<string>, freshness: Freshness, place: Option<Place>)

  datatype Options = Options(includeHidden: bool, includeStale: bool)

  type Table = map<string, Position>

  function RootOf(myCallsign: string): string {
    if Norm(myCallsign) == "" then DEFAULT_ROOT else Norm(myCallsign)
  }

  function SourceOf(p: Position): string {
    Norm(if p.source == "" then p.id else p.source)
  }

  function Relays(via: seq<string>): seq<string> {
    if via == [] then [] else (if Norm(via[0]) == "" then [] else [Norm(via[0])]) + Relays(via[1..])
  }

  function Reverse<X>(s: seq<X>): seq<X> {
    if s == [] then [] else Reverse(s[1..]) + [s[0]]
  }

  /** The path without empty names and without repetitions, first occurrences kept. */
  function Compacted(path: seq<string>): seq<string> {
    if path == [] then []
    else
      var front, x := Compacted(path[..|path| - 1]), path[|path| - 1];
      if x == "" || x in front then front else front + [x]
  }

  method CompactPath(path: seq<string>) returns (compacted: seq<string>)
    ensures compacted == Compacted(path)
  {
    var seen: set<string> := {};
    compacted := [];
    for i := 0 to |path|
      invariant compacted == Compacted(path[..i])
      invariant seen == set x | x in compacted
    {
      assert path[..i + 1][..i] == path[..i];
      var callsign := path[i];
      if callsign == "" || callsign in seen { continue; }
      seen := seen + {callsign};
      compacted := compacted + [callsign];
    }
    assert path[..|path|] == path;
  }

  /** Compaction keeps every station, once. */
  lemma {:induction false} CompactedKeeps(path: seq<string>)
    ensures Distinct(Compacted(path)) && "" !in Compacted(path)
    ensures forall x :: x in Compacted(path) <==> x in path && x != ""
  {
    if path != [] {
      var front, x := path[..|path| - 1], path[|path| - 1];
      CompactedKeeps(front);
      assert path == front + [x];
    }
  }

  lemma {:induction false} CompactedStart(root: string, rest: seq<string>)
    requires root != ""
    ensures IsPathFrom(root, Compacted([root] + rest))
    decreases |rest|
  {
    var path := [root] + rest;
    CompactedKeeps(path);
    if rest == [] {
      assert path[..0] == [];
      assert Compacted(path) == [root];
    } else {
      assert path[..|path| - 1] == [root] + rest[..|rest| - 1];
      CompactedStart(root, rest[..|rest| - 1]);
    }
  }

  lemma {:induction false} CompactedFixed(path: seq<string>)
    requires Distinct(path) && "" !in path
    ensures Compacted(path) == path
  {
    if path != [] {
      var front, x := path[..|path| - 1], path[|path| - 1];
      assert path == front + [x];
      CompactedFixed(front);
    }
  }

  lemma {:induction false} ReverseAt<X>(s: seq<X>, k: nat)
    requires k < |s|
    ensures |Reverse(s)| == |s| && Reverse(s)[k] == s[|s| - 1 - k]
  {
    if |s| > 1 {
      ReverseAt(s[1..], if k < |s| - 1 then k else 0);
    }
  }

  lemma {:induction false} CompactedPrefix(path: seq<string>, k: nat)
    requires k <= |path|
    ensures Compacted(path[..k]) <= Compacted(path)
    decreases |path|
  {
    if k == |path| {
      assert path[..k] == path;
    } else {
      var front := path[..|path| - 1];
      assert front[..k] == path[..k];
      CompactedPrefix(front, k);
    }
  }

  /** A name that is new at position `i` stands in the compacted path right behind the different names before it. */
  lemma CompactedPlace(path: seq<string>, i: nat)
    requires i < |path| && path[i] != "" && path[i] !in path[..i]
    ensures var k := |Compacted(path[..i])|; k < |Compacted(path)| && Compacted(path)[k] == path[i]
  {
    CompactedKeeps(path[..i]);
    CompactedPrefix(path, i + 1);
    assert path[..i + 1][..i] == path[..i];
  }

  /** From the root over the relays, last relay first, to the source, repetitions included. */
  function FullPath(root: string, p: Position): seq<string> {
    [root] + (Reverse(Relays(p.via)) + [SourceOf(p)])
  }

  lemma FullPathAt(root: string, p: Position, k: nat)
    ensures var path, relays := FullPath(root, p), Relays(p.via);
      && |path| == |relays| + 2 && path[0] == root && path[|path| - 1] == SourceOf(p)
      && (k < |relays| ==> path[|relays| - k] == relays[k])
  {
    var relays := Relays(p.via);
    ReverseLength(relays);
    if k < |relays| {
      ReverseAt(relays, |relays| - 1 - k);
    }
  }

  lemma {:induction false} ReverseLength<X>(s: seq<X>)
    ensures |Reverse(s)| == |s|
  {
    if s != [] {
      ReverseLength(s[1..]);
    }
  }

  /**
   The relay path of a position keeps the order of first occurrences: a name that is
   new at position `i` of the full path comes right behind the different names before
   it; and among different stations nothing is left out.
   */
  lemma RelayPathOrder(root: string, p: Position, i: nat)
    requires var path := FullPath(root, p); i < |path| && path[i] != "" && path[i] !in path[..i]
    ensures var path := FullPath(root, p); var k := |Compacted(path[..i])|;
      k < |RelayPath(root, p)| && RelayPath(root, p)[k] == path[i]
    ensures Distinct(FullPath(root, p)) && "" !in FullPath(root, p) ==> RelayPath(root, p) == FullPath(root, p)
  {
    CompactedPlace(FullPath(root, p), i);
    if Distinct(FullPath(root, p)) && "" !in FullPath(root, p) {
      CompactedFixed(FullPath(root, p));
    }
  }

  predicate IsVisible(table: Table, options: Options, n: string) {
    n in table && table[n].freshness != Hidden && (options.includeStale || table[n].freshness != Stale)
  }

  /** Whether a position contributes a path at all. */
  predicate Contributes(root: string, options: Options, table: Table, p: Position) {
    var source, relays := SourceOf(p), Relays(p.via);
    && source != "" && source != root
    && (options.includeHidden ||
        (IsVisible(table, options, source) &&
         forall i :: 0 <= i < |relays| ==> IsVisible(table, options, relays[i])))
  }

  /** From the root over the relays, last relay first, to the source. */
  function RelayPath(root: string, p: Position): seq<string> {
    Compacted(FullPath(root, p))
  }

  function RelayPaths(root: string, options: Options, table: Table, positions: seq<Position>): seq<seq<string>> {
    if positions == [] then [[root]]
    else
      var p := positions[|positions| - 1];
      RelayPaths(root, options, table, positions[..|positions| - 1]) +
        if Contributes(root, options, table, p) then [RelayPath(root, p)] else []
  }

  /** The latest report under each name; a report without a name is ignored. */
  function LatestBy(positions: seq<Position>, nameOf: Position -> string): Table {
    if positions == [] then map[]
    else
      var p := positions[|positions| - 1];
      var table := LatestBy(positions[..|positions| - 1], nameOf);
      if nameOf(p) == "" then table else table[nameOf(p) := p]
  }

  /** Report `i` has the name `n`, and no later one has. */
  predicate IsLatest(positions: seq<Position>, nameOf: Position -> string, n: string, i: int) {
    && 0 <= i < |positions| && n != "" && nameOf(positions[i]) == n
    && forall j :: i < j < |positions| ==> nameOf(positions[j]) != n
  }

  /** The table holds exactly the last report of every name. */
  lemma {:induction false} LastReportWins(positions: seq<Position>, nameOf: Position -> string, n: string)
    ensures n in LatestBy(positions, nameOf) <==> exists i :: IsLatest(positions, nameOf, n, i)
    ensures forall i :: IsLatest(positions, nameOf, n, i) ==> LatestBy(positions, nameOf)[n] == positions[i]
  {
    if positions != [] {
      var last := |positions| - 1;
      var front := positions[..last];
      LastReportWins(front, nameOf, n);
      if n != "" && nameOf(positions[last]) == n {
        assert IsLatest(positions, nameOf, n, last);
      } else {
        forall i ensures IsLatest(positions, nameOf, n, i) <==> IsLatest(front, nameOf, n, i) {
          if IsLatest(front, nameOf, n, i) {
            assert forall j :: i < j < last ==> front[j] == positions[j];
          }
          if IsLatest(positions, nameOf, n, i) {
            assert i != last;
          }
        }
      }
    }
  }

  function SourceName(): Position -> string {
    (p: Position) => SourceOf(p)
  }

  /** The latest report of each station. */
  function TableOf(positions: seq<Position>): Table {
    LatestBy(positions, SourceName())
  }

  method PositionMap(positions: seq<Position>) returns (table: Table)
    ensures table == TableOf(positions)
    ensures forall n :: n in table <==> exists i :: IsLatest(positions, SourceName(), n, i)
    ensures forall n, i :: IsLatest(positions, SourceName(), n, i) ==> table[n] == positions[i]
  {
    table := map[];
    ghost var nameOf := SourceName();
    for i := 0 to |positions|
      invariant table == LatestBy(positions[..i], nameOf)
    {
      assert positions[..i + 1][..i] == positions[..i];
      var source := SourceOf(positions[i]);
      assert nameOf(positions[i]) == source;
      if source != "" {
        table := table[source := positions[i]];
      }
    }
    assert positions[..|positions|] == positions;
    forall n
      ensures n in table <==> exists i :: IsLatest(positions, nameOf, n, i)
      ensures forall i :: IsLatest(positions, nameOf, n, i) ==> table[n] == positions[i]
    {
      LastReportWins(positions, nameOf, n);
    }
  }

  function FreshnessFor(table: Table): string -> Freshness {
    n => if n in table then table[n].freshness else Indirect
  }

  function DistanceBetween(table: Table, km: (Place, Place) -> real): Metric {
    (a, b) =>
      if a in table && b in table && table[a].place.Some? && table[b].place.Some?
      then Some(km(table[a].place.value, table[b].place.value)) else None
  }

  // ----- the shape of the graph

  /** Closed, loop-free at every node, nothing enters the root, and everything else is entered from above. */
  ghost predicate WellFormed(g: NodeGraph) {
    && g.rootId in g.nodes && g.nodes[g.rootId].depth == 0
    && (forall n :: n in g.nodes ==> n != "" && g.nodes[n].id == n && g.nodes[n].depth <= g.maxDepth)
    && (exists n :: n in g.nodes && g.nodes[n].depth == g.maxDepth)
    && DistinctEdges(g.edges)
    && (forall e :: e in g.edges ==> e.from in g.nodes && e.to in g.nodes && e.from != e.to && e.to != g.rootId)
    && (forall n :: n in g.nodes && n != g.rootId ==> HasParentAbove(g, n))
  }

  ghost predicate HasParentAbove(g: NodeGraph, n: string)
    requires n in g.nodes
  {
    exists e :: e in g.edges && e.to == n && e.from in g.nodes && g.nodes[e.from].depth < g.nodes[n].depth
  }

  lemma TrailIsPath(root: string, paths: seq<seq<string>>, q: seq<string>)
    requires AllFrom(root, paths) && Trail(paths, q)
    ensures IsPathFrom(root, q)
  {
    var j :| 0 <= j < |paths| && q <= paths[j];
    assert q[0] == paths[j][0];
  }

  /** Every initial piece of a trail is a trail. */
  lemma TrailPrefix(paths: seq<seq<string>>, q: seq<string>, k: nat)
    requires Trail(paths, q) && 0 < k <= |q|
    ensures Trail(paths, q[..k])
  {
    var j :| 0 <= j < |paths| && q <= paths[j];
    assert q[..k] <= paths[j];
  }

  /** A trail ends with an edge between two different nodes, the first of which is less deep than the trail. */
  lemma TrailEnd(dist: Metric, root: string, paths: seq<seq<string>>, nodes: NodeMap, edges: EdgeMap, q: seq<string>)
    requires AllFrom(root, paths) && Covers(dist, paths, nodes, edges) && Trail(paths, q) && |q| > 1
    ensures q[|q| - 2] in nodes && End(q) in nodes && q[|q| - 2] != End(q) && End(q) != root
    ensures (q[|q| - 2], End(q)) in edges && nodes[q[|q| - 2]].depth < |q| - 1
  {
    TrailIsPath(root, paths, q);
    TrailPrefix(paths, q, |q| - 1);
    var p := q[..|q| - 1];
    assert End(p) == q[|q| - 2];
    assert CoversTrail(dist, nodes, edges, p) && CoversTrail(dist, nodes, edges, q);
  }

  /** Every step joins two different nodes of the graph and does not enter the root. */
  lemma StepShape(dist: Metric, root: string, paths: seq<seq<string>>, nodes: NodeMap, edges: EdgeMap, a: string,
                  b: string)
    requires AllFrom(root, paths) && Built(dist, paths, nodes, edges) && (a, b) in edges
    ensures a in nodes && b in nodes && a != b && b != root
  {
    assert JustifiedEdge(dist, paths, a, b, edges[(a, b)]);
    var q :| Trail(paths, q) && |q| > 1 && q[|q| - 2] == a && q[|q| - 1] == b;
    TrailEnd(dist, root, paths, nodes, edges, q);
  }

  /** The node in front of `n` on a shortest trail is less deep. */
  lemma ParentAbove(dist: Metric, root: string, paths: seq<seq<string>>, nodes: NodeMap, edges: EdgeMap, n: string)
    returns (m: string)
    requires AllFrom(root, paths) && Built(dist, paths, nodes, edges) && n in nodes && n != root
    ensures m in nodes && (m, n) in edges && nodes[m].depth < nodes[n].depth
  {
    assert JustifiedNode(dist, paths, n, nodes[n]);
    var q :| Trail(paths, q) && End(q) == n && |q| == nodes[n].depth + 1;
    TrailIsPath(root, paths, q);
    TrailEnd(dist, root, paths, nodes, edges, q);
    m := q[|q| - 2];
  }

  lemma RootShape(dist: Metric, root: string, paths: seq<seq<string>>, nodes: NodeMap, edges: EdgeMap)
    requires AllFrom(root, paths) && paths != [] && Built(dist, paths, nodes, edges)
    ensures root in nodes && nodes[root].depth == 0 && nodes[root].distanceFromRootKm.Some?
    ensures forall n :: n in nodes ==> n != "" && nodes[n].id == n
  {
    TrailPrefix(paths, paths[0], 1);
    var q := paths[0][..1];
    assert CoversTrail(dist, nodes, edges, q) && End(q) == root;
    forall n | n in nodes ensures n != "" && nodes[n].id == n {
      assert JustifiedNode(dist, paths, n, nodes[n]);
      var q :| Trail(paths, q) && End(q) == n && |q| == nodes[n].depth + 1;
      TrailIsPath(root, paths, q);
    }
  }

  // ----- the whole construction

  lemma {:induction false} RelayPathsFromRoot(root: string, options: Options, table: Table, positions: seq<Position>)
    requires root != ""
    ensures AllFrom(root, RelayPaths(root, options, table, positions))
    ensures RelayPaths(root, options, table, positions) != []
    ensures RelayPaths(root, options, table, positions)[0] == [root]
  {
    if positions != [] {
      var p := positions[|positions| - 1];
      RelayPathsFromRoot(root, options, table, positions[..|positions| - 1]);
      CompactedStart(root, Reverse(Relays(p.via)) + [SourceOf(p)]);
    }
  }

  /** The graph of the root alone. */
  lemma RootBuilt(dist: Metric, root: string)
    ensures Built(dist, [[root]], UpsertNode(map[], root, 0, true, Direct, Some(0.0)), map[])
  {
    var paths := [[root]];
    var nodes := UpsertNode(map[], root, 0, true, Direct, Some(0.0));
    forall q ensures Trail(paths, q) <==> q == [root] {
      if Trail(paths, q) { assert q <= [root]; }
      if q == [root] { assert q <= paths[0]; }
    }
    assert End([root]) == root && PathLength(dist, [root]) == Some(0.0);
    assert DepthFrom(paths, root, 0) && DistanceFrom(dist, paths, root, Some(0.0));
  }

  /** The edges of the map as a list, in some order. */
  method EdgeList(edges: EdgeMap) returns (list: seq<Edge>)
    requires forall a, b :: (a, b) in edges ==> edges[(a, b)].from == a && edges[(a, b)].to == b
    ensures DistinctEdges(list)
    ensures forall e :: e in list <==> (e.from, e.to) in edges && edges[(e.from, e.to)] == e
  {
    list := [];
    var rest := edges.Keys;
    while rest != {}
      invariant rest <= edges.Keys && DistinctEdges(list)
      invariant forall e :: e in list <==> (e.from, e.to) in edges.Keys - rest && edges[(e.from, e.to)] == e
      decreases rest
    {
      var key :| key in rest;
      assert edges[(key.0, key.1)].from == key.0;
      rest := rest - {key};
      list := list + [edges[key]];
    }
  }

  /** The depth of the deepest node. */
  method MaxDepth(nodes: NodeMap) returns (depth: nat)
    requires nodes.Keys != {}
    ensures (forall n :: n in nodes ==> nodes[n].depth <= depth) && exists n :: n in nodes && nodes[n].depth == depth
  {
    depth := 0;
    var rest := nodes.Keys;
    while rest != {}
      invariant rest <= nodes.Keys
      invariant forall n :: n in nodes.Keys - rest ==> nodes[n].depth <= depth
      invariant depth == 0 || exists n :: n in nodes && nodes[n].depth == depth
      decreases rest
    {
      var n :| n in rest;
      rest := rest - {n};
      if nodes[n].depth > depth {
        depth := nodes[n].depth;
      }
    }
    if depth == 0 {
      var n :| n in nodes;
    }
  }

  lemma ShapeOf(dist: Metric, root: string, paths: seq<seq<string>>, nodes: NodeMap, edges: EdgeMap, g: NodeGraph)
    requires AllFrom(root, paths) && paths != [] && Built(dist, paths, nodes, edges)
    requires g.rootId == root && g.nodes == nodes && DistinctEdges(g.edges)
    requires forall e :: e in g.edges <==> (e.from, e.to) in edges && edges[(e.from, e.to)] == e
    requires forall n :: n in nodes ==> nodes[n].depth <= g.maxDepth
    requires exists n :: n in nodes && nodes[n].depth == g.maxDepth
    ensures WellFormed(g)
  {
    RootShape(dist, root, paths, nodes, edges);
    forall e | e in g.edges ensures e.from in nodes && e.to in nodes && e.from != e.to && e.to != root {
      StepShape(dist, root, paths, nodes, edges, e.from, e.to);
    }
    forall n | n in nodes && n != root ensures HasParentAbove(g, n) {
      var m := ParentAbove(dist, root, paths, nodes, edges, n);
      assert JustifiedEdge(dist, paths, m, n, edges[(m, n)]);
      assert edges[(m, n)] in g.edges;
    }
  }

  /** The list of edges holds what the map of edges holds. */
  ghost predicate SameEdges(list: seq<Edge>, edges: EdgeMap) {
    forall e :: e in list <==> (e.from, e.to) in edges && edges[(e.from, e.to)] == e
  }

  /** One position: its relay path is merged if it contributes one. */
  method MergePosition(nodes0: NodeMap, edges0: EdgeMap, root: string, options: Options, table: Table, dist: Metric,
                       position: Position, ghost paths: seq<seq<string>>)
    returns (nodes: NodeMap, edges: EdgeMap)
    requires root != "" && paths != [] && paths[0] == [root]
    requires Built(dist, paths, nodes0, edges0) && FreshBy(root, FreshnessFor(table), nodes0)
    ensures Built(dist,
                  paths + if Contributes(root, options, table, position) then [RelayPath(root, position)] else [],
                  nodes, edges)
    ensures FreshBy(root, FreshnessFor(table), nodes)
  {
    if !Contributes(root, options, table, position) {
      assert paths + [] == paths;
      return nodes0, edges0;
    }
    var behind := Reverse(Relays(position.via)) + [SourceOf(position)];
    CompactedStart(root, behind);
    var path := CompactPath([root] + behind);
    nodes, edges := AddPath(nodes0, edges0, path, FreshnessFor(table), dist, root, paths);
  }

  method MergePositions(root: string, options: Options, table: Table, dist: Metric, positions: seq<Position>)
    returns (nodes: NodeMap, edges: EdgeMap)
    requires root != ""
    ensures Built(dist, RelayPaths(root, options, table, positions), nodes, edges)
    ensures FreshBy(root, FreshnessFor(table), nodes)
  {
    nodes, edges := UpsertNode(map[], root, 0, true, Direct, Some(0.0)), map[];
    RootBuilt(dist, root);
    for i := 0 to |positions|
      invariant Built(dist, RelayPaths(root, options, table, positions[..i]), nodes, edges)
      invariant FreshBy(root, FreshnessFor(table), nodes)
    {
      assert positions[..i + 1][..i] == positions[..i];
      RelayPathsFromRoot(root, options, table, positions[..i]);
      nodes, edges := MergePosition(nodes, edges, root, options, table, dist, positions[i],
                                    RelayPaths(root, options, table, positions[..i]));
    }
    assert positions[..|positions|] == positions;
  }

  method ToGraph(root: string, nodes: NodeMap, edges: EdgeMap, ghost dist: Metric, ghost paths: seq<seq<string>>)
    returns (g: NodeGraph)
    requires AllFrom(root, paths) && paths != [] && Built(dist, paths, nodes, edges)
    ensures WellFormed(g) && g.rootId == root && g.nodes == nodes && SameEdges(g.edges, edges)
  {
    RootShape(dist, root, paths, nodes, edges);
    forall a, b | (a, b) in edges ensures edges[(a, b)].from == a && edges[(a, b)].to == b {
      assert JustifiedEdge(dist, paths, a, b, edges[(a, b)]);
    }
    var list := EdgeList(edges);
    var depth := MaxDepth(nodes);
    g := NodeGraph(root, nodes, list, depth);
    ShapeOf(dist, root, paths, nodes, edges, g);
  }

  /** `g` is the graph of these reports. */
  ghost predicate GraphOf(
    g: NodeGraph, myCallsign: string, positions: seq<Position>, options: Options, km: (Place, Place) -> real)
  {
    var table := TableOf(positions);
    && WellFormed(g) && g.rootId == RootOf(myCallsign)
    && FreshBy(g.rootId, FreshnessFor(table), g.nodes)
    && exists edges :: SameEdges(g.edges, edges) &&
         Built(DistanceBetween(table, km), RelayPaths(g.rootId, options, table, positions), g.nodes, edges)
  }

  /**
   Builds the graph: the union of the relay paths of all contributing positions,
   with least depths and least known distances, and always well formed.
   */
  method BuildNodeGraph(myCallsign: string, positions: seq<Position>, options: Options, km: (Place, Place) -> real)
    returns (g: NodeGraph, ghost edges: EdgeMap)
    ensures WellFormed(g) && g.rootId == RootOf(myCallsign) && SameEdges(g.edges, edges)
    ensures var table := TableOf(positions);
      && Built(DistanceBetween(table, km), RelayPaths(g.rootId, options, table, positions), g.nodes, edges)
      && FreshBy(g.rootId, FreshnessFor(table), g.nodes)
    ensures GraphOf(g, myCallsign, positions, options, km)
  {
    hide Built, RelayPaths, Contributes, TableOf;
    var root := RootOf(myCallsign);
    var table := PositionMap(positions);
    var nodes, edgeMap := MergePositions(root, options, table, DistanceBetween(table, km), positions);
    edges := edgeMap;
    RelayPathsFromRoot(root, options, table, positions);
    g := ToGraph(root, nodes, edgeMap, DistanceBetween(table, km), RelayPaths(root, options, table, positions));
  }
}
