/**
 What the node graph contains, told from the reports alone: which stations appear in
 it, how fresh they are, and which edges with which lengths join them.
 */
module GraphContents {
  import opened Text
  import opened Routes
  import opened NodePaths
  import opened NodeGraphs
  import opened GraphBuilding

  /** The latest report of `n` is not hidden, and not stale unless stale stations are wanted. */
  ghost predicate LatestIsShown(positions: seq<Position>, options: Options, n: string) {
    exists i :: IsLatest(positions, SourceName(), n, i) &&
      positions[i].freshness != Hidden && (options.includeStale || positions[i].freshness != Stale)
  }

  /** Report `j` comes from a named station other than `root`. */
  predicate ReportOf(positions: seq<Position>, root: string, j: int, source: string) {
    && 0 <= j < |positions| && source != "" && source != root
    && source == Norm(if positions[j].source == "" then positions[j].id else positions[j].source)
  }

  predicate RelayOf(positions: seq<Position>, j: int, relay: string) {
    0 <= j < |positions| && relay != "" && exists k :: 0 <= k < |positions[j].via| && Norm(positions[j].via[k]) == relay
  }

  /** Report `j` counts: with hidden stations always, otherwise if its source and all its relays are shown. */
  ghost predicate Counts(positions: seq<Position>, options: Options, root: string, j: int, source: string) {
    && ReportOf(positions, root, j, source)
    && (!options.includeHidden ==>
          LatestIsShown(positions, options, source) &&
          forall relay :: RelayOf(positions, j, relay) ==> LatestIsShown(positions, options, relay))
  }

  // ----- from the definitions to the reports

  lemma VisibleIsShown(positions: seq<Position>, options: Options, n: string)
    requires n != ""
    ensures IsVisible(TableOf(positions), options, n) <==> LatestIsShown(positions, options, n)
  {
    LastReportWins(positions, SourceName(), n);
  }

  lemma {:induction false} RelaysMembers(via: seq<string>, n: string)
    ensures n in Relays(via) <==> n != "" && exists k :: 0 <= k < |via| && Norm(via[k]) == n
  {
    if via != [] {
      RelaysMembers(via[1..], n);
      if k :| 0 <= k < |via[1..]| && Norm(via[1..][k]) == n { assert Norm(via[k + 1]) == n; }
      if k :| 0 <= k < |via| && Norm(via[k]) == n {
        assert k > 0 ==> Norm(via[1..][k - 1]) == n;
      }
    }
  }

  lemma {:induction false} ReverseMembers<X>(s: seq<X>, x: X)
    ensures x in Reverse(s) <==> x in s
  {
    if s != [] { ReverseMembers(s[1..], x); }
  }

  lemma ContributesIffCounts(positions: seq<Position>, options: Options, root: string, j: nat)
    requires j < |positions|
    ensures Contributes(root, options, TableOf(positions), positions[j]) <==>
      Counts(positions, options, root, j, SourceOf(positions[j]))
  {
    var p, table := positions[j], TableOf(positions);
    hide Norm, TableOf, IsVisible, LatestIsShown, Relays;
    if SourceOf(p) != "" { VisibleIsShown(positions, options, SourceOf(p)); }
    forall n ensures n in Relays(p.via) <==> RelayOf(positions, j, n) { RelaysMembers(p.via, n); }
    forall n | RelayOf(positions, j, n)
      ensures IsVisible(table, options, n) <==> LatestIsShown(positions, options, n)
    {
      VisibleIsShown(positions, options, n);
    }
    forall i | 0 <= i < |Relays(p.via)| ensures RelayOf(positions, j, Relays(p.via)[i]) {
      assert Relays(p.via)[i] in Relays(p.via);
    }
  }

  /** The stations of a relay path. */
  lemma PathMembers(root: string, p: Position, n: string)
    ensures n in RelayPath(root, p) <==>
      n != "" && (n == root || n == SourceOf(p) || n in Relays(p.via))
  {
    CompactedKeeps(FullPath(root, p));
    ReverseMembers(Relays(p.via), n);
  }

  /** Report `j` contributes `path`. */
  predicate Gives(root: string, options: Options, table: Table, positions: seq<Position>, j: int, path: seq<string>) {
    0 <= j < |positions| && Contributes(root, options, table, positions[j]) && path == RelayPath(root, positions[j])
  }

  /** The paths are the root alone and those of the reports that contribute. */
  lemma {:induction false} PathsMembers(root: string, options: Options, table: Table, positions: seq<Position>,
                                        path: seq<string>)
    ensures path in RelayPaths(root, options, table, positions) <==>
      path == [root] || exists j :: Gives(root, options, table, positions, j, path)
  {
    hide Contributes, RelayPath;
    if positions != [] {
      var last := |positions| - 1;
      var front := positions[..last];
      PathsMembers(root, options, table, front, path);
      forall j | 0 <= j < last
        ensures Gives(root, options, table, front, j, path) <==> Gives(root, options, table, positions, j, path)
      {
        assert front[j] == positions[j];
      }
      assert (exists j :: Gives(root, options, table, positions, j, path)) <==>
        Gives(root, options, table, positions, last, path) || exists j :: Gives(root, options, table, front, j, path);
    }
  }

  // ----- which stations are in the graph

  /** A built graph has exactly the stations of its paths. */
  lemma NodesOfPaths(dist: Metric, paths: seq<seq<string>>, nodes: NodeMap, edges: EdgeMap, n: string)
    requires Built(dist, paths, nodes, edges)
    ensures n in nodes <==> exists path :: path in paths && n in path
  {
    if n in nodes {
      assert JustifiedNode(dist, paths, n, nodes[n]);
      var q :| Trail(paths, q) && End(q) == n && |q| == nodes[n].depth + 1;
      var j :| 0 <= j < |paths| && q <= paths[j];
      assert paths[j] in paths && paths[j][|q| - 1] == n;
    }
    if path :| path in paths && n in path {
      var k :| 0 <= k < |path| && path[k] == n;
      var j :| 0 <= j < |paths| && paths[j] == path;
      assert path[..k + 1] <= paths[j];
      assert Trail(paths, path[..k + 1]) && End(path[..k + 1]) == n;
      assert CoversTrail(dist, nodes, edges, path[..k + 1]);
    }
  }

  /** A station is in the graph if and only if it is the root, or source or relay of a report that counts. */
  lemma NodesIff(g: NodeGraph, myCallsign: string, positions: seq<Position>, options: Options,
                 km: (Place, Place) -> real, n: string)
    requires GraphOf(g, myCallsign, positions, options, km)
    ensures g.rootId == if Norm(myCallsign) == "" then "NO-CALL" else Norm(myCallsign)
    ensures n in g.nodes <==> n == g.rootId || exists j, source ::
      Counts(positions, options, g.rootId, j, source) && (n == source || RelayOf(positions, j, n))
  {
    hide Built, WellFormed, FreshBy, Contributes, Counts, RelayPath, TableOf;
    var root, table := g.rootId, TableOf(positions);
    var paths := RelayPaths(root, options, table, positions);
    var edges :| SameEdges(g.edges, edges) && Built(DistanceBetween(table, km), paths, g.nodes, edges);
    NodesOfPaths(DistanceBetween(table, km), paths, g.nodes, edges, n);
    RootIsNamed(myCallsign);
    if n in g.nodes && n != root {
      var path :| path in paths && n in path;
      PathsMembers(root, options, table, positions, path);
      var j :| Gives(root, options, table, positions, j, path);
      NodeIsNamed(g, n);
      ReportMembers(positions, options, root, j, n);
    }
    PathsMembers(root, options, table, positions, [root]);
    if j, source :| Counts(positions, options, root, j, source) && (n == source || RelayOf(positions, j, n)) {
      CountsReport(positions, options, root, j, source);
      ReportMembers(positions, options, root, j, n);
      var path := RelayPath(root, positions[j]);
      PathsMembers(root, options, table, positions, path);
      assert Gives(root, options, table, positions, j, path);
    }
  }

  lemma NodeIsNamed(g: NodeGraph, n: string)
    requires WellFormed(g) && n in g.nodes
    ensures n != ""
  {}

  lemma RootIsNamed(myCallsign: string)
    ensures RootOf(myCallsign) != ""
  {}

  lemma CountsReport(positions: seq<Position>, options: Options, root: string, j: int, source: string)
    requires Counts(positions, options, root, j, source)
    ensures 0 <= j < |positions| && source == SourceOf(positions[j]) && source != "" && source != root
    ensures forall n :: RelayOf(positions, j, n) ==> n != ""
  {}

  lemma ReportMembers(positions: seq<Position>, options: Options, root: string, j: nat, n: string)
    requires j < |positions| && n != ""
    ensures Contributes(root, options, TableOf(positions), positions[j]) <==>
      Counts(positions, options, root, j, SourceOf(positions[j]))
    ensures n in RelayPath(root, positions[j]) <==>
      n == root || n == SourceOf(positions[j]) || RelayOf(positions, j, n)
  {
    ContributesIffCounts(positions, options, root, j);
    PathMembers(root, positions[j], n);
    RelaysMembers(positions[j].via, n);
  }

  /** Without hidden stations, every station but the root has a latest report that may be shown. */
  lemma NodesAreShown(g: NodeGraph, myCallsign: string, positions: seq<Position>, options: Options,
                      km: (Place, Place) -> real, n: string)
    requires GraphOf(g, myCallsign, positions, options, km) && !options.includeHidden
    requires n in g.nodes && n != g.rootId
    ensures LatestIsShown(positions, options, n)
  {
    NodesIff(g, myCallsign, positions, options, km, n);
  }

  /** A station is as fresh as its latest report says; one that is only a relay is indirect. */
  lemma NodeFreshness(g: NodeGraph, myCallsign: string, positions: seq<Position>, options: Options,
                      km: (Place, Place) -> real, n: string)
    requires GraphOf(g, myCallsign, positions, options, km) && n in g.nodes
    ensures n == g.rootId ==> g.nodes[n].freshness == Direct
    ensures n != g.rootId ==>
      forall i :: IsLatest(positions, SourceName(), n, i) ==> g.nodes[n].freshness == positions[i].freshness
    ensures n != g.rootId && (forall i :: !IsLatest(positions, SourceName(), n, i)) ==>
      g.nodes[n].freshness == Indirect
  {
    hide Built, WellFormed, RelayPaths, LatestBy;
    LastReportWins(positions, SourceName(), n);
  }

  // ----- which edges

  /** Somewhere `b` stands right behind `a`. */
  predicate StepIn(path: seq<string>, a: string, b: string) {
    exists k :: 0 <= k < |path| - 1 && path[k] == a && path[k + 1] == b
  }

  lemma StepsOfPaths(dist: Metric, paths: seq<seq<string>>, nodes: NodeMap, edges: EdgeMap, a: string, b: string)
    requires Built(dist, paths, nodes, edges)
    ensures (a, b) in edges <==> exists path :: path in paths && StepIn(path, a, b)
    ensures (a, b) in edges ==> edges[(a, b)] == Arc(a, b, dist(a, b))
  {
    hide Trail, PathLength, StepIn;
    if (a, b) in edges {
      assert JustifiedEdge(dist, paths, a, b, edges[(a, b)]);
      var q :| Trail(paths, q) && |q| > 1 && q[|q| - 2] == a && q[|q| - 1] == b;
      var path := StepOfTrail(paths, q);
    }
    if path :| path in paths && StepIn(path, a, b) {
      var q := TrailOfStep(paths, path, a, b);
      assert CoversTrail(dist, nodes, edges, q);
    }
  }

  lemma StepOfTrail(paths: seq<seq<string>>, q: seq<string>) returns (path: seq<string>)
    requires Trail(paths, q) && |q| > 1
    ensures path in paths && StepIn(path, q[|q| - 2], q[|q| - 1])
  {
    var j :| 0 <= j < |paths| && q <= paths[j];
    path := paths[j];
    var k := |q| - 2;
    assert path[k] == q[k] && path[k + 1] == q[k + 1];
  }

  lemma TrailOfStep(paths: seq<seq<string>>, path: seq<string>, a: string, b: string) returns (q: seq<string>)
    requires path in paths && StepIn(path, a, b)
    ensures |q| > 1 && Trail(paths, q) && q[|q| - 2] == a && End(q) == b
  {
    var k :| 0 <= k < |path| - 1 && path[k] == a && path[k + 1] == b;
    var j :| 0 <= j < |paths| && paths[j] == path;
    q := path[..k + 2];
    assert q <= paths[j];
  }

  /** Two stations are joined if and only if they follow each other on the path of a report that counts. */
  lemma EdgesIff(g: NodeGraph, myCallsign: string, positions: seq<Position>, options: Options,
                 km: (Place, Place) -> real, a: string, b: string)
    requires GraphOf(g, myCallsign, positions, options, km)
    ensures (exists e :: e in g.edges && e.from == a && e.to == b) <==> exists j, source ::
      Counts(positions, options, g.rootId, j, source) && StepIn(RelayPath(g.rootId, positions[j]), a, b)
  {
    hide Built, WellFormed, FreshBy, Contributes, LatestIsShown, RelayPath, TableOf, Norm;
    var root, table := g.rootId, TableOf(positions);
    var paths, dist := RelayPaths(root, options, table, positions), DistanceBetween(table, km);
    var edges :| SameEdges(g.edges, edges) && Built(dist, paths, g.nodes, edges);
    StepsOfPaths(dist, paths, g.nodes, edges, a, b);
    if e :| e in g.edges && e.from == a && e.to == b {
      var path :| path in paths && StepIn(path, a, b);
      PathsMembers(root, options, table, positions, path);
      var j :| Gives(root, options, table, positions, j, path);
      ContributesIffCounts(positions, options, root, j);
    }
    if j, source :| Counts(positions, options, root, j, source) && StepIn(RelayPath(root, positions[j]), a, b) {
      CountsReport(positions, options, root, j, source);
      ContributesIffCounts(positions, options, root, j);
      var path := RelayPath(root, positions[j]);
      PathsMembers(root, options, table, positions, path);
      assert Gives(root, options, table, positions, j, path);
      assert edges[(a, b)] in g.edges;
    }
  }

  /** An edge is as long as its ends are apart in their latest reports, if both say where they are. */
  lemma EdgeLength(g: NodeGraph, myCallsign: string, positions: seq<Position>, options: Options,
                   km: (Place, Place) -> real, e: Edge)
    requires GraphOf(g, myCallsign, positions, options, km) && e in g.edges
    ensures forall i, k ::
      IsLatest(positions, SourceName(), e.from, i) && IsLatest(positions, SourceName(), e.to, k) ==>
      e.info == if positions[i].place.Some? && positions[k].place.Some?
                then Some(km(positions[i].place.value, positions[k].place.value)) else None
    ensures (forall i :: !IsLatest(positions, SourceName(), e.from, i)) ==> e.info == None
    ensures (forall k :: !IsLatest(positions, SourceName(), e.to, k)) ==> e.info == None
  {
    hide Built, WellFormed, FreshBy, RelayPaths, LatestBy;
    var table := TableOf(positions);
    var paths, dist := RelayPaths(g.rootId, options, table, positions), DistanceBetween(table, km);
    var edges :| SameEdges(g.edges, edges) && Built(dist, paths, g.nodes, edges);
    StepsOfPaths(dist, paths, g.nodes, edges, e.from, e.to);
    LastReportWins(positions, SourceName(), e.from);
    LastReportWins(positions, SourceName(), e.to);
  }

  // ----- how far stations are

  /** The known distance of a station is the least over all ways to it, none of them is shorter. */
  lemma DistanceIsLeast(dist: Metric, paths: seq<seq<string>>, nodes: NodeMap, edges: EdgeMap, n: string)
    requires Built(dist, paths, nodes, edges) && n in nodes
    ensures forall q :: Trail(paths, q) && End(q) == n && PathLength(dist, q).Some? ==>
      nodes[n].distanceFromRootKm.Some? && nodes[n].distanceFromRootKm.value <= PathLength(dist, q).value
    ensures nodes[n].distanceFromRootKm.Some? ==>
      exists q :: Trail(paths, q) && End(q) == n && PathLength(dist, q) == nodes[n].distanceFromRootKm
  {
    hide PathLength, Trail;
    assert JustifiedNode(dist, paths, n, nodes[n]);
    forall q | Trail(paths, q) && End(q) == n && PathLength(dist, q).Some?
      ensures nodes[n].distanceFromRootKm.Some? && nodes[n].distanceFromRootKm.value <= PathLength(dist, q).value
    {
      assert CoversTrail(dist, nodes, edges, q);
    }
  }

  /** `d` added `n` times. */
  function Times(n: nat, d: real): real {
    if n == 0 then 0.0 else Times(n - 1, d) + d
  }

  /** A way is as long as its steps together: with steps of one length, that length as often as there are steps. */
  lemma {:induction false} EvenSteps(dist: Metric, q: seq<string>, d: real)
    requires q != [] && forall i :: 0 <= i < |q| - 1 ==> dist(q[i], q[i + 1]) == Some(d)
    ensures PathLength(dist, q) == Some(Times(|q| - 1, d))
  {
    if |q| > 1 {
      EvenSteps(dist, q[..|q| - 1], d);
      assert dist(q[|q| - 2], q[|q| - 2 + 1]) == Some(d);
    }
  }

  /** A way with a step of unknown length has no length. */
  lemma {:induction false} UnknownStep(dist: Metric, q: seq<string>, i: nat)
    requires i < |q| - 1 && dist(q[i], q[i + 1]) == None
    ensures PathLength(dist, q) == None
  {
    if i < |q| - 2 { UnknownStep(dist, q[..|q| - 1], i); }
  }
}
