/**
 Two reports for which the view with a hop limit shows a node far below the limit:
 station A is heard directly, and it also relays for B at the end of a long chain.
 */
module HopLimit {
  import opened Text
  import opened NodePaths
  import opened NodeGraphs
  import opened GraphBuilding
  import opened VisibleGraph

  function Report(source: string, via: seq<string>): Position {
    Position(source, "", via, Direct, None)
  }

  const REPORTS := [Report("A", []), Report("B", ["A", "Y", "X"])]

  const LONG_PATH := ["R", "X", "Y", "A", "B"]

  const ALL := Options(true, true)

  lemma PlainName(s: string)
    requires |s| == 1 && 'A' <= s[0] <= 'Z'
    ensures Norm(s) == s
  {
    TrimmedIsFixed(s);
  }

  lemma RelaysOf(via: seq<string>)
    requires forall i :: 0 <= i < |via| ==> |via[i]| == 1 && 'A' <= via[i][0] <= 'Z'
    ensures Relays(via) == via
  {
    if via != [] {
      PlainName(via[0]);
      RelaysOf(via[1..]);
    }
  }

  /** A report of one letter contributes its path when nothing is hidden. */
  lemma ReportContributes(table: Table, source: string, via: seq<string>)
    requires |source| == 1 && 'A' <= source[0] <= 'Z' && source != "R"
    ensures SourceOf(Report(source, via)) == source && Contributes("R", ALL, table, Report(source, via))
  {
    PlainName(source);
  }

  lemma ReverseThree<X>(a: X, b: X, c: X)
    ensures Reverse([a, b, c]) == [c, b, a]
  {
    assert [a, b, c][1..] == [b, c] && [b, c][1..] == [c] && [c][1..] == [];
    assert Reverse([c]) == [c] && Reverse([b, c]) == [c, b];
  }

  lemma DirectPath(table: Table)
    ensures Contributes("R", ALL, table, Report("A", [])) && RelayPath("R", Report("A", [])) == ["R", "A"]
  {
    ReportContributes(table, "A", []);
    assert FullPath("R", Report("A", [])) == ["R", "A"];
    CompactedFixed(["R", "A"]);
  }

  lemma LongFullPath()
    ensures FullPath("R", Report("B", ["A", "Y", "X"])) == LONG_PATH
  {
    PlainName("B");
    RelaysOf(["A", "Y", "X"]);
    ReverseThree("A", "Y", "X");
    assert ["R"] + (["X", "Y", "A"] + ["B"]) == LONG_PATH;
  }

  lemma LongPathIsClean()
    ensures Compacted(LONG_PATH) == LONG_PATH
  {
    CompactedFixed(LONG_PATH);
  }

  lemma LongRelayPath(table: Table)
    ensures Contributes("R", ALL, table, Report("B", ["A", "Y", "X"]))
    ensures RelayPath("R", Report("B", ["A", "Y", "X"])) == LONG_PATH
  {
    ReportContributes(table, "B", ["A", "Y", "X"]);
    LongFullPath();
    LongPathIsClean();
  }

  lemma OneMoreReport(table: Table, positions: seq<Position>, p: Position)
    requires Contributes("R", ALL, table, p)
    ensures RelayPaths("R", ALL, table, positions + [p]) == RelayPaths("R", ALL, table, positions) + [RelayPath("R", p)]
  {
    assert (positions + [p])[..|positions|] == positions;
  }

  lemma NoReports(table: Table)
    ensures RelayPaths("R", ALL, table, []) == [["R"]]
  {}

  lemma ThreePaths<X>(a: seq<X>, b: seq<X>, c: seq<X>, r: X, x: X, y: X)
    requires a == [r] && b == a + [x] && c == b + [y]
    ensures c == [r, x, y]
  {}

  lemma PathsOfTwo(table: Table, p: Position, q: Position)
    requires Contributes("R", ALL, table, p) && Contributes("R", ALL, table, q)
    ensures RelayPaths("R", ALL, table, ([] + [p]) + [q]) == [["R"], RelayPath("R", p), RelayPath("R", q)]
  {
    NoReports(table);
    OneMoreReport(table, [], p);
    OneMoreReport(table, [] + [p], q);
    ThreePaths(RelayPaths("R", ALL, table, []), RelayPaths("R", ALL, table, [] + [p]),
               RelayPaths("R", ALL, table, ([] + [p]) + [q]), ["R"], RelayPath("R", p), RelayPath("R", q));
  }

  lemma PathsOfReports(table: Table)
    ensures RelayPaths("R", ALL, table, REPORTS) == PATHS
  {
    DirectPath(table);
    LongRelayPath(table);
    PathsOfTwo(table, REPORTS[0], REPORTS[1]);
    assert ([] + [REPORTS[0]]) + [REPORTS[1]] == REPORTS;
  }

  const PATHS := [["R"], ["R", "A"], LONG_PATH]

  /** The end of a trail that is one of the other two paths is not B. */
  lemma OnlyLongTrailEndsInB(q: seq<string>)
    requires Trail(PATHS, q) && End(q) == "B"
    ensures |q| == 5
  {
    var j :| 0 <= j < |PATHS| && q <= PATHS[j];
    assert q[|q| - 1] == PATHS[j][|q| - 1];
    assert "R" != "B" && "A" != "B" && "X" != "B" && "Y" != "B";
  }

  lemma TrailBuilt(dist: Metric, paths: seq<seq<string>>, nodes: NodeMap, edges: EdgeMap, j: nat)
    requires Built(dist, paths, nodes, edges) && j < |paths| && |paths[j]| > 1
    ensures var q := paths[j]; var a, b := q[|q| - 2], End(q);
      && b in nodes && nodes[b].depth < |q|
      && (a, b) in edges && edges[(a, b)].from == a && edges[(a, b)].to == b
  {
    var q := paths[j];
    assert Trail(paths, q);
    assert CoversTrail(dist, nodes, edges, q);
    assert JustifiedEdge(dist, paths, q[|q| - 2], End(q), edges[(q[|q| - 2], End(q))]);
  }

  lemma DepthOfB(dist: Metric, nodes: NodeMap)
    requires JustifiedNodes(dist, PATHS, nodes) && "B" in nodes
    ensures nodes["B"].depth == 4
  {
    assert JustifiedNode(dist, PATHS, "B", nodes["B"]);
    var q :| Trail(PATHS, q) && End(q) == "B" && |q| == nodes["B"].depth + 1;
    OnlyLongTrailEndsInB(q);
  }

  lemma BehindTwoEdges(g: NodeGraph, first: Edge, second: Edge, limit: nat)
    requires WellFormed(g) && first in g.edges && second in g.edges && first.from == g.rootId && second.from == first.to
    requires first.to in g.nodes && second.to in g.nodes
    requires g.nodes[first.to].depth < limit < g.nodes[second.to].depth
    ensures Reachable(g, limit, {}, second.to) && !NoShortcut(g, limit, {})
  {
    assert OpenWalk(g, limit, {}, [g.rootId]);
    OpenEdgesClosed(g, limit, {}, first);
    OpenEdgesClosed(g, limit, {}, second);
    assert IsShortcut(g, limit, {}, second);
  }

  /** Behind a first hop on one path, another path leads on. */
  lemma BehindFirstHop(g: NodeGraph, edges: EdgeMap, dist: Metric, paths: seq<seq<string>>, i: nat, j: nat)
    requires WellFormed(g) && SameEdges(g.edges, edges) && Built(dist, paths, g.nodes, edges)
    requires i < |paths| && |paths[i]| == 2 && paths[i][0] == g.rootId
    requires j < |paths| && |paths[j]| > 1 && paths[j][|paths[j]| - 2] == paths[i][1]
    ensures End(paths[j]) in g.nodes
    ensures g.nodes[End(paths[j])].depth > 2 ==> Reachable(g, 2, {}, End(paths[j])) && !NoShortcut(g, 2, {})
  {
    TrailBuilt(dist, paths, g.nodes, edges, i);
    TrailBuilt(dist, paths, g.nodes, edges, j);
    var first, second := edges[(paths[i][0], paths[i][1])], edges[(paths[i][1], End(paths[j]))];
    assert first in g.edges && second in g.edges;
    if g.nodes[End(paths[j])].depth > 2 {
      BehindTwoEdges(g, first, second, 2);
    }
  }

  /** With two hops, B is visible behind A, although it is four hops away: in every graph built from these paths. */
  lemma DeepNodeIsReachable(g: NodeGraph, edges: EdgeMap, dist: Metric)
    requires WellFormed(g) && g.rootId == "R" && SameEdges(g.edges, edges) && Built(dist, PATHS, g.nodes, edges)
    ensures "B" in g.nodes && g.nodes["B"].depth == 4 && Reachable(g, 2, {}, "B") && !NoShortcut(g, 2, {})
  {
    BehindFirstHop(g, edges, dist, PATHS, 1, 2);
    DepthOfB(dist, g.nodes);
  }

  /** The view of the two reports with at most two hops: it shows the station that is four hops away. */
  method ShowTwoHops(km: (Place, Place) -> real) returns (g: NodeGraph, v: NodeGraph)
    ensures GraphOf(g, "R", REPORTS, ALL, km) && 2 < g.maxDepth
    ensures forall n :: n in v.nodes <==> Reachable(g, 2, {}, n)
    ensures "B" in v.nodes && "B" in g.nodes && v.nodes["B"] == g.nodes["B"] && g.nodes["B"].depth == 4
  {
    PlainName("R");
    PathsOfReports(TableOf(REPORTS));
    ghost var edges;
    g, edges := BuildNodeGraph("R", REPORTS, ALL, km);
    DeepNodeIsReachable(g, edges, DistanceBetween(TableOf(REPORTS), km));
    v := VisibleNodeGraph(g, 2, {});
  }
}
