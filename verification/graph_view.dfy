/** The graph view: build the graph, cut it to the chosen number of hops, and lay it out. */
module GraphView {
  import opened Text
  import opened Sequences
  import opened NodePaths
  import opened NodeGraphs
  import opened GraphBuilding
  import opened VisibleGraph
  import opened Separation

  /** The hop limit that a choice of the view stands for; none means all. */
  function VisibleDepth(hops: Option<int>, g: NodeGraph): int {
    if hops.Some? then hops.value else g.maxDepth
  }

  /** An edge that the view shows: any one, or with a limit one behind a visible node above it. */
  ghost predicate Followed(g: NodeGraph, limit: int, e: Edge) {
    && e in g.edges
    && (limit < g.maxDepth ==> Reachable(g, limit, {}, e.from) && Expandable(g, limit, {}, e.from))
  }

  /** The part of the graph that the view shows: the nodes in reach and each edge that leads on, once. */
  ghost predicate Cut(v: NodeGraph, g: NodeGraph, limit: int) {
    && (forall n :: n in v.nodes <==> n in g.nodes && (limit < g.maxDepth ==> Reachable(g, limit, {}, n)))
    && (forall n :: n in v.nodes ==> v.nodes[n] == g.nodes[n])
    && (forall n :: n in g.nodes && g.nodes[n].depth <= limit ==> n in v.nodes)
    && (forall e :: e in v.edges <==> Followed(g, limit, e)) && DistinctEdges(v.edges)
  }

  method CutGraph(g: NodeGraph, limit: int) returns (v: NodeGraph)
    requires WellFormed(g)
    ensures v.rootId == g.rootId && Drawable(v) && Cut(v, g, limit)
  {
    hide Reachable, Expandable, DistinctEdges, Drawable;
    v := VisibleNodeGraph(g, limit, {});
    forall n | n in g.nodes && g.nodes[n].depth <= limit ensures n in v.nodes {
      ShallowIsVisible(g, limit, {}, n);
    }
  }

  function DrawnEdges(l: LayoutGraph): (edges: seq<Edge>)
    ensures |edges| == |l.edges| && forall k :: 0 <= k < |edges| ==> edges[k] == l.edges[k].edge
  {
    seq(|l.edges|, k requires 0 <= k < |l.edges| => l.edges[k].edge)
  }

  /** `l` draws the nodes and the edges of `v`. */
  ghost predicate Draws(l: LayoutGraph, v: NodeGraph) {
    && l.nodes.Keys == v.nodes.Keys && (forall n :: n in l.nodes ==> l.nodes[n].node == v.nodes[n])
    && |l.edges| == |v.edges|
    && (forall k :: 0 <= k < |l.edges| ==> DrawnBetween(l.edges[k], v.edges[k], l.nodes))
  }

  /** The nodes and edges that the view shows of `g` are drawn, each edge once and between its own nodes. */
  ghost predicate DrawnFrom(l: LayoutGraph, g: NodeGraph, limit: int) {
    && (forall n :: n in l.nodes <==> n in g.nodes && (limit < g.maxDepth ==> Reachable(g, limit, {}, n)))
    && (forall n :: n in l.nodes ==> l.nodes[n].node == g.nodes[n])
    && (forall n :: n in g.nodes && g.nodes[n].depth <= limit ==> n in l.nodes)
    && (forall e :: e in DrawnEdges(l) <==> Followed(g, limit, e)) && DistinctEdges(DrawnEdges(l))
    && (forall k :: 0 <= k < |l.edges| ==> DrawnBetween(l.edges[k], l.edges[k].edge, l.nodes))
  }

  lemma CutIsDrawn(l: LayoutGraph, v: NodeGraph, g: NodeGraph, limit: int)
    requires Draws(l, v) && Cut(v, g, limit)
    ensures DrawnFrom(l, g, limit)
  {
    hide Reachable, Followed, DistinctEdges;
    assert DrawnEdges(l) == v.edges;
  }

  lemma AllIsDrawn(l: LayoutGraph, g: NodeGraph)
    requires DrawnFrom(l, g, g.maxDepth)
    ensures l.nodes.Keys == g.nodes.Keys && forall e :: e in DrawnEdges(l) <==> e in g.edges
  {
    hide Reachable, DistinctEdges, DrawnEdges;
  }

  /**
   From any positions to a drawing: exactly the nodes in reach and the edges that
   lead on are drawn, all of it inside the margins, labels of a level apart.
   */
  method DrawGraph(
    myCallsign: string, positions: seq<Position>, options: Options, km: (Place, Place) -> real, hops: Option<int>)
    returns (l: LayoutGraph, ghost g: NodeGraph)
    requires forall a, b :: km(a, b) >= 0.0
    ensures GraphOf(g, myCallsign, positions, options, km)
    ensures DrawnFrom(l, g, VisibleDepth(hops, g)) && g.rootId in l.nodes
    ensures hops == None ==> l.nodes.Keys == g.nodes.Keys && forall e :: e in DrawnEdges(l) <==> e in g.edges
    ensures hops != None ==> DrawnFrom(l, g, hops.value)
    ensures InsideMargins(l) && LabelsApart(l) && LevelsApart(l)
  {
    hide Built, Reachable, InsideMargins, LabelsApart, LevelsApart, RelayPaths, TableOf, WellFormed, DrawnFrom, FreshBy;
    var graph; ghost var edges;
    graph, edges := BuildNodeGraph(myCallsign, positions, options, km);
    g := graph;
    var table := TableOf(positions);
    BuiltNonNegative(DistanceBetween(table, km), RelayPaths(graph.rootId, options, table, positions), graph.nodes,
                     edges);
    var limit := VisibleDepth(hops, graph);
    var visible := CutGraph(graph, limit);
    l := LayoutNodeGraph(visible);
    CutIsDrawn(l, visible, graph, limit);
    if hops == None { AllIsDrawn(l, graph); }
  }

  // ----- the path panel

  /** With a limit, a path is shown only if its stations before the last lie above the limit. */
  predicate ShownPath(g: NodeGraph, limit: int, nodes: seq<string>) {
    limit < g.maxDepth ==> forall i :: 0 <= i < |nodes| - 1 ==> Expandable(g, limit, {}, nodes[i])
  }

  lemma {:induction false} PathStaysInReach(g: NodeGraph, limit: int, target: string, nodes: seq<string>,
                                            arcs: seq<Edge>, i: nat)
    requires WellFormed(g) && IsPath(g.edges, g.rootId, target, nodes, arcs) && i < |nodes|
    requires forall k :: 0 <= k < |nodes| - 1 ==> Expandable(g, limit, {}, nodes[k])
    ensures Reachable(g, limit, {}, nodes[i])
  {
    if i == 0 {
      assert OpenWalk(g, limit, {}, [g.rootId]);
    } else {
      PathStaysInReach(g, limit, target, nodes, arcs, i - 1);
      OpenEdgesClosed(g, limit, {}, arcs[i - 1]);
    }
  }

  /** The paths over the drawn edges are the shown paths of the graph. */
  lemma DrawnPathIff(g: NodeGraph, limit: int, edges: seq<Edge>, target: string, nodes: seq<string>, arcs: seq<Edge>)
    requires WellFormed(g) && forall e :: e in edges <==> Followed(g, limit, e)
    ensures IsPath(edges, g.rootId, target, nodes, arcs) <==>
      IsPath(g.edges, g.rootId, target, nodes, arcs) && ShownPath(g, limit, nodes)
  {
    if IsPath(edges, g.rootId, target, nodes, arcs) {
      forall i | 0 <= i < |arcs| ensures Followed(g, limit, arcs[i]) {
        assert arcs[i] in edges;
      }
    }
    if IsPath(g.edges, g.rootId, target, nodes, arcs) && ShownPath(g, limit, nodes) {
      forall i | 0 <= i < |arcs| ensures arcs[i] in edges {
        if limit < g.maxDepth { PathStaysInReach(g, limit, target, nodes, arcs, i); }
        assert Followed(g, limit, arcs[i]);
      }
    }
  }

  /**
   The path panel over the drawing: exactly the simple paths of the graph from the
   root to the chosen station that the hop limit shows, each once.
   */
  method ShowPaths(myCallsign: string, positions: seq<Position>, options: Options, km: (Place, Place) -> real,
                   hops: Option<int>, target: string)
    returns (l: LayoutGraph, paths: seq<Summary>, ghost g: NodeGraph)
    requires forall a, b :: km(a, b) >= 0.0
    ensures GraphOf(g, myCallsign, positions, options, km) && DrawnFrom(l, g, VisibleDepth(hops, g))
    ensures target == g.rootId ==> paths == []
    ensures target != g.rootId ==> forall nodes, arcs :: Summary(nodes, arcs, TotalDistance(arcs)) in paths <==>
      IsPath(g.edges, g.rootId, target, nodes, arcs) && ShownPath(g, VisibleDepth(hops, g), nodes)
    ensures Distinct(paths) && forall s :: s in paths ==> s.totalDistanceKm == TotalDistance(s.edges)
  {
    l, g := DrawGraph(myCallsign, positions, options, km, hops);
    hide WellFormed, Followed, ShownPath, IsPath, Reachable, TotalDistance, DistinctEdges;
    paths := NodePathSummaries(DrawnEdges(l), RootOf(myCallsign), Some(target));
    forall nodes, arcs | target != g.rootId
      ensures Summary(nodes, arcs, TotalDistance(arcs)) in paths <==>
        IsPath(g.edges, g.rootId, target, nodes, arcs) && ShownPath(g, VisibleDepth(hops, g), nodes)
    {
      DrawnPathIff(g, VisibleDepth(hops, g), DrawnEdges(l), target, nodes, arcs);
    }
  }
}
