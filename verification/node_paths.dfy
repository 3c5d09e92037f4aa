/**
 The path panel: every way to walk from the root to a chosen node without
 visiting a node twice, with the length of the way where it is known.
 */
module NodePaths {
  import opened Text
  import opened Routes
  import opened Sequences

  /** An edge of the node graph with its distance, if both ends have coordinates. */
  type Edge = Arc<Option<real>>

  datatype Summary = Summary(nodeIds: seq<string>, edges: seq<Edge>, totalDistanceKm: Option<real>)

  /** The edges leaving `n`, in list order. */
  function Outgoing(edges: seq<Edge>, n: string): seq<Edge> {
    if edges == [] then []
    else
      var e := edges[|edges| - 1];
      Outgoing(edges[..|edges| - 1], n) + if e.from == n then [e] else []
  }

  function EdgeGraph(edges: seq<Edge>): Graph<Option<real>> {
    n => Outgoing(edges, n)
  }

  function Heads(edges: seq<Edge>): set<string> {
    set e | e in edges :: e.to
  }

  /** No two edges join the same nodes in the same direction. */
  predicate DistinctEdges(edges: seq<Edge>) {
    forall i, j :: 0 <= i < j < |edges| ==> edges[i].from != edges[j].from || edges[i].to != edges[j].to
  }

  predicate AllKnown(edges: seq<Edge>) {
    forall i :: 0 <= i < |edges| ==> edges[i].info.Some?
  }

  function Length(edges: seq<Edge>): real
    requires AllKnown(edges)
  {
    if edges == [] then 0.0 else Length(edges[..|edges| - 1]) + edges[|edges| - 1].info.value
  }

  /** The length of a path is known exactly when that of each of its edges is. */
  function TotalDistance(edges: seq<Edge>): Option<real> {
    if AllKnown(edges) then Some(Length(edges)) else None
  }

  function SummaryOf(r: Route<Option<real>>): Summary {
    Summary(r.nodes, r.arcs, TotalDistance(r.arcs))
  }

  function SummariesOf(rs: seq<Route<Option<real>>>): (s: seq<Summary>)
    ensures |s| == |rs| && forall i :: 0 <= i < |rs| ==> s[i] == SummaryOf(rs[i])
  {
    seq(|rs|, i requires 0 <= i < |rs| => SummaryOf(rs[i]))
  }

  lemma SummariesConcat(a: seq<Route<Option<real>>>, b: seq<Route<Option<real>>>)
    ensures SummariesOf(a + b) == SummariesOf(a) + SummariesOf(b)
  {
    forall i | 0 <= i < |a + b| ensures SummariesOf(a + b)[i] == (SummariesOf(a) + SummariesOf(b))[i] {}
  }

  /** The running total is the length so far for as long as every edge has one. */
  predicate Measured(edges: seq<Edge>, totalDistanceKm: real, hasCompleteDistance: bool) {
    TotalDistance(edges) == if hasCompleteDistance then Some(totalDistanceKm) else None
  }

  lemma TotalGrows(edges: seq<Edge>, e: Edge)
    ensures TotalDistance(edges + [e]) ==
      var t := TotalDistance(edges);
      if t.Some? && e.info.Some? then Some(t.value + e.info.value) else None
  {
    assert (edges + [e])[..|edges|] == edges;
    assert AllKnown(edges + [e]) ==> forall i :: 0 <= i < |edges| ==> edges[i] == (edges + [e])[i];
  }

  lemma {:induction false} OutgoingMember(edges: seq<Edge>, n: string, e: Edge)
    ensures e in Outgoing(edges, n) <==> e in edges && e.from == n
  {
    if edges != [] {
      OutgoingMember(edges[..|edges| - 1], n, e);
      assert edges == edges[..|edges| - 1] + [edges[|edges| - 1]];
    }
  }

  lemma {:induction false} OutgoingDistinct(edges: seq<Edge>, n: string)
    requires DistinctEdges(edges)
    ensures Distinct(Outgoing(edges, n))
  {
    if edges != [] {
      var front, e := edges[..|edges| - 1], edges[|edges| - 1];
      OutgoingDistinct(front, n);
      forall x | x in Outgoing(front, n) ensures x != e {
        OutgoingMember(front, n, x);
      }
      assert Distinct([e]);
      if e.from == n {
        DistinctConcat(Outgoing(front, n), [e]);
      } else {
        assert Outgoing(edges, n) == Outgoing(front, n);
      }
    }
  }

  lemma EdgeGraphClosed(edges: seq<Edge>)
    ensures Closed(EdgeGraph(edges), Heads(edges))
    ensures DistinctEdges(edges) ==> NoDoubleArcs(EdgeGraph(edges))
  {
    forall n, a | a in EdgeGraph(edges)(n) ensures a.from == n && a.to in Heads(edges) {
      OutgoingMember(edges, n, a);
    }
    if DistinctEdges(edges) {
      forall n ensures Distinct(EdgeGraph(edges)(n)) { OutgoingDistinct(edges, n); }
    }
  }

  /** A simple directed path from `root` to `target` over `edges`. */
  ghost predicate IsPath(edges: seq<Edge>, root: string, target: string, nodes: seq<string>, arcs: seq<Edge>) {
    && |nodes| == |arcs| + 1 && nodes[0] == root && nodes[|arcs|] == target && Distinct(nodes)
    && forall i :: 0 <= i < |arcs| ==> arcs[i] in edges && arcs[i].from == nodes[i] && arcs[i].to == nodes[i + 1]
  }

  lemma PathIsRoute(edges: seq<Edge>, root: string, target: string, r: Route<Option<real>>)
    ensures IsPath(edges, root, target, r.nodes, r.arcs) <==>
            IsSimple(EdgeGraph(edges), r) && r.nodes[0] == root && Last(r) == target
  {
    forall n, e ensures e in EdgeGraph(edges)(n) <==> e in edges && e.from == n {
      OutgoingMember(edges, n, e);
    }
  }

  lemma NodesExtend(r: Route<Option<real>>, e: Edge)
    requires e.to !in r.nodes
    ensures Nodes(Extend(r, e)) - {e.to} == Nodes(r)
  {}

  class Collector {
    const target: string
    const edgesBySource: map<string, seq<Edge>>
    var summaries: seq<Summary>

    constructor (target: string, edgesBySource: map<string, seq<Edge>>)
      ensures this.target == target && this.edgesBySource == edgesBySource && summaries == []
    {
      this.target, this.edgesBySource, this.summaries := target, edgesBySource, [];
    }

    function From(n: string): seq<Edge> {
      if n in edgesBySource then edgesBySource[n] else []
    }

    /** The node lists of a visit describe the simple route walked so far. */
    ghost predicate Walked(nodeIds: seq<string>, edgeIds: seq<Edge>, visiting: set<string>,
                           g: Graph<Option<real>>, universe: set<string>)
    {
      && Closed(g, universe) && (forall n :: g(n) == From(n))
      && IsSimple(g, Route(nodeIds, edgeIds))
      && visiting == Nodes(Route(nodeIds, edgeIds)) - {nodeIds[|edgeIds|]}
    }

    lemma WalkedNext(nodeIds: seq<string>, edgeIds: seq<Edge>, visiting: set<string>,
                     g: Graph<Option<real>>, universe: set<string>, edge: Edge)
      requires Walked(nodeIds, edgeIds, visiting, g, universe)
      requires edge in From(nodeIds[|edgeIds|]) && edge.to !in visiting + {nodeIds[|edgeIds|]}
      ensures Walked(nodeIds + [edge.to], edgeIds + [edge], visiting + {nodeIds[|edgeIds|]}, g, universe)
      ensures Fresh(universe, Route(nodeIds + [edge.to], edgeIds + [edge])) < Fresh(universe, Route(nodeIds, edgeIds))
    {
      var r := Route(nodeIds, edgeIds);
      assert Extend(r, edge) == Route(nodeIds + [edge.to], edgeIds + [edge]);
      assert Nodes(r) == visiting + {nodeIds[|edgeIds|]};
      assert edge.to !in Nodes(r);
      ExtendShrinks(universe, r, edge);
      ExtendSimple(g, r, edge);
      NodesExtend(r, edge);
    }

    lemma BranchNext(r: Route<Option<real>>, g: Graph<Option<real>>, universe: set<string>, i: nat, done: seq<Summary>)
      requires Closed(g, universe) && IsSimple(g, r) && i < |g(Last(r))|
      ensures var edge := g(Last(r))[i];
        done + SummariesOf(Branches(g, universe, Unlimited, target, r, i + 1)) ==
        if edge.to in r.nodes then done + SummariesOf(Branches(g, universe, Unlimited, target, r, i))
        else done + SummariesOf(Branches(g, universe, Unlimited, target, r, i)) +
             SummariesOf(Completions(g, universe, Unlimited, target, Extend(r, edge)))
    {
      var edge := g(Last(r))[i];
      var before := Branches(g, universe, Unlimited, target, r, i);
      if edge.to in r.nodes {
        assert Branches(g, universe, Unlimited, target, r, i + 1) == before;
      } else {
        ExtendShrinks(universe, r, edge);
        var here := Completions(g, universe, Unlimited, target, Extend(r, edge));
        SummariesConcat(before, here);
        Assoc(done, SummariesOf(before), SummariesOf(here));
      }
    }

    lemma TargetReached(nodeIds: seq<string>, edgeIds: seq<Edge>, visiting: set<string>,
                        g: Graph<Option<real>>, universe: set<string>, km: real, complete: bool)
      requires Walked(nodeIds, edgeIds, visiting, g, universe) && nodeIds[|edgeIds|] == target
      requires Measured(edgeIds, km, complete)
      ensures SummariesOf(Completions(g, universe, Unlimited, target, Route(nodeIds, edgeIds)))
              == [Summary(nodeIds, edgeIds, if complete then Some(km) else None)]
    {
      assert SummariesOf([Route(nodeIds, edgeIds)]) == [SummaryOf(Route(nodeIds, edgeIds))];
    }

    lemma NothingVisited(nodeIds: seq<string>, edgeIds: seq<Edge>, visiting: set<string>,
                         g: Graph<Option<real>>, universe: set<string>, done: seq<Summary>)
      requires Walked(nodeIds, edgeIds, visiting, g, universe) && nodeIds[|edgeIds|] != target
      ensures var r := Route(nodeIds, edgeIds);
        && done + SummariesOf(Branches(g, universe, Unlimited, target, r, 0)) == done
        && Completions(g, universe, Unlimited, target, r) ==
             Branches(g, universe, Unlimited, target, r, |From(nodeIds[|edgeIds|])|)
    {
      assert SummariesOf([]) == [];
    }

    lemma EdgeVisited(nodeIds: seq<string>, edgeIds: seq<Edge>, visiting: set<string>,
                      g: Graph<Option<real>>, universe: set<string>, i: nat, done: seq<Summary>)
      requires Walked(nodeIds, edgeIds, visiting, g, universe) && i < |From(nodeIds[|edgeIds|])|
      ensures var r, edge := Route(nodeIds, edgeIds), From(nodeIds[|edgeIds|])[i];
        var before := done + SummariesOf(Branches(g, universe, Unlimited, target, r, i));
        done + SummariesOf(Branches(g, universe, Unlimited, target, r, i + 1)) ==
        if edge.to in visiting + {nodeIds[|edgeIds|]} then before
        else (
          WalkedNext(nodeIds, edgeIds, visiting, g, universe, edge);
          before +
          SummariesOf(Completions(g, universe, Unlimited, target, Route(nodeIds + [edge.to], edgeIds + [edge]))))
    {
      var r, edge := Route(nodeIds, edgeIds), From(nodeIds[|edgeIds|])[i];
      BranchNext(r, g, universe, i, done);
      assert Nodes(r) == visiting + {nodeIds[|edgeIds|]};
      assert Extend(r, edge) == Route(nodeIds + [edge.to], edgeIds + [edge]);
    }

    /** Visits one node; `g` and `universe` are the graph that the edge lists describe. */
    method Visit(nodeId: string, nodeIds: seq<string>, edgeIds: seq<Edge>, totalDistanceKm: real,
                 hasCompleteDistance: bool, visiting: set<string>,
                 ghost g: Graph<Option<real>>, ghost universe: set<string>)
      requires Walked(nodeIds, edgeIds, visiting, g, universe) && nodeId == nodeIds[|edgeIds|]
      requires Measured(edgeIds, totalDistanceKm, hasCompleteDistance)
      modifies this
      ensures summaries ==
        old(summaries) + SummariesOf(Completions(g, universe, Unlimited, target, Route(nodeIds, edgeIds)))
      decreases Fresh(universe, Route(nodeIds, edgeIds)), 0
    {
      hide Completions, Branches, SummariesOf, Fresh, Measured;
      ghost var r := Route(nodeIds, edgeIds);
      if nodeId == target {
        summaries := summaries +
          [Summary(nodeIds, edgeIds, if hasCompleteDistance then Some(totalDistanceKm) else None)];
        TargetReached(nodeIds, edgeIds, visiting, g, universe, totalDistanceKm, hasCompleteDistance);
        return;
      }
      if nodeId in visiting {
        assert false;
      }
      var nextVisiting := visiting + {nodeId};
      var edges := From(nodeId);
      ghost var done := summaries;
      NothingVisited(nodeIds, edgeIds, visiting, g, universe, done);
      for i := 0 to |edges|
        invariant summaries == done + SummariesOf(Branches(g, universe, Unlimited, target, r, i))
      {
        var edge := edges[i];
        EdgeVisited(nodeIds, edgeIds, visiting, g, universe, i, done);
        if edge.to in nextVisiting { continue; }
        WalkedNext(nodeIds, edgeIds, visiting, g, universe, edge);
        Follow(edge, nodeIds, edgeIds, totalDistanceKm, hasCompleteDistance, nextVisiting, g, universe);
      }
    }

    /** Takes one edge and visits the node behind it. */
    method Follow(edge: Edge, nodeIds: seq<string>, edgeIds: seq<Edge>, totalDistanceKm: real,
                  hasCompleteDistance: bool, nextVisiting: set<string>,
                  ghost g: Graph<Option<real>>, ghost universe: set<string>)
      requires Walked(nodeIds + [edge.to], edgeIds + [edge], nextVisiting, g, universe)
      requires Measured(edgeIds, totalDistanceKm, hasCompleteDistance)
      modifies this
      ensures summaries == old(summaries) +
        SummariesOf(Completions(g, universe, Unlimited, target, Route(nodeIds + [edge.to], edgeIds + [edge])))
      decreases Fresh(universe, Route(nodeIds + [edge.to], edgeIds + [edge])), 1
    {
      TotalGrows(edgeIds, edge);
      var nextHasCompleteDistance := hasCompleteDistance && edge.info.Some?;
      var nextDistance := if nextHasCompleteDistance then totalDistanceKm + edge.info.value else totalDistanceKm;
      Visit(edge.to, nodeIds + [edge.to], edgeIds + [edge], nextDistance, nextHasCompleteDistance,
            nextVisiting, g, universe);
    }
  }

  lemma OutgoingNext(edges: seq<Edge>, i: nat, n: string)
    requires i < |edges|
    ensures Outgoing(edges[..i + 1], n) == Outgoing(edges[..i], n) + if edges[i].from == n then [edges[i]] else []
  {
    assert edges[..i + 1][..i] == edges[..i];
  }

  method GroupBySource(edges: seq<Edge>) returns (edgesBySource: map<string, seq<Edge>>)
    ensures forall n :: (if n in edgesBySource then edgesBySource[n] else []) == Outgoing(edges, n)
  {
    edgesBySource := map[];
    assert forall n :: Outgoing(edges[..0], n) == [];
    hide Outgoing;
    for i := 0 to |edges|
      invariant forall n :: (if n in edgesBySource then edgesBySource[n] else []) == Outgoing(edges[..i], n)
    {
      var edge := edges[i];
      forall n ensures Outgoing(edges[..i + 1], n) == Outgoing(edges[..i], n) + if edge.from == n then [edge] else [] {
        OutgoingNext(edges, i, n);
      }
      var list := if edge.from in edgesBySource then edgesBySource[edge.from] else [];
      edgesBySource := edgesBySource[edge.from := list + [edge]];
    }
    assert edges[..|edges|] == edges;
  }

  /**
   The path panel's list, before it is sorted for display.  It holds exactly the
   simple directed paths from the root to the target, each once, with the sum of
   the edge distances wherever all of them are known.
   */
  method NodePathSummaries(edges: seq<Edge>, rootId: string, targetNodeId: Option<string>)
    returns (result: seq<Summary>)
    ensures targetNodeId == None || targetNodeId == Some(rootId) ==> result == []
    ensures targetNodeId != None && targetNodeId != Some(rootId) ==>
      forall nodes, arcs :: IsPath(edges, rootId, targetNodeId.value, nodes, arcs) <==>
        Summary(nodes, arcs, TotalDistance(arcs)) in result
    ensures forall s :: s in result ==> s.totalDistanceKm == TotalDistance(s.edges)
    ensures DistinctEdges(edges) ==> Distinct(result)
  {
    if targetNodeId == None || targetNodeId == Some(rootId) {
      return [];
    }
    var edgesBySource := GroupBySource(edges);
    var collector := new Collector(targetNodeId.value, edgesBySource);
    EdgeGraphClosed(edges);
    collector.Visit(rootId, [rootId], [], 0.0, true, {}, EdgeGraph(edges), Heads(edges));
    result := collector.summaries;
    SummariesExact(edges, rootId, targetNodeId.value);
  }

  ghost function Found(edges: seq<Edge>, root: string, target: string): seq<Route<Option<real>>> {
    EdgeGraphClosed(edges);
    Completions(EdgeGraph(edges), Heads(edges), Unlimited, target, Route([root], []))
  }

  lemma SummariesExact(edges: seq<Edge>, root: string, target: string)
    ensures forall nodes, arcs :: IsPath(edges, root, target, nodes, arcs) <==>
      Summary(nodes, arcs, TotalDistance(arcs)) in SummariesOf(Found(edges, root, target))
    ensures DistinctEdges(edges) ==> Distinct(SummariesOf(Found(edges, root, target)))
  {
    EdgeGraphClosed(edges);
    var found := Found(edges, root, target);
    forall nodes, arcs
      ensures IsPath(edges, root, target, nodes, arcs) <==>
              Summary(nodes, arcs, TotalDistance(arcs)) in SummariesOf(found)
    {
      var q := Route(nodes, arcs);
      PathIsRoute(edges, root, target, q);
      SearchExact(EdgeGraph(edges), Heads(edges), Unlimited, root, target, q);
      if SummaryOf(q) in SummariesOf(found) {
        var i :| 0 <= i < |found| && SummariesOf(found)[i] == SummaryOf(q);
        assert found[i] == q;
      }
      if q in found {
        var i :| 0 <= i < |found| && found[i] == q;
        assert SummariesOf(found)[i] == SummaryOf(q);
      }
    }
    if DistinctEdges(edges) {
      var start: Route<Option<real>> := Route([root], []);
      CompletionsOnce(EdgeGraph(edges), Heads(edges), Unlimited, target, start);
      forall i, j | 0 <= i < j < |found| ensures SummariesOf(found)[i] != SummariesOf(found)[j] {
        assert found[i] != found[j];
      }
    }
  }
}
