/**
 The visible part of the node graph: breadth first from the root, going on
 behind nodes that are shallow enough or expanded by hand.
 */
module VisibleGraph {
  import opened Text
  import opened NodePaths
  import opened NodeGraphs
  import opened GraphBuilding

  /** Whether the search goes on behind `n`. */
  predicate Expandable(g: NodeGraph, limit: int, expanded: set<string>, n: string) {
    n in g.nodes && (g.nodes[n].depth < limit || n in expanded)
  }

  ghost predicate HasEdge(edges: seq<Edge>, a: string, b: string) {
    exists e :: e in edges && e.from == a && e.to == b
  }

  /** A walk from the root on which the search goes on behind every node but the last. */
  ghost predicate OpenWalk(g: NodeGraph, limit: int, expanded: set<string>, w: seq<string>) {
    && w != [] && w[0] == g.rootId
    && forall i :: 0 <= i < |w| - 1 ==> Expandable(g, limit, expanded, w[i]) && HasEdge(g.edges, w[i], w[i + 1])
  }

  /** Membership in the closure of the root under expandable nodes. */
  ghost predicate Reachable(g: NodeGraph, limit: int, expanded: set<string>, n: string) {
    exists w :: OpenWalk(g, limit, expanded, w) && w[|w| - 1] == n
  }

  lemma RootReachable(g: NodeGraph, limit: int, expanded: set<string>)
    ensures Reachable(g, limit, expanded, g.rootId)
  {
    assert OpenWalk(g, limit, expanded, [g.rootId]);
  }

  lemma ReachableNext(g: NodeGraph, limit: int, expanded: set<string>, a: string, b: string)
    requires Reachable(g, limit, expanded, a) && Expandable(g, limit, expanded, a) && HasEdge(g.edges, a, b)
    ensures Reachable(g, limit, expanded, b)
  {
    var w :| OpenWalk(g, limit, expanded, w) && w[|w| - 1] == a;
    var w' := w + [b];
    assert OpenWalk(g, limit, expanded, w');
  }

  /** The edge `e` goes to `n` from a node in reach that lies above the limit or is expanded by hand. */
  ghost predicate LeadsOn(g: NodeGraph, limit: int, expanded: set<string>, e: Edge, n: string) {
    && e in g.edges && e.to == n && e.from in g.nodes && Reachable(g, limit, expanded, e.from)
    && (g.nodes[e.from].depth < limit || e.from in expanded)
  }

  /** A node is in reach if it is the root, or an edge leads on to it. */
  lemma ReachableIff(g: NodeGraph, limit: int, expanded: set<string>, n: string)
    requires WellFormed(g)
    ensures Reachable(g, limit, expanded, n) <==> n == g.rootId || exists e :: LeadsOn(g, limit, expanded, e, n)
  {
    hide HasEdge, WellFormed;
    assert OpenWalk(g, limit, expanded, [g.rootId]);
    if Reachable(g, limit, expanded, n) && n != g.rootId {
      var w :| OpenWalk(g, limit, expanded, w) && w[|w| - 1] == n;
      LastStep(g, limit, expanded, w, n);
    }
    if e :| LeadsOn(g, limit, expanded, e, n) {
      LedOn(g, limit, expanded, e, n);
    }
  }

  lemma LastStep(g: NodeGraph, limit: int, expanded: set<string>, w: seq<string>, n: string)
    requires OpenWalk(g, limit, expanded, w) && |w| > 1 && w[|w| - 1] == n
    ensures exists e :: LeadsOn(g, limit, expanded, e, n)
  {
    var k := |w| - 2;
    assert OpenWalk(g, limit, expanded, w[..k + 1]);
    assert HasEdge(g.edges, w[k], w[k + 1]);
    var e :| e in g.edges && e.from == w[k] && e.to == w[k + 1];
    assert Reachable(g, limit, expanded, e.from);
    assert LeadsOn(g, limit, expanded, e, n);
  }

  lemma LedOn(g: NodeGraph, limit: int, expanded: set<string>, e: Edge, n: string)
    requires LeadsOn(g, limit, expanded, e, n)
    ensures Reachable(g, limit, expanded, n)
  {
    hide Reachable;
    assert HasEdge(g.edges, e.from, n);
    ReachableNext(g, limit, expanded, e.from, n);
  }

  /** A set that holds the root and the children of its expandable nodes holds everything reachable. */
  lemma {:induction false} ClosureHolds(g: NodeGraph, limit: int, expanded: set<string>, closed: set<string>,
                                        w: seq<string>)
    requires g.rootId in closed
    requires forall e :: e in g.edges && e.from in closed && Expandable(g, limit, expanded, e.from) ==> e.to in closed
    requires OpenWalk(g, limit, expanded, w)
    ensures w[|w| - 1] in closed
  {
    if |w| > 1 {
      var front := w[..|w| - 1];
      ClosureHolds(g, limit, expanded, closed, front);
      assert HasEdge(g.edges, w[|w| - 2], w[|w| - 1]);
    }
  }

  /** The children of `n`, one per edge that leaves it. */
  function Children(edges: seq<Edge>, n: string): (c: seq<string>)
    ensures forall x :: x in c <==> HasEdge(edges, n, x)
  {
    if edges == [] then []
    else
      var e := edges[|edges| - 1];
      assert edges == edges[..|edges| - 1] + [e];
      Children(edges[..|edges| - 1], n) + if e.from == n then [e.to] else []
  }

  function ListAt(m: map<string, seq<string>>, n: string): seq<string> {
    if n in m then m[n] else []
  }

  method ChildrenBySource(edges: seq<Edge>) returns (childrenByNode: map<string, seq<string>>)
    ensures forall n :: ListAt(childrenByNode, n) == Children(edges, n)
  {
    childrenByNode := map[];
    for i := 0 to |edges|
      invariant forall n :: ListAt(childrenByNode, n) == Children(edges[..i], n)
    {
      assert edges[..i + 1][..i] == edges[..i];
      childrenByNode := childrenByNode[edges[i].from := ListAt(childrenByNode, edges[i].from) + [edges[i].to]];
    }
    assert edges[..|edges|] == edges;
  }

  method EdgeBetween(edges: seq<Edge>, from: string, to: string) returns (edge: Option<Edge>)
    ensures edge.Some? <==> HasEdge(edges, from, to)
    ensures edge.Some? ==> edge.value in edges && edge.value.from == from && edge.value.to == to
  {
    for i := 0 to |edges|
      invariant forall j :: 0 <= j < i ==> edges[j].from != from || edges[j].to != to
    {
      if edges[i].from == from && edges[i].to == to {
        return Some(edges[i]);
      }
    }
    return None;
  }

  /** What the queue still has to do: every open edge leads to a node that was visited or is queued. */
  ghost predicate Frontier(g: NodeGraph, limit: int, expanded: set<string>, visited: set<string>, queue: seq<string>) {
    && (g.rootId in visited || g.rootId in queue)
    && (forall n :: n in visited || n in queue ==> n in g.nodes && Reachable(g, limit, expanded, n))
    && (forall e :: e in g.edges && e.from in visited && Expandable(g, limit, expanded, e.from) ==>
          e.to in visited || e.to in queue)
  }

  /** The edges behind visited expandable nodes. */
  ghost predicate OpenEdges(g: NodeGraph, limit: int, expanded: set<string>, visited: set<string>, edges: set<Edge>) {
    forall e :: e in edges <==> e in g.edges && e.from in visited && Expandable(g, limit, expanded, e.from)
  }

  /** Collects the edges to the children of one node and queues the children. */
  method PushChildren(g: NodeGraph, n: string, children: seq<string>, edges0: set<Edge>, queue0: seq<string>)
    returns (edges: set<Edge>, queue: seq<string>)
    requires DistinctEdges(g.edges) && forall x :: x in children <==> HasEdge(g.edges, n, x)
    ensures queue == queue0 + children
    ensures edges == edges0 + set e | e in g.edges && e.from == n
  {
    edges, queue := edges0, queue0;
    for i := 0 to |children|
      invariant queue == queue0 + children[..i]
      invariant edges == edges0 + set e | e in g.edges && e.from == n && e.to in children[..i]
    {
      var child := children[i];
      var edge := EdgeBetween(g.edges, n, child);
      assert children[..i + 1] == children[..i] + [child];
      forall e | e in g.edges && e.from == n && e.to == child ensures edge == Some(e) {}
      if edge.Some? {
        edges := edges + {edge.value};
      }
      queue := queue + [child];
    }
    assert children[..|children|] == children;
  }

  lemma FrontierSkip(g: NodeGraph, limit: int, expanded: set<string>, visited: set<string>, n: string,
                     queue: seq<string>)
    requires Frontier(g, limit, expanded, visited, [n] + queue) && n in visited
    ensures Frontier(g, limit, expanded, visited, queue)
  {
    forall x ensures x in [n] + queue <==> x == n || x in queue {}
  }

  lemma FrontierVisit(g: NodeGraph, limit: int, expanded: set<string>, visited: set<string>, n: string,
                      queue: seq<string>, next: seq<string>)
    requires WellFormed(g) && Frontier(g, limit, expanded, visited, [n] + queue)
    requires forall x :: x in next <==> Expandable(g, limit, expanded, n) && HasEdge(g.edges, n, x)
    ensures Frontier(g, limit, expanded, visited + {n}, queue + next)
    ensures n in g.nodes
  {
    forall x ensures x in [n] + queue <==> x == n || x in queue {}
    assert Reachable(g, limit, expanded, n) by { assert n in [n] + queue; }
    forall x | x in next ensures x in g.nodes && Reachable(g, limit, expanded, x) {
      ReachableNext(g, limit, expanded, n, x);
    }
    forall e | e in g.edges && e.from == n && Expandable(g, limit, expanded, n) ensures e.to in next {
      assert HasEdge(g.edges, n, e.to);
    }
  }

  lemma FrontierDone(g: NodeGraph, limit: int, expanded: set<string>, visited: set<string>)
    requires Frontier(g, limit, expanded, visited, [])
    ensures forall n :: n in visited <==> Reachable(g, limit, expanded, n)
    ensures visited <= g.nodes.Keys
  {
    forall n | Reachable(g, limit, expanded, n) ensures n in visited {
      var w :| OpenWalk(g, limit, expanded, w) && w[|w| - 1] == n;
      ClosureHolds(g, limit, expanded, visited, w);
    }
  }

  lemma OpenEdgesVisit(g: NodeGraph, limit: int, expanded: set<string>, visited: set<string>, n: string,
                       edges: set<Edge>)
    requires OpenEdges(g, limit, expanded, visited, edges)
    ensures OpenEdges(g, limit, expanded, visited + {n},
                      edges + if Expandable(g, limit, expanded, n) then (set e | e in g.edges && e.from == n) else {})
  {}

  method Search(g: NodeGraph, limit: int, expanded: set<string>) returns (visible: set<string>, edges: set<Edge>)
    requires WellFormed(g)
    ensures forall n :: n in visible <==> Reachable(g, limit, expanded, n)
    ensures visible <= g.nodes.Keys
    ensures OpenEdges(g, limit, expanded, visible, edges)
  {
    hide Reachable, OpenWalk, Children, HasEdge;
    var childrenByNode := ChildrenBySource(g.edges);
    visible, edges := {}, {};
    var queue := [g.rootId];
    RootReachable(g, limit, expanded);
    while |queue| > 0
      invariant Frontier(g, limit, expanded, visible, queue)
      invariant OpenEdges(g, limit, expanded, visible, edges)
      decreases g.nodes.Keys - visible, |queue|
    {
      var nodeId, rest := queue[0], queue[1..];
      assert queue == [nodeId] + rest;
      if nodeId in visible {
        FrontierSkip(g, limit, expanded, visible, nodeId, rest);
        queue := rest;
        continue;
      }
      var children := if Expandable(g, limit, expanded, nodeId) then ListAt(childrenByNode, nodeId) else [];
      FrontierVisit(g, limit, expanded, visible, nodeId, rest, children);
      OpenEdgesVisit(g, limit, expanded, visible, nodeId, edges);
      visible := visible + {nodeId};
      if Expandable(g, limit, expanded, nodeId) {
        edges, queue := PushChildren(g, nodeId, children, edges, rest);
      } else {
        queue := rest + children;
      }
    }
    assert queue == [];
    FrontierDone(g, limit, expanded, visible);
  }

  lemma DifferentEnds(all: seq<Edge>, x: Edge, y: Edge)
    requires DistinctEdges(all) && x in all && y in all && x != y
    ensures x.from != y.from || x.to != y.to
  {}

  /** The chosen edges as a list, in some order. */
  method ListOf(edges: set<Edge>, ghost all: seq<Edge>) returns (list: seq<Edge>)
    requires DistinctEdges(all) && forall e :: e in edges ==> e in all
    ensures DistinctEdges(list) && forall e :: e in list <==> e in edges
  {
    list := [];
    var rest := edges;
    while rest != {}
      invariant rest <= edges && DistinctEdges(list)
      invariant forall e :: e in list <==> e in edges - rest
      decreases rest
    {
      var e :| e in rest;
      rest := rest - {e};
      forall i | 0 <= i < |list| ensures list[i].from != e.from || list[i].to != e.to {
        assert list[i] in list;
        DifferentEnds(all, list[i], e);
      }
      list := list + [e];
    }
  }

  ghost predicate EndpointClosed(g: NodeGraph) {
    forall e :: e in g.edges ==> e.from in g.nodes && e.to in g.nodes
  }

  /** What drawing a graph needs of it. */
  ghost predicate Drawable(g: NodeGraph) {
    g.rootId in g.nodes && EndpointClosed(g)
  }

  lemma OpenEdgesClosed(g: NodeGraph, limit: int, expanded: set<string>, e: Edge)
    requires e in g.edges && Reachable(g, limit, expanded, e.from) && Expandable(g, limit, expanded, e.from)
    ensures Reachable(g, limit, expanded, e.to)
  {
    assert HasEdge(g.edges, e.from, e.to);
    ReachableNext(g, limit, expanded, e.from, e.to);
  }

  /**
   The visible graph: the whole graph when the limit reaches its depth, otherwise
   exactly the closure of the root under expandable nodes, with every edge that
   leaves an expandable visible node; no edge ever dangles.
   */
  method VisibleNodeGraph(g: NodeGraph, limit: int, expanded: set<string>) returns (v: NodeGraph)
    requires WellFormed(g)
    ensures v.rootId == g.rootId && Drawable(v) && DistinctEdges(v.edges)
    ensures limit >= g.maxDepth ==> v == g
    ensures limit < g.maxDepth ==>
      && (forall n :: n in v.nodes <==> Reachable(g, limit, expanded, n))
      && (forall n :: n in v.nodes ==> n in g.nodes && v.nodes[n] == g.nodes[n])
      && (forall e :: e in v.edges <==>
            e in g.edges && Reachable(g, limit, expanded, e.from) && Expandable(g, limit, expanded, e.from))
    ensures forall n :: n in v.nodes ==> v.nodes[n].depth <= v.maxDepth
    ensures exists n :: n in v.nodes && v.nodes[n].depth == v.maxDepth
  {
    if limit >= g.maxDepth {
      return g;
    }
    var visible, open := Search(g, limit, expanded);
    var nodes := map n | n in visible :: g.nodes[n];
    assert g.rootId in nodes by { assert OpenWalk(g, limit, expanded, [g.rootId]); }
    assert forall e :: e in open ==> e in g.edges;
    var depth := MaxDepth(nodes);
    var edges := ListOf(open, g.edges);
    forall e | e in edges ensures e.from in nodes && e.to in nodes {
      OpenEdgesClosed(g, limit, expanded, e);
    }
    v := NodeGraph(g.rootId, nodes, edges, depth);
  }

  /** Every node within the limit is visible, whatever is expanded: its parents lie above it. */
  lemma {:induction false} ShallowIsVisible(g: NodeGraph, limit: int, expanded: set<string>, n: string)
    requires WellFormed(g) && n in g.nodes && g.nodes[n].depth <= limit
    ensures Reachable(g, limit, expanded, n)
    decreases g.nodes[n].depth
  {
    if n == g.rootId {
      assert OpenWalk(g, limit, expanded, [g.rootId]);
    } else {
      assert HasParentAbove(g, n);
      var e :| e in g.edges && e.to == n && e.from in g.nodes && g.nodes[e.from].depth < g.nodes[n].depth;
      ShallowIsVisible(g, limit, expanded, e.from);
      OpenEdgesClosed(g, limit, expanded, e);
    }
  }

  /** No edge that the search follows within the limit leads below it. */
  ghost predicate NoShortcut(g: NodeGraph, limit: int, expanded: set<string>) {
    forall e :: e in g.edges ==> !IsShortcut(g, limit, expanded, e)
  }

  predicate IsShortcut(g: NodeGraph, limit: int, expanded: set<string>, e: Edge) {
    && e.from in g.nodes && e.to in g.nodes
    && g.nodes[e.from].depth <= limit < g.nodes[e.to].depth && Expandable(g, limit, expanded, e.from)
  }

  /**
   The visible nodes are exactly those within the limit if and only if no edge
   leads from an expandable node within the limit to below it.
   */
  lemma LimitExactIff(g: NodeGraph, limit: nat, expanded: set<string>)
    requires WellFormed(g)
    ensures (forall n :: n in g.nodes ==> (Reachable(g, limit, expanded, n) <==> g.nodes[n].depth <= limit))
            <==> NoShortcut(g, limit, expanded)
  {
    forall n | n in g.nodes && g.nodes[n].depth <= limit ensures Reachable(g, limit, expanded, n) {
      ShallowIsVisible(g, limit, expanded, n);
    }
    if NoShortcut(g, limit, expanded) {
      forall n | n in g.nodes && Reachable(g, limit, expanded, n) ensures g.nodes[n].depth <= limit {
        NothingDeeper(g, limit, expanded, n);
      }
    } else {
      var e :| e in g.edges && IsShortcut(g, limit, expanded, e);
      OpenEdgesClosed(g, limit, expanded, e);
    }
  }

  lemma NothingDeeper(g: NodeGraph, limit: nat, expanded: set<string>, n: string)
    requires WellFormed(g) && NoShortcut(g, limit, expanded) && Reachable(g, limit, expanded, n)
    ensures n in g.nodes && g.nodes[n].depth <= limit
  {
    var shallow := set x | x in g.nodes && g.nodes[x].depth <= limit;
    var w :| OpenWalk(g, limit, expanded, w) && w[|w| - 1] == n;
    forall e | e in g.edges && e.from in shallow && Expandable(g, limit, expanded, e.from) ensures e.to in shallow {
      assert !IsShortcut(g, limit, expanded, e);
    }
    ClosureHolds(g, limit, expanded, shallow, w);
  }
}
