/**
 The node graph: relay paths of heard stations, merged into one directed graph
 around the own station.  Paths may disagree about who relays whom, so the graph
 can have cycles.
 */
module NodeGraphs {
  import opened Text
  import opened Routes
  import opened Sequences
  import opened NodePaths

  datatype Freshness = Direct | Indirect | Stale | Hidden

  datatype Node = Node(id: string, depth: nat, direct: bool, freshness: Freshness, distanceFromRootKm: Option<real>)

  /** The nodes under their identifiers, the edges as a list; `maxDepth` is the largest depth of a node. */
  datatype NodeGraph = NodeGraph(rootId: string, nodes: map<string, Node>, edges: seq<Edge>, maxDepth: nat)

  type NodeMap = map<string, Node>
  type EdgeMap = map<(string, string), Edge>

  // ----- trails: the initial pieces of the relay paths

  ghost predicate Trail(paths: seq<seq<string>>, q: seq<string>) {
    q != [] && exists j :: 0 <= j < |paths| && q <= paths[j]
  }

  function End(q: seq<string>): string
    requires q != []
  {
    q[|q| - 1]
  }

  type Metric = (string, string) -> Option<real>

  function Plus(a: Option<real>, b: Option<real>): Option<real> {
    if a.Some? && b.Some? then Some(a.value + b.value) else None
  }

  function Min(a: Option<real>, b: Option<real>): Option<real> {
    if a.None? then b else if b.None? then a else if b.value < a.value then b else a
  }

  /** The length of a path, if every step of it has one. */
  function PathLength(dist: Metric, q: seq<string>): Option<real> {
    if |q| <= 1 then Some(0.0)
    else Plus(PathLength(dist, q[..|q| - 1]), dist(q[|q| - 2], q[|q| - 1]))
  }

  ghost predicate CoversTrail(dist: Metric, nodes: NodeMap, edges: EdgeMap, q: seq<string>)
    requires q != []
  {
    && End(q) in nodes && nodes[End(q)].depth < |q|
    && Min(nodes[End(q)].distanceFromRootKm, PathLength(dist, q)) == nodes[End(q)].distanceFromRootKm
    && (|q| > 1 ==> (q[|q| - 2], q[|q| - 1]) in edges)
  }

  /** Every trail has its end node, at most that deep and that far, and its last edge. */
  ghost predicate Covers(dist: Metric, paths: seq<seq<string>>, nodes: NodeMap, edges: EdgeMap) {
    forall q :: Trail(paths, q) ==> CoversTrail(dist, nodes, edges, q)
  }

  ghost predicate DepthFrom(paths: seq<seq<string>>, n: string, depth: nat) {
    exists q :: Trail(paths, q) && End(q) == n && |q| == depth + 1
  }

  ghost predicate DistanceFrom(dist: Metric, paths: seq<seq<string>>, n: string, d: Option<real>) {
    d.Some? ==> exists q :: Trail(paths, q) && End(q) == n && PathLength(dist, q) == d
  }

  ghost predicate StepOf(paths: seq<seq<string>>, a: string, b: string) {
    exists q :: Trail(paths, q) && |q| > 1 && q[|q| - 2] == a && q[|q| - 1] == b
  }

  ghost predicate JustifiedNode(dist: Metric, paths: seq<seq<string>>, n: string, node: Node) {
    && node.id == n && (node.direct <==> node.depth <= 1)
    && DepthFrom(paths, n, node.depth) && DistanceFrom(dist, paths, n, node.distanceFromRootKm)
  }

  ghost predicate JustifiedEdge(dist: Metric, paths: seq<seq<string>>, a: string, b: string, edge: Edge) {
    StepOf(paths, a, b) && edge == Arc(a, b, dist(a, b))
  }

  ghost predicate JustifiedNodes(dist: Metric, paths: seq<seq<string>>, nodes: NodeMap) {
    forall n :: n in nodes ==> JustifiedNode(dist, paths, n, nodes[n])
  }

  ghost predicate JustifiedEdges(dist: Metric, paths: seq<seq<string>>, edges: EdgeMap) {
    forall a, b :: (a, b) in edges ==> JustifiedEdge(dist, paths, a, b, edges[(a, b)])
  }

  /** Nothing is in the graph that is not on a trail. */
  ghost predicate Justified(dist: Metric, paths: seq<seq<string>>, nodes: NodeMap, edges: EdgeMap) {
    JustifiedNodes(dist, paths, nodes) && JustifiedEdges(dist, paths, edges)
  }

  /** The graph is exactly the union of the trails: least depths, least distances, all steps. */
  ghost predicate Built(dist: Metric, paths: seq<seq<string>>, nodes: NodeMap, edges: EdgeMap) {
    Covers(dist, paths, nodes, edges) && Justified(dist, paths, nodes, edges)
  }

  lemma TrailNext(paths: seq<seq<string>>, p: seq<string>, x: string, q: seq<string>)
    requires p != []
    ensures Trail(paths + [p + [x]], q) <==> Trail(paths + [p], q) || q == p + [x]
  {
    var old', new' := paths + [p], paths + [p + [x]];
    if j :| 0 <= j < |old'| && q <= old'[j] {
      assert j == |paths| ==> q <= new'[j];
      assert j < |paths| ==> new'[j] == paths[j];
    }
    if j :| 0 <= j < |new'| && q <= new'[j] {
      assert j < |paths| ==> old'[j] == paths[j];
      if j == |paths| && |q| <= |p| { assert q <= old'[j]; }
    }
    assert new'[|paths|] == p + [x];
  }

  // ----- inserting one step

  /** An absent distance leaves the other one; two distances leave the smaller. */
  function UpsertNode(nodes: NodeMap, id: string, depth: nat, direct: bool, freshness: Freshness,
                      d: Option<real>): NodeMap {
    if id !in nodes then nodes[id := Node(id, depth, direct, freshness, d)]
    else
      var current := nodes[id];
      nodes[id := current.(
        depth := if depth < current.depth then depth else current.depth,
        direct := current.direct || direct,
        freshness := MergeFreshness(current.freshness, freshness),
        distanceFromRootKm := Min(current.distanceFromRootKm, d))]
  }

  function Rank(f: Freshness): nat {
    match f
    case Direct => 3
    case Indirect => 2
    case Stale => 1
    case Hidden => 0
  }

  function MergeFreshness(left: Freshness, right: Freshness): Freshness {
    if Rank(right) > Rank(left) then right else left
  }

  function UpsertEdge(edges: EdgeMap, from: string, to: string, d: Option<real>): EdgeMap {
    if from == to then edges
    else if (from, to) !in edges then edges[(from, to) := Arc(from, to, d)]
    else edges[(from, to) := edges[(from, to)].(info := Min(edges[(from, to)].info, d))]
  }

  /** An upsert never forgets a trail that was covered. */
  lemma UpsertCovers(dist: Metric, nodes: NodeMap, edges: EdgeMap, q: seq<string>,
                     x: string, depth: nat, direct: bool, f: Freshness, d: Option<real>, from: string, w: Option<real>)
    requires q != [] && CoversTrail(dist, nodes, edges, q)
    ensures CoversTrail(dist, UpsertNode(nodes, x, depth, direct, f, d), UpsertEdge(edges, from, x, w), q)
  {}

  /** An upsert covers the trail it is made for. */
  lemma UpsertCoversNew(dist: Metric, nodes: NodeMap, edges: EdgeMap, q: seq<string>, direct: bool, f: Freshness,
                        w: Option<real>)
    requires |q| > 1 && q[|q| - 2] != End(q)
    ensures CoversTrail(dist, UpsertNode(nodes, End(q), |q| - 1, direct, f, PathLength(dist, q)),
                        UpsertEdge(edges, q[|q| - 2], End(q), w), q)
  {}

  lemma CoversLast(dist: Metric, p: seq<string>, x: string, f: Freshness, nodes: NodeMap, edges: EdgeMap)
    requires p != [] && x !in p
    ensures CoversTrail(dist, UpsertNode(nodes, x, |p|, |p| <= 1, f, PathLength(dist, p + [x])),
                        UpsertEdge(edges, End(p), x, dist(End(p), x)), p + [x])
  {
    assert End(p + [x]) == x && (p + [x])[|p| - 1] == End(p);
    UpsertCoversNew(dist, nodes, edges, p + [x], |p| <= 1, f, dist(End(p), x));
  }

  lemma CoversNext(dist: Metric, paths: seq<seq<string>>, p: seq<string>, x: string, f: Freshness, nodes: NodeMap,
                   edges: EdgeMap)
    requires p != [] && x !in p && Covers(dist, paths + [p], nodes, edges)
    ensures Covers(dist, paths + [p + [x]],
                   UpsertNode(nodes, x, |p|, |p| <= 1, f, PathLength(dist, p + [x])),
                   UpsertEdge(edges, End(p), x, dist(End(p), x)))
  {
    var nodes' := UpsertNode(nodes, x, |p|, |p| <= 1, f, PathLength(dist, p + [x]));
    var edges' := UpsertEdge(edges, End(p), x, dist(End(p), x));
    hide PathLength, UpsertNode, UpsertEdge, CoversTrail;
    forall q | Trail(paths + [p + [x]], q) ensures CoversTrail(dist, nodes', edges', q) {
      TrailNext(paths, p, x, q);
      if Trail(paths + [p], q) {
        UpsertCovers(dist, nodes, edges, q, x, |p|, |p| <= 1, f, PathLength(dist, p + [x]), End(p), dist(End(p), x));
      } else {
        CoversLast(dist, p, x, f, nodes, edges);
      }
    }
  }

  /** More trails justify more. */
  lemma JustifiedNodeNext(dist: Metric, paths: seq<seq<string>>, p: seq<string>, x: string, n: string, node: Node)
    requires p != [] && JustifiedNode(dist, paths + [p], n, node)
    ensures JustifiedNode(dist, paths + [p + [x]], n, node)
  {
    var q :| Trail(paths + [p], q) && End(q) == n && |q| == node.depth + 1;
    TrailNext(paths, p, x, q);
    if node.distanceFromRootKm.Some? {
      var q' :| Trail(paths + [p], q') && End(q') == n && PathLength(dist, q') == node.distanceFromRootKm;
      TrailNext(paths, p, x, q');
    }
  }

  lemma JustifiedEdgeNext(dist: Metric, paths: seq<seq<string>>, p: seq<string>, x: string, a: string, b: string,
                          edge: Edge)
    requires p != [] && JustifiedEdge(dist, paths + [p], a, b, edge)
    ensures JustifiedEdge(dist, paths + [p + [x]], a, b, edge)
  {
    var q :| Trail(paths + [p], q) && |q| > 1 && q[|q| - 2] == a && q[|q| - 1] == b;
    TrailNext(paths, p, x, q);
  }

  /** The depth and the distance of the new trail itself are justified. */
  lemma NewTrailJustifies(dist: Metric, paths: seq<seq<string>>, p: seq<string>, x: string)
    requires p != []
    ensures DepthFrom(paths + [p + [x]], x, |p|)
    ensures DistanceFrom(dist, paths + [p + [x]], x, PathLength(dist, p + [x]))
    ensures StepOf(paths + [p + [x]], End(p), x)
  {
    var r := p + [x];
    TrailNext(paths, p, x, r);
    assert End(r) == x && r[|r| - 2] == End(p);
  }

  lemma UpsertNodeJustified(dist: Metric, paths: seq<seq<string>>, nodes: NodeMap, x: string, depth: nat, f: Freshness,
                            d: Option<real>)
    requires JustifiedNodes(dist, paths, nodes)
    requires DepthFrom(paths, x, depth) && DistanceFrom(dist, paths, x, d)
    ensures JustifiedNodes(dist, paths, UpsertNode(nodes, x, depth, depth <= 1, f, d))
  {}

  lemma JustifiedNodesNext(dist: Metric, paths: seq<seq<string>>, p: seq<string>, x: string, nodes: NodeMap)
    requires p != [] && JustifiedNodes(dist, paths + [p], nodes)
    ensures JustifiedNodes(dist, paths + [p + [x]], nodes)
  {
    forall n | n in nodes ensures JustifiedNode(dist, paths + [p + [x]], n, nodes[n]) {
      JustifiedNodeNext(dist, paths, p, x, n, nodes[n]);
    }
  }

  lemma JustifiedEdgesNext(dist: Metric, paths: seq<seq<string>>, p: seq<string>, x: string, edges: EdgeMap)
    requires p != [] && JustifiedEdges(dist, paths + [p], edges)
    ensures JustifiedEdges(dist, paths + [p + [x]], UpsertEdge(edges, End(p), x, dist(End(p), x)))
  {
    var edges' := UpsertEdge(edges, End(p), x, dist(End(p), x));
    NewTrailJustifies(dist, paths, p, x);
    forall a, b | (a, b) in edges' ensures JustifiedEdge(dist, paths + [p + [x]], a, b, edges'[(a, b)]) {
      if (a, b) in edges { JustifiedEdgeNext(dist, paths, p, x, a, b, edges[(a, b)]); }
    }
  }

  lemma JustifiedNext(dist: Metric, paths: seq<seq<string>>, p: seq<string>, x: string, f: Freshness, nodes: NodeMap,
                      edges: EdgeMap)
    requires p != [] && Justified(dist, paths + [p], nodes, edges)
    ensures Justified(dist, paths + [p + [x]],
                      UpsertNode(nodes, x, |p|, |p| <= 1, f, PathLength(dist, p + [x])),
                      UpsertEdge(edges, End(p), x, dist(End(p), x)))
  {
    NewTrailJustifies(dist, paths, p, x);
    JustifiedNodesNext(dist, paths, p, x, nodes);
    JustifiedEdgesNext(dist, paths, p, x, edges);
    UpsertNodeJustified(dist, paths + [p + [x]], nodes, x, |p|, f, PathLength(dist, p + [x]));
  }

  // ----- the first node of a path is the root

  /** A path of the graph around `root`: it starts there, meets no node twice, and has no empty name. */
  predicate IsPathFrom(root: string, p: seq<string>) {
    p != [] && p[0] == root && Distinct(p) && "" !in p
  }

  ghost predicate AllFrom(root: string, paths: seq<seq<string>>) {
    forall j :: 0 <= j < |paths| ==> IsPathFrom(root, paths[j])
  }

  lemma TrailRoot(root: string, paths: seq<seq<string>>, q: seq<string>)
    requires paths != [] && paths[0][..] == [root]
    ensures Trail(paths + [[root]], q) <==> Trail(paths, q)
  {
    var paths' := paths + [[root]];
    if j :| 0 <= j < |paths'| && q <= paths'[j] && q != [] {
      if j < |paths| { assert q <= paths[j]; } else { assert q <= paths[0]; }
    }
    if j :| 0 <= j < |paths| && q <= paths[j] { assert paths'[j] == paths[j]; }
  }

  /** Entering the root again changes nothing that matters. */
  lemma RootAgain(dist: Metric, root: string, paths: seq<seq<string>>, nodes: NodeMap, edges: EdgeMap)
    requires paths != [] && paths[0][..] == [root] && Built(dist, paths, nodes, edges)
    ensures Built(dist, paths + [[root]], UpsertNode(nodes, root, 0, true, Direct, Some(0.0)), edges)
  {
    var paths' := paths + [[root]];
    var nodes' := UpsertNode(nodes, root, 0, true, Direct, Some(0.0));
    forall q ensures Trail(paths', q) <==> Trail(paths, q) { TrailRoot(root, paths, q); }
    assert Trail(paths, [root]);
    assert End([root]) == root && PathLength(dist, [root]) == Some(0.0);
    forall q | Trail(paths', q) ensures CoversTrail(dist, nodes', edges, q) {
      UpsertCovers(dist, nodes, edges, q, root, 0, true, Direct, Some(0.0), root, None);
    }
    forall n | n in nodes ensures JustifiedNode(dist, paths', n, nodes[n]) {
      var q :| Trail(paths, q) && End(q) == n && |q| == nodes[n].depth + 1;
      assert Trail(paths', q);
      if nodes[n].distanceFromRootKm.Some? {
        var q' :| Trail(paths, q') && End(q') == n && PathLength(dist, q') == nodes[n].distanceFromRootKm;
        assert Trail(paths', q');
      }
    }
    forall a, b | (a, b) in edges ensures JustifiedEdge(dist, paths', a, b, edges[(a, b)]) {
      var q :| Trail(paths, q) && |q| > 1 && q[|q| - 2] == a && q[|q| - 1] == b;
      assert Trail(paths', q);
    }
    UpsertNodeJustified(dist, paths', nodes, root, 0, Direct, Some(0.0));
  }

  /** The root is direct; any other node is as fresh as its own last report. */
  ghost predicate FreshBy(root: string, freshnessOf: string -> Freshness, nodes: NodeMap) {
    forall n :: n in nodes ==> nodes[n].freshness == if n == root then Direct else freshnessOf(n)
  }

  lemma UpsertFresh(root: string, freshnessOf: string -> Freshness, nodes: NodeMap, x: string, depth: nat,
                    direct: bool, d: Option<real>)
    requires FreshBy(root, freshnessOf, nodes)
    ensures FreshBy(root, freshnessOf,
                    UpsertNode(nodes, x, depth, direct, if x == root then Direct else freshnessOf(x), d))
  {}

  lemma BuiltNext(dist: Metric, paths: seq<seq<string>>, path: seq<string>, index: nat, f: Freshness, nodes: NodeMap,
                  edges: EdgeMap)
    requires 0 < index < |path| && Distinct(path) && Built(dist, paths + [path[..index]], nodes, edges)
    ensures PathLength(dist, path[..index + 1]) ==
      Plus(PathLength(dist, path[..index]), dist(path[index - 1], path[index]))
    ensures Built(dist, paths + [path[..index + 1]],
                  UpsertNode(nodes, path[index], index, index <= 1, f, PathLength(dist, path[..index + 1])),
                  UpsertEdge(edges, path[index - 1], path[index], dist(path[index - 1], path[index])))
  {
    var p, x := path[..index], path[index];
    assert path[..index + 1] == p + [x];
    assert (p + [x])[..index] == p;
    assert PathLength(dist, p + [x]) == Plus(PathLength(dist, p), dist(End(p), x));
    hide Covers, Justified, PathLength, UpsertNode, UpsertEdge;
    CoversNext(dist, paths, p, x, f, nodes, edges);
    JustifiedNext(dist, paths, p, x, f, nodes, edges);
  }

  /** The graph of `paths` and of one more, with fresh nodes. */
  ghost predicate Merged(dist: Metric, root: string, freshnessOf: string -> Freshness, paths: seq<seq<string>>,
                         path: seq<string>, nodes: NodeMap, edges: EdgeMap)
  {
    Built(dist, paths + [path], nodes, edges) && FreshBy(root, freshnessOf, nodes)
  }

  lemma MergedRoot(dist: Metric, root: string, freshnessOf: string -> Freshness, paths: seq<seq<string>>,
                   path: seq<string>, nodes: NodeMap, edges: EdgeMap)
    requires paths != [] && paths[0][..] == [root] && IsPathFrom(root, path)
    requires Built(dist, paths, nodes, edges) && FreshBy(root, freshnessOf, nodes)
    ensures PathLength(dist, path[..1]) == Some(0.0)
    ensures Merged(dist, root, freshnessOf, paths, path[..1],
                   UpsertNode(nodes, path[0], 0, true, Direct, Some(0.0)), edges)
  {
    assert path[..1] == [root];
    RootAgain(dist, root, paths, nodes, edges);
    UpsertFresh(root, freshnessOf, nodes, root, 0, true, Some(0.0));
  }

  lemma MergedNext(dist: Metric, root: string, freshnessOf: string -> Freshness, paths: seq<seq<string>>,
                   path: seq<string>, index: nat, nodes: NodeMap, edges: EdgeMap)
    requires IsPathFrom(root, path) && 0 < index < |path|
    requires Merged(dist, root, freshnessOf, paths, path[..index], nodes, edges)
    ensures var from, to := path[index - 1], path[index];
      var length := PathLength(dist, path[..index + 1]);
      && length == Plus(PathLength(dist, path[..index]), dist(from, to))
      && Merged(dist, root, freshnessOf, paths, path[..index + 1],
                UpsertNode(nodes, to, index, index <= 1, freshnessOf(to), length),
                UpsertEdge(edges, from, to, dist(from, to)))
  {
    hide Built, FreshBy, PathLength, UpsertNode, UpsertEdge;
    var to := path[index];
    assert to != root;
    BuiltNext(dist, paths, path, index, freshnessOf(to), nodes, edges);
    UpsertFresh(root, freshnessOf, nodes, to, index, index <= 1, PathLength(dist, path[..index + 1]));
  }

  /** Merges one relay path into the graph, node by node. */
  method AddPath(nodes0: NodeMap, edges0: EdgeMap, path: seq<string>, freshnessOf: string -> Freshness, dist: Metric,
                 ghost root: string, ghost paths: seq<seq<string>>)
    returns (nodes: NodeMap, edges: EdgeMap)
    requires paths != [] && paths[0][..] == [root] && IsPathFrom(root, path)
    requires Built(dist, paths, nodes0, edges0) && FreshBy(root, freshnessOf, nodes0)
    ensures Built(dist, paths + [path], nodes, edges) && FreshBy(root, freshnessOf, nodes)
  {
    nodes, edges := nodes0, edges0;
    var cumulativeDistanceKm: Option<real> := Some(0.0);
    MergedRoot(dist, root, freshnessOf, paths, path, nodes, edges);
    hide PathLength, UpsertNode, UpsertEdge, Built, FreshBy;
    nodes := UpsertNode(nodes, path[0], 0, true, Direct, cumulativeDistanceKm);
    for index := 1 to |path|
      invariant cumulativeDistanceKm == PathLength(dist, path[..index])
      invariant Merged(dist, root, freshnessOf, paths, path[..index], nodes, edges)
    {
      var from, to := path[index - 1], path[index];
      var edgeDistanceKm := dist(from, to);
      cumulativeDistanceKm := Plus(cumulativeDistanceKm, edgeDistanceKm);
      MergedNext(dist, root, freshnessOf, paths, path, index, nodes, edges);
      nodes := UpsertNode(nodes, to, index, index <= 1, freshnessOf(to), cumulativeDistanceKm);
      edges := UpsertEdge(edges, from, to, edgeDistanceKm);
    }
    assert path[..|path|] == path;
  }
}
