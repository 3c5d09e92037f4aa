/**
 Path highlighting on the map: a segment lights up when it lies on a way of at
 most five segments from the own station to the selected one.  Segments are
 walked in both directions.
 */
module MapPaths {
  import opened Routes
  import opened Sequences

  const MAX_HIGHLIGHT_HOPS: nat := 5

  /** A segment between two stations, named by their normalised callsigns. */
  datatype Segment = Segment(from: string, to: string)

  type Step = Arc<Segment>

  predicate Joins(s: Segment, a: string, b: string) {
    (s.from == a && s.to == b) || (s.to == a && s.from == b)
  }

  /** The other end, or nothing for a segment that does not touch the node. */
  function OtherEndpoint(s: Segment, nodeId: string): string {
    if nodeId == s.from then s.to else if nodeId == s.to then s.from else ""
  }

  /** The segments that touch `n`, in list order. */
  function Touching(segments: seq<Segment>, n: string): seq<Segment> {
    if segments == [] then []
    else
      var s := segments[|segments| - 1];
      Touching(segments[..|segments| - 1], n) +
        (if s.from == n then [s] else []) + (if s.to == n then [s] else [])
  }

  lemma {:induction false} TouchingMember(segments: seq<Segment>, n: string, s: Segment)
    ensures s in Touching(segments, n) <==> s in segments && (s.from == n || s.to == n)
  {
    if segments != [] {
      TouchingMember(segments[..|segments| - 1], n, s);
      assert segments == segments[..|segments| - 1] + [segments[|segments| - 1]];
    }
  }

  /** The steps that leave a node along these segments; an end without a name leads nowhere. */
  function Leads(touching: seq<Segment>, n: string): seq<Step> {
    if touching == [] then []
    else
      var s := touching[|touching| - 1];
      Leads(touching[..|touching| - 1], n) +
        if OtherEndpoint(s, n) == "" then [] else [Arc(n, OtherEndpoint(s, n), s)]
  }

  lemma {:induction false} LeadsMember(touching: seq<Segment>, n: string, a: Step)
    ensures a in Leads(touching, n) <==>
      a.from == n && a.info in touching && a.to == OtherEndpoint(a.info, n) && a.to != ""
  {
    if touching != [] {
      LeadsMember(touching[..|touching| - 1], n, a);
      assert touching == touching[..|touching| - 1] + [touching[|touching| - 1]];
    }
  }

  lemma {:induction false} LeadsPrefix(touching: seq<Segment>, i: nat, n: string)
    requires i <= |touching|
    ensures Leads(touching[..i], n) <= Leads(touching, n)
  {
    if i == |touching| {
      assert touching[..i] == touching;
    } else {
      var front := touching[..|touching| - 1];
      assert front[..i] == touching[..i];
      LeadsPrefix(front, i, n);
    }
  }

  /** The next segment is the next step, if its other end has a name. */
  lemma LeadsNext(touching: seq<Segment>, i: nat, n: string)
    requires i < |touching|
    ensures var k, s := |Leads(touching[..i], n)|, touching[i];
      if OtherEndpoint(s, n) == "" then Leads(touching[..i + 1], n) == Leads(touching[..i], n)
      else
        && |Leads(touching[..i + 1], n)| == k + 1 && k < |Leads(touching, n)|
        && Leads(touching, n)[k] == Arc(n, OtherEndpoint(s, n), s)
  {
    assert touching[..i + 1][..i] == touching[..i];
    LeadsPrefix(touching, i + 1, n);
  }

  function Around(segments: seq<Segment>, n: string): seq<Step> {
    Leads(Touching(segments, n), n)
  }

  function SegmentGraph(segments: seq<Segment>): Graph<Segment> {
    n => Around(segments, n)
  }

  function Ends(segments: seq<Segment>): set<string> {
    (set s | s in segments :: s.from) + (set s | s in segments :: s.to)
  }

  lemma AroundMember(segments: seq<Segment>, n: string, a: Step)
    ensures a in Around(segments, n) <==>
      a.from == n && a.info in segments && Joins(a.info, n, a.to) && a.to != ""
  {
    TouchingMember(segments, n, a.info);
    LeadsMember(Touching(segments, n), n, a);
  }

  lemma SegmentGraphClosed(segments: seq<Segment>)
    ensures Closed(SegmentGraph(segments), Ends(segments))
  {
    forall n, a | a in SegmentGraph(segments)(n) ensures a.from == n && a.to in Ends(segments) {
      AroundMember(segments, n, a);
    }
  }

  predicate Links(segments: seq<Segment>, s: Segment, a: string, b: string) {
    s in segments && Joins(s, a, b) && b != ""
  }

  /** A walk along segments from `root` to `target` that meets no station twice and none without a name. */
  ghost predicate IsWalk(segments: seq<Segment>, root: string, target: string, nodes: seq<string>, path: seq<Segment>) {
    && |nodes| == |path| + 1 && nodes[0] == root && nodes[|path|] == target && Distinct(nodes)
    && forall i :: 0 <= i < |path| ==> Links(segments, path[i], nodes[i], nodes[i + 1])
  }

  /** `s` lies on such a walk of at most five segments. */
  ghost predicate OnShortWalk(segments: seq<Segment>, root: string, target: string, s: Segment) {
    exists nodes, path :: IsWalk(segments, root, target, nodes, path) && |path| <= 5 && s in path
  }

  /** The segments that some of the given routes use. */
  ghost function Used(rs: seq<Route<Segment>>): set<Segment> {
    if rs == [] then {} else Used(rs[..|rs| - 1]) + (set a | a in rs[|rs| - 1].arcs :: a.info)
  }

  lemma {:induction false} UsedMember(rs: seq<Route<Segment>>, s: Segment)
    ensures s in Used(rs) <==> exists r, a :: r in rs && a in r.arcs && a.info == s
  {
    if rs != [] {
      var front, last := rs[..|rs| - 1], rs[|rs| - 1];
      UsedMember(front, s);
      assert rs == front + [last];
    }
  }

  lemma {:induction false} UsedConcat(a: seq<Route<Segment>>, b: seq<Route<Segment>>)
    ensures Used(a + b) == Used(a) + Used(b)
    decreases |b|
  {
    if b == [] {
      assert a + b == a;
    } else {
      assert (a + b)[..|a + b| - 1] == a + b[..|b| - 1];
      UsedConcat(a, b[..|b| - 1]);
    }
  }

  /** The route along a walk. */
  function Along(nodes: seq<string>, path: seq<Segment>): (r: Route<Segment>)
    requires |nodes| == |path| + 1
    ensures r.nodes == nodes && |r.arcs| == |path|
    ensures forall i :: 0 <= i < |path| ==> r.arcs[i] == Arc(nodes[i], nodes[i + 1], path[i])
  {
    Route(nodes, seq(|path|, i requires 0 <= i < |path| => Arc(nodes[i], nodes[i + 1], path[i])))
  }

  function Infos(arcs: seq<Step>): (path: seq<Segment>)
    ensures |path| == |arcs|
    ensures forall i :: 0 <= i < |arcs| ==> path[i] == arcs[i].info
  {
    seq(|arcs|, i requires 0 <= i < |arcs| => arcs[i].info)
  }

  lemma RouteIsWalk(segments: seq<Segment>, root: string, target: string, r: Route<Segment>)
    requires IsSimple(SegmentGraph(segments), r) && r.nodes[0] == root && Last(r) == target
    ensures IsWalk(segments, root, target, r.nodes, Infos(r.arcs))
  {
    forall i | 0 <= i < |r.arcs|
      ensures Links(segments, Infos(r.arcs)[i], r.nodes[i], r.nodes[i + 1])
    {
      AroundMember(segments, r.nodes[i], r.arcs[i]);
    }
  }

  lemma WalkIsRoute(segments: seq<Segment>, root: string, target: string, nodes: seq<string>, path: seq<Segment>)
    requires IsWalk(segments, root, target, nodes, path)
    ensures IsSimple(SegmentGraph(segments), Along(nodes, path))
  {
    var r := Along(nodes, path);
    forall i | 0 <= i < |r.arcs| ensures r.arcs[i] in SegmentGraph(segments)(nodes[i]) {
      AroundMember(segments, nodes[i], r.arcs[i]);
    }
  }

  ghost function ShortRoutes(segments: seq<Segment>, root: string, target: string): seq<Route<Segment>> {
    SegmentGraphClosed(segments);
    Completions(SegmentGraph(segments), Ends(segments), AtMost(MAX_HIGHLIGHT_HOPS), target, Route([root], []))
  }

  lemma FoundIsShortWalk(segments: seq<Segment>, root: string, target: string, r: Route<Segment>, i: nat)
    requires r in ShortRoutes(segments, root, target) && i < |r.arcs|
    ensures OnShortWalk(segments, root, target, r.arcs[i].info)
  {
    SegmentGraphClosed(segments);
    SearchExact(SegmentGraph(segments), Ends(segments), AtMost(MAX_HIGHLIGHT_HOPS), root, target, r);
    RouteIsWalk(segments, root, target, r);
    assert Infos(r.arcs)[i] in Infos(r.arcs);
  }

  lemma ShortWalkIsFound(segments: seq<Segment>, root: string, target: string, nodes: seq<string>, path: seq<Segment>)
    requires IsWalk(segments, root, target, nodes, path) && |path| <= MAX_HIGHLIGHT_HOPS
    ensures Along(nodes, path) in ShortRoutes(segments, root, target)
  {
    SegmentGraphClosed(segments);
    WalkIsRoute(segments, root, target, nodes, path);
    SearchExact(SegmentGraph(segments), Ends(segments), AtMost(MAX_HIGHLIGHT_HOPS), root, target, Along(nodes, path));
  }

  /** What the bounded search uses is exactly what lies on short walks. */
  lemma UsedIsOnShortWalk(segments: seq<Segment>, root: string, target: string, s: Segment)
    ensures s in Used(ShortRoutes(segments, root, target)) <==> OnShortWalk(segments, root, target, s)
  {
    var found := ShortRoutes(segments, root, target);
    UsedMember(found, s);
    if s in Used(found) {
      var r, a :| r in found && a in r.arcs && a.info == s;
      var i :| 0 <= i < |r.arcs| && r.arcs[i] == a;
      FoundIsShortWalk(segments, root, target, r, i);
    }
    if OnShortWalk(segments, root, target, s) {
      var nodes, path :| IsWalk(segments, root, target, nodes, path) && |path| <= MAX_HIGHLIGHT_HOPS && s in path;
      ShortWalkIsFound(segments, root, target, nodes, path);
      var i :| 0 <= i < |path| && path[i] == s;
      assert Along(nodes, path).arcs[i].info == s;
    }
  }

  class Highlighter {
    const selectedId: string
    const segmentsByNode: map<string, seq<Segment>>
    var highlighted: set<Segment>
    var visiting: set<string>

    constructor (selectedId: string, segmentsByNode: map<string, seq<Segment>>)
      ensures this.selectedId == selectedId && this.segmentsByNode == segmentsByNode
      ensures highlighted == {} && visiting == {}
    {
      this.selectedId, this.segmentsByNode := selectedId, segmentsByNode;
      highlighted, visiting := {}, {};
    }

    function At(n: string): seq<Segment> {
      ListAt(segmentsByNode, n)
    }

    /** The lists describe the graph. */
    ghost predicate Lists(g: Graph<Segment>, universe: set<string>) {
      Closed(g, universe) && forall n :: g(n) == Leads(At(n), n)
    }

    lemma InfosNext(arcs: seq<Step>, a: Step)
      ensures Infos(arcs + [a]) == Infos(arcs) + [a.info]
    {}

    lemma WalkedNext(r: Route<Segment>, seen: set<string>, g: Graph<Segment>, universe: set<string>, a: Step)
      requires Closed(g, universe) && IsSimple(g, r) && seen == Nodes(r) - {Last(r)}
      requires a in g(Last(r)) && a.to !in seen + {Last(r)}
      ensures IsSimple(g, Extend(r, a)) && Infos(Extend(r, a).arcs) == Infos(r.arcs) + [a.info]
      ensures Nodes(Extend(r, a)) - {a.to} == seen + {Last(r)}
      ensures Fresh(universe, Extend(r, a)) < Fresh(universe, r)
    {
      assert Nodes(r) == seen + {Last(r)};
      assert a.to !in Nodes(r);
      ExtendShrinks(universe, r, a);
      ExtendSimple(g, r, a);
      InfosNext(r.arcs, a);
      hide Infos;
      assert Extend(r, a).arcs == r.arcs + [a];
    }

    lemma UsedSingle(r: Route<Segment>)
      ensures Used([r]) == set s | s in Infos(r.arcs)
    {
      assert [r][..0] == [];
      forall a | a in r.arcs ensures a.info in Infos(r.arcs) {
        var i :| 0 <= i < |r.arcs| && r.arcs[i] == a;
        assert Infos(r.arcs)[i] == a.info;
      }
      forall s | s in Infos(r.arcs) ensures s in Used([r]) {
        var i :| 0 <= i < |r.arcs| && Infos(r.arcs)[i] == s;
        assert r.arcs[i] in r.arcs;
      }
    }

    lemma BranchNext(r: Route<Segment>, g: Graph<Segment>, universe: set<string>, i: nat, before: set<Segment>)
      requires Closed(g, universe) && IsSimple(g, r) && i < |g(Last(r))|
      ensures var a := g(Last(r))[i];
        before + Used(Branches(g, universe, AtMost(MAX_HIGHLIGHT_HOPS), selectedId, r, i + 1)) ==
        if a.to in r.nodes then before + Used(Branches(g, universe, AtMost(MAX_HIGHLIGHT_HOPS), selectedId, r, i))
        else before + Used(Branches(g, universe, AtMost(MAX_HIGHLIGHT_HOPS), selectedId, r, i)) +
             Used(Completions(g, universe, AtMost(MAX_HIGHLIGHT_HOPS), selectedId, Extend(r, a)))
    {
      var a := g(Last(r))[i];
      var done := Branches(g, universe, AtMost(MAX_HIGHLIGHT_HOPS), selectedId, r, i);
      if a.to in r.nodes {
        assert Branches(g, universe, AtMost(MAX_HIGHLIGHT_HOPS), selectedId, r, i + 1) == done;
      } else {
        ExtendShrinks(universe, r, a);
        UsedConcat(done, Completions(g, universe, AtMost(MAX_HIGHLIGHT_HOPS), selectedId, Extend(r, a)));
      }
    }

    /** Backtracking search; `visiting` is shared by all calls and every call restores it. */
    method Visit(nodeId: string, path: seq<Segment>, ghost r: Route<Segment>, ghost g: Graph<Segment>,
                 ghost universe: set<string>)
      requires Lists(g, universe)
      requires IsSimple(g, r) && nodeId == Last(r) && path == Infos(r.arcs) && visiting == Nodes(r) - {Last(r)}
      modifies this
      ensures visiting == old(visiting)
      ensures highlighted ==
        old(highlighted) + Used(Completions(g, universe, AtMost(MAX_HIGHLIGHT_HOPS), selectedId, r))
      decreases Fresh(universe, r), 2
    {
      if |path| > MAX_HIGHLIGHT_HOPS {
        return;
      }
      if nodeId == selectedId {
        UsedSingle(r);
        highlighted := highlighted + (set s | s in path);
        return;
      }
      if nodeId in visiting {
        assert false;
      }
      visiting := visiting + {nodeId};
      assert visiting == Nodes(r);
      VisitNeighbours(nodeId, path, r, g, universe);
      visiting := visiting - {nodeId};
    }

    method VisitNeighbours(nodeId: string, path: seq<Segment>,
                           ghost r: Route<Segment>, ghost g: Graph<Segment>, ghost universe: set<string>)
      requires Lists(g, universe)
      requires IsSimple(g, r) && nodeId == Last(r) && path == Infos(r.arcs) && visiting == Nodes(r)
      modifies this
      ensures visiting == old(visiting)
      ensures highlighted == old(highlighted) +
        Used(Branches(g, universe, AtMost(MAX_HIGHLIGHT_HOPS), selectedId, r, |g(nodeId)|))
      decreases Fresh(universe, r), 1
    {
      ghost var before := highlighted;
      var touching := At(nodeId);
      assert g(nodeId) == Leads(touching, nodeId);
      ghost var k := 0;
      for i := 0 to |touching|
        invariant visiting == Nodes(r) && k == |Leads(touching[..i], nodeId)| <= |g(nodeId)|
        invariant highlighted == before + Used(Branches(g, universe, AtMost(MAX_HIGHLIGHT_HOPS), selectedId, r, k))
      {
        LeadsNext(touching, i, nodeId);
        var nextNodeId := OtherEndpoint(touching[i], nodeId);
        if nextNodeId == "" {
          continue;
        }
        VisitNeighbour(touching[i], nextNodeId, path, before, k, r, g, universe);
        k := k + 1;
      }
      assert touching[..|touching|] == touching;
    }

    method VisitNeighbour(segment: Segment, nextNodeId: string, path: seq<Segment>, ghost before: set<Segment>,
                          ghost k: nat, ghost r: Route<Segment>, ghost g: Graph<Segment>, ghost universe: set<string>)
      requires Lists(g, universe)
      requires IsSimple(g, r) && path == Infos(r.arcs) && visiting == Nodes(r)
      requires k < |g(Last(r))| && g(Last(r))[k] == Arc(Last(r), nextNodeId, segment)
      requires highlighted == before + Used(Branches(g, universe, AtMost(MAX_HIGHLIGHT_HOPS), selectedId, r, k))
      modifies this
      ensures visiting == old(visiting)
      ensures highlighted == before + Used(Branches(g, universe, AtMost(MAX_HIGHLIGHT_HOPS), selectedId, r, k + 1))
      decreases Fresh(universe, r), 0
    {
      BranchNext(r, g, universe, k, before);
      if nextNodeId in visiting {
        return;
      }
      ghost var a := g(Last(r))[k];
      ExtendShrinks(universe, r, a);
      Follow(segment, nextNodeId, path, r, a, g, universe);
    }

    /** Takes one segment and visits the station behind it. */
    method Follow(segment: Segment, nextNodeId: string, path: seq<Segment>,
                  ghost r: Route<Segment>, ghost a: Step, ghost g: Graph<Segment>, ghost universe: set<string>)
      requires Lists(g, universe)
      requires IsSimple(g, r) && path == Infos(r.arcs) && visiting == Nodes(r)
      requires a in g(Last(r)) && a.to == nextNodeId && a.info == segment && nextNodeId !in r.nodes
      modifies this
      ensures visiting == old(visiting)
      ensures highlighted == old(highlighted) +
        Used(Completions(g, universe, AtMost(MAX_HIGHLIGHT_HOPS), selectedId, Extend(r, a)))
      decreases Fresh(universe, Extend(r, a)), 3
    {
      WalkedNext(r, visiting - {Last(r)}, g, universe, a);
      Visit(nextNodeId, path + [segment], Extend(r, a), g, universe);
    }
  }

  function ListAt(m: map<string, seq<Segment>>, n: string): seq<Segment> {
    if n in m then m[n] else []
  }

  function AppendSegment(m: map<string, seq<Segment>>, k: string, s: Segment): (r: map<string, seq<Segment>>)
    ensures forall n :: ListAt(r, n) == ListAt(m, n) + if k == n then [s] else []
  {
    m[k := ListAt(m, k) + [s]]
  }

  method GroupByNode(segments: seq<Segment>) returns (segmentsByNode: map<string, seq<Segment>>)
    ensures forall n :: ListAt(segmentsByNode, n) == Touching(segments, n)
  {
    segmentsByNode := map[];
    for i := 0 to |segments|
      invariant forall n :: ListAt(segmentsByNode, n) == Touching(segments[..i], n)
    {
      var segment := segments[i];
      assert segments[..i + 1][..i] == segments[..i];
      segmentsByNode := AppendSegment(segmentsByNode, segment.from, segment);
      segmentsByNode := AppendSegment(segmentsByNode, segment.to, segment);
    }
    assert segments[..|segments|] == segments;
  }

  /** Exactly the segments on simple walks of at most five segments to the selected station. */
  method EdgeIdsReachingSelected(rootId: string, selectedId: string, segments: seq<Segment>)
    returns (highlighted: set<Segment>)
    ensures forall s :: s in highlighted <==> OnShortWalk(segments, rootId, selectedId, s)
  {
    var segmentsByNode := GroupByNode(segments);
    var h := new Highlighter(selectedId, segmentsByNode);
    SegmentGraphClosed(segments);
    ghost var start: Route<Segment> := Route([rootId], []);
    h.Visit(rootId, [], start, SegmentGraph(segments), Ends(segments));
    highlighted := h.highlighted;
    forall s ensures s in highlighted <==> OnShortWalk(segments, rootId, selectedId, s) {
      UsedIsOnShortWalk(segments, rootId, selectedId, s);
    }
  }
}
