/**
 Spreading each level of the laid-out graph until no two labels touch, and the
 frame around the result.
 */
module Separation {
  import opened Sequences
  import opened NodePaths
  import opened NodeGraphs
  import opened VisibleGraph
  import opened Layout

  function LabelWidth(label': string): real {
    (|label'| * 8 + 20) as real
  }

  function MinGap(left: string, right: string): real {
    var labelGap := (LabelWidth(left) + LabelWidth(right)) / 2.0 + 42.0;
    if labelGap > NODE_MIN_GAP then labelGap else NODE_MIN_GAP
  }

  /** Half a label: 4 for each letter and 10 besides. */
  function HalfLabel(name: string): real {
    4.0 * |name| as real + 10.0
  }

  /** The gap is the least one that keeps centres 188 and label edges 42 apart. */
  lemma MinGapIsLeast(left: string, right: string, gap: real)
    ensures MinGap(left, right) <= gap <==> 188.0 <= gap && HalfLabel(left) + 42.0 + HalfLabel(right) <= gap
  {}

  /** Two gaps in a row leave at least the gap that the outer two need. */
  lemma GapTriangle(a: string, b: string, c: string)
    ensures MinGap(a, b) + MinGap(b, c) >= MinGap(a, c) && MinGap(a, b) >= NODE_MIN_GAP
  {}

  predicate SortedBy(x: Columns, ids: seq<string>) {
    (forall id :: id in ids ==> id in x) &&
    forall i, j :: 0 <= i < j < |ids| ==> x[ids[i]] <= x[ids[j]]
  }

  /** The identifiers by increasing x. */
  method SortByX(ids: set<string>, x: Columns) returns (sorted: seq<string>)
    requires ids <= x.Keys
    ensures SortedBy(x, sorted) && Distinct(sorted) && forall id :: id in sorted <==> id in ids
  {
    sorted := [];
    var rest := ids;
    while rest != {}
      invariant rest <= ids && SortedBy(x, sorted) && Distinct(sorted)
      invariant forall id :: id in sorted <==> id in ids - rest
      decreases rest
    {
      var id :| id in rest;
      rest := rest - {id};
      var k := 0;
      while k < |sorted| && x[sorted[k]] <= x[id]
        invariant 0 <= k <= |sorted|
        invariant forall i :: 0 <= i < k ==> x[sorted[i]] <= x[id]
      {
        k := k + 1;
      }
      InsertKeepsSorted(x, sorted, id, k);
      sorted := sorted[..k] + [id] + sorted[k..];
    }
  }

  lemma InsertKeepsSorted(x: Columns, s: seq<string>, id: string, k: nat)
    requires SortedBy(x, s) && Distinct(s) && id in x && id !in s && k <= |s|
    requires forall i :: 0 <= i < k ==> x[s[i]] <= x[id]
    requires k < |s| ==> x[id] < x[s[k]]
    ensures var t := s[..k] + [id] + s[k..];
      SortedBy(x, t) && Distinct(t) && forall y :: y in t <==> y in s || y == id
  {
    InsertedAt(s, id, k);
    InsertKeepsOrder(x, s, id, k);
    InsertDistinct(s, id, k);
  }

  lemma InsertKeepsOrder(x: Columns, s: seq<string>, id: string, k: nat)
    requires SortedBy(x, s) && id in x && k <= |s|
    requires forall i :: 0 <= i < k ==> x[s[i]] <= x[id]
    requires k < |s| ==> x[id] < x[s[k]]
    ensures SortedBy(x, s[..k] + [id] + s[k..])
  {
    InsertedAt(s, id, k);
  }

  /** The first `k` identifiers stand apart by what their labels need. */
  ghost predicate Spread(x: Columns, ids: seq<string>, k: nat) {
    && k <= |ids| && (forall id :: id in ids ==> id in x)
    && forall i, j :: 0 <= i < j < k ==> x[ids[i]] + MinGap(ids[i], ids[j]) <= x[ids[j]]
  }

  lemma SpreadNext(x: Columns, ids: seq<string>, k: nat)
    requires Spread(x, ids, k) && 0 < k < |ids|
    requires x[ids[k - 1]] + MinGap(ids[k - 1], ids[k]) <= x[ids[k]]
    ensures Spread(x, ids, k + 1)
  {
    forall i | 0 <= i < k ensures x[ids[i]] + MinGap(ids[i], ids[k]) <= x[ids[k]] {
      GapTriangle(ids[i], ids[k - 1], ids[k]);
    }
  }

  /** Moving the next node right leaves the ones before it alone. */
  lemma SpreadPush(x: Columns, ids: seq<string>, k: nat, v: real)
    requires Spread(x, ids, k) && 0 < k < |ids| && Distinct(ids)
    requires v >= x[ids[k - 1]] + MinGap(ids[k - 1], ids[k])
    ensures Spread(x[ids[k] := v], ids, k + 1)
  {
    var x' := x[ids[k] := v];
    assert forall i :: 0 <= i < k ==> ids[i] != ids[k] && x'[ids[i]] == x[ids[i]];
    SpreadNext(x', ids, k);
  }

  /** One sweep to the right over a sorted level. */
  method SpreadLevel(x0: Columns, ids: seq<string>) returns (x: Columns)
    requires SortedBy(x0, ids) && Distinct(ids)
    ensures Spread(x, ids, |ids|)
    ensures x.Keys == x0.Keys
    ensures forall n :: n in x ==> x0[n] <= x[n] && (n !in ids ==> x[n] == x0[n])
  {
    x := x0;
    if |ids| == 0 { return; }
    for k := 1 to |ids|
      invariant Spread(x, ids, k)
      invariant x.Keys == x0.Keys
      invariant forall n :: n in x ==> x0[n] <= x[n] && (n !in ids ==> x[n] == x0[n])
    {
      var previousX, currentX := x[ids[k - 1]], x[ids[k]];
      var minGap := MinGap(ids[k - 1], ids[k]);
      if currentX - previousX < minGap {
        SpreadPush(x, ids, k, previousX + minGap);
        x := x[ids[k] := previousX + minGap];
      } else {
        SpreadNext(x, ids, k);
      }
    }
  }

  predicate AtDepth(g: NodeGraph, n: string, depth: nat) {
    n in g.nodes && g.nodes[n].depth == depth
  }

  /** Any two different nodes of one level stand apart by what their labels need. */
  ghost predicate ApartAt(g: NodeGraph, x: Columns, depth: nat)
    requires x.Keys == g.nodes.Keys
  {
    forall a, b :: AtDepth(g, a, depth) && AtDepth(g, b, depth) && a != b ==>
      x[a] + MinGap(a, b) <= x[b] || x[b] + MinGap(b, a) <= x[a]
  }

  ghost predicate OrderKeptAt(g: NodeGraph, x0: Columns, x: Columns, depth: nat)
    requires x0.Keys == x.Keys == g.nodes.Keys
  {
    forall a, b :: AtDepth(g, a, depth) && AtDepth(g, b, depth) && x0[a] < x0[b] ==> x[a] < x[b]
  }

  lemma OtherLevelKept(g: NodeGraph, x0: Columns, x: Columns, x': Columns, depth: nat)
    requires x0.Keys == x.Keys == x'.Keys == g.nodes.Keys
    requires ApartAt(g, x, depth) && OrderKeptAt(g, x0, x, depth)
    requires forall n :: AtDepth(g, n, depth) ==> x'[n] == x[n]
    ensures ApartAt(g, x', depth) && OrderKeptAt(g, x0, x', depth)
  {}

  lemma SameStart(g: NodeGraph, x0: Columns, x: Columns, x': Columns, depth: nat)
    requires x0.Keys == x.Keys == x'.Keys == g.nodes.Keys
    requires OrderKeptAt(g, x, x', depth)
    requires forall n :: AtDepth(g, n, depth) ==> x[n] == x0[n]
    ensures OrderKeptAt(g, x0, x', depth)
  {}

  lemma SpreadPair(x0: Columns, x: Columns, ids: seq<string>, a: string, b: string)
    requires x0.Keys == x.Keys && SortedBy(x0, ids) && Spread(x, ids, |ids|)
    requires a in ids && b in ids && a != b
    ensures x[a] + MinGap(a, b) <= x[b] || x[b] + MinGap(b, a) <= x[a]
    ensures x0[a] < x0[b] ==> x[a] < x[b]
  {
    var i :| 0 <= i < |ids| && ids[i] == a;
    var j :| 0 <= j < |ids| && ids[j] == b;
    GapTriangle(a, b, a);
    if i < j {
      assert x[ids[i]] + MinGap(ids[i], ids[j]) <= x[ids[j]];
    } else {
      assert x[ids[j]] + MinGap(ids[j], ids[i]) <= x[ids[i]];
      assert x0[ids[j]] <= x0[ids[i]];
    }
  }

  /** One level of the graph: sorted, then spread. */
  method SeparateLevel(g: NodeGraph, x0: Columns, depth: nat) returns (x: Columns)
    requires x0.Keys == g.nodes.Keys
    ensures x.Keys == x0.Keys && ApartAt(g, x, depth) && OrderKeptAt(g, x0, x, depth)
    ensures forall n :: n in x ==> x0[n] <= x[n] && (!AtDepth(g, n, depth) ==> x[n] == x0[n])
  {
    hide Spread, SortedBy, MinGap, Distinct;
    var level := set n | n in g.nodes && AtDepth(g, n, depth);
    var ids := SortByX(level, x0);
    x := SpreadLevel(x0, ids);
    forall a, b | a in level && b in level && a != b
      ensures x[a] + MinGap(a, b) <= x[b] || x[b] + MinGap(b, a) <= x[a]
      ensures x0[a] < x0[b] ==> x[a] < x[b]
    {
      SpreadPair(x0, x, ids, a, b);
    }
  }

  method MaxOf(x: Columns) returns (maxX: real)
    ensures MARGIN_X <= maxX && forall n :: n in x ==> x[n] <= maxX
  {
    maxX := MARGIN_X;
    var rest := x.Keys;
    while rest != {}
      invariant rest <= x.Keys && MARGIN_X <= maxX
      invariant forall n :: n in x.Keys - rest ==> x[n] <= maxX
      decreases rest
    {
      var n :| n in rest;
      rest := rest - {n};
      if x[n] > maxX {
        maxX := x[n];
      }
    }
  }

  /** The levels in `done` are spread, the others untouched, and nothing moved left. */
  ghost predicate SpreadSoFar(g: NodeGraph, x0: Columns, x: Columns, done: set<nat>) {
    && x0.Keys == x.Keys == g.nodes.Keys
    && (forall n :: n in x ==> x0[n] <= x[n] && (g.nodes[n].depth !in done ==> x[n] == x0[n]))
    && (forall d :: d in done ==> ApartAt(g, x, d) && OrderKeptAt(g, x0, x, d))
  }

  lemma SpreadMore(g: NodeGraph, x0: Columns, x: Columns, x': Columns, done: set<nat>, depth: nat)
    requires SpreadSoFar(g, x0, x, done) && depth !in done && x'.Keys == x0.Keys
    requires ApartAt(g, x', depth) && OrderKeptAt(g, x, x', depth)
    requires forall n :: n in x' ==> x[n] <= x'[n] && (!AtDepth(g, n, depth) ==> x'[n] == x[n])
    ensures SpreadSoFar(g, x0, x', done + {depth})
  {
    SameStart(g, x0, x, x', depth);
    forall d | d in done ensures ApartAt(g, x', d) && OrderKeptAt(g, x0, x', d) {
      OtherLevelKept(g, x0, x, x', d);
    }
  }

  lemma SpreadAll(g: NodeGraph, x0: Columns, x: Columns, depths: set<nat>)
    requires SpreadSoFar(g, x0, x, depths) && forall n :: n in g.nodes ==> g.nodes[n].depth in depths
    ensures forall d: nat :: ApartAt(g, x, d) && OrderKeptAt(g, x0, x, d)
  {
    forall d: nat ensures ApartAt(g, x, d) && OrderKeptAt(g, x0, x, d) {
      if d !in depths { assert forall n :: !AtDepth(g, n, d); }
    }
  }

  /** All levels, and the rightmost coordinate. */
  method SeparateOverlappingNodes(g: NodeGraph, x0: Columns) returns (x: Columns, maxX: real)
    requires x0.Keys == g.nodes.Keys
    ensures x.Keys == x0.Keys && forall n :: n in x ==> x0[n] <= x[n]
    ensures forall d: nat :: ApartAt(g, x, d) && OrderKeptAt(g, x0, x, d)
    ensures MARGIN_X <= maxX && forall n :: n in x ==> x[n] <= maxX
  {
    x := x0;
    assert SpreadSoFar(g, x0, x, {});
    var depths := set n | n in g.nodes :: g.nodes[n].depth;
    ghost var done: set<nat> := {};
    var rest := depths;
    while rest != {}
      invariant rest !! done && rest + done == depths && SpreadSoFar(g, x0, x, done)
      decreases rest
    {
      var depth :| depth in rest;
      var next := SeparateLevel(g, x, depth);
      SpreadMore(g, x0, x, next, done, depth);
      x, rest, done := next, rest - {depth}, done + {depth};
    }
    SpreadAll(g, x0, x, depths);
    maxX := MaxOf(x);
  }

  // ----- the frame

  datatype LayoutNode = LayoutNode(node: Node, x: real, y: real)

  datatype LayoutEdge = LayoutEdge(edge: Edge, fromX: real, fromY: real, toX: real, toY: real)

  datatype LayoutGraph = LayoutGraph(width: real, height: real, nodes: map<string, LayoutNode>, edges: seq<LayoutEdge>)

  function NodeY(node: Node): real {
    MARGIN_Y + node.depth as real * VERTICAL_GAP +
      match node.distanceFromRootKm
      case Some(d) => d * DISTANCE_PX_PER_KM
      case None => 0.0
  }

  /** Distances are never negative. */
  ghost predicate NonNegative(nodes: NodeMap) {
    forall n :: n in nodes && nodes[n].distanceFromRootKm.Some? ==> nodes[n].distanceFromRootKm.value >= 0.0
  }

  lemma {:induction false} PathLengthNonNegative(dist: Metric, q: seq<string>)
    requires forall a, b :: dist(a, b).Some? ==> dist(a, b).value >= 0.0
    ensures PathLength(dist, q).Some? ==> PathLength(dist, q).value >= 0.0
  {
    if |q| > 1 {
      PathLengthNonNegative(dist, q[..|q| - 1]);
    }
  }

  /** A built graph over non-negative distances can be laid out. */
  lemma BuiltNonNegative(dist: Metric, paths: seq<seq<string>>, nodes: NodeMap, edges: EdgeMap)
    requires forall a, b :: dist(a, b).Some? ==> dist(a, b).value >= 0.0
    requires Built(dist, paths, nodes, edges)
    ensures NonNegative(nodes)
  {
    forall n | n in nodes && nodes[n].distanceFromRootKm.Some? ensures nodes[n].distanceFromRootKm.value >= 0.0 {
      assert JustifiedNode(dist, paths, n, nodes[n]);
      var q :| Trail(paths, q) && End(q) == n && PathLength(dist, q) == nodes[n].distanceFromRootKm;
      PathLengthNonNegative(dist, q);
    }
  }

  method MaxNodeY(nodes: NodeMap) returns (y: real)
    ensures y >= 0.0 && forall n :: n in nodes ==> NodeY(nodes[n]) <= MARGIN_Y + y
  {
    y := 0.0;
    var rest := nodes.Keys;
    while rest != {}
      invariant rest <= nodes.Keys && y >= 0.0
      invariant forall n :: n in nodes.Keys - rest ==> NodeY(nodes[n]) <= MARGIN_Y + y
      decreases rest
    {
      var n :| n in rest;
      rest := rest - {n};
      if NodeY(nodes[n]) - MARGIN_Y > y {
        y := NodeY(nodes[n]) - MARGIN_Y;
      }
    }
  }

  /** Every node inside the margins of the drawing. */
  ghost predicate InsideMargins(l: LayoutGraph) {
    forall n :: n in l.nodes ==>
      && 80.0 <= l.nodes[n].x <= l.width - 80.0
      && 58.0 <= l.nodes[n].y <= l.height - 58.0
  }

  /** No two labels of one level touch. */
  ghost predicate LabelsApart(l: LayoutGraph) {
    forall a, b :: a in l.nodes && b in l.nodes && a != b && l.nodes[a].node.depth == l.nodes[b].node.depth ==>
      l.nodes[a].x + MinGap(a, b) <= l.nodes[b].x || l.nodes[b].x + MinGap(b, a) <= l.nodes[a].x
  }

  /** Of two nodes on one level the labels are 42 apart, and their middles 188. */
  lemma LabelsDoNotTouch(l: LayoutGraph, a: string, b: string)
    requires LabelsApart(l) && a in l.nodes && b in l.nodes && a != b
    requires l.nodes[a].node.depth == l.nodes[b].node.depth && l.nodes[a].x <= l.nodes[b].x
    ensures l.nodes[a].x + HalfLabel(a) + 42.0 <= l.nodes[b].x - HalfLabel(b)
    ensures l.nodes[a].x + 188.0 <= l.nodes[b].x
  {
    hide MinGap, HalfLabel;
    MinGapIsLeast(a, b, l.nodes[b].x - l.nodes[a].x);
    GapTriangle(a, b, a);
    GapTriangle(b, a, b);
  }

  /** The distance that counts for the height: an unknown one is none. */
  function Km(node: Node): real {
    if node.distanceFromRootKm.Some? then node.distanceFromRootKm.value else 0.0
  }

  /** One hop more is 126 down, one kilometre more is 4 down. */
  predicate Below(a: LayoutNode, b: LayoutNode) {
    b.y - a.y == 126.0 * (b.node.depth - a.node.depth) as real + 4.0 * (Km(b.node) - Km(a.node))
  }

  ghost predicate LevelsApart(l: LayoutGraph) {
    forall a, b :: a in l.nodes && b in l.nodes ==> Below(l.nodes[a], l.nodes[b])
  }

  /** With each hop a drawing goes down, unless the distance shrinks. */
  lemma DeeperIsLower(l: LayoutGraph, a: string, b: string)
    requires LevelsApart(l) && a in l.nodes && b in l.nodes
    requires l.nodes[a].node.depth < l.nodes[b].node.depth && Km(l.nodes[a].node) <= Km(l.nodes[b].node)
    ensures l.nodes[a].y + 126.0 <= l.nodes[b].y
  {
    assert Below(l.nodes[a], l.nodes[b]);
  }

  lemma HeightsDiffer(a: Node, b: Node, x: real, x': real)
    ensures Below(LayoutNode(a, x, NodeY(a)), LayoutNode(b, x', NodeY(b)))
  {}

  /** The k-th edge of the drawing joins the drawn ends of the k-th edge of the graph. */
  ghost predicate DrawnBetween(e: LayoutEdge, edge: Edge, nodes: map<string, LayoutNode>) {
    && e.edge == edge && edge.from in nodes && edge.to in nodes
    && e.fromX == nodes[edge.from].x && e.fromY == nodes[edge.from].y
    && e.toX == nodes[edge.to].x && e.toY == nodes[edge.to].y
  }

  method DrawEdges(edges: seq<Edge>, nodes: map<string, LayoutNode>) returns (drawn: seq<LayoutEdge>)
    requires forall e :: e in edges ==> e.from in nodes && e.to in nodes
    ensures |drawn| == |edges| && forall k :: 0 <= k < |edges| ==> DrawnBetween(drawn[k], edges[k], nodes)
  {
    drawn := [];
    for i := 0 to |edges|
      invariant |drawn| == i && forall k :: 0 <= k < i ==> DrawnBetween(drawn[k], edges[k], nodes)
    {
      var edge := edges[i];
      assert edge in edges;
      var from, to := nodes[edge.from], nodes[edge.to];
      drawn := drawn + [LayoutEdge(edge, from.x, from.y, to.x, to.y)];
    }
  }

  lemma LevelsDrawn(g: NodeGraph, x: Columns, l: LayoutGraph)
    requires x.Keys == g.nodes.Keys == l.nodes.Keys
    requires forall n :: n in g.nodes ==> l.nodes[n] == LayoutNode(g.nodes[n], x[n], NodeY(g.nodes[n]))
    ensures LevelsApart(l)
  {
    hide NodeY, Below;
    forall a, b | a in l.nodes && b in l.nodes ensures Below(l.nodes[a], l.nodes[b]) {
      HeightsDiffer(g.nodes[a], g.nodes[b], x[a], x[b]);
    }
  }

  lemma DrawingShape(g: NodeGraph, placed: Columns, x: Columns, l: LayoutGraph, leaves: nat, maxX: real, maxY: real)
    requires InColumns(placed, leaves) && NonNegative(g.nodes)
    requires placed.Keys == x.Keys == g.nodes.Keys == l.nodes.Keys
    requires forall n :: n in x ==> placed[n] <= x[n] <= maxX
    requires forall n :: n in g.nodes ==> NodeY(g.nodes[n]) <= MARGIN_Y + maxY
    requires forall d: nat :: ApartAt(g, x, d)
    requires forall n :: n in g.nodes ==> l.nodes[n] == LayoutNode(g.nodes[n], x[n], NodeY(g.nodes[n]))
    requires l.width >= maxX + MARGIN_X && l.height >= MARGIN_Y * 2.0 + maxY
    ensures InsideMargins(l) && LabelsApart(l) && LevelsApart(l)
  {
    hide LevelsApart;
    LevelsDrawn(g, x, l);
    forall a, b | a in l.nodes && b in l.nodes && a != b && l.nodes[a].node.depth == l.nodes[b].node.depth
      ensures l.nodes[a].x + MinGap(a, b) <= l.nodes[b].x || l.nodes[b].x + MinGap(b, a) <= l.nodes[a].x
    {
      assert ApartAt(g, x, g.nodes[a].depth);
      assert AtDepth(g, a, g.nodes[a].depth) && AtDepth(g, b, g.nodes[a].depth);
    }
  }

  /**
   The drawing: all nodes inside the margins, labels apart on every level, and
   each edge drawn between the two nodes it joins.
   */
  method LayoutNodeGraph(g: NodeGraph) returns (l: LayoutGraph)
    requires Drawable(g) && NonNegative(g.nodes)
    ensures InsideMargins(l) && LabelsApart(l) && LevelsApart(l) && l.width >= 360.0 && l.height >= 260.0
    ensures l.nodes.Keys == g.nodes.Keys && forall n :: n in l.nodes ==> l.nodes[n].node == g.nodes[n]
    ensures |l.edges| == |g.edges|
    ensures forall k :: 0 <= k < |l.edges| ==> DrawnBetween(l.edges[k], g.edges[k], l.nodes)
  {
    hide InsideMargins, LabelsApart, LevelsApart, ApartAt, OrderKeptAt, InColumns, NonNegative, NodeY, Children;
    var maxY := MaxNodeY(g.nodes);
    var height := if MARGIN_Y * 2.0 + maxY > 260.0 then MARGIN_Y * 2.0 + maxY else 260.0;
    var placed, leaves := DistributeX(g);
    var x, maxX := SeparateOverlappingNodes(g, placed);
    var width := if maxX + MARGIN_X > 360.0 then maxX + MARGIN_X else 360.0;
    var nodes := map n | n in g.nodes :: LayoutNode(g.nodes[n], x[n], NodeY(g.nodes[n]));
    var edges := DrawEdges(g.edges, nodes);
    l := LayoutGraph(width, height, nodes, edges);
    DrawingShape(g, placed, x, l, leaves, maxX, maxY);
  }
}
