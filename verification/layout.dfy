/**
 Coordinates for the node graph: leaves side by side, other nodes over the
 middle of their children, then every level spread until no labels touch.
 Coordinates are real numbers.
 */
module Layout {
  import opened NodePaths
  import opened NodeGraphs
  import opened VisibleGraph

  const HORIZONTAL_GAP: real := 148.0
  const VERTICAL_GAP: real := 126.0
  const DISTANCE_PX_PER_KM: real := 4.0
  const NODE_MIN_GAP: real := 188.0
  const MARGIN_X: real := 80.0
  const MARGIN_Y: real := 58.0

  type Columns = map<string, real>

  /** The x coordinate of the k-th leaf. */
  function Column(k: int): real {
    MARGIN_X + k as real * HORIZONTAL_GAP
  }

  /** Everything placed so far lies between the margin and the last leaf column used. */
  ghost predicate InColumns(x: Columns, leafIndex: nat) {
    forall n :: n in x ==> MARGIN_X <= x[n] <= Column(leafIndex - 1)
  }

  /** Childless nodes stand at least one column apart. */
  ghost predicate LeavesApart(children: map<string, seq<string>>, x: Columns) {
    forall a, b :: a in x && b in x && a != b && ListAt(children, a) == [] && ListAt(children, b) == [] ==>
      x[a] + HORIZONTAL_GAP <= x[b] || x[b] + HORIZONTAL_GAP <= x[a]
  }

  lemma AverageBounds(sum: real, n: nat, lo: real, hi: real)
    requires n > 0 && lo * n as real <= sum <= hi * n as real
    ensures lo <= sum / n as real <= hi
  {
    var m := n as real;
    var q := sum / m;
    assert q * m == sum;
    assert q < lo ==> q * m < lo * m;
    assert q > hi ==> q * m > hi * m;
  }

  lemma SumStep(lo: real, hi: real, n: nat, sum: real, v: real)
    requires lo * n as real <= sum <= hi * n as real && lo <= v <= hi
    ensures lo * (n + 1) as real <= sum + v <= hi * (n + 1) as real
  {}

  lemma WiderColumns(hi: real, hi': real, n: nat, sum: real)
    requires hi <= hi' && sum <= hi * n as real
    ensures sum <= hi' * n as real
  {
    assert hi * n as real <= hi' * n as real;
  }

  lemma ColumnGrows(k: int, m: int)
    requires k <= m
    ensures Column(k) <= Column(m)
  {}

  lemma AlreadyPlaced(x: Columns, leafIndex: nat, n: string)
    requires InColumns(x, leafIndex) && n in x
    ensures MARGIN_X <= x[n] <= Column(leafIndex - 1)
  {}

  /** A leaf in the next column. */
  lemma LeafPlaced(children: map<string, seq<string>>, x: Columns, leafIndex: nat, n: string)
    requires InColumns(x, leafIndex) && LeavesApart(children, x) && n !in x
    ensures MARGIN_X <= Column(leafIndex) && InColumns(x, leafIndex + 1)
    ensures InColumns(x[n := Column(leafIndex)], leafIndex + 1) && LeavesApart(children, x[n := Column(leafIndex)])
  {}

  /** A node met again on the way uses up a column. */
  lemma ColumnSkipped(children: map<string, seq<string>>, x: Columns, leafIndex: nat)
    requires InColumns(x, leafIndex)
    ensures MARGIN_X <= Column(leafIndex) && InColumns(x, leafIndex + 1)
  {}

  /** A parent anywhere between the margin and the last column. */
  lemma ParentPlaced(children: map<string, seq<string>>, x: Columns, leafIndex: nat, n: string, v: real)
    requires InColumns(x, leafIndex) && LeavesApart(children, x) && n !in x
    requires ListAt(children, n) != [] && MARGIN_X <= v <= Column(leafIndex - 1)
    ensures InColumns(x[n := v], leafIndex) && LeavesApart(children, x[n := v])
  {}

  // ----- over the middle of the children

  /** A walk along the lists of children. */
  predicate IsWalk(children: map<string, seq<string>>, w: seq<string>) {
    w != [] && forall i :: 0 <= i < |w| - 1 ==> w[i + 1] in ListAt(children, w[i])
  }

  ghost predicate Reaches(children: map<string, seq<string>>, a: string, b: string) {
    exists w :: IsWalk(children, w) && w[0] == a && w[|w| - 1] == b
  }

  lemma ReachesItself(children: map<string, seq<string>>, a: string)
    ensures Reaches(children, a, a)
  {
    assert IsWalk(children, [a]);
  }

  lemma ReachesOn(children: map<string, seq<string>>, a: string, b: string, c: string)
    requires Reaches(children, a, b) && c in ListAt(children, b)
    ensures Reaches(children, a, c)
  {
    var w :| IsWalk(children, w) && w[0] == a && w[|w| - 1] == b;
    assert IsWalk(children, w + [c]);
  }

  ghost predicate AllReach(children: map<string, seq<string>>, visiting: set<string>, n: string) {
    forall v :: v in visiting ==> Reaches(children, v, n)
  }

  lemma AllReachOn(children: map<string, seq<string>>, visiting: set<string>, n: string, c: string)
    requires AllReach(children, visiting, n) && c in ListAt(children, n)
    ensures AllReach(children, visiting, c)
  {
    forall v | v in visiting ensures Reaches(children, v, c) { ReachesOn(children, v, n, c); }
  }

  /** The sum of the coordinates of `nodes`, as far as they are placed. */
  function SumX(x: Columns, nodes: seq<string>): real {
    if nodes == [] then 0.0
    else
      var n := nodes[|nodes| - 1];
      SumX(x, nodes[..|nodes| - 1]) + if n in x then x[n] else 0.0
  }

  lemma {:induction false} SumKept(x: Columns, x': Columns, nodes: seq<string>)
    requires forall n :: n in nodes ==> n in x && n in x' && x'[n] == x[n]
    ensures SumX(x', nodes) == SumX(x, nodes)
  {
    if nodes != [] { SumKept(x, x', nodes[..|nodes| - 1]); }
  }

  /** Node `n` lies on a cycle, or stands at the mean of its children. */
  ghost predicate OverMiddle(children: map<string, seq<string>>, x: Columns, n: string)
    requires n in x
  {
    var cs := ListAt(children, n);
    || (exists c :: c in cs && Reaches(children, c, n))
    || ((forall c :: c in cs ==> c in x) && x[n] * |cs| as real == SumX(x, cs))
  }

  ghost predicate Centered(children: map<string, seq<string>>, x: Columns) {
    forall n :: n in x && ListAt(children, n) != [] ==> OverMiddle(children, x, n)
  }

  lemma CenteredMore(children: map<string, seq<string>>, x: Columns, n: string, v: real)
    requires Centered(children, x) && n !in x
    requires ListAt(children, n) != [] ==> OverMiddle(children, x[n := v], n)
    ensures Centered(children, x[n := v])
  {
    hide OverMiddle, ListAt;
    forall m | m in x && ListAt(children, m) != [] ensures OverMiddle(children, x[n := v], m) {
      StillOverMiddle(children, x, n, v, m);
    }
  }

  lemma StillOverMiddle(children: map<string, seq<string>>, x: Columns, n: string, v: real, m: string)
    requires n !in x && m in x && OverMiddle(children, x, m)
    ensures OverMiddle(children, x[n := v], m)
  {
    hide SumX, ListAt, Reaches;
    var cs := ListAt(children, m);
    if forall c :: c in cs ==> c in x { SumKept(x, x[n := v], cs); }
  }

  lemma QuotientTimes(sum: real, k: real)
    requires k > 0.0
    ensures (sum / k) * k == sum
  {}

  /** What placing children has summed up: their coordinates, unless one of them is still being visited. */
  ghost predicate Summed(x: Columns, visiting: set<string>, children: seq<string>, sum: real) {
    || (exists c :: c in children && c in visiting)
    || ((forall c :: c in children ==> c in x) && sum == SumX(x, children))
  }

  lemma NothingSummed(x: Columns, visiting: set<string>, children: seq<string>)
    ensures Summed(x, visiting, children[..0], 0.0)
  {}

  lemma AllReachMore(children: map<string, seq<string>>, visiting: set<string>, n: string)
    requires AllReach(children, visiting, n)
    ensures AllReach(children, visiting + {n}, n)
  {
    ReachesItself(children, n);
  }

  lemma NobodyVisited(children: map<string, seq<string>>, n: string)
    ensures AllReach(children, {}, n)
  {}

  lemma SummedMore(x: Columns, x': Columns, visiting: set<string>, children: seq<string>, i: nat, sum: real, v: real)
    requires i < |children| && Summed(x, visiting, children[..i], sum)
    requires x.Keys <= x'.Keys && forall n :: n in x ==> x'[n] == x[n]
    requires children[i] !in visiting ==> children[i] in x' && x'[children[i]] == v
    ensures Summed(x', visiting, children[..i + 1], sum + v)
  {
    var more := children[..i + 1];
    assert more[..i] == children[..i] && more[i] == children[i];
    assert more == children[..i] + [children[i]];
    if forall c :: c in children[..i] ==> c in x { SumKept(x, x', children[..i]); }
  }

  lemma MeanIsMiddle(children: map<string, seq<string>>, x: Columns, visiting: set<string>, n: string, sum: real)
    requires n !in x && n in visiting && AllReach(children, visiting, n) && ListAt(children, n) != []
    requires Summed(x, visiting, ListAt(children, n), sum)
    ensures OverMiddle(children, x[n := sum / |ListAt(children, n)| as real], n)
  {
    hide SumX, ListAt, Reaches;
    var cs := ListAt(children, n);
    var x' := x[n := sum / |cs| as real];
    QuotientTimes(sum, |cs| as real);
    if forall c :: c in cs ==> c in x { SumKept(x, x', cs); }
  }

  class Placer {
    const childrenByNode: map<string, seq<string>>
    var xByNode: Columns
    var leafIndex: nat
    var visiting: set<string>

    constructor (childrenByNode: map<string, seq<string>>)
      ensures this.childrenByNode == childrenByNode && xByNode == map[] && leafIndex == 0 && visiting == {}
    {
      this.childrenByNode := childrenByNode;
      xByNode, leafIndex, visiting := map[], 0, {};
    }

    ghost predicate Valid()
      reads this
    {
      InColumns(xByNode, leafIndex) && LeavesApart(childrenByNode, xByNode) && Centered(childrenByNode, xByNode)
    }

    method NextLeafX() returns (x: real)
      modifies this`leafIndex
      ensures x == Column(old(leafIndex)) && leafIndex == old(leafIndex) + 1
    {
      x := MARGIN_X + leafIndex as real * HORIZONTAL_GAP;
      leafIndex := leafIndex + 1;
    }

    /** Places a node below which everything is placed first; a node met again on the way gets a column of its own. */
    method Place(nodeId: string, ghost universe: set<string>) returns (x: real)
      requires Valid() && nodeId in universe && visiting <= universe && xByNode.Keys <= universe
      requires AllReach(childrenByNode, visiting, nodeId)
      requires forall n, c :: c in ListAt(childrenByNode, n) ==> c in universe
      modifies this
      ensures Valid() && visiting == old(visiting) && leafIndex >= old(leafIndex) && xByNode.Keys <= universe
      ensures MARGIN_X <= x <= Column(leafIndex - 1)
      ensures old(xByNode).Keys <= xByNode.Keys && forall n :: n in old(xByNode) ==> xByNode[n] == old(xByNode)[n]
      ensures nodeId !in old(visiting) ==> nodeId in xByNode && xByNode[nodeId] == x
      ensures forall n :: n in visiting ==> (n in xByNode <==> n in old(xByNode))
      decreases universe - visiting, 0
    {
      hide InColumns, LeavesApart, Column, Centered, OverMiddle, AllReach, Reaches, Summed;
      if nodeId in xByNode {
        AlreadyPlaced(xByNode, leafIndex, nodeId);
        return xByNode[nodeId];
      }
      if nodeId in visiting {
        ColumnSkipped(childrenByNode, xByNode, leafIndex);
        x := NextLeafX();
        return;
      }
      AllReachMore(childrenByNode, visiting, nodeId);
      visiting := visiting + {nodeId};
      var children := ListAt(childrenByNode, nodeId);
      if |children| == 0 {
        LeafPlaced(childrenByNode, xByNode, leafIndex, nodeId);
        CenteredMore(childrenByNode, xByNode, nodeId, Column(leafIndex));
        x := NextLeafX();
        xByNode := xByNode[nodeId := x];
        visiting := visiting - {nodeId};
        return;
      }
      x := PlaceParent(nodeId, children, universe);
      visiting := visiting - {nodeId};
    }

    /** Over the middle of its children. */
    method PlaceParent(nodeId: string, children: seq<string>, ghost universe: set<string>) returns (x: real)
      requires Valid() && nodeId in visiting && nodeId !in xByNode && children == ListAt(childrenByNode, nodeId) != []
      requires AllReach(childrenByNode, visiting, nodeId)
      requires visiting <= universe && xByNode.Keys <= universe
      requires forall n, c :: c in ListAt(childrenByNode, n) ==> c in universe
      modifies this
      ensures Valid() && visiting == old(visiting) && leafIndex >= old(leafIndex) && xByNode.Keys <= universe
      ensures MARGIN_X <= x <= Column(leafIndex - 1)
      ensures old(xByNode).Keys <= xByNode.Keys && forall n :: n in old(xByNode) ==> xByNode[n] == old(xByNode)[n]
      ensures nodeId in xByNode && xByNode[nodeId] == x
      ensures forall n :: n in visiting && n != nodeId ==> (n in xByNode <==> n in old(xByNode))
      decreases universe - visiting, 2
    {
      hide InColumns, LeavesApart, Column, Centered, OverMiddle, AllReach, Reaches, Summed;
      var sum := PlaceChildren(nodeId, children, universe);
      x := sum / |children| as real;
      AverageBounds(sum, |children|, MARGIN_X, Column(leafIndex - 1));
      ParentPlaced(childrenByNode, xByNode, leafIndex, nodeId, x);
      MeanIsMiddle(childrenByNode, xByNode, visiting, nodeId, sum);
      CenteredMore(childrenByNode, xByNode, nodeId, x);
      xByNode := xByNode[nodeId := x];
    }

    method PlaceChildren(nodeId: string, children: seq<string>, ghost universe: set<string>) returns (sum: real)
      requires Valid() && nodeId in visiting && nodeId !in xByNode && children == ListAt(childrenByNode, nodeId) != []
      requires AllReach(childrenByNode, visiting, nodeId)
      requires visiting <= universe && xByNode.Keys <= universe
      requires forall n, c :: c in ListAt(childrenByNode, n) ==> c in universe
      requires forall c :: c in children ==> c in universe
      modifies this
      ensures Valid() && visiting == old(visiting) && leafIndex >= old(leafIndex) && xByNode.Keys <= universe
      ensures MARGIN_X * |children| as real <= sum <= Column(leafIndex - 1) * |children| as real
      ensures Summed(xByNode, visiting, children, sum)
      ensures old(xByNode).Keys <= xByNode.Keys && forall n :: n in old(xByNode) ==> xByNode[n] == old(xByNode)[n]
      ensures forall n :: n in visiting ==> (n in xByNode <==> n in old(xByNode))
      decreases universe - visiting, 1
    {
      hide InColumns, LeavesApart, Column, Centered, OverMiddle, AllReach, Reaches, Summed;
      sum := 0.0;
      NothingSummed(xByNode, visiting, children);
      for i := 0 to |children|
        invariant Valid() && visiting == old(visiting) && leafIndex >= old(leafIndex) && xByNode.Keys <= universe
        invariant MARGIN_X * i as real <= sum <= Column(leafIndex - 1) * i as real
        invariant old(xByNode).Keys <= xByNode.Keys && forall n :: n in old(xByNode) ==> xByNode[n] == old(xByNode)[n]
        invariant forall n :: n in visiting ==> (n in xByNode <==> n in old(xByNode))
        invariant Summed(xByNode, visiting, children[..i], sum)
      {
        ghost var bound, placed := leafIndex - 1, xByNode;
        ghost var before := Column(bound);
        AllReachOn(childrenByNode, visiting, nodeId, children[i]);
        var childX := Place(children[i], universe);
        SummedMore(placed, xByNode, visiting, children, i, sum, childX);
        ColumnGrows(bound, leafIndex - 1);
        WiderColumns(before, Column(leafIndex - 1), i, sum);
        SumStep(MARGIN_X, Column(leafIndex - 1), i, sum, childX);
        sum := sum + childX;
      }
      assert children[..|children|] == children;
    }
  }

  predicate Cycle(edges: seq<Edge>, n: string, w: seq<string>) {
    |w| > 1 && w[0] == n == w[|w| - 1] && forall i :: 0 <= i < |w| - 1 ==> w[i + 1] in Children(edges, w[i])
  }

  /** A node that lies on no cycle stands at the mean of its children. */
  ghost predicate ParentAtMean(edges: seq<Edge>, x: Columns, n: string)
    requires n in x
  {
    var cs := Children(edges, n);
    || (exists w :: Cycle(edges, n, w))
    || ((forall c :: c in cs ==> c in x) && x[n] * |cs| as real == SumX(x, cs))
  }

  lemma MiddleIsMean(edges: seq<Edge>, children: map<string, seq<string>>, x: Columns, n: string)
    requires forall m :: ListAt(children, m) == Children(edges, m)
    requires n in x && OverMiddle(children, x, n)
    ensures ParentAtMean(edges, x, n)
  {
    hide Children, SumX;
    if c :| c in ListAt(children, n) && Reaches(children, c, n) {
      var w :| IsWalk(children, w) && w[0] == c && w[|w| - 1] == n;
      assert Cycle(edges, n, [n] + w);
    }
  }

  /** Every node gets a column between the margin and the last leaf's. */
  method DistributeX(g: NodeGraph) returns (xByNode: Columns, ghost leaves: nat)
    requires Drawable(g)
    ensures g.nodes.Keys == xByNode.Keys && InColumns(xByNode, leaves)
    ensures forall n :: n in g.nodes && Children(g.edges, n) != [] ==> ParentAtMean(g.edges, xByNode, n)
    ensures forall a, b ::
      a in g.nodes && b in g.nodes && a != b && Children(g.edges, a) == [] && Children(g.edges, b) == [] ==>
      xByNode[a] + 148.0 <= xByNode[b] || xByNode[b] + 148.0 <= xByNode[a]
  {
    hide OverMiddle, ParentAtMean, AllReach, Children;
    var childrenByNode := ChildrenBySource(g.edges);
    var placer := new Placer(childrenByNode);
    NobodyVisited(childrenByNode, g.rootId);
    var x := placer.Place(g.rootId, g.nodes.Keys);
    var rest := g.nodes.Keys;
    while rest != {}
      invariant rest <= g.nodes.Keys && placer.Valid() && placer.visiting == {} && placer.xByNode.Keys <= g.nodes.Keys
      invariant g.nodes.Keys - rest <= placer.xByNode.Keys
      decreases rest
    {
      var n :| n in rest;
      rest := rest - {n};
      NobodyVisited(childrenByNode, n);
      x := placer.Place(n, g.nodes.Keys);
    }
    xByNode, leaves := placer.xByNode, placer.leafIndex;
    forall n | n in g.nodes && Children(g.edges, n) != [] ensures ParentAtMean(g.edges, xByNode, n) {
      MiddleIsMean(g.edges, childrenByNode, xByNode, n);
    }
  }
}
