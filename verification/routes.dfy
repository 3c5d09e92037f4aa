/**
 Depth-first enumeration of simple routes in a directed graph that may have
 cycles.  A route is a list of nodes and the arcs between them; the graph is
 given by the arcs leaving each node.  Both the path panel of the node graph
 and the path highlighting of the map search this way.
 */
module Routes {
  import opened Sequences

  datatype Arc<T> = Arc(from: string, to: string, info: T)

  datatype Route<T> = Route(nodes: seq<string>, arcs: seq<Arc<T>>)

  type Graph<T(!new)> = string -> seq<Arc<T>>

  /** How many arcs a route may have; `Unlimited` for no bound. */
  datatype Limit = Unlimited | AtMost(max: nat)

  predicate Within(limit: Limit, n: nat) {
    limit.AtMost? ==> n <= limit.max
  }

  /** Every arc of a node leaves that node and enters one of `universe`. */
  ghost predicate Closed<T(!new)>(g: Graph<T>, universe: set<string>) {
    forall n, a :: a in g(n) ==> a.from == n && a.to in universe
  }

  /** Consecutive nodes joined by arcs of the graph. */
  ghost predicate IsRoute<T(!new)>(g: Graph<T>, r: Route<T>) {
    && |r.nodes| == |r.arcs| + 1
    && forall i :: 0 <= i < |r.arcs| ==>
         r.arcs[i] in g(r.nodes[i]) && r.arcs[i].to == r.nodes[i + 1]
  }

  /** A route that visits no node twice. */
  ghost predicate IsSimple<T(!new)>(g: Graph<T>, r: Route<T>) {
    IsRoute(g, r) && Distinct(r.nodes)
  }

  function Last(r: Route): string
    requires r.nodes != []
  {
    r.nodes[|r.nodes| - 1]
  }

  function Extend<T>(r: Route<T>, a: Arc<T>): Route<T> {
    Route(r.nodes + [a.to], r.arcs + [a])
  }

  ghost predicate StartsWith<T(!new)>(r: Route<T>, p: Route<T>) {
    p.nodes <= r.nodes && p.arcs <= r.arcs
  }

  function Nodes(r: Route): set<string> {
    set n | n in r.nodes
  }

  /** How many nodes a search may still enter. */
  ghost function Fresh(universe: set<string>, r: Route): nat {
    |universe - Nodes(r)|
  }

  lemma ExtendShrinks<T>(universe: set<string>, r: Route<T>, a: Arc<T>)
    requires a.to in universe && a.to !in r.nodes
    ensures Fresh(universe, Extend(r, a)) < Fresh(universe, r)
  {
    var rest := universe - Nodes(r);
    assert a.to in rest;
    assert universe - Nodes(Extend(r, a)) == rest - {a.to};
  }

  /** All completions of the route `r` to `target`, in search order. */
  ghost function Completions<T(!new)>(g: Graph<T>, universe: set<string>, limit: Limit, target: string,
                                      r: Route<T>): seq<Route<T>>
    requires Closed(g, universe) && r.nodes != []
    decreases Fresh(universe, r), 1, 0
  {
    if !Within(limit, |r.arcs|) then []
    else if Last(r) == target then [r]
    else Branches(g, universe, limit, target, r, |g(Last(r))|)
  }

  /** The completions of `r` through the first `k` arcs of its last node. */
  ghost function Branches<T(!new)>(g: Graph<T>, universe: set<string>, limit: Limit, target: string, r: Route<T>,
                                   k: nat): seq<Route<T>>
    requires Closed(g, universe) && r.nodes != [] && k <= |g(Last(r))|
    decreases Fresh(universe, r), 0, k
  {
    if k == 0 then []
    else
      var a := g(Last(r))[k - 1];
      Branches(g, universe, limit, target, r, k - 1) +
      if a.to in r.nodes then []
      else
        ExtendShrinks(universe, r, a);
        Completions(g, universe, limit, target, Extend(r, a))
  }

  lemma BranchesStep<T(!new)>(g: Graph<T>, universe: set<string>, limit: Limit, target: string, r: Route<T>, k: nat)
    requires Closed(g, universe) && r.nodes != [] && k < |g(Last(r))|
    ensures var a := g(Last(r))[k];
      Branches(g, universe, limit, target, r, k + 1) ==
      Branches(g, universe, limit, target, r, k) +
        if a.to in r.nodes then [] else Completions(g, universe, limit, target, Extend(r, a))
  {}

  lemma NoBranches<T(!new)>(g: Graph<T>, universe: set<string>, limit: Limit, target: string, r: Route<T>)
    requires Closed(g, universe) && r.nodes != []
    ensures Branches(g, universe, limit, target, r, 0) == []
    ensures Distinct(Branches(g, universe, limit, target, r, 0))
  {}

  // ----- what is found is a simple route to the target

  lemma ExtendSimple<T(!new)>(g: Graph<T>, r: Route<T>, a: Arc<T>)
    requires IsSimple(g, r) && a in g(Last(r)) && a.to !in r.nodes
    ensures IsSimple(g, Extend(r, a))
  {}

  lemma {:induction false} CompletionsSound<T(!new)>(
      g: Graph<T>, universe: set<string>, limit: Limit, target: string, r: Route<T>, q: Route<T>)
    requires Closed(g, universe) && IsSimple(g, r)
    requires q in Completions(g, universe, limit, target, r)
    ensures IsSimple(g, q) && StartsWith(q, r) && Last(q) == target && Within(limit, |q.arcs|)
    decreases Fresh(universe, r), 1, 0
  {
    if Within(limit, |r.arcs|) && Last(r) != target {
      BranchesSound(g, universe, limit, target, r, |g(Last(r))|, q);
    }
  }

  lemma FirstArc<T(!new)>(r: Route<T>, a: Arc<T>, q: Route<T>)
    requires StartsWith(q, Extend(r, a))
    ensures StartsWith(q, r) && |q.arcs| > |r.arcs| && q.arcs[|r.arcs|] == a
  {
    assert Extend(r, a).arcs[|r.arcs|] == a;
  }

  lemma TakeMember<X>(s: seq<X>, k: nat, x: X)
    requires 0 < k <= |s| && (x in s[..k - 1] || x == s[k - 1])
    ensures x in s[..k]
  {
    assert s[..k] == s[..k - 1] + [s[k - 1]];
  }

  lemma {:induction false} BranchesSound<T(!new)>(
      g: Graph<T>, universe: set<string>, limit: Limit, target: string, r: Route<T>, k: nat, q: Route<T>)
    requires Closed(g, universe) && r.nodes != [] && IsSimple(g, r) && k <= |g(Last(r))|
    requires q in Branches(g, universe, limit, target, r, k)
    ensures IsSimple(g, q) && StartsWith(q, r) && Last(q) == target && Within(limit, |q.arcs|)
    ensures |q.arcs| > |r.arcs| && q.arcs[|r.arcs|] in g(Last(r))[..k]
    decreases Fresh(universe, r), 0, k
  {
    hide Completions, IsSimple, StartsWith, Within;
    var a := g(Last(r))[k - 1];
    if q in Branches(g, universe, limit, target, r, k - 1) {
      BranchesSound(g, universe, limit, target, r, k - 1, q);
    } else {
      ExtendShrinks(universe, r, a);
      ExtendSimple(g, r, a);
      CompletionsSound(g, universe, limit, target, Extend(r, a), q);
      FirstArc(r, a, q);
    }
    TakeMember(g(Last(r)), k, q.arcs[|r.arcs|]);
  }

  // ----- every simple route to the target is found

  lemma {:induction false} CompletionsComplete<T(!new)>(
      g: Graph<T>, universe: set<string>, limit: Limit, target: string, r: Route<T>, q: Route<T>)
    requires Closed(g, universe) && IsRoute(g, r)
    requires IsSimple(g, q) && StartsWith(q, r) && Last(q) == target && Within(limit, |q.arcs|)
    ensures q in Completions(g, universe, limit, target, r)
    decreases |q.arcs| - |r.arcs|
  {
    var n := |r.arcs|;
    if Last(r) == target {
      assert q.nodes[n] == target;
      assert q.nodes == r.nodes && q.arcs == r.arcs;
    } else {
      var a := q.arcs[n];
      var k :| 0 <= k < |g(Last(r))| && g(Last(r))[k] == a;
      assert a.to == q.nodes[n + 1];
      assert a.to !in r.nodes;
      assert StartsWith(q, Extend(r, a)) by {
        assert q.nodes[..n + 2] == r.nodes + [a.to];
        assert q.arcs[..n + 1] == r.arcs + [a];
      }
      assert IsRoute(g, Extend(r, a));
      CompletionsComplete(g, universe, limit, target, Extend(r, a), q);
      BranchesContain(g, universe, limit, target, r, k, |g(Last(r))|, q);
    }
  }

  lemma {:induction false} BranchesContain<T(!new)>(
      g: Graph<T>, universe: set<string>, limit: Limit, target: string, r: Route<T>, i: nat, k: nat, q: Route<T>)
    requires Closed(g, universe) && r.nodes != [] && i < k <= |g(Last(r))|
    requires var a := g(Last(r))[i];
      a.to !in r.nodes && q in Completions(g, universe, limit, target, Extend(r, a))
    ensures q in Branches(g, universe, limit, target, r, k)
    decreases k
  {
    hide Branches, Completions;
    BranchesStep(g, universe, limit, target, r, k - 1);
    if i < k - 1 {
      BranchesContain(g, universe, limit, target, r, i, k - 1, q);
    } else {
      ExtendShrinks(universe, r, g(Last(r))[i]);
    }
  }

  /** Search from a single node finds exactly the simple routes to the target within the limit. */
  lemma SearchExact<T(!new)>(g: Graph<T>, universe: set<string>, limit: Limit, root: string, target: string,
                             q: Route<T>)
    requires Closed(g, universe)
    ensures q in Completions(g, universe, limit, target, Route([root], [])) <==>
            IsSimple(g, q) && q.nodes[0] == root && Last(q) == target && Within(limit, |q.arcs|)
  {
    var start: Route<T> := Route([root], []);
    if q in Completions(g, universe, limit, target, start) {
      CompletionsSound(g, universe, limit, target, start, q);
      assert start.nodes[0] == root;
    }
    if IsSimple(g, q) && q.nodes[0] == root && Last(q) == target && Within(limit, |q.arcs|) {
      assert start.nodes <= q.nodes;
      CompletionsComplete(g, universe, limit, target, start, q);
    }
  }

  // ----- and finds each of them once

  /** No two arcs of a node are the same. */
  ghost predicate NoDoubleArcs<T(!new)>(g: Graph<T>) {
    forall n {:trigger g(n)} :: Distinct(g(n))
  }

  lemma BranchArc<T(!new)>(
      g: Graph<T>, universe: set<string>, limit: Limit, target: string, r: Route<T>, a: Arc<T>, q: Route<T>)
    requires Closed(g, universe) && IsSimple(g, Extend(r, a))
    ensures q in Completions(g, universe, limit, target, Extend(r, a)) ==> |q.arcs| > |r.arcs| && q.arcs[|r.arcs|] == a
  {
    if q in Completions(g, universe, limit, target, Extend(r, a)) {
      CompletionsSound(g, universe, limit, target, Extend(r, a), q);
    }
  }

  lemma {:induction false} CompletionsOnce<T(!new)>(g: Graph<T>, universe: set<string>, limit: Limit, target: string,
                                                    r: Route<T>)
    requires Closed(g, universe) && NoDoubleArcs(g) && IsSimple(g, r)
    ensures Distinct(Completions(g, universe, limit, target, r))
    decreases Fresh(universe, r), 1, 0
  {
    if Within(limit, |r.arcs|) && Last(r) != target {
      BranchesOnce(g, universe, limit, target, r, |g(Last(r))|);
    }
  }

  /** What the first arcs lead to does not use a later arc. */
  lemma LaterArc<T(!new)>(
      g: Graph<T>, universe: set<string>, limit: Limit, target: string, r: Route<T>, k: nat, q: Route<T>)
    requires Closed(g, universe) && NoDoubleArcs(g) && IsSimple(g, r) && k < |g(Last(r))|
    requires q in Branches(g, universe, limit, target, r, k)
    ensures |q.arcs| > |r.arcs| && q.arcs[|r.arcs|] != g(Last(r))[k]
  {
    BranchesSound(g, universe, limit, target, r, k, q);
    var out := g(Last(r));
    assert Distinct(out);
    var i :| 0 <= i < k && out[i] == q.arcs[|r.arcs|];
  }

  lemma {:induction false} BranchesOnce<T(!new)>(
      g: Graph<T>, universe: set<string>, limit: Limit, target: string, r: Route<T>, k: nat)
    requires Closed(g, universe) && NoDoubleArcs(g) && IsSimple(g, r) && k <= |g(Last(r))|
    ensures Distinct(Branches(g, universe, limit, target, r, k))
    decreases Fresh(universe, r), 0, k
  {
    hide Branches, Completions, Distinct, Extend, NoDoubleArcs;
    if k == 0 {
      NoBranches(g, universe, limit, target, r);
    } else {
      var a := g(Last(r))[k - 1];
      BranchesOnce(g, universe, limit, target, r, k - 1);
      BranchesStep(g, universe, limit, target, r, k - 1);
      if a.to in r.nodes {
        var before := Branches(g, universe, limit, target, r, k - 1);
        assert before + [] == before;
      } else {
        ExtendShrinks(universe, r, a);
        ExtendSimple(g, r, a);
        CompletionsOnce(g, universe, limit, target, Extend(r, a));
        BothOnce(g, universe, limit, target, r, k - 1);
      }
    }
  }

  lemma BothOnce<T(!new)>(
      g: Graph<T>, universe: set<string>, limit: Limit, target: string, r: Route<T>, k: nat)
    requires Closed(g, universe) && NoDoubleArcs(g) && IsSimple(g, r) && k < |g(Last(r))|
    requires IsSimple(g, Extend(r, g(Last(r))[k]))
    requires Distinct(Branches(g, universe, limit, target, r, k))
    requires Distinct(Completions(g, universe, limit, target, Extend(r, g(Last(r))[k])))
    ensures Distinct(Branches(g, universe, limit, target, r, k) +
                     Completions(g, universe, limit, target, Extend(r, g(Last(r))[k])))
  {
    hide Branches, Completions, Distinct, Extend, NoDoubleArcs;
    var before := Branches(g, universe, limit, target, r, k);
    var here := Completions(g, universe, limit, target, Extend(r, g(Last(r))[k]));
    forall q | q in before ensures q !in here {
      LaterArc(g, universe, limit, target, r, k, q);
      BranchArc(g, universe, limit, target, r, g(Last(r))[k], q);
    }
    DistinctConcat(before, here);
  }
}
