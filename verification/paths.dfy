/** Directed walks through the adjacency lists. */
module Paths {
  import opened Graphs

  ghost predicate Arc(g: Graph, u: int, v: int)
    requires WellFormed(g)
  {
    1 <= u <= g.nvertices && exists k :: 0 <= k < |g.edges[u]| && g.edges[u][k].y == v
  }

  /** In a directed graph the arcs are exactly the pairs that were read. */
  lemma ArcsAreRead(g: Graph, pairs: seq<(int, int)>, u: int, v: int)
    requires WellFormed(g) && Directed(g, pairs) && Graphs.Within(pairs, g.nvertices)
    ensures Arc(g, u, v) <==> (u, v) in pairs
  {
    ArcRowMembers(pairs, u, v);
    if Arc(g, u, v) {
      var k :| 0 <= k < |g.edges[u]| && g.edges[u][k].y == v;
      assert g.edges[u][k] == EdgeNode(v, 0);
    }
    if (u, v) in pairs {
      var k :| 0 <= k < |ArcRow(pairs, u)| && ArcRow(pairs, u)[k] == EdgeNode(v, 0);
      assert g.edges[u][k].y == v;
    }
  }

  lemma {:induction false} ArcRowMembers(pairs: seq<(int, int)>, u: int, v: int)
    ensures EdgeNode(v, 0) in ArcRow(pairs, u) <==> (u, v) in pairs
    ensures forall k :: 0 <= k < |ArcRow(pairs, u)| ==> ArcRow(pairs, u)[k].weight == 0
  {
    if pairs != [] {
      var init, a := pairs[..|pairs| - 1], pairs[|pairs| - 1];
      ArcRowMembers(init, u, v);
      assert (u, v) in pairs <==> (u, v) in init || (u, v) == a by { assert pairs == init + [a]; }
    }
  }

  /** A walk along arcs; a single vertex is a walk of no arcs. */
  ghost predicate Path(g: Graph, p: seq<int>)
    requires WellFormed(g)
  {
    |p| > 0 && 1 <= p[0] <= g.nvertices && forall i :: 0 <= i < |p| - 1 ==> Arc(g, p[i], p[i+1])
  }

  ghost predicate PathFromTo(g: Graph, p: seq<int>, u: int, v: int)
    requires WellFormed(g)
  {
    Path(g, p) && p[0] == u && p[|p| - 1] == v
  }

  ghost predicate Reachable(g: Graph, u: int, v: int)
    requires WellFormed(g)
  {
    exists p :: PathFromTo(g, p, u, v)
  }

  ghost predicate ShortestPath(g: Graph, p: seq<int>, u: int, v: int)
    requires WellFormed(g)
  {
    PathFromTo(g, p, u, v) && forall q :: PathFromTo(g, q, u, v) ==> |p| <= |q|
  }

  lemma PathExtend(g: Graph, p: seq<int>, u: int, v: int, w: int)
    requires WellFormed(g) && PathFromTo(g, p, u, v) && Arc(g, v, w)
    ensures PathFromTo(g, p + [w], u, w)
  {
    var q := p + [w];
    forall i | 0 <= i < |q| - 1 ensures Arc(g, q[i], q[i+1]) {
      if i < |p| - 1 { assert q[i] == p[i] && q[i+1] == p[i+1]; }
    }
  }

  lemma ReachableReflexive(g: Graph, u: int)
    requires WellFormed(g) && 1 <= u <= g.nvertices
    ensures Reachable(g, u, u)
  {
    assert PathFromTo(g, [u], u, u);
  }

  lemma ReachableExtend(g: Graph, u: int, v: int, w: int)
    requires WellFormed(g) && Reachable(g, u, v) && Arc(g, v, w)
    ensures Reachable(g, u, w)
  {
    var p :| PathFromTo(g, p, u, v);
    PathExtend(g, p, u, v, w);
  }

  /** A set that holds u and is closed under arcs holds everything reachable from u. */
  lemma {:induction false} ClosedHoldsPath(g: Graph, S: set<int>, p: seq<int>, u: int, v: int)
    requires WellFormed(g) && PathFromTo(g, p, u, v) && u in S
    requires forall a, b :: a in S && Arc(g, a, b) ==> b in S
    ensures v in S
  {
    if |p| > 1 {
      ClosedHoldsPath(g, S, p[..|p| - 1], u, p[|p| - 2]);
    }
  }

  /** A closed walk of at least one arc. */
  ghost predicate Cycle(g: Graph, p: seq<int>)
    requires WellFormed(g)
  {
    |p| >= 2 && Path(g, p) && p[0] == p[|p| - 1]
  }
}
