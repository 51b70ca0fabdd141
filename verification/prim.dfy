/** Prim's algorithm: the parent array encodes a minimum spanning forest of what is reached. */
module Prim {
  import opened Forests
  import opened Graphs
  import opened Counting
  import opened Searches

  const MAXINT := 100007

  // ---------- The edges the algorithm can use ----------

  /** Edges of weight MAXINT or more never improve a distance, so they are invisible. */
  ghost function LightEdges(log: seq<Edge>): set<Edge> {
    set e | e in EdgeSet(log) && e.weight < MAXINT
  }

  /** Vertices of the component of `start`, and of vertex 1, where the search resumes. */
  ghost predicate Reached(E: set<Edge>, start: int, v: int) {
    Connected(E, start, v) || Connected(E, 1, v)
  }

  ghost function ReachedEdges(E: set<Edge>, start: int): set<Edge> {
    set e | e in E && Reached(E, start, e.x)
  }

  /** A list node of u other than a self-loop is an undirected edge of the graph, and back. */
  lemma {:induction false} RowNodeIsEdge(log: seq<Edge>, u: int, w: int, weight: int)
    requires u != w
    ensures EdgeNode(w, weight) in Row(log, u) <==> Oriented(Edge(u, w, weight)) in EdgeSet(log)
  {
    if log != [] {
      var init, d := log[..|log| - 1], log[|log| - 1];
      RowNodeIsEdge(init, u, w, weight);
      assert EdgeSet(log) == EdgeSet(init) + if d.x != d.y then {Oriented(d)} else {} by {
        assert forall k :: 0 <= k < |init| ==> init[k] == log[k];
      }
      assert Row(log, u) == Nodes(d, u) + Row(init, u);
      assert EdgeNode(w, weight) in Nodes(d, u) <==> d.x != d.y && Oriented(d) == Oriented(Edge(u, w, weight));
    }
  }

  // ---------- State: tree vertices T, distances, parents ----------

  /** dist[w] is the lightest edge from the tree to w, and parent[w] its tree end. */
  ghost predicate Fringe(E: set<Edge>, T: set<int>, dist: seq<int>, par: seq<int>, w: int)
    requires 0 <= w < |dist| == |par|
  {
    && dist[w] <= MAXINT
    && (par[w] == -1 ==> dist[w] == MAXINT)
    && (par[w] != -1 ==> par[w] in T && Oriented(Edge(par[w], w, dist[w])) in E)
    && (forall u, weight {:trigger Oriented(Edge(u, w, weight))} ::
          u in T && Oriented(Edge(u, w, weight)) in E ==> dist[w] <= weight)
  }

  ghost predicate FringeExcept(E: set<Edge>, n: int, T: set<int>, dist: seq<int>, par: seq<int>, v: int)
    requires 0 <= n < |dist| == |par|
  {
    forall w {:trigger dist[w]} {:trigger Fringe(E, T, dist, par, w)} ::
      1 <= w <= n && w !in T && w != v ==> Fringe(E, T, dist, par, w)
  }

  /** v is the tree's nearest outside vertex, or no edge leaves the tree and v starts a new one. */
  ghost predicate Next(E: set<Edge>, n: int, T: set<int>, dist: seq<int>, par: seq<int>, v: int)
    requires 0 <= n < |dist| == |par|
  {
    && 1 <= v <= n
    && if v in T || par[v] == -1 then NothingLeaves(E, T)
       else && par[v] in T && Oriented(Edge(par[v], v, dist[v])) in E
            && (forall f :: f in E && Crosses(f, Inside(T)) ==> dist[v] <= f.weight)
  }

  ghost function Inside(T: set<int>): iset<int> { iset t | t in T }

  ghost predicate NothingLeaves(E: set<Edge>, T: set<int>) {
    forall f :: f in E ==> !Crosses(f, Inside(T))
  }

  /** The tree edges recorded for the vertices of T. */
  ghost function ParentEdges(T: set<int>, dist: seq<int>, par: seq<int>): set<Edge>
    requires |dist| == |par| && forall v :: v in T ==> 0 <= v < |dist|
  {
    set v | v in T && par[v] != -1 :: Oriented(Edge(par[v], v, dist[v]))
  }

  /** Every tree vertex hangs below start, or below 1 once 1 is known to be elsewhere. */
  ghost predicate Rooted(E: set<Edge>, A: set<Edge>, T: set<int>, start: int) {
    forall u {:trigger Connected(A, start, u)} :: u in T ==>
      Connected(A, start, u) || (Connected(A, 1, u) && 1 in T && !Connected(E, start, 1))
  }

  /** The part of the state that concerns the accepted edges A. */
  ghost predicate Grown(E: set<Edge>, T: set<int>, A: set<Edge>, start: int) {
    && A <= ReachedEdges(E, start) && Acyclic(A) && Extendable(ReachedEdges(E, start), A)
    && (forall f :: f in A ==> f.x in T && f.y in T)
    && Rooted(E, A, T, start)
    && (T == {} || start in T)
  }

  lemma RootedIsReached(E: set<Edge>, A: set<Edge>, T: set<int>, start: int, u: int)
    requires Rooted(E, A, T, start) && A <= E && u in T
    ensures Reached(E, start, u)
  {
    if Connected(A, start, u) { ConnectedSubset(A, E, start, u); } else { ConnectedSubset(A, E, 1, u); }
  }

  lemma ReachedNeighbour(E: set<Edge>, start: int, e: Edge)
    requires e in E && (Reached(E, start, e.x) || Reached(E, start, e.y))
    ensures e in ReachedEdges(E, start) && Reached(E, start, e.y)
  {
    ConnectedByEdge(E, e);
    ConnectedSymmetric(E, e.x, e.y);
    if Connected(E, start, e.x) { ConnectedTransitive(E, start, e.x, e.y); }
    else if Connected(E, start, e.y) { ConnectedTransitive(E, start, e.y, e.x); }
    else if Connected(E, 1, e.x) { ConnectedTransitive(E, 1, e.x, e.y); }
    else { ConnectedTransitive(E, 1, e.y, e.x); }
  }

  /** Growing the tree by its lightest leaving edge (u, v). */
  lemma GrowByEdge(E: set<Edge>, T: set<int>, A: set<Edge>, start: int, u: int, v: int, weight: int)
    requires Grown(E, T, A, start) && u in T && v !in T
    requires Oriented(Edge(u, v, weight)) in E
    requires forall f :: f in E && Crosses(f, Inside(T)) ==> weight <= f.weight
    ensures Grown(E, T + {v}, A + {Oriented(Edge(u, v, weight))}, start)
  {
    hide Acyclic, Extendable, Connected;
    var e := Oriented(Edge(u, v, weight));
    var R := Inside(T);
    var E1 := ReachedEdges(E, start);
    RootedIsReached(E, A, T, start, u);
    ReachedNeighbour(E, start, e);
    assert Crosses(e, R);
    CutProperty(E1, A, R, e);
    assert !Connected(A, e.x, e.y) by {
      if Connected(A, e.x, e.y) { ConnectedStaysInside(A, R, e.x, e.y); }
    }
    AcyclicPlusEdge(A, e);
    var A' := A + {e};
    assert Connected(A', u, v) by {
      ConnectedByEdge(A', e);
      ConnectedSymmetric(A', e.x, e.y);
    }
    assert Rooted(E, A', T + {v}, start) by { GrowKeepsRooted(E, T, A, A', start, u, v); }
  }

  lemma GrowKeepsRooted(E: set<Edge>, T: set<int>, A: set<Edge>, A': set<Edge>, start: int, u: int, v: int)
    requires Rooted(E, A, T, start) && A <= A' && u in T && Connected(A', u, v)
    ensures Rooted(E, A', T + {v}, start)
  {
    hide Connected;
    forall t {:trigger Connected(A', start, t)} | t in T + {v}
      ensures Connected(A', start, t) || (Connected(A', 1, t) && 1 in T + {v} && !Connected(E, start, 1))
    {
      var s := if t in T then t else u;
      if Connected(A, start, s) {
        ConnectedSubset(A, A', start, s);
        if s != t { ConnectedTransitive(A', start, s, t); }
      } else {
        ConnectedSubset(A, A', 1, s);
        if s != t { ConnectedTransitive(A', 1, s, t); }
      }
    }
  }

  /** Starting a new tree when no edge leaves the old one: first at start, later at 1. */
  lemma GrowByRoot(E: set<Edge>, T: set<int>, A: set<Edge>, start: int, v: int)
    requires Grown(E, T, A, start) && v !in T && NothingLeaves(E, T)
    requires v == if T == {} then start else 1
    ensures Grown(E, T + {v}, A, start)
  {
    hide Acyclic, Extendable, Connected;
    ConnectedReflexive(A, v);
    if T != {} {
      if Connected(E, start, 1) { ConnectedStaysInside(E, Inside(T), start, 1); }
    }
  }

  lemma NothingGrown(E: set<Edge>, start: int)
    ensures Grown(E, {}, {}, start)
  {
    NothingYetExtendable(ReachedEdges(E, start));
  }

  /** When nothing leaves and both roots are in, the tree is finished. */
  lemma FinishedIsMinimum(E: set<Edge>, T: set<int>, A: set<Edge>, start: int)
    requires Grown(E, T, A, start) && NothingLeaves(E, T) && start in T && 1 in T
    ensures MinimumSpanningForest(ReachedEdges(E, start), A)
    ensures forall v :: Reached(E, start, v) <==> v in T
  {
    hide Acyclic, Extendable, Connected;
    var E1, R := ReachedEdges(E, start), Inside(T);
    forall v ensures Reached(E, start, v) <==> v in T {
      if Connected(E, start, v) { ConnectedStaysInside(E, R, start, v); }
      if Connected(E, 1, v) { ConnectedStaysInside(E, R, 1, v); }
      if v in T { RootedIsReached(E, A, T, start, v); }
    }
    forall e {:trigger Connected(A, e.x, e.y)} | e in E1 ensures Connected(A, e.x, e.y) {
      assert e.x in T && !Crosses(e, R);
      FinishedConnects(E, T, A, start, e);
    }
    ExtendableSpanningIsMinimum(E1, A);
  }

  lemma FinishedConnects(E: set<Edge>, T: set<int>, A: set<Edge>, start: int, e: Edge)
    requires Rooted(E, A, T, start) && A <= E && e in E && e.x in T && e.y in T
    ensures Connected(A, e.x, e.y)
  {
    hide Connected;
    var r := if Connected(A, start, e.x) then start else 1;
    var q := if Connected(A, start, e.y) then start else 1;
    assert Connected(A, r, e.x) && Connected(A, q, e.y);
    ConnectedSymmetric(A, r, e.x);
    if r == q {
      ConnectedTransitive(A, e.x, r, e.y);
    } else {
      // start and 1 would be joined by e although they are in different components
      ConnectedByEdge(E, e);
      ConnectedSymmetric(E, e.x, e.y);
      ConnectedSubset(A, E, r, e.x);
      ConnectedSubset(A, E, q, e.y);
      ConnectedTransitive(E, r, e.x, e.y);
      ConnectedSymmetric(E, q, e.y);
      ConnectedTransitive(E, r, e.y, q);
      ConnectedSymmetric(E, r, q);
      assert false;
    }
  }

  // ---------- Relaxing the list of the new tree vertex ----------

  /** Fringe of w with respect to the tree T and the first k list nodes of v. */
  ghost predicate PartFringe(E: set<Edge>, T: set<int>, v: int, row: seq<EdgeNode>, k: int, dist: seq<int>,
      par: seq<int>, w: int)
    requires 0 <= w < |dist| == |par| && 0 <= k <= |row|
  {
    && dist[w] <= MAXINT
    && (par[w] == -1 ==> dist[w] == MAXINT)
    && (par[w] != -1 ==> par[w] in T + {v} && Oriented(Edge(par[w], w, dist[w])) in E)
    && (forall u, weight {:trigger Oriented(Edge(u, w, weight))} ::
          u in T && Oriented(Edge(u, w, weight)) in E ==> dist[w] <= weight)
    && (forall j :: 0 <= j < k && row[j].y == w ==> dist[w] <= row[j].weight)
  }

  ghost predicate PartFringes(E: set<Edge>, n: int, T: set<int>, v: int, row: seq<EdgeNode>, k: int, dist: seq<int>,
      par: seq<int>)
    requires 0 <= n < |dist| == |par| && 0 <= k <= |row|
  {
    forall w {:trigger dist[w]} {:trigger PartFringe(E, T, v, row, k, dist, par, w)} ::
      1 <= w <= n && w !in T && w != v ==> PartFringe(E, T, v, row, k, dist, par, w)
  }

  lemma StartRelaxing(E: set<Edge>, n: int, T: set<int>, v: int, row: seq<EdgeNode>, dist: seq<int>, par: seq<int>)
    requires 0 <= n < |dist| == |par| && FringeExcept(E, n, T, dist, par, v)
    ensures PartFringes(E, n, T, v, row, 0, dist, par)
  {
    forall w | 1 <= w <= n && w !in T && w != v ensures PartFringe(E, T, v, row, 0, dist, par, w) {
      assert Fringe(E, T, dist, par, w);
    }
  }

  lemma RelaxStep(E: set<Edge>, n: int, T: set<int>, v: int, row: seq<EdgeNode>, k: int,
                  dist: seq<int>, par: seq<int>, dist': seq<int>, par': seq<int>)
    requires 0 <= n < |dist| == |par| && 0 <= k < |row| && 1 <= row[k].y <= n
    requires PartFringes(E, n, T, v, row, k, dist, par)
    requires var w := row[k].y;
      if dist[w] > row[k].weight && w !in T && w != v
      then dist' == dist[w := row[k].weight] && par' == par[w := v] && v != -1
           && (row[k].weight < MAXINT ==> Oriented(Edge(v, w, row[k].weight)) in E)
      else dist' == dist && par' == par
    ensures PartFringes(E, n, T, v, row, k + 1, dist', par')
  {
    forall w | 1 <= w <= n && w !in T && w != v
      ensures PartFringe(E, T, v, row, k + 1, dist', par', w)
    {
      assert PartFringe(E, T, v, row, k, dist, par, w) by { assert dist[w] == dist[w]; }
    }
  }

  lemma FinishRelaxing(log: seq<Edge>, n: int, T: set<int>, v: int, row: seq<EdgeNode>, dist: seq<int>, par: seq<int>)
    requires 0 <= n < |dist| == |par| && row == Row(log, v)
    requires PartFringes(LightEdges(log), n, T, v, row, |row|, dist, par)
    ensures forall x :: FringeExcept(LightEdges(log), n, T + {v}, dist, par, x)
  {
    var E, T' := LightEdges(log), T + {v};
    forall w | 1 <= w <= n && w !in T' ensures Fringe(E, T', dist, par, w) {
      assert PartFringe(E, T, v, row, |row|, dist, par, w);
      forall u, weight {:trigger Oriented(Edge(u, w, weight))} |
        u in T' && Oriented(Edge(u, w, weight)) in E
        ensures dist[w] <= weight
      {
        if u == v {
          RowNodeIsEdge(log, v, w, weight);
          var j :| 0 <= j < |row| && row[j] == EdgeNode(w, weight);
        }
      }
    }
  }

  ghost predicate Flags(intree: seq<bool>, T: set<int>, n: int)
    requires 0 <= n < |intree|
  {
    && (forall v :: v in T ==> 1 <= v <= n)
    && (forall v :: 1 <= v <= n ==> (intree[v] <==> v in T))
  }

  method Relax(g: Graph, v: int, intree: array<bool>, distance: array<int>, parent: array<int>, ghost T: set<int>,
      ghost log: seq<Edge>)
    requires WellFormed(g) && Undirected(g, log) && 1 <= v <= g.nvertices
    requires intree.Length == distance.Length == parent.Length == MAXV + 1 && distance != parent
    requires Flags(intree[..], T + {v}, g.nvertices)
    requires FringeExcept(LightEdges(log), g.nvertices, T, distance[..], parent[..], v)
    modifies distance, parent
    ensures forall x :: FringeExcept(LightEdges(log), g.nvertices, T + {v}, distance[..], parent[..], x)
    ensures forall t :: t in T + {v} ==> distance[t] == old(distance[t]) && parent[t] == old(parent[t])
  {
    hide PartFringe, Fringe, FringeExcept, PartFringes;
    ghost var E, n, row := LightEdges(log), g.nvertices, g.edges[v];
    StartRelaxing(E, n, T, v, row, distance[..], parent[..]);
    var k := 0;
    while k < |g.edges[v]|
      invariant 0 <= k <= |row|
      invariant PartFringes(E, n, T, v, row, k, distance[..], parent[..])
      invariant forall t :: t in T + {v} ==> distance[t] == old(distance[t]) && parent[t] == old(parent[t])
    {
      var w, weight := g.edges[v][k].y, g.edges[v][k].weight;
      ghost var dist, par := distance[..], parent[..];
      if distance[w] > weight && !intree[w] {
        LightNode(log, v, w, weight, row);
        distance[w] := weight;
        parent[w] := v;
        assert distance[..] == dist[w := weight] && parent[..] == par[w := v];
      }
      RelaxStep(E, n, T, v, row, k, dist, par, distance[..], parent[..]);
      k := k + 1;
    }
    FinishRelaxing(log, n, T, v, row, distance[..], parent[..]);
  }

  lemma LightNode(log: seq<Edge>, v: int, w: int, weight: int, row: seq<EdgeNode>)
    requires row == Row(log, v) && EdgeNode(w, weight) in row && v != w
    ensures weight < MAXINT ==> Oriented(Edge(v, w, weight)) in LightEdges(log)
  {
    RowNodeIsEdge(log, v, w, weight);
  }

  // ---------- Choosing the next vertex ----------

  /** The first outside vertex of least distance below MAXINT, or vertex 1 if there is none. */
  ghost predicate Nearest(n: int, T: set<int>, dist: seq<int>, v: int)
    requires 0 <= n < |dist|
  {
    if 1 <= v <= n && v !in T && dist[v] < MAXINT
    then forall i :: 1 <= i <= n && i !in T ==> dist[v] <= dist[i]
    else v == 1 && forall i :: 1 <= i <= n && i !in T ==> dist[i] >= MAXINT
  }

  method SelectNearest(n: int, intree: array<bool>, distance: array<int>, ghost T: set<int>) returns (v: int)
    requires 1 <= n < intree.Length == distance.Length && Flags(intree[..], T, n)
    ensures Nearest(n, T, distance[..], v) && 1 <= v <= n
  {
    v := 1;
    var dist := MAXINT;
    for i := 1 to n + 1
      invariant dist <= MAXINT && 1 <= v <= n
      invariant if dist < MAXINT then v !in T && dist == distance[v] else v == 1
      invariant forall j :: 1 <= j < i && j !in T ==> dist <= distance[j]
    {
      if !intree[i] && dist > distance[i] {
        dist := distance[i];
        v := i;
      }
    }
  }

  lemma CrossingEdgeLeaves(E: set<Edge>, n: int, T: set<int>, dist: seq<int>, par: seq<int>, f: Edge) returns (w: int)
    requires 0 <= n < |dist| == |par| && forall x :: FringeExcept(E, n, T, dist, par, x)
    requires f in E && Crosses(f, Inside(T)) && Oriented(f) == f
    requires 1 <= f.x <= n && 1 <= f.y <= n
    ensures 1 <= w <= n && w !in T && dist[w] <= f.weight
  {
    var u := if f.x in T then f.x else f.y;
    w := if f.x in T then f.y else f.x;
    assert FringeExcept(E, n, T, dist, par, 0);
    assert Fringe(E, T, dist, par, w) by { assert dist[w] == dist[w]; }
    assert Oriented(Edge(u, w, f.weight)) == f;
  }

  lemma LightEndpoints(log: seq<Edge>, n: int, f: Edge)
    requires Endpoints(log, n) && f in LightEdges(log)
    ensures Oriented(f) == f && 1 <= f.x <= n && 1 <= f.y <= n && f.weight < MAXINT
  {
    var k :| 0 <= k < |log| && log[k].x != log[k].y && f == Oriented(log[k]);
    assert 1 <= log[k].x <= n;
  }

  lemma NearestIsNext(log: seq<Edge>, n: int, T: set<int>, dist: seq<int>, par: seq<int>, v: int)
    requires 0 <= n < |dist| == |par| && Endpoints(log, n) && 1 <= v <= n
    requires forall x :: FringeExcept(LightEdges(log), n, T, dist, par, x)
    requires Nearest(n, T, dist, v)
    ensures Next(LightEdges(log), n, T, dist, par, v)
    ensures v !in T && par[v] == -1 ==> v == 1
    ensures v in T ==> v == 1
  {
    var E := LightEdges(log);
    assert FringeExcept(E, n, T, dist, par, 0);
    if v !in T {
      assert Fringe(E, T, dist, par, v) by { assert dist[v] == dist[v]; }
      if par[v] != -1 {
        LightEndpoints(log, n, Oriented(Edge(par[v], v, dist[v])));
      }
    }
    forall f | f in E && Crosses(f, Inside(T)) ensures v !in T && par[v] != -1 && dist[v] <= f.weight {
      LightEndpoints(log, n, f);
      var w := CrossingEdgeLeaves(E, n, T, dist, par, f);
    }
  }

  // ---------- The whole algorithm ----------

  /** Parentless tree vertices are start and, if it lies elsewhere, vertex 1. */
  ghost predicate RootsOf(E: set<Edge>, T: set<int>, par: seq<int>, start: int)
    requires forall v :: v in T ==> 0 <= v < |par|
  {
    forall t :: t in T ==> (par[t] == -1 <==> t == start || (t == 1 && !Connected(E, start, 1)))
  }

  /** Tree vertices are ranked in the order of joining, parents first. */
  ghost predicate Hung(T: set<int>, par: seq<int>, rank: seq<int>)
    requires |rank| <= |par| && forall v :: v in T ==> 0 <= v < |rank|
  {
    forall t {:trigger HungAt(T, par, rank, t)} :: t in T ==> HungAt(T, par, rank, t)
  }

  ghost predicate HungAt(T: set<int>, par: seq<int>, rank: seq<int>, t: int)
    requires |rank| <= |par| && t in T && forall v :: v in T ==> 0 <= v < |rank|
  {
    0 <= rank[t] < |T| && (par[t] != -1 ==> par[t] in T && rank[par[t]] < rank[t])
  }

  ghost predicate Tree(log: seq<Edge>, n: int, T: set<int>, A: set<Edge>, dist: seq<int>, par: seq<int>,
                       rank: seq<int>, start: int) {
    && 0 <= n < |dist| == |par| && |rank| == n + 1 && (forall v :: v in T ==> 1 <= v <= n)
    && Hung(T, par, rank)
    && Grown(LightEdges(log), T, A, start)
    && A == ParentEdges(T, dist, par)
    && RootsOf(LightEdges(log), T, par, start)
  }

  ghost predicate Choice(log: seq<Edge>, n: int, T: set<int>, dist: seq<int>, par: seq<int>, start: int, v: int) {
    && 0 <= n < |dist| == |par|
    && Next(LightEdges(log), n, T, dist, par, v)
    && FringeExcept(LightEdges(log), n, T, dist, par, v)
    && (v in T ==> v == 1)
    && (v !in T && par[v] == -1 ==> v == if T == {} then start else 1)
  }

  lemma StartTree(log: seq<Edge>, n: int, dist: seq<int>, par: seq<int>, rank: seq<int>, start: int)
    requires 1 <= start <= n < |dist| == |par| && |rank| == n + 1
    requires forall v :: 1 <= v <= n ==> par[v] == -1 && (v != start ==> dist[v] == MAXINT)
    ensures Tree(log, n, {}, {}, dist, par, rank, start) && Choice(log, n, {}, dist, par, start, start)
  {
    NothingGrown(LightEdges(log), start);
  }

  lemma ParentEdgesGrow(T: set<int>, v: int, dist: seq<int>, par: seq<int>, dist': seq<int>, par': seq<int>)
    requires |dist| == |par| == |dist'| == |par'| && forall t :: t in T + {v} ==> 0 <= t < |dist|
    requires forall t :: t in T + {v} ==> dist'[t] == dist[t] && par'[t] == par[t]
    ensures ParentEdges(T + {v}, dist', par')
            == ParentEdges(T, dist, par) + if par[v] == -1 then {} else {Oriented(Edge(par[v], v, dist[v]))}
  {
    var L, R := ParentEdges(T + {v}, dist', par'), ParentEdges(T, dist, par);
    forall e | e in R ensures e in L {
      var t :| t in T && par[t] != -1 && e == Oriented(Edge(par[t], t, dist[t]));
      assert t in T + {v} && par'[t] != -1;
    }
    if par[v] != -1 {
      assert v in T + {v} && par'[v] != -1;
    }
  }

  lemma AdvanceGrown(log: seq<Edge>, n: int, T: set<int>, A: set<Edge>, dist: seq<int>, par: seq<int>,
                     rank: seq<int>, start: int, v: int) returns (A': set<Edge>)
    requires Tree(log, n, T, A, dist, par, rank, start) && Choice(log, n, T, dist, par, start, v) && v !in T
    ensures A' == A + if par[v] == -1 then {} else {Oriented(Edge(par[v], v, dist[v]))}
    ensures Grown(LightEdges(log), T + {v}, A', start)
    ensures par[v] == -1 <==> v == start || (v == 1 && !Connected(LightEdges(log), start, 1))
  {
    hide Acyclic, Extendable, Connected, Fringe;
    var E := LightEdges(log);
    if par[v] == -1 {
      GrowByRoot(E, T, A, start, v);
      A' := A;
      if T != {} {
        if Connected(E, start, 1) { ConnectedStaysInside(E, Inside(T), start, 1); }
      }
    } else {
      GrowByEdge(E, T, A, start, par[v], v, dist[v]);
      A' := A + {Oriented(Edge(par[v], v, dist[v]))};
      assert v != start;
      if v == 1 {
        assert Rooted(E, A, T, start);
        assert Connected(A, start, par[v]);
        OneIsReached(E, A, T, start, par[v], dist[v]);
      }
    }
  }

  lemma OneIsReached(E: set<Edge>, A: set<Edge>, T: set<int>, start: int, u: int, weight: int)
    requires A <= E && Connected(A, start, u) && Oriented(Edge(u, 1, weight)) in E
    ensures Connected(E, start, 1)
  {
    var e := Oriented(Edge(u, 1, weight));
    ConnectedByEdge(E, e);
    ConnectedSymmetric(E, e.x, e.y);
    ConnectedSubset(A, E, start, u);
    ConnectedTransitive(E, start, u, 1);
  }

  lemma AdvanceTree(log: seq<Edge>, n: int, T: set<int>, A: set<Edge>, dist: seq<int>, par: seq<int>, rank: seq<int>,
                    dist': seq<int>, par': seq<int>, start: int, v: int) returns (A': set<Edge>, rank': seq<int>)
    requires Tree(log, n, T, A, dist, par, rank, start) && Choice(log, n, T, dist, par, start, v) && v !in T
    requires |dist'| == |par'| == |dist|
    requires forall t :: t in T + {v} ==> dist'[t] == dist[t] && par'[t] == par[t]
    ensures Tree(log, n, T + {v}, A', dist', par', rank', start)
  {
    hide Grown, Fringe, FringeExcept, Connected, Hung, RootsOf, ParentEdges;
    A' := AdvanceGrown(log, n, T, A, dist, par, rank, start, v);
    ParentEdgesGrow(T, v, dist, par, dist', par');
    rank' := rank[v := |T|];
    HungGrows(T, v, par, par', rank);
    RootsGrow(LightEdges(log), T, v, par, par', start);
  }

  lemma RootsGrow(E: set<Edge>, T: set<int>, v: int, par: seq<int>, par': seq<int>, start: int)
    requires |par'| == |par| && 0 <= v < |par| && (forall t :: t in T ==> 0 <= t < |par|) && RootsOf(E, T, par, start)
    requires forall t :: t in T + {v} ==> par'[t] == par[t]
    requires par[v] == -1 <==> v == start || (v == 1 && !Connected(E, start, 1))
    ensures RootsOf(E, T + {v}, par', start)
  {
    hide Connected;
  }

  lemma HungGrows(T: set<int>, v: int, par: seq<int>, par': seq<int>, rank: seq<int>)
    requires |rank| <= |par| == |par'| && (forall t :: t in T ==> 0 <= t < |rank|) && Hung(T, par, rank)
    requires 0 <= v < |rank| && v !in T && (par[v] != -1 ==> par[v] in T)
    requires forall t :: t in T + {v} ==> par'[t] == par[t]
    ensures Hung(T + {v}, par', rank[v := |T|])
  {
    var rank' := rank[v := |T|];
    assert |T + {v}| == |T| + 1;
    forall t | t in T + {v} ensures HungAt(T + {v}, par', rank', t) {
      if t != v { assert HungAt(T, par, rank, t); }
      if par[v] != -1 { assert HungAt(T, par, rank, par[v]); }
    }
  }

  lemma ChooseNext(log: seq<Edge>, n: int, T: set<int>, dist: seq<int>, par: seq<int>, start: int, v: int)
    requires 0 <= n < |dist| == |par| && Endpoints(log, n) && 1 <= v <= n && T != {}
    requires forall x :: FringeExcept(LightEdges(log), n, T, dist, par, x)
    requires Nearest(n, T, dist, v)
    ensures Choice(log, n, T, dist, par, start, v)
  {
    hide Fringe;
    NearestIsNext(log, n, T, dist, par, v);
    assert FringeExcept(LightEdges(log), n, T, dist, par, v);
  }

  /** Where the path to v starts: at start, or at 1 if v is in the other component. */
  ghost function RootOf(E: set<Edge>, start: int, v: int): int {
    if Connected(E, start, v) then start else 1
  }

  /** The path printed for each tree vertex is a walk along tree edges from its root. */
  ghost predicate TreePaths(E: set<Edge>, n: int, T: set<int>, dist: seq<int>, par: seq<int>, rank: seq<int>,
                            start: int) {
    && 0 <= n < |dist| == |par| && (forall v :: v in T ==> 1 <= v <= n) && Ranked(par[..n + 1], rank)
    && forall v {:trigger RootOf(E, start, v)} :: v in T ==>
         TreePath(ParentEdges(T, dist, par), FindPath(RootOf(E, start, v), v, par[..n + 1], rank),
                  RootOf(E, start, v), v)
  }

  ghost predicate TreePath(F: set<Edge>, p: seq<int>, u: int, v: int) {
    Walk(F, p) && p[0] == u && p[|p| - 1] == v
  }

  ghost predicate Outcome(log: seq<Edge>, n: int, T: set<int>, dist: seq<int>, par: seq<int>, rank: seq<int>,
                          start: int) {
    && 0 <= n < |dist| == |par|
    && (forall v :: v in T <==> Reached(LightEdges(log), start, v))
    && (forall v :: v in T ==> 1 <= v <= n)
    && RootsOf(LightEdges(log), T, par, start)
    && (forall v :: 1 <= v <= n && v !in T ==> par[v] == -1)
    && MinimumSpanningForest(ReachedEdges(LightEdges(log), start), ParentEdges(T, dist, par))
    && TreePaths(LightEdges(log), n, T, dist, par, rank, start)
  }

  lemma FinishTree(log: seq<Edge>, n: int, T: set<int>, A: set<Edge>, dist: seq<int>, par: seq<int>, rank: seq<int>,
                   start: int, v: int)
    requires Tree(log, n, T, A, dist, par, rank, start) && Choice(log, n, T, dist, par, start, v) && v in T
    ensures Outcome(log, n, T, dist, par, rank, start)
  {
    hide Acyclic, Extendable, Connected, TreePaths;
    var E := LightEdges(log);
    FinishedIsMinimum(E, T, A, start);
    forall w | 1 <= w <= n && w !in T ensures par[w] == -1 {
      assert Fringe(E, T, dist, par, w);
      assert Crosses(Oriented(Edge(par[w], w, dist[w])), Inside(T)) <==> par[w] in T;
    }
    PathsAreWalks(E, n, T, dist, par, rank, start);
  }

  /** Parents of tree vertices are tree vertices of the same component, joined by a tree edge. */
  lemma ParentIsNeighbour(E: set<Edge>, T: set<int>, dist: seq<int>, par: seq<int>, start: int, v: int)
    requires |dist| == |par| && (forall t :: t in T ==> 0 <= t < |par|) && RootsOf(E, T, par, start)
    requires ParentEdges(T, dist, par) <= E && v in T && v != RootOf(E, start, v)
    ensures par[v] != -1 && Adjacent(ParentEdges(T, dist, par), par[v], v)
    ensures RootOf(E, start, par[v]) == RootOf(E, start, v)
  {
    hide Connected;
    ConnectedReflexive(E, start);
    assert par[v] != -1;
    var e := Oriented(Edge(par[v], v, dist[v]));
    assert e in ParentEdges(T, dist, par) && Joins(e, par[v], v);
    ConnectedByEdge(E, e);
    ConnectedSymmetric(E, e.x, e.y);
    if Connected(E, start, v) { ConnectedTransitive(E, start, v, par[v]); }
    if Connected(E, start, par[v]) { ConnectedTransitive(E, start, par[v], v); }
  }

  lemma {:induction false} PathIsWalk(E: set<Edge>, n: int, T: set<int>, dist: seq<int>, par: seq<int>, rank: seq<int>,
                                      start: int, v: int)
    requires 0 <= n < |dist| == |par| && |rank| == n + 1 && (forall t :: t in T ==> 1 <= t <= n)
    requires RootsOf(E, T, par, start) && ParentEdges(T, dist, par) <= E
    requires Hung(T, par, rank) && Ranked(par[..n + 1], rank) && v in T
    ensures TreePath(ParentEdges(T, dist, par), FindPath(RootOf(E, start, v), v, par[..n + 1], rank),
                     RootOf(E, start, v), v)
    decreases rank[v]
  {
    hide Connected, ParentEdges, RootsOf;
    var r, u := RootOf(E, start, v), par[v];
    assert HungAt(T, par, rank, v);
    if v != r {
      ParentIsNeighbour(E, T, dist, par, start, v);
      assert par[..n + 1][v] == u && u in T;
      assert HungAt(T, par, rank, u);
      PathIsWalk(E, n, T, dist, par, rank, start, u);
      WalkExtends(ParentEdges(T, dist, par), FindPath(r, u, par[..n + 1], rank), r, u, v);
    }
  }

  lemma WalkExtends(F: set<Edge>, p: seq<int>, r: int, u: int, v: int)
    requires TreePath(F, p, r, u) && Adjacent(F, u, v)
    ensures TreePath(F, p + [v], r, v)
  {
    hide Adjacent;
    var q := p + [v];
    forall i | 0 <= i < |q| - 1 ensures Adjacent(F, q[i], q[i+1]) {
      if i < |p| - 1 { assert Adjacent(F, p[i], p[i+1]); }
    }
  }

  lemma PathsAreWalks(E: set<Edge>, n: int, T: set<int>, dist: seq<int>, par: seq<int>, rank: seq<int>, start: int)
    requires 0 <= n < |dist| == |par| && |rank| == n + 1 && (forall t :: t in T ==> 1 <= t <= n)
    requires RootsOf(E, T, par, start) && ParentEdges(T, dist, par) <= E && Hung(T, par, rank)
    requires forall v :: 1 <= v <= n && v !in T ==> par[v] == -1
    ensures TreePaths(E, n, T, dist, par, rank, start)
  {
    hide Connected, RootsOf, ParentEdges, TreePath;
    var parents := par[..n + 1];
    forall v {:trigger parents[v]} | 1 <= v < |parents| && parents[v] != -1
      ensures 1 <= parents[v] < |parents| && 0 <= rank[parents[v]] < rank[v]
    {
      assert HungAt(T, par, rank, v) && HungAt(T, par, rank, par[v]);
    }
    forall v {:trigger RootOf(E, start, v)} | v in T
      ensures TreePath(ParentEdges(T, dist, par), FindPath(RootOf(E, start, v), v, parents, rank),
                       RootOf(E, start, v), v)
    {
      PathIsWalk(E, n, T, dist, par, rank, start, v);
    }
  }

  lemma ChoiceHasFringe(log: seq<Edge>, n: int, T: set<int>, dist: seq<int>, par: seq<int>, start: int, v: int)
    requires Choice(log, n, T, dist, par, start, v)
    ensures FringeExcept(LightEdges(log), n, T, dist, par, v)
  {}

  /** Builds the parent array. T and dist are the final tree vertices and distances; with them
      the parents name the tree edges {parent[v], v} of weight dist[v]. rank orders the tree
      vertices by when they joined, so that following the parents ends. */
  method Prim(g: Graph, start: int, parent: array<int>, ghost log: seq<Edge>)
      returns (ghost T: set<int>, ghost dist: seq<int>, ghost rank: seq<int>)
    requires WellFormed(g) && Undirected(g, log) && Endpoints(log, g.nvertices) && 1 <= start <= g.nvertices
    requires parent.Length == MAXV + 1
    modifies parent
    ensures Outcome(log, g.nvertices, T, dist, parent[..], rank, start)
  {
    hide Tree, Choice, FringeExcept, Outcome, Nearest, Undirected, Endpoints;
    var intree := new bool[MAXV + 1];
    var distance := new int[MAXV + 1];
    for i := 1 to g.nvertices + 1
      invariant forall v :: 1 <= v < i ==> !intree[v] && parent[v] == -1 && distance[v] == MAXINT
    {
      intree[i], distance[i], parent[i] := false, MAXINT, -1;
    }
    distance[start] := 0;
    var v := start;
    T := {};
    ghost var A: set<Edge> := {};
    rank := seq(g.nvertices + 1, _ => 0);
    StartTree(log, g.nvertices, distance[..], parent[..], rank, start);
    while !intree[v]
      invariant 1 <= v <= g.nvertices && Flags(intree[..], T, g.nvertices)
      invariant Tree(log, g.nvertices, T, A, distance[..], parent[..], rank, start)
      invariant Choice(log, g.nvertices, T, distance[..], parent[..], start, v)
      decreases g.nvertices - |T|
    {
      ghost var before, parents := distance[..], parent[..];
      assert FringeExcept(LightEdges(log), g.nvertices, T, distance[..], parent[..], v)
          by { ChoiceHasFringe(log, g.nvertices, T, distance[..], parent[..], start, v); }
      intree[v] := true;
      Relax(g, v, intree, distance, parent, T, log);
      A, rank := AdvanceTree(log, g.nvertices, T, A, before, parents, rank, distance[..], parent[..], start, v);
      T := T + {v};
      UpTo(g.nvertices, T);
      v := SelectNearest(g.nvertices, intree, distance, T);
      ChooseNext(log, g.nvertices, T, distance[..], parent[..], start, v);
    }
    dist := distance[..];
    FinishTree(log, g.nvertices, T, A, dist, parent[..], rank, start, v);
  }

  /** On a connected graph of light edges the tree weighs the same as any minimum spanning
      forest of the graph, in particular the one Kruskal's algorithm reports. */
  lemma SameWeightAsKruskal(log: seq<Edge>, n: int, T: set<int>, dist: seq<int>, par: seq<int>,
                           rank: seq<int>, start: int, accepted: set<Edge>)
    requires Endpoints(log, n) && Outcome(log, n, T, dist, par, rank, start)
    requires forall e :: e in EdgeSet(log) ==> e.weight < MAXINT
    requires forall v :: 1 <= v <= n ==> Connected(EdgeSet(log), start, v)
    requires MinimumSpanningForest(EdgeSet(log), accepted)
    ensures Weight(ParentEdges(T, dist, par)) == Weight(accepted)
  {
    hide Connected, SpanningForest;
    var E := EdgeSet(log);
    assert LightEdges(log) == E;
    forall e | e in E ensures e in ReachedEdges(E, start) {
      LightEndpoints(log, n, e);
    }
    assert ReachedEdges(E, start) == E;
    MinimumWeightUnique(E, ParentEdges(T, dist, par), accepted);
  }
}
