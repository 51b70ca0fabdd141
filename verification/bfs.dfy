/** Breadth-first search: what it discovers, and the shortest paths its parents encode. */
module BreadthFirst {
  import opened Graphs
  import opened Paths
  import opened Counting
  import opened Searches
  import Queues

  // ---------- Invariants on values ----------

  /** The search in mid-flight: D discovered, P processed, Q queued, level by level. */
  datatype Front = Front(D: set<int>, P: set<int>, Q: seq<int>, level: seq<int>, parent: seq<int>)

  /** The queue is exactly what is discovered and not processed, each vertex once. */
  ghost predicate Queued(g: Graph, f: Front) {
    && (forall v :: v in f.D ==> 1 <= v <= g.nvertices)
    && f.P <= f.D
    && (forall v :: v in f.Q <==> v in f.D && v !in f.P)
    && Distinct(f.Q)
  }

  ghost function Level(f: Front, v: int): int {
    if 0 <= v < |f.level| then f.level[v] else 0
  }

  ghost function Parent(f: Front, v: int): int {
    if 0 <= v < |f.parent| then f.parent[v] else -1
  }

  /** Queued vertices stand in nondecreasing level, within one level of the processed ones. */
  ghost predicate Levelled(f: Front, base: int) {
    && (forall v :: v in f.P ==> Level(f, v) <= base)
    && (forall i :: 0 <= i < |f.Q| ==> base <= Level(f, f.Q[i]) <= base + 1)
    && (forall i, j :: 0 <= i <= j < |f.Q| ==> Level(f, f.Q[i]) <= Level(f, f.Q[j]))
  }

  ghost predicate TreeArc(g: Graph, f: Front, s: int, v: int)
    requires WellFormed(g)
  {
    if v == s then Level(f, v) == 0 && Parent(f, v) == -1
    else
      && Parent(f, v) in f.P && Arc(g, Parent(f, v), v)
      && Level(f, v) == Level(f, Parent(f, v)) + 1
  }

  ghost predicate TreeArcs(g: Graph, f: Front, s: int)
    requires WellFormed(g)
  {
    && (forall v :: v in f.D ==> Level(f, v) >= 0 && TreeArc(g, f, s, v))
    && (forall v :: v !in f.D ==> Parent(f, v) == -1)
  }

  /** Arcs out of processed vertices lead to discovered vertices at most one level deeper;
      of the current vertex this is known only for its first k list nodes. */
  ghost predicate Explored(g: Graph, f: Front, cur: int, k: int)
    requires WellFormed(g)
  {
    forall u, j :: u in f.P && 1 <= u <= g.nvertices && 0 <= j < |g.edges[u]| && (u == cur ==> j < k) ==>
      g.edges[u][j].y in f.D && Level(f, g.edges[u][j].y) <= Level(f, u) + 1
  }

  ghost predicate BfsState(g: Graph, s: int, f: Front, base: int, cur: int, k: int)
    requires WellFormed(g)
  {
    && |f.level| == |f.parent| == g.nvertices + 1
    && s in f.D && Queued(g, f)
    && Levelled(f, base) && (cur in f.P ==> Level(f, cur) == base)
    && TreeArcs(g, f, s)
    && Explored(g, f, cur, k)
  }

  /** u is the vertex taken first among those with an arc to v. */
  ghost predicate FirstTaken(g: Graph, order: seq<int>, u: int, v: int)
    requires WellFormed(g)
  {
    exists a :: TakenAt(g, order, u, v, a)
  }

  ghost predicate TakenAt(g: Graph, order: seq<int>, u: int, v: int, a: int)
    requires WellFormed(g)
  {
    0 <= a < |order| && order[a] == u && Arc(g, u, v) && forall i :: 0 <= i < a ==> !Arc(g, order[i], v)
  }

  /** Every vertex was discovered from the first vertex taken that has an arc to it. */
  ghost predicate FirstParents(g: Graph, s: int, f: Front, order: seq<int>)
    requires WellFormed(g)
  {
    forall v :: v in f.D && v != s ==> FirstTaken(g, order, Parent(f, v), v)
  }

  lemma FirstTakenStays(g: Graph, order: seq<int>, x: int, u: int, v: int)
    requires WellFormed(g) && FirstTaken(g, order, u, v)
    ensures FirstTaken(g, order + [x], u, v)
  {
    hide Arc;
    var a :| TakenAt(g, order, u, v, a);
    assert TakenAt(g, order + [x], u, v, a);
  }

  // ---------- Taking a vertex from the queue ----------

  ghost function Taken(f: Front): Front
    requires f.Q != []
  {
    f.(P := f.P + {f.Q[0]}, Q := f.Q[1..])
  }

  lemma TakeQueued(g: Graph, f: Front)
    requires f.Q != [] && Queued(g, f)
    ensures Queued(g, Taken(f)) && f.Q[0] in f.D && f.Q[0] !in f.P
  {
    assert f.Q[0] in f.Q;
    assert f.Q == [f.Q[0]] + f.Q[1..];
  }

  lemma TakeLevelled(f: Front, base: int)
    requires f.Q != [] && Levelled(f, base)
    ensures Levelled(Taken(f), Level(f, f.Q[0]))
  {
    var f', b := Taken(f), Level(f, f.Q[0]);
    assert forall v :: Level(f', v) == Level(f, v);
    forall i | 0 <= i < |f'.Q| ensures b <= Level(f', f'.Q[i]) <= b + 1 {
      assert f'.Q[i] == f.Q[i+1];
      assert Level(f, f.Q[0]) <= Level(f, f.Q[i+1]);
    }
    forall i, j | 0 <= i <= j < |f'.Q| ensures Level(f', f'.Q[i]) <= Level(f', f'.Q[j]) {
      assert f'.Q[i] == f.Q[i+1] && f'.Q[j] == f.Q[j+1];
    }
  }

  lemma TakeState(g: Graph, s: int, f: Front, base: int)
    requires WellFormed(g) && f.Q != [] && BfsState(g, s, f, base, 0, 0)
    ensures BfsState(g, s, Taken(f), Level(f, f.Q[0]), f.Q[0], 0)
  {
    hide Levelled, Distinct, Arc;
    var f' := Taken(f);
    TakeQueued(g, f);
    TakeLevelled(f, base);
    assert TreeArcs(g, f', s) by {
      forall v | v in f'.D ensures Level(f', v) >= 0 && TreeArc(g, f', s, v) { assert TreeArc(g, f, s, v); }
    }
    assert Explored(g, f', f.Q[0], 0);
  }

  // ---------- Handling one arc of the current vertex ----------

  lemma SeenState(g: Graph, s: int, f: Front, base: int, v: int, k: int)
    requires WellFormed(g) && v in f.P && 1 <= v <= g.nvertices && 0 <= k < |g.edges[v]|
    requires BfsState(g, s, f, base, v, k) && g.edges[v][k].y in f.D
    ensures BfsState(g, s, f, base, v, k + 1)
  {
    var y := g.edges[v][k].y;
    if y !in f.P {
      var i :| 0 <= i < |f.Q| && f.Q[i] == y;
    }
    assert Level(f, y) <= Level(f, v) + 1;
  }

  ghost function Discovered(f: Front, v: int, y: int): Front
    requires 0 <= y < |f.level| == |f.parent|
  {
    Front(f.D + {y}, f.P, f.Q + [y], f.level[y := Level(f, v) + 1], f.parent[y := v])
  }

  lemma DiscoverLevelled(f: Front, base: int, v: int, y: int)
    requires 0 <= y < |f.level| == |f.parent| && y !in f.P && y !in f.Q
    requires Levelled(f, base) && Level(f, v) == base
    ensures Levelled(Discovered(f, v, y), base)
  {
    var f' := Discovered(f, v, y);
    assert forall w :: w != y ==> Level(f', w) == Level(f, w);
    assert Level(f', y) == base + 1;
    forall i | 0 <= i < |f'.Q| ensures base <= Level(f', f'.Q[i]) <= base + 1 {
      if i < |f.Q| { assert f'.Q[i] == f.Q[i] && f.Q[i] in f.Q; }
    }
    forall i, j | 0 <= i <= j < |f'.Q| ensures Level(f', f'.Q[i]) <= Level(f', f'.Q[j]) {
      if j < |f.Q| { assert f'.Q[i] == f.Q[i] && f'.Q[j] == f.Q[j] && f.Q[i] in f.Q && f.Q[j] in f.Q; }
    }
  }

  lemma DiscoverQueued(g: Graph, f: Front, v: int, y: int)
    requires Queued(g, f) && y !in f.D && 1 <= y <= g.nvertices && 0 <= y < |f.level| == |f.parent|
    ensures Queued(g, Discovered(f, v, y))
  {
    var f' := Discovered(f, v, y);
    forall w ensures w in f'.Q <==> w in f'.D && w !in f'.P {
      assert w in f'.Q <==> w in f.Q || w == y;
    }
  }

  lemma DiscoverTreeArcs(g: Graph, f: Front, s: int, v: int, y: int)
    requires WellFormed(g) && 0 <= y < |f.level| == |f.parent| && f.P <= f.D
    requires TreeArcs(g, f, s) && y !in f.D && s in f.D && v in f.P && Arc(g, v, y)
    ensures TreeArcs(g, Discovered(f, v, y), s)
  {
    hide Arc;
    var f' := Discovered(f, v, y);
    forall w | w in f'.D ensures Level(f', w) >= 0 && TreeArc(g, f', s, w) {
      if w != y { assert TreeArc(g, f, s, w); } else { assert Level(f, v) >= 0; }
    }
  }

  lemma DiscoverExplored(g: Graph, f: Front, v: int, k: int)
    requires WellFormed(g) && 1 <= v <= g.nvertices && 0 <= k < |g.edges[v]| && f.P <= f.D
    requires |f.level| == |f.parent| == g.nvertices + 1
    requires Explored(g, f, v, k) && g.edges[v][k].y !in f.D && v in f.P
    ensures Explored(g, Discovered(f, v, g.edges[v][k].y), v, k + 1)
  {}

  lemma DiscoverState(g: Graph, s: int, f: Front, base: int, v: int, k: int)
    requires WellFormed(g) && v in f.P && 1 <= v <= g.nvertices && 0 <= k < |g.edges[v]|
    requires BfsState(g, s, f, base, v, k) && g.edges[v][k].y !in f.D
    ensures BfsState(g, s, Discovered(f, v, g.edges[v][k].y), base, v, k + 1)
  {
    hide Levelled, Arc, TreeArcs, Explored, Distinct;
    var y := g.edges[v][k].y;
    assert Arc(g, v, y) by { ListArc(g, v, k); }
    DiscoverLevelled(f, base, v, y);
    DiscoverQueued(g, f, v, y);
    DiscoverTreeArcs(g, f, s, v, y);
    DiscoverExplored(g, f, v, k);
  }

  lemma ListArc(g: Graph, v: int, k: int)
    requires WellFormed(g) && 1 <= v <= g.nvertices && 0 <= k < |g.edges[v]|
    ensures Arc(g, v, g.edges[v][k].y)
  {}

  lemma DoneState(g: Graph, s: int, f: Front, base: int, v: int)
    requires WellFormed(g) && 1 <= v <= g.nvertices
    requires BfsState(g, s, f, base, v, |g.edges[v]|)
    ensures BfsState(g, s, f, base, 0, 0)
  {}

  lemma DiscoverFirst(g: Graph, s: int, f: Front, base: int, order: seq<int>, v: int, k: int)
    requires WellFormed(g) && 1 <= v <= g.nvertices && 0 <= k < |g.edges[v]| && order != [] && order[|order| - 1] == v
    requires |f.level| == |f.parent| == g.nvertices + 1 && BfsState(g, s, f, base, v, k) && Taking(g, f, order)
    requires FirstParents(g, s, f, order) && g.edges[v][k].y !in f.D
    ensures FirstParents(g, s, Discovered(f, v, g.edges[v][k].y), order)
  {
    var y, n := g.edges[v][k].y, |order| - 1;
    assert Explored(g, f, v, k);
    hide BfsState;
    forall i | 0 <= i < n ensures !Arc(g, order[i], y) {
      assert order[i] in order && order[i] != v;
    }
    assert TakenAt(g, order, v, y, n);
    hide Arc, TakenAt;
    var f' := Discovered(f, v, y);
    forall w | w in f'.D && w != s ensures FirstTaken(g, order, Parent(f', w), w) {
      if w != y { assert Parent(f', w) == Parent(f, w); }
    }
  }

  // ---------- What the finished search means ----------

  /** Parents and levels of a finished search encode a path of level + 1 vertices. */
  lemma {:induction false} ParentsEncodePaths(g: Graph, s: int, f: Front, base: int, v: int)
    requires WellFormed(g) && BfsState(g, s, f, base, 0, 0) && v in f.D
    requires Ranked(f.parent, f.level)
    ensures PathFromTo(g, FindPath(s, v, f.parent, f.level), s, v)
    ensures |FindPath(s, v, f.parent, f.level)| == Level(f, v) + 1
    decreases Level(f, v)
  {
    hide Arc, Levelled, Explored, Path;
    assert TreeArc(g, f, s, v);
    if v == s {
      assert PathFromTo(g, [s], s, s) by { SingletonPath(g, s); }
    } else {
      var u := Parent(f, v);
      ParentsEncodePaths(g, s, f, base, u);
      PathExtend(g, FindPath(s, u, f.parent, f.level), s, u, v);
    }
  }

  lemma SingletonPath(g: Graph, s: int)
    requires WellFormed(g) && 1 <= s <= g.nvertices
    ensures PathFromTo(g, [s], s, s)
  {}

  lemma LevelsRankParents(g: Graph, s: int, f: Front, base: int)
    requires WellFormed(g) && BfsState(g, s, f, base, 0, 0)
    ensures Ranked(f.parent, f.level)
  {
    hide Arc, Levelled, Explored;
    forall v {:trigger f.parent[v]} | 1 <= v < |f.parent| && f.parent[v] != -1
      ensures 1 <= f.parent[v] < |f.parent| && 0 <= f.level[f.parent[v]] < f.level[v]
    {
      assert Parent(f, v) == f.parent[v];
      assert v in f.D && TreeArc(g, f, s, v);
      assert Level(f, f.parent[v]) >= 0;
    }
  }

  /** No walk reaches a vertex in fewer arcs than its level. */
  lemma {:induction false} LevelIsLowerBound(g: Graph, s: int, f: Front, base: int, p: seq<int>, v: int)
    requires WellFormed(g) && BfsState(g, s, f, base, 0, 0) && f.Q == []
    requires PathFromTo(g, p, s, v)
    ensures v in f.D && Level(f, v) <= |p| - 1
  {
    if |p| == 1 {
      assert TreeArc(g, f, s, s);
    } else {
      var u := p[|p| - 2];
      LevelIsLowerBound(g, s, f, base, p[..|p| - 1], u);
      assert u in f.P;
      var j :| 0 <= j < |g.edges[u]| && g.edges[u][j].y == v;
    }
  }

  lemma FinishedSearch(g: Graph, s: int, f: Front, base: int)
    requires WellFormed(g) && BfsState(g, s, f, base, 0, 0) && f.Q == []
    ensures Ranked(f.parent, f.level) && f.P == f.D
    ensures forall v :: v in f.D <==> Reachable(g, s, v)
    ensures forall v :: v in f.D ==> ShortestPath(g, FindPath(s, v, f.parent, f.level), s, v)
  {
    hide Arc, Levelled, Explored, Path, TreeArcs;
    LevelsRankParents(g, s, f, base);
    assert f.P == f.D by { forall v | v in f.D ensures v in f.P { assert v !in f.Q; } }
    forall v ensures v in f.D <==> Reachable(g, s, v) {
      if v in f.D { ParentsEncodePaths(g, s, f, base, v); }
      if p :| PathFromTo(g, p, s, v) { LevelIsLowerBound(g, s, f, base, p, v); }
    }
    forall v | v in f.D ensures ShortestPath(g, FindPath(s, v, f.parent, f.level), s, v) {
      ParentsEncodePaths(g, s, f, base, v);
      forall q | PathFromTo(g, q, s, v) ensures |FindPath(s, v, f.parent, f.level)| <= |q| {
        LevelIsLowerBound(g, s, f, base, q, v);
      }
    }
  }

  /** For a vertex that was not reached the printer still prints the start in front of it. */
  lemma UnreachedPrintsStart(s: int, v: int, parents: seq<int>, rank: seq<int>)
    requires Ranked(parents, rank) && 1 <= v < |parents| && v != s && parents[v] == -1
    ensures FindPath(s, v, parents, rank) == [s, v]
  {
    assert FindPath(s, -1, parents, rank) == [s];
  }

  // ---------- The order of the vertices, and the edges reported to the caller ----------

  ghost predicate Vertices(g: Graph, order: seq<int>) {
    forall i :: 0 <= i < |order| ==> 1 <= order[i] <= g.nvertices
  }

  /** The vertices seen, in order, after the first k nodes of the list of v. */
  ghost function SeenAfter(g: Graph, seen: seq<int>, v: int, k: int): seq<int>
    requires WellFormed(g) && 1 <= v <= g.nvertices && 0 <= k <= |g.edges[v]|
  {
    if k == 0 then seen
    else
      var s, y := SeenAfter(g, seen, v, k - 1), g.edges[v][k-1].y;
      if y in s then s else s + [y]
  }

  /** The vertices discovered, in order, when those in `order` were taken from the queue. */
  ghost function Discovery(g: Graph, start: int, order: seq<int>): seq<int>
    requires WellFormed(g) && Vertices(g, order)
  {
    if order == [] then [start]
    else
      var v := order[|order| - 1];
      SeenAfter(g, Discovery(g, start, order[..|order| - 1]), v, |g.edges[v]|)
  }

  /** Each vertex taken is the one that was discovered first among those not taken yet. */
  ghost predicate FirstComeFirstServed(g: Graph, start: int, order: seq<int>)
    requires WellFormed(g)
  {
    && Vertices(g, order)
    && forall k {:trigger order[..k]} :: 0 <= k < |order| ==>
         |Discovery(g, start, order[..k])| > k && Discovery(g, start, order[..k])[k] == order[k]
  }

  /** The vertices of a whole search are taken in the order of discovery, so the order is unique. */
  lemma {:induction false} OrderIsDetermined(g: Graph, start: int, a: seq<int>, b: seq<int>, k: int)
    requires WellFormed(g) && FirstComeFirstServed(g, start, a) && FirstComeFirstServed(g, start, b)
    requires Discovery(g, start, a) == a && Discovery(g, start, b) == b && 0 <= k <= |a|
    ensures k <= |b| && a[..k] == b[..k]
    ensures k == |a| ==> a == b
  {
    hide Discovery, WellFormed;
    assert k == |a| ==> a[..k] == a;
    if k > 0 {
      OrderIsDetermined(g, start, a, b, k - 1);
      var c := a[..k - 1];
      assert |Discovery(g, start, c)| > k - 1;
      assert |c| == |b| ==> c == b;
      assert a[..k] == a[..k - 1] + [a[k-1]];
      assert k <= |b| ==> b[..k] == b[..k - 1] + [b[k-1]];
    }
    assert k == |b| ==> b[..k] == b;
  }

  lemma ServeNext(g: Graph, start: int, order: seq<int>, Q: seq<int>)
    requires WellFormed(g) && FirstComeFirstServed(g, start, order) && Q != [] && 1 <= Q[0] <= g.nvertices
    requires order + Q == Discovery(g, start, order)
    ensures FirstComeFirstServed(g, start, order + [Q[0]])
  {
    var order' := order + [Q[0]];
    forall k {:trigger order'[..k]} | 0 <= k < |order'|
      ensures |Discovery(g, start, order'[..k])| > k && Discovery(g, start, order'[..k])[k] == order'[k]
    {
      assert order'[..k] == order[..k];
      if k == |order| { assert order[..k] == order; }
    }
  }

  /** The calls for the first k nodes of the list of v, when `taken` were taken, v last: all of a
      directed graph, otherwise those to vertices not taken yet. */
  ghost function CallsOf(g: Graph, taken: seq<int>, v: int, k: int): seq<(int, int)>
    requires WellFormed(g) && 1 <= v <= g.nvertices && 0 <= k <= |g.edges[v]|
  {
    if k == 0 then []
    else
      var y := g.edges[v][k-1].y;
      CallsOf(g, taken, v, k - 1) + if g.directed || y !in taken then [(v, y)] else []
  }

  /** The calls when the vertices are taken in this order. */
  ghost function AllCalls(g: Graph, order: seq<int>): seq<(int, int)>
    requires WellFormed(g) && Vertices(g, order)
  {
    if order == [] then []
    else
      var v := order[|order| - 1];
      AllCalls(g, order[..|order| - 1]) + CallsOf(g, order, v, |g.edges[v]|)
  }

  lemma {:induction false} CallsOfMembers(g: Graph, taken: seq<int>, v: int, k: int, u: int, w: int)
    requires WellFormed(g) && 1 <= v <= g.nvertices && 0 <= k <= |g.edges[v]|
    ensures (u, w) in CallsOf(g, taken, v, k) <==>
      u == v && (g.directed || w !in taken) && exists j :: 0 <= j < k && g.edges[v][j].y == w
  {
    if k > 0 {
      CallsOfMembers(g, taken, v, k - 1, u, w);
      assert (exists j :: 0 <= j < k && g.edges[v][j].y == w) <==>
        g.edges[v][k-1].y == w || exists j :: 0 <= j < k - 1 && g.edges[v][j].y == w;
    }
  }

  ghost predicate CalledAt(g: Graph, order: seq<int>, i: int, u: int, w: int)
    requires WellFormed(g)
  {
    0 <= i < |order| && order[i] == u && Arc(g, u, w) && (g.directed || w !in order[..i + 1])
  }

  lemma {:induction false} AllCallsMembers(g: Graph, order: seq<int>, u: int, w: int)
    requires WellFormed(g) && Vertices(g, order)
    ensures (u, w) in AllCalls(g, order) <==> exists i :: CalledAt(g, order, i, u, w)
  {
    hide Arc, AllCalls, CallsOf, CalledAt;
    if order == [] {
      NothingCalled(g, u, w);
    } else {
      var n := |order| - 1;
      var init, v := order[..n], order[n];
      AllCallsMembers(g, init, u, w);
      AllCallsUnfold(g, order);
      forall i ensures CalledAt(g, order, i, u, w) <==>
          CalledAt(g, init, i, u, w) || (i == n && (u, w) in CallsOf(g, order, v, |g.edges[v]|)) {
        CalledAtLast(g, order, i, u, w);
      }
      if i :| CalledAt(g, init, i, u, w) { assert CalledAt(g, order, i, u, w); }
      assert (u, w) in CallsOf(g, order, v, |g.edges[v]|) ==> CalledAt(g, order, n, u, w);
    }
  }

  lemma NothingCalled(g: Graph, u: int, w: int)
    requires WellFormed(g)
    ensures AllCalls(g, []) == [] && forall i :: !CalledAt(g, [], i, u, w)
  {}

  lemma AllCallsUnfold(g: Graph, order: seq<int>)
    requires WellFormed(g) && Vertices(g, order) && order != []
    ensures var v := order[|order| - 1];
      AllCalls(g, order) == AllCalls(g, order[..|order| - 1]) + CallsOf(g, order, v, |g.edges[v]|)
  {}

  lemma CalledAtLast(g: Graph, order: seq<int>, i: int, u: int, w: int)
    requires WellFormed(g) && Vertices(g, order) && order != []
    ensures var n, v := |order| - 1, order[|order| - 1];
      CalledAt(g, order, i, u, w) <==>
      CalledAt(g, order[..n], i, u, w) || (i == n && (u, w) in CallsOf(g, order, v, |g.edges[v]|))
  {
    hide CallsOf;
    var n := |order| - 1;
    CallsOfMembers(g, order, order[n], |g.edges[order[n]]|, u, w);
    assert order[..n + 1] == order;
    if 0 <= i < n { assert order[..n][..i + 1] == order[..i + 1]; }
  }

  // ---------- The same by places in the lists ----------

  /** Node j of the list of order[i], among the first k nodes if order[i] was taken last. */
  ghost predicate Node(g: Graph, order: seq<int>, k: int, i: int, j: int) {
    && 0 <= i < |order| && 1 <= order[i] <= g.nvertices < |g.edges| && 0 <= j < |g.edges[order[i]]|
    && (i == |order| - 1 ==> j < k)
  }

  ghost function Target(g: Graph, order: seq<int>, i: int, j: int): int {
    if 0 <= i < |order| && 0 <= order[i] < |g.edges| && 0 <= j < |g.edges[order[i]]| then g.edges[order[i]][j].y else 0
  }

  /** The node is to be reported: always in a directed graph, otherwise if it leads to a vertex
      not taken yet. */
  ghost predicate ToReport(g: Graph, order: seq<int>, k: int, i: int, j: int) {
    Node(g, order, k, i, j) && (g.directed || Target(g, order, i, j) !in order[..i + 1])
  }

  ghost predicate CallAt(g: Graph, order: seq<int>, call: (int, int), at: (int, int)) {
    0 <= at.0 < |order| && call == (order[at.0], Target(g, order, at.0, at.1))
  }

  /** Call m reports node at[m]: each node to be reported once, and in the order of the lists. */
  ghost predicate NodeByNode(g: Graph, order: seq<int>, k: int, calls: seq<(int, int)>, at: seq<(int, int)>) {
    && |at| == |calls| && Increasing(at)
    && (forall i, j :: (i, j) in at <==> ToReport(g, order, k, i, j))
    && (forall m :: 0 <= m < |at| ==> CallAt(g, order, calls[m], at[m]))
  }

  lemma NextListNodes(g: Graph, order: seq<int>, calls: seq<(int, int)>, at: seq<(int, int)>, v: int)
    requires WellFormed(g) && Vertices(g, order) && 1 <= v <= g.nvertices
    requires order == [] ==> calls == [] && at == []
    requires order != [] ==> NodeByNode(g, order, |g.edges[order[|order| - 1]]|, calls, at)
    ensures NodeByNode(g, order + [v], 0, calls, at)
  {
    var order' := order + [v];
    forall i, j ensures (i, j) in at <==> ToReport(g, order', 0, i, j) {
      if 0 <= i < |order| { assert order'[..i + 1] == order[..i + 1]; }
    }
    forall m | 0 <= m < |at| ensures CallAt(g, order', calls[m], at[m]) {
      assert CallAt(g, order, calls[m], at[m]);
      assert (at[m].0, at[m].1) in at;
    }
  }

  lemma NodeGrows(g: Graph, order: seq<int>, k: int, i: int, j: int)
    requires WellFormed(g) && Vertices(g, order) && order != [] && 0 <= k < |g.edges[order[|order| - 1]]|
    ensures Node(g, order, k + 1, i, j) <==> Node(g, order, k, i, j) || (i == |order| - 1 && j == k)
    ensures Node(g, order, k, i, j) ==> Earlier((i, j), (|order| - 1, k)) && 0 <= i < |order|
  {}

  lemma LastTarget(g: Graph, order: seq<int>, k: int)
    requires WellFormed(g) && Vertices(g, order) && order != [] && 0 <= k < |g.edges[order[|order| - 1]]|
    ensures Target(g, order, |order| - 1, k) == g.edges[order[|order| - 1]][k].y && order[..|order|] == order
  {}

  lemma NextNodeReported(g: Graph, order: seq<int>, k: int, calls: seq<(int, int)>, at: seq<(int, int)>)
      returns (at': seq<(int, int)>)
    requires WellFormed(g) && Vertices(g, order) && order != []
    requires 0 <= k < |g.edges[order[|order| - 1]]| && NodeByNode(g, order, k, calls, at)
    ensures var v := order[|order| - 1]; var y := g.edges[v][k].y;
      NodeByNode(g, order, k + 1, calls + (if g.directed || y !in order then [(v, y)] else []), at')
  {
    hide Node, Target, Earlier, Increasing;
    var n := |order| - 1;
    var v, y := order[n], g.edges[order[n]][k].y;
    var told := g.directed || y !in order;
    LastTarget(g, order, k);
    forall m | 0 <= m < |at| ensures Earlier(at[m], (n, k)) {
      assert (at[m].0, at[m].1) in at;
      NodeGrows(g, order, k, at[m].0, at[m].1);
    }
    IncreasingPlus(at, (n, k));
    at' := if told then at + [(n, k)] else at;
    var calls' := calls + if told then [(v, y)] else [];
    assert CallAt(g, order, (v, y), (n, k));
    forall i, j ensures (i, j) in at' <==> ToReport(g, order, k + 1, i, j) {
      NodeGrows(g, order, k, i, j);
      assert ToReport(g, order, k + 1, i, j) <==> ToReport(g, order, k, i, j) || (told && i == n && j == k);
      assert (i, j) in at' <==> (i, j) in at || (told && i == n && j == k);
    }
    hide ToReport, CallAt, WellFormed;
    forall m | 0 <= m < |at'| ensures CallAt(g, order, calls'[m], at'[m]) {
      if m < |at| { assert CallAt(g, order, calls[m], at[m]); }
    }
  }

  /** The calls of the first k nodes of the last list, after those of all lists before. */
  lemma {:induction false} CallsAreNodes(g: Graph, order: seq<int>, k: int) returns (at: seq<(int, int)>)
    requires WellFormed(g) && Vertices(g, order) && order != [] && 0 <= k <= |g.edges[order[|order| - 1]]|
    ensures NodeByNode(g, order, k, AllCalls(g, order[..|order| - 1]) + CallsOf(g, order, order[|order| - 1], k), at)
    decreases |order|, k
  {
    hide NodeByNode, AllCalls;
    var n := |order| - 1;
    var init, v := order[..n], order[n];
    if k > 0 {
      at := CallsAreNodes(g, order, k - 1);
      var before := AllCalls(g, init) + CallsOf(g, order, v, k - 1);
      at := NextNodeReported(g, order, k - 1, before, at);
      var y := g.edges[v][k-1].y;
      var c := if g.directed || y !in order then [(v, y)] else [];
      assert before + c == AllCalls(g, init) + CallsOf(g, order, v, k);
    } else {
      if n == 0 {
        NothingCalled(g, 0, 0);
        at := [];
      } else {
        at := CallsAreNodes(g, init, |g.edges[init[n-1]]|);
        AllCallsUnfold(g, init);
      }
      NextListNodes(g, init, AllCalls(g, init), at, v);
      assert init + [v] == order && AllCalls(g, init) + [] == AllCalls(g, init);
    }
  }

  /** seen[m + 1] was discovered by node found[m], the first node that leads to it, and every node
      handled leads to the start or to a vertex discovered by it or before. */
  ghost predicate Met(g: Graph, start: int, order: seq<int>, k: int, seen: seq<int>, found: seq<(int, int)>) {
    && |seen| == |found| + 1 && seen[0] == start && Increasing(found)
    && (forall m :: 0 <= m < |found| ==> FoundAt(g, order, k, seen[m+1], found[m]) && found[m].0 <= m)
    && (forall i, j :: Node(g, order, k, i, j) ==> KnownBy(start, seen, found, Target(g, order, i, j), i, j))
  }

  ghost predicate FoundAt(g: Graph, order: seq<int>, k: int, y: int, at: (int, int)) {
    Node(g, order, k, at.0, at.1) && Target(g, order, at.0, at.1) == y
  }

  ghost predicate KnownBy(start: int, seen: seq<int>, found: seq<(int, int)>, y: int, i: int, j: int) {
    y == start || exists m :: MetBy(seen, found, m, y, i, j)
  }

  ghost predicate MetBy(seen: seq<int>, found: seq<(int, int)>, m: int, y: int, i: int, j: int) {
    0 <= m < |found| && m + 1 < |seen| && seen[m+1] == y && (found[m] == (i, j) || Earlier(found[m], (i, j)))
  }

  lemma NextListMet(g: Graph, start: int, order: seq<int>, seen: seq<int>, found: seq<(int, int)>, v: int)
    requires WellFormed(g) && Vertices(g, order) && 1 <= v <= g.nvertices
    requires order == [] ==> seen == [start] && found == []
    requires order != [] ==> Met(g, start, order, |g.edges[order[|order| - 1]]|, seen, found)
    ensures Met(g, start, order + [v], 0, seen, found)
  {
    var order' := order + [v];
    hide MetBy;
    forall i, j | Node(g, order', 0, i, j) ensures KnownBy(start, seen, found, Target(g, order', i, j), i, j) {
      assert Node(g, order, |g.edges[order[|order| - 1]]|, i, j);
    }
    forall m | 0 <= m < |found| ensures FoundAt(g, order', 0, seen[m+1], found[m]) {
      assert FoundAt(g, order, |g.edges[order[|order| - 1]]|, seen[m+1], found[m]);
    }
  }

  lemma NextNodeMet(g: Graph, start: int, order: seq<int>, k: int, seen: seq<int>, found: seq<(int, int)>)
      returns (found': seq<(int, int)>)
    requires WellFormed(g) && Vertices(g, order) && order != [] && |seen| >= |order|
    requires 0 <= k < |g.edges[order[|order| - 1]]| && Met(g, start, order, k, seen, found)
    ensures var y := g.edges[order[|order| - 1]][k].y;
      Met(g, start, order, k + 1, if y in seen then seen else seen + [y], found')
  {
    hide Node, Target, Earlier, Increasing, MetBy;
    var n := |order| - 1;
    var y := g.edges[order[n]][k].y;
    LastTarget(g, order, k);
    forall m | 0 <= m < |found| ensures Earlier(found[m], (n, k)) {
      assert FoundAt(g, order, k, seen[m+1], found[m]);
      NodeGrows(g, order, k, found[m].0, found[m].1);
    }
    IncreasingPlus(found, (n, k));
    var seen' := if y in seen then seen else seen + [y];
    found' := if y in seen then found else found + [(n, k)];
    NewlyMet(start, seen, found, y, (n, k));
    forall i, j | Node(g, order, k + 1, i, j) ensures KnownBy(start, seen', found', Target(g, order, i, j), i, j) {
      NodeGrows(g, order, k, i, j);
      if Node(g, order, k, i, j) { KnownStays(start, seen, found, seen', found', Target(g, order, i, j), i, j); }
    }
    forall m | 0 <= m < |found'| ensures FoundAt(g, order, k + 1, seen'[m+1], found'[m]) && found'[m].0 <= m {
      if m < |found| { assert FoundAt(g, order, k, seen[m+1], found[m]); }
      NodeGrows(g, order, k, found'[m].0, found'[m].1);
    }
  }

  lemma KnownStays(start: int, seen: seq<int>, found: seq<(int, int)>, seen': seq<int>, found': seq<(int, int)>,
                   y: int, i: int, j: int)
    requires seen <= seen' && found <= found' && KnownBy(start, seen, found, y, i, j)
    ensures KnownBy(start, seen', found', y, i, j)
  {
    if m :| MetBy(seen, found, m, y, i, j) { assert MetBy(seen', found', m, y, i, j); }
  }

  lemma NewlyMet(start: int, seen: seq<int>, found: seq<(int, int)>, y: int, at: (int, int))
    requires |seen| == |found| + 1 && seen[0] == start && forall m :: 0 <= m < |found| ==> Earlier(found[m], at)
    ensures if y in seen then KnownBy(start, seen, found, y, at.0, at.1)
            else KnownBy(start, seen + [y], found + [at], y, at.0, at.1)
  {
    if y in seen {
      var m :| 0 <= m < |seen| && seen[m] == y;
      if m > 0 { assert MetBy(seen, found, m - 1, y, at.0, at.1); }
    } else {
      assert MetBy(seen + [y], found + [at], |found|, y, at.0, at.1);
    }
  }

  lemma {:induction false} SeenGrows(g: Graph, seen: seq<int>, v: int, k: int)
    requires WellFormed(g) && 1 <= v <= g.nvertices && 0 <= k <= |g.edges[v]|
    ensures |SeenAfter(g, seen, v, k)| >= |seen|
  {
    if k > 0 { SeenGrows(g, seen, v, k - 1); }
  }

  lemma {:induction false} DiscoveryIsMet(g: Graph, start: int, order: seq<int>, k: int)
      returns (found: seq<(int, int)>)
    requires WellFormed(g) && FirstComeFirstServed(g, start, order) && order != []
    requires 0 <= k <= |g.edges[order[|order| - 1]]|
    ensures var n := |order| - 1;
      Met(g, start, order, k, SeenAfter(g, Discovery(g, start, order[..n]), order[n], k), found)
    decreases |order|, k
  {
    hide Met;
    var n := |order| - 1;
    var init, v := order[..n], order[n];
    if k > 0 {
      found := DiscoveryIsMet(g, start, order, k - 1);
      SeenGrows(g, Discovery(g, start, init), v, k - 1);
      found := NextNodeMet(g, start, order, k - 1, SeenAfter(g, Discovery(g, start, init), v, k - 1), found);
    } else {
      if n == 0 {
        found := [];
      } else {
        ServedPrefix(g, start, order, n);
        found := DiscoveryIsMet(g, start, init, |g.edges[init[n-1]]|);
      }
      NextListMet(g, start, init, Discovery(g, start, init), found, v);
      assert init + [v] == order;
    }
  }

  lemma ServedPrefix(g: Graph, start: int, order: seq<int>, n: int)
    requires WellFormed(g) && FirstComeFirstServed(g, start, order) && 0 <= n <= |order|
    ensures FirstComeFirstServed(g, start, order[..n])
  {
    hide Discovery;
    var init := order[..n];
    assert forall i :: 0 <= i < n ==> init[i] == order[i];
    forall k {:trigger init[..k]} | 0 <= k < n
      ensures |Discovery(g, start, init[..k])| > k && Discovery(g, start, init[..k])[k] == init[k]
    {
      assert init[..k] == order[..k];
    }
  }

  ghost predicate Before(order: seq<int>, u: int, w: int) {
    exists i, j :: 0 <= i < j < |order| && order[i] == u && order[j] == w
  }

  /** A directed search reports every arc out of a reached vertex; an undirected one reports
      {u, w} from whichever end was taken first. */
  lemma ReportedMeaning(g: Graph, order: seq<int>, u: int, w: int)
    requires WellFormed(g) && Vertices(g, order) && Distinct(order)
    requires forall a, b :: a in order && Arc(g, a, b) ==> b in order
    ensures (u, w) in AllCalls(g, order) <==> u in order && Arc(g, u, w) && (g.directed || Before(order, u, w))
  {
    hide Arc;
    AllCallsMembers(g, order, u, w);
    if u in order && Arc(g, u, w) {
      var i :| 0 <= i < |order| && order[i] == u;
      var j :| 0 <= j < |order| && order[j] == w;
      assert w in order[..i + 1] <==> j <= i by {
        if w in order[..i + 1] { var m :| 0 <= m < i + 1 && order[..i + 1][m] == w; assert order[m] == order[j]; }
        if j <= i { assert order[..i + 1][j] == w; }
      }
      assert CalledAt(g, order, i, u, w) <==> g.directed || i < j;
    }
  }

  // ---------- The search ----------

  /** The arrays hold the front: flags for D and P, and the parents. */
  ghost predicate Mirrors(search: Search, n: int, f: Front)
    reads search, search.processed, search.discovered, search.parent
  {
    && search.Valid() && 0 <= n <= MAXV && |f.parent| == n + 1
    && search.parent[..n + 1] == f.parent
    && (forall v :: 1 <= v <= n ==>
          (search.discovered[v] <==> v in f.D) && (search.processed[v] <==> v in f.P))
  }

  method StartFront(search: Search, g: Graph, start: int) returns (ghost f: Front)
    requires WellFormed(g) && 1 <= start <= g.nvertices && search.Valid() && search.Initialized(g.nvertices)
    modifies search.discovered
    ensures f.D == {start} && f.P == {} && f.Q == [start] && Mirrors(search, g.nvertices, f)
    ensures BfsState(g, start, f, 0, 0, 0)
  {
    search.discovered[start] := true;
    f := Front({start}, {}, [start], seq(g.nvertices + 1, _ => 0), search.parent[..g.nvertices + 1]);
  }

  method MarkProcessed(search: Search, v: int, ghost n: int, ghost f: Front)
    requires search.Valid() && Mirrors(search, n, f) && 1 <= v <= n && f.Q != [] && v == f.Q[0]
    modifies search.processed
    ensures Mirrors(search, n, Taken(f))
  {
    search.processed[v] := true;
  }

  method MarkDiscovered(search: Search, v: int, y: int, ghost n: int, ghost f: Front)
    requires search.Valid() && Mirrors(search, n, f) && 1 <= y <= n && |f.level| == n + 1
    modifies search.discovered, search.parent
    ensures Mirrors(search, n, Discovered(f, v, y))
  {
    search.discovered[y] := true;
    search.parent[y] := v;
  }

  lemma MirroredFlags(search: Search, y: int, n: int, f: Front)
    requires Mirrors(search, n, f) && 1 <= y <= n
    ensures search.Valid() && y < search.discovered.Length == search.processed.Length
    ensures (search.discovered[y] <==> y in f.D) && (search.processed[y] <==> y in f.P)
  {}

  ghost predicate Taking(g: Graph, f: Front, order: seq<int>) {
    Distinct(order) && (forall v :: v in order <==> v in f.P) && (forall v :: v in order ==> 1 <= v <= g.nvertices)
  }

  /** What a search from start leaves behind. `order` lists the vertices as they were taken from
      the queue, `calls` the edges handed to the caller's process_edge, in that order. */
  ghost predicate Searched(g: Graph, start: int, processed: seq<bool>, discovered: seq<bool>, parent: seq<int>,
                           level: seq<int>, order: seq<int>, calls: seq<(int, int)>)
    requires WellFormed(g)
  {
    && |processed| == |discovered| == |parent| == g.nvertices + 1
    && (forall v :: 1 <= v <= g.nvertices ==> (discovered[v] <==> Reachable(g, start, v)))
    && (forall v :: 1 <= v <= g.nvertices ==> (processed[v] <==> Reachable(g, start, v)))
    && Distinct(order) && (forall v :: v in order <==> Reachable(g, start, v))
    && Ranked(parent, level)
    && (forall v :: 1 <= v <= g.nvertices && Reachable(g, start, v) ==>
          ShortestPath(g, FindPath(start, v, parent, level), start, v))
    && (forall v :: 1 <= v <= g.nvertices && !Reachable(g, start, v) ==> parent[v] == -1)
    && FirstComeFirstServed(g, start, order) && Discovery(g, start, order) == order
    && calls == AllCalls(g, order)
    && (exists at :: NodeByNode(g, order, Whole(g, order), calls, at))
    && (exists found :: FoundInOrder(g, start, order, parent, found))
    && (forall u, w :: (u, w) in calls <==>
          Reachable(g, start, u) && Arc(g, u, w) && (g.directed || Before(order, u, w)))
  }

  ghost function Whole(g: Graph, order: seq<int>): int {
    if order != [] && 0 <= order[|order| - 1] < |g.edges| then |g.edges[order[|order| - 1]]| else 0
  }

  /** order[m + 1] was discovered by node found[m], the first node of the lists of the vertices in
      this order that leads to it; nodes found[0], found[1], ... follow each other in the lists,
      and the owner of the list became the parent. */
  ghost predicate FoundInOrder(g: Graph, start: int, order: seq<int>, parent: seq<int>, found: seq<(int, int)>) {
    && Met(g, start, order, Whole(g, order), order, found)
    && forall m :: 0 <= m < |found| ==> ParentIs(order, parent, m + 1, found[m].0)
  }

  ghost predicate ParentIs(order: seq<int>, parent: seq<int>, m: int, a: int) {
    0 <= m < |order| && 0 <= a < |order| && 0 <= order[m] < |parent| && parent[order[m]] == order[a]
  }

  /** The list that discovered a vertex is the first one that leads to it, so the parent's. */
  lemma FoundFromParent(g: Graph, s: int, f: Front, order: seq<int>, found: seq<(int, int)>, m: int)
    requires WellFormed(g) && Vertices(g, order) && order != [] && Distinct(order) && |f.parent| == g.nvertices + 1
    requires Met(g, s, order, Whole(g, order), order, found) && 0 <= m < |found|
    requires FirstParents(g, s, f, order) && order[m+1] in f.D
    ensures ParentIs(order, f.parent, m + 1, found[m].0)
  {
    hide Earlier, Increasing;
    var v, k := order[m+1], Whole(g, order);
    assert FoundAt(g, order, k, v, found[m]);
    var b := found[m].0;
    assert Arc(g, order[b], v) by { assert g.edges[order[b]][found[m].1].y == v; }
    assert FirstTaken(g, order, Parent(f, v), v);
    var a :| TakenAt(g, order, Parent(f, v), v, a);
    var j :| 0 <= j < |g.edges[order[a]]| && g.edges[order[a]][j].y == v;
    assert Node(g, order, k, a, j) && Target(g, order, a, j) == v;
    hide Arc, Node, Target, WellFormed, FirstParents, TakenAt;
    assert KnownBy(s, order, found, v, a, j);
    var q :| MetBy(order, found, q, v, a, j);
    assert q == m;
    EarlierRow(found[m], (a, j));
  }

  lemma EarlierRow(p: (int, int), q: (int, int))
    requires p == q || Earlier(p, q)
    ensures p.0 <= q.0
  {}

  lemma FinishedOrder(g: Graph, s: int, f: Front, base: int, order: seq<int>)
    requires WellFormed(g) && BfsState(g, s, f, base, 0, 0) && Taking(g, f, order) && f.P == f.D
    requires FirstComeFirstServed(g, s, order) && Discovery(g, s, order) == order && FirstParents(g, s, f, order)
    ensures exists at :: NodeByNode(g, order, Whole(g, order), AllCalls(g, order), at)
    ensures exists found :: FoundInOrder(g, s, order, f.parent, found)
  {
    assert s in order && |f.parent| == g.nvertices + 1 && forall v :: v in order ==> v in f.D;
    assert Vertices(g, order) && Distinct(order);
    hide BfsState, Taking, Met, NodeByNode, FirstParents, Discovery, FirstComeFirstServed, AllCalls, Distinct, ParentIs;
    var n := |order| - 1;
    var at := CallsAreNodes(g, order, |g.edges[order[n]]|);
    AllCallsUnfold(g, order);
    DiscoveryUnfolds(g, s, order);
    var found := DiscoveryIsMet(g, s, order, |g.edges[order[n]]|);
    MetSize(g, s, order, Whole(g, order), order, found);
    forall m | 0 <= m < |found| ensures ParentIs(order, f.parent, m + 1, found[m].0) {
      assert order[m+1] in order;
      FoundFromParent(g, s, f, order, found, m);
    }
    assert FoundInOrder(g, s, order, f.parent, found);
  }

  lemma MetSize(g: Graph, start: int, order: seq<int>, k: int, seen: seq<int>, found: seq<(int, int)>)
    requires Met(g, start, order, k, seen, found)
    ensures |seen| == |found| + 1
  {}

  lemma DiscoveryUnfolds(g: Graph, s: int, order: seq<int>)
    requires WellFormed(g) && Vertices(g, order) && order != []
    ensures var n := |order| - 1;
      Discovery(g, s, order) == SeenAfter(g, Discovery(g, s, order[..n]), order[n], |g.edges[order[n]]|)
  {}

  lemma FinishedMeansSearched(g: Graph, s: int, f: Front, base: int, processed: seq<bool>, discovered: seq<bool>,
                              order: seq<int>, calls: seq<(int, int)>)
    requires WellFormed(g) && BfsState(g, s, f, base, 0, 0) && f.Q == []
    requires |processed| == |discovered| == g.nvertices + 1 && Taking(g, f, order)
    requires forall v :: 1 <= v <= g.nvertices ==> (discovered[v] <==> v in f.D) && (processed[v] <==> v in f.P)
    requires Vertices(g, order) && calls == AllCalls(g, order)
    requires FirstComeFirstServed(g, s, order) && Discovery(g, s, order) == order && FirstParents(g, s, f, order)
    ensures Searched(g, s, processed, discovered, f.parent, f.level, order, calls)
  {
    hide Arc, Path, Levelled, ShortestPath, Before, AllCalls, Discovery, FirstComeFirstServed, FirstParents;
    hide NodeByNode, FoundInOrder, Whole;
    FinishedSearch(g, s, f, base);
    FinishedOrder(g, s, f, base, order);
    forall a, b | a in order && Arc(g, a, b) ensures b in order {
      ReachableExtend(g, s, a, b);
    }
    forall u, w
      ensures (u, w) in calls <==> Reachable(g, s, u) && Arc(g, u, w) && (g.directed || Before(order, u, w))
    {
      ReportedMeaning(g, order, u, w);
    }
    forall v | 1 <= v <= g.nvertices && !Reachable(g, s, v) ensures f.parent[v] == -1 {
      assert Parent(f, v) == f.parent[v];
    }
  }

  /** Between two vertices taken from the queue. */
  ghost predicate Between(g: Graph, start: int, f: Front, base: int, order: seq<int>, calls: seq<(int, int)>)
    requires WellFormed(g)
  {
    && BfsState(g, start, f, base, 0, 0) && Taking(g, f, order)
    && FirstComeFirstServed(g, start, order) && order + f.Q == Discovery(g, start, order)
    && calls == AllCalls(g, order) && FirstParents(g, start, f, order)
  }

  /** Takes the next vertex from the queue and goes through its list. */
  method Visit(g: Graph, ghost start: int, search: Search, q: Queues.Queue, calls0: seq<(int, int)>,
               ghost f0: Front, ghost base0: int, ghost order0: seq<int>)
    returns (calls: seq<(int, int)>, ghost f: Front, ghost base: int, ghost order: seq<int>)
    requires WellFormed(g) && search.Valid() && q.q != search.parent && q.Valid() && q.Contents() == f0.Q && f0.Q != []
    requires Between(g, start, f0, base0, order0, calls0) && Mirrors(search, g.nvertices, f0)
    modifies search.processed, search.discovered, search.parent, q, q.q
    ensures q.Valid() && q.Contents() == f.Q && Mirrors(search, g.nvertices, f)
    ensures Between(g, start, f, base, order, calls)
    ensures |order0| < |order| <= g.nvertices
  {
    hide BfsState, Queued, Taking, Mirrors, Distinct, WellFormed, AllCalls, Discovery;
    hide FirstComeFirstServed, FirstParents, Queues.Queue.Contents, Queues.Queue.Valid;
    QueuedFits(g, start, f0, base0, 0, 0);
    var v := q.Dequeue();
    TakeState(g, start, f0, base0);
    TakingMore(g, f0, order0);
    ServeNext(g, start, order0, f0.Q);
    MarkProcessed(search, v, g.nvertices, f0);
    f, base, order := Taken(f0), Level(f0, v), order0 + [v];
    assert order[..|order| - 1] == order0 && order + f.Q == order0 + f0.Q;
    StillFirstParents(g, start, f0, order0, v);
    StartScanning(g, start, f, base, order, v, calls0);
    calls, f := Scan(g, start, v, search, q, order, calls0, f, base, order0 + f0.Q);
    FinishScanning(g, start, f, base, order, v, calls0, calls);
  }

  lemma StillFirstParents(g: Graph, s: int, f: Front, order: seq<int>, v: int)
    requires WellFormed(g) && f.Q != [] && FirstParents(g, s, f, order)
    ensures FirstParents(g, s, Taken(f), order + [v])
  {
    hide FirstTaken;
    forall w | w in f.D && w != s ensures FirstTaken(g, order + [v], Parent(f, w), w) {
      FirstTakenStays(g, order, v, Parent(f, w), w);
    }
  }

  lemma StartsBetween(g: Graph, start: int, f: Front)
    requires WellFormed(g) && BfsState(g, start, f, 0, 0, 0) && f.P == {} && f.D == {start} && f.Q == [start]
    ensures Between(g, start, f, 0, [], [])
  {}

  method Bfs(g: Graph, start: int, search: Search)
      returns (calls: seq<(int, int)>, ghost order: seq<int>, ghost level: seq<int>)
    requires WellFormed(g) && 1 <= start <= g.nvertices
    requires search.Valid() && search.Initialized(g.nvertices)
    modifies search.processed, search.discovered, search.parent
    ensures var n := g.nvertices + 1;
      Searched(g, start, search.processed[..n], search.discovered[..n], search.parent[..n], level, order, calls)
  {
    hide *;
    var q := new Queues.Queue();
    q.Enqueue(start);
    ghost var f := StartFront(search, g, start);
    ghost var base := 0;
    calls, order := [], [];
    StartsBetween(g, start, f);
    var empty := q.IsEmpty();
    while !empty
      invariant fresh(q) && fresh(q.q) && q.Valid() && q.Contents() == f.Q && (empty <==> f.Q == [])
      invariant Mirrors(search, g.nvertices, f) && Between(g, start, f, base, order, calls)
      decreases g.nvertices - |order|
    {
      calls, f, base, order := Visit(g, start, search, q, calls, f, base, order);
      empty := q.IsEmpty();
    }
    level := f.level;
    Conclude(g, start, search, f, base, order, calls);
  }

  lemma Conclude(g: Graph, start: int, search: Search, f: Front, base: int, order: seq<int>, calls: seq<(int, int)>)
    requires WellFormed(g) && Between(g, start, f, base, order, calls) && f.Q == []
    requires search.Valid() && Mirrors(search, g.nvertices, f)
    ensures var n := g.nvertices + 1;
      Searched(g, start, search.processed[..n], search.discovered[..n], search.parent[..n], f.level, order, calls)
  {
    hide BfsState, Searched, AllCalls, Discovery, FirstParents;
    var n := g.nvertices + 1;
    assert order + [] == order;
    FinishedMeansSearched(g, start, f, base, search.processed[..n], search.discovered[..n], order, calls);
  }

  /** In the list of v, the vertex taken last, after k nodes. */
  ghost predicate Scanning(g: Graph, s: int, f: Front, base: int, order: seq<int>, v: int, k: int,
                           seen: seq<int>, calls0: seq<(int, int)>, calls: seq<(int, int)>)
    requires WellFormed(g) && 1 <= v <= g.nvertices && 0 <= k <= |g.edges[v]|
  {
    && BfsState(g, s, f, base, v, k) && v in f.P && Taking(g, f, order)
    && calls == calls0 + CallsOf(g, order, v, k)
    && order + f.Q == SeenAfter(g, seen, v, k)
    && FirstParents(g, s, f, order) && order != [] && order[|order| - 1] == v
  }

  lemma StartScanning(g: Graph, s: int, f: Front, base: int, order: seq<int>, v: int, calls: seq<(int, int)>)
    requires WellFormed(g) && 1 <= v <= g.nvertices && BfsState(g, s, f, base, v, 0) && v in f.P && Taking(g, f, order)
    requires FirstParents(g, s, f, order) && order != [] && order[|order| - 1] == v
    ensures Scanning(g, s, f, base, order, v, 0, order + f.Q, calls, calls)
  {
    assert calls + [] == calls;
  }

  /** What node k of the list reports. */
  ghost function Called(g: Graph, f: Front, v: int, k: int): seq<(int, int)>
    requires WellFormed(g) && 1 <= v <= g.nvertices && 0 <= k < |g.edges[v]|
  {
    var y := g.edges[v][k].y;
    if y !in f.P || g.directed then [(v, y)] else []
  }

  lemma TakenIsProcessed(g: Graph, s: int, f: Front, base: int, cur: int, k: int, order: seq<int>)
    requires WellFormed(g) && BfsState(g, s, f, base, cur, k) && Taking(g, f, order)
    ensures forall y :: y in order + f.Q <==> y in f.D
    ensures forall y :: y in order <==> y in f.P
  {}

  lemma ScanSeen(g: Graph, s: int, f: Front, base: int, order: seq<int>, v: int, k: int,
                 seen: seq<int>, calls0: seq<(int, int)>, calls: seq<(int, int)>)
    requires WellFormed(g) && 1 <= v <= g.nvertices && 0 <= k < |g.edges[v]|
    requires Scanning(g, s, f, base, order, v, k, seen, calls0, calls) && g.edges[v][k].y in f.D
    ensures Scanning(g, s, f, base, order, v, k + 1, seen, calls0, calls + Called(g, f, v, k))
  {
    hide BfsState, Taking, FirstParents;
    TakenIsProcessed(g, s, f, base, v, k, order);
    SeenState(g, s, f, base, v, k);
  }

  lemma ScanDiscover(g: Graph, s: int, f: Front, base: int, order: seq<int>, v: int, k: int,
                     seen: seq<int>, calls0: seq<(int, int)>, calls: seq<(int, int)>)
    requires WellFormed(g) && 1 <= v <= g.nvertices && 0 <= k < |g.edges[v]|
    requires Scanning(g, s, f, base, order, v, k, seen, calls0, calls) && g.edges[v][k].y !in f.D
    requires |f.level| == |f.parent| == g.nvertices + 1
    ensures Scanning(g, s, Discovered(f, v, g.edges[v][k].y), base, order, v, k + 1, seen, calls0,
                     calls + Called(g, f, v, k))
  {
    hide BfsState, FirstParents;
    var y := g.edges[v][k].y;
    TakenIsProcessed(g, s, f, base, v, k, order);
    DiscoverFirst(g, s, f, base, order, v, k);
    DiscoverState(g, s, f, base, v, k);
    assert order + (f.Q + [y]) == (order + f.Q) + [y];
  }

  lemma FinishScanning(g: Graph, s: int, f: Front, base: int, order: seq<int>, v: int,
                       calls0: seq<(int, int)>, calls: seq<(int, int)>)
    requires WellFormed(g) && Vertices(g, order) && order != [] && v == order[|order| - 1]
    requires Scanning(g, s, f, base, order, v, |g.edges[v]|, Discovery(g, s, order[..|order| - 1]), calls0, calls)
    requires calls0 == AllCalls(g, order[..|order| - 1])
    ensures BfsState(g, s, f, base, 0, 0) && Taking(g, f, order)
    ensures calls == AllCalls(g, order) && order + f.Q == Discovery(g, s, order) && FirstParents(g, s, f, order)
  {
    DoneState(g, s, f, base, v);
    hide BfsState, Taking, FirstParents;
  }

  /** Goes through the list of v, reporting edges and discovering vertices. */
  method Scan(g: Graph, ghost start: int, v: int, search: Search, q: Queues.Queue, ghost order: seq<int>,
              calls0: seq<(int, int)>, ghost f0: Front, ghost base: int, ghost seen: seq<int>)
    returns (calls: seq<(int, int)>, ghost f: Front)
    requires WellFormed(g) && search.Valid() && 1 <= v <= g.nvertices && q.q != search.parent
    requires q.Valid() && q.Contents() == f0.Q && Mirrors(search, g.nvertices, f0)
    requires Scanning(g, start, f0, base, order, v, 0, seen, calls0, calls0)
    modifies search.discovered, search.parent, q, q.q
    ensures q.Valid() && q.Contents() == f.Q && Mirrors(search, g.nvertices, f)
    ensures Scanning(g, start, f, base, order, v, |g.edges[v]|, seen, calls0, calls)
  {
    hide Scanning, Mirrors, WellFormed, Queues.Queue.Contents, Queues.Queue.Valid;
    calls, f := calls0, f0;
    var k := 0;
    ListExists(g, v);
    while k < |g.edges[v]|
      invariant 0 <= k <= |g.edges[v]|
      invariant q.Valid() && q.Contents() == f.Q && Mirrors(search, g.nvertices, f)
      invariant Scanning(g, start, f, base, order, v, k, seen, calls0, calls)
    {
      var y := g.edges[v][k].y;
      ScanFits(g, start, f, base, order, v, k, seen, calls0, calls);
      MirroredFlags(search, y, g.nvertices, f);
      ghost var before := calls;
      if !search.processed[y] || g.directed {
        calls := calls + [(v, y)];
      }
      assert calls == before + Called(g, f, v, k);
      if !search.discovered[y] {
        ScanDiscover(g, start, f, base, order, v, k, seen, calls0, before);
        q.Enqueue(y);
        MarkDiscovered(search, v, y, g.nvertices, f);
        f := Discovered(f, v, y);
      } else {
        ScanSeen(g, start, f, base, order, v, k, seen, calls0, before);
      }
      k := k + 1;
    }
  }

  lemma ListExists(g: Graph, v: int)
    requires WellFormed(g) && 1 <= v <= g.nvertices
    ensures v < |g.edges|
  {}

  lemma ScanFits(g: Graph, s: int, f: Front, base: int, order: seq<int>, v: int, k: int,
                 seen: seq<int>, calls0: seq<(int, int)>, calls: seq<(int, int)>)
    requires WellFormed(g) && 1 <= v <= g.nvertices && 0 <= k < |g.edges[v]|
    requires Scanning(g, s, f, base, order, v, k, seen, calls0, calls)
    ensures 1 <= g.edges[v][k].y <= g.nvertices && |f.Q| <= g.nvertices < Queues.QUEUESIZE
    ensures |f.level| == |f.parent| == g.nvertices + 1
  {
    QueuedFits(g, s, f, base, v, k);
  }

  lemma TakingMore(g: Graph, f: Front, order: seq<int>)
    requires Taking(g, f, order) && f.Q != [] && f.Q[0] !in f.P && 1 <= f.Q[0] <= g.nvertices
    ensures Taking(g, Taken(f), order + [f.Q[0]]) && f.Q[0] !in order
    ensures forall u :: u in order ==> 1 <= u <= g.nvertices
    ensures |order| < g.nvertices
  {
    DistinctFits(order + [f.Q[0]], g.nvertices);
  }

  /** The queue never overflows. */
  lemma QueuedFits(g: Graph, s: int, f: Front, base: int, cur: int, k: int)
    requires WellFormed(g) && BfsState(g, s, f, base, cur, k)
    ensures |f.Q| <= g.nvertices < Queues.QUEUESIZE
    ensures forall v :: v in f.Q ==> 1 <= v <= g.nvertices && v in f.D && v !in f.P
    ensures |f.level| == |f.parent| == g.nvertices + 1
    ensures f.Q != [] ==> f.Q[0] in f.Q
  {
    DistinctFits(f.Q, g.nvertices);
  }
}
