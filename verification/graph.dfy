/** The adjacency-list graph: what insertions build, and which edges an undirected graph holds. */
module Graphs {
  import opened Forests

  const MAXV := 100

  datatype EdgeNode = EdgeNode(y: int, weight: int)

  /** edges[v] is the linked list of v, head first; entry 0 is not used. */
  datatype Graph = Graph(edges: seq<seq<EdgeNode>>, degree: seq<int>, nvertices: int, nedges: int, directed: bool)

  /** Vertices are 1..nvertices and every list stays among them. */
  ghost predicate WellFormed(g: Graph) {
    && 0 <= g.nvertices <= MAXV
    && |g.edges| == |g.degree| == MAXV + 1
    && forall v, k :: 1 <= v <= g.nvertices && 0 <= k < |g.edges[v]| ==> 1 <= g.edges[v][k].y <= g.nvertices
  }

  /** The graph structure that insertions update. */
  class GraphStore {
    var edges: seq<seq<EdgeNode>>
    var degree: seq<int>
    var nvertices: int
    var nedges: int
    var directed: bool

    ghost predicate Valid() reads this { |edges| == |degree| == MAXV + 1 }

    ghost function Value(): Graph reads this { Graph(edges, degree, nvertices, nedges, directed) }

    constructor (directed: bool)
      ensures Valid() && Value() == Graph(seq(MAXV + 1, _ => []), seq(MAXV + 1, _ => 0), 0, 0, directed)
    {
      edges, degree := seq(MAXV + 1, _ => []), seq(MAXV + 1, _ => 0);
      nvertices, nedges := 0, 0;
      this.directed := directed;
    }

    method InsertEdge(x: int, y: int, directed: bool)
      requires Valid() && 1 <= x <= MAXV && 1 <= y <= MAXV
      modifies this
      ensures Valid()
      ensures Value() == if directed then WithArc(old(Value()), x, y) else WithEdge(old(Value()), x, y)
      decreases !directed
    {
      edges := edges[x := [EdgeNode(y, 0)] + edges[x]];
      degree := degree[x := degree[x] + 1];
      if !directed {
        InsertEdge(y, x, true);
      } else {
        nedges := nedges + 1;
      }
    }
  }

  // ---------- Insertions as values ----------

  ghost function Pushed(g: Graph, x: int, y: int): Graph
    requires |g.edges| == |g.degree| == MAXV + 1 && 1 <= x <= MAXV
  {
    g.(edges := g.edges[x := [EdgeNode(y, 0)] + g.edges[x]], degree := g.degree[x := g.degree[x] + 1])
  }

  ghost function WithArc(g: Graph, x: int, y: int): Graph
    requires |g.edges| == |g.degree| == MAXV + 1 && 1 <= x <= MAXV
  {
    Pushed(g, x, y).(nedges := g.nedges + 1)
  }

  ghost function WithEdge(g: Graph, x: int, y: int): Graph
    requires |g.edges| == |g.degree| == MAXV + 1 && 1 <= x <= MAXV && 1 <= y <= MAXV
  {
    WithArc(Pushed(g, x, y), y, x)
  }

  /** The list of v after the undirected edges of `log` were inserted in that order. */
  ghost function Row(log: seq<Edge>, v: int): seq<EdgeNode> {
    if log == [] then [] else
      Nodes(log[|log| - 1], v) + Row(log[..|log| - 1], v)
  }

  /** What one undirected insertion puts in front of the list of v. */
  ghost function Nodes(e: Edge, v: int): seq<EdgeNode> {
    (if e.y == v then [EdgeNode(e.x, e.weight)] else []) + (if e.x == v then [EdgeNode(e.y, e.weight)] else [])
  }

  /** g is the undirected graph whose edges, in insertion order, are `log`. Weights are left
      arbitrary: insertion stores 0, but the spanning-tree algorithms read any weight. */
  ghost predicate Undirected(g: Graph, log: seq<Edge>) {
    && |g.edges| == |g.degree| == MAXV + 1
    && g.nedges == |log|
    && forall v :: 1 <= v <= MAXV ==> g.edges[v] == Row(log, v) && g.degree[v] == |g.edges[v]|
  }

  ghost predicate Endpoints(log: seq<Edge>, n: int) {
    forall k :: 0 <= k < |log| ==> 1 <= log[k].x <= n && 1 <= log[k].y <= n
  }

  ghost predicate NoSelfLoops(log: seq<Edge>) {
    forall k :: 0 <= k < |log| ==> log[k].x != log[k].y
  }

  /** Each undirected insertion counts one edge and appears in the lists of both ends. */
  lemma InsertionExtendsLog(g: Graph, log: seq<Edge>, x: int, y: int)
    requires Undirected(g, log) && 1 <= x <= MAXV && 1 <= y <= MAXV
    ensures Undirected(WithEdge(g, x, y), log + [Edge(x, y, 0)])
  {
    hide Row;
    var log', g' := log + [Edge(x, y, 0)], WithEdge(g, x, y);
    forall v | 1 <= v <= MAXV ensures g'.edges[v] == Row(log', v) && g'.degree[v] == |g'.edges[v]| {
      RowOfMore(log, Edge(x, y, 0), v);
      assert g.edges[v] == Row(log, v);
    }
  }

  lemma RowOfMore(log: seq<Edge>, e: Edge, v: int)
    ensures Row(log + [e], v) == Nodes(e, v) + Row(log, v)
  {
    assert (log + [e])[..|log|] == log;
  }

  // ---------- Reading a graph ----------

  /** The undirected edges a list of pairs stands for. */
  ghost function Log(pairs: seq<(int, int)>): seq<Edge> {
    seq(|pairs|, k requires 0 <= k < |pairs| => Edge(pairs[k].0, pairs[k].1, 0))
  }

  /** The list of v after the arcs were inserted in that order: newest first. */
  ghost function ArcRow(pairs: seq<(int, int)>, v: int): seq<EdgeNode> {
    if pairs == [] then [] else
      var a := pairs[|pairs| - 1];
      (if a.0 == v then [EdgeNode(a.1, 0)] else []) + ArcRow(pairs[..|pairs| - 1], v)
  }

  /** g is the directed graph whose arcs, in insertion order, are `pairs`. */
  ghost predicate Directed(g: Graph, pairs: seq<(int, int)>) {
    && |g.edges| == |g.degree| == MAXV + 1
    && g.nedges == |pairs|
    && forall v :: 1 <= v <= MAXV ==> g.edges[v] == ArcRow(pairs, v) && g.degree[v] == |g.edges[v]|
  }

  ghost predicate Built(g: Graph, pairs: seq<(int, int)>, directed: bool) {
    if directed then Directed(g, pairs) else Undirected(g, Log(pairs))
  }

  lemma InsertionBuilds(g: Graph, pairs: seq<(int, int)>, directed: bool, a: (int, int))
    requires Built(g, pairs, directed) && 1 <= a.0 <= MAXV && 1 <= a.1 <= MAXV
    ensures Built(if directed then WithArc(g, a.0, a.1) else WithEdge(g, a.0, a.1), pairs + [a], directed)
  {
    var pairs' := pairs + [a];
    if directed {
      var g' := WithArc(g, a.0, a.1);
      assert pairs'[..|pairs|] == pairs && pairs'[|pairs|] == a;
      forall v | 1 <= v <= MAXV ensures g'.edges[v] == ArcRow(pairs', v) && g'.degree[v] == |g'.edges[v]| {
        assert g.edges[v] == ArcRow(pairs, v);
      }
    } else {
      InsertionExtendsLog(g, Log(pairs), a.0, a.1);
      assert Log(pairs') == Log(pairs) + [Edge(a.0, a.1, 0)];
    }
  }

  /** All numbers in the input name vertices. */
  ghost predicate Within(pairs: seq<(int, int)>, n: int) {
    forall k :: 0 <= k < |pairs| ==> 1 <= pairs[k].0 <= n && 1 <= pairs[k].1 <= n
  }

  lemma {:induction false} ArcRowWithin(pairs: seq<(int, int)>, n: int, v: int, node: EdgeNode)
    requires Within(pairs, n) && node in ArcRow(pairs, v)
    ensures 1 <= node.y <= n
  {
    var init, a := pairs[..|pairs| - 1], pairs[|pairs| - 1];
    if node in ArcRow(init, v) { ArcRowWithin(init, n, v, node); }
  }

  lemma {:induction false} RowWithin(log: seq<Edge>, n: int, v: int, node: EdgeNode)
    requires Endpoints(log, n) && node in Row(log, v)
    ensures 1 <= node.y <= n
  {
    var init, e := log[..|log| - 1], log[|log| - 1];
    if node in Row(init, v) {
      RowWithin(init, n, v, node);
    } else {
      assert node in Nodes(e, v);
    }
  }

  lemma BuiltIsWellFormed(g: Graph, pairs: seq<(int, int)>)
    requires Built(g, pairs, g.directed) && Within(pairs, g.nvertices) && 0 <= g.nvertices <= MAXV
    ensures WellFormed(g)
  {
    hide Row, ArcRow;
    forall v, k | 1 <= v <= g.nvertices && 0 <= k < |g.edges[v]| ensures 1 <= g.edges[v][k].y <= g.nvertices {
      var node := g.edges[v][k];
      if g.directed {
        ArcRowWithin(pairs, g.nvertices, v, node);
      } else {
        RowWithin(Log(pairs), g.nvertices, v, node);
      }
    }
  }

  /** Builds the graph of the pairs read; undirected edges go into the lists of both ends. */
  method ReadGraph(nvertices: int, pairs: seq<(int, int)>, directed: bool) returns (store: GraphStore)
    requires 0 <= nvertices <= MAXV && Within(pairs, nvertices)
    ensures fresh(store) && store.Valid() && WellFormed(store.Value())
    ensures store.nvertices == nvertices && store.directed == directed && store.nedges == |pairs|
    ensures directed ==> Directed(store.Value(), pairs)
    ensures !directed ==> Undirected(store.Value(), Log(pairs)) && Endpoints(Log(pairs), nvertices)
  {
    hide Row, ArcRow;
    store := new GraphStore(directed);
    store.nvertices := nvertices;
    NothingBuilt(store.Value());
    for i := 0 to |pairs|
      invariant fresh(store) && store.Valid() && store.nvertices == nvertices && store.directed == directed
      invariant Built(store.Value(), pairs[..i], directed)
    {
      InsertionBuilds(store.Value(), pairs[..i], directed, pairs[i]);
      assert pairs[..i + 1] == pairs[..i] + [pairs[i]];
      store.InsertEdge(pairs[i].0, pairs[i].1, directed);
    }
    assert pairs[..|pairs|] == pairs;
    BuiltIsWellFormed(store.Value(), pairs);
  }

  lemma NothingBuilt(g: Graph)
    requires g.edges == seq(MAXV + 1, _ => []) && g.degree == seq(MAXV + 1, _ => 0) && g.nedges == 0
    ensures Built(g, [], true) && Built(g, [], false)
  {
    assert Log([]) == [];
  }

  // ---------- Lists by insertions ----------

  /** The two insertions of undirected edge k are 2k, into the list of x, and 2k+1, into that of y. */
  ghost function Owner(log: seq<Edge>, m: int): int
    requires 0 <= m < 2 * |log|
  {
    if m % 2 == 0 then log[m / 2].x else log[m / 2].y
  }

  ghost function Inserted(log: seq<Edge>, m: int): EdgeNode
    requires 0 <= m < 2 * |log|
  {
    EdgeNode(if m % 2 == 0 then log[m / 2].y else log[m / 2].x, log[m / 2].weight)
  }

  ghost predicate InsertsInto(log: seq<Edge>, v: int, m: int) {
    0 <= m < 2 * |log| && Owner(log, m) == v
  }

  ghost predicate Decreasing(at: seq<int>) {
    forall a, b :: 0 <= a < b < |at| ==> at[a] > at[b]
  }

  ghost predicate IsInserted(log: seq<Edge>, m: int, node: EdgeNode) {
    0 <= m < 2 * |log| && node == Inserted(log, m)
  }

  /** The list of v holds one node for each insertion into it, newest first. */
  ghost predicate NewestFirst(log: seq<Edge>, v: int, row: seq<EdgeNode>, at: seq<int>) {
    && |at| == |row| && Decreasing(at)
    && (forall m :: m in at <==> InsertsInto(log, v, m))
    && (forall a :: 0 <= a < |at| ==> IsInserted(log, at[a], row[a]))
  }

  lemma OlderInsertions(log: seq<Edge>, e: Edge, v: int, m: int, node: EdgeNode)
    ensures InsertsInto(log + [e], v, m) <==>
      InsertsInto(log, v, m) || (m == 2 * |log| && e.x == v) || (m == 2 * |log| + 1 && e.y == v)
    ensures IsInserted(log, m, node) ==> IsInserted(log + [e], m, node)
    ensures IsInserted(log + [e], 2 * |log|, EdgeNode(e.y, e.weight))
    ensures IsInserted(log + [e], 2 * |log| + 1, EdgeNode(e.x, e.weight))
    ensures InsertsInto(log, v, m) ==> m < 2 * |log|
  {}

  lemma DecreasingPlus(m: int, at: seq<int>)
    requires Decreasing(at) && forall n :: n in at ==> n < m
    ensures Decreasing([m] + at)
  {
    var s := [m] + at;
    forall a, b | 0 <= a < b < |s| ensures s[a] > s[b] {
      assert s[b] == at[b-1] && at[b-1] in at;
    }
  }

  lemma NewerInFront(log: seq<Edge>, e: Edge, v: int, row: seq<EdgeNode>, at: seq<int>) returns (at': seq<int>)
    requires NewestFirst(log, v, row, at)
    ensures NewestFirst(log + [e], v, Nodes(e, v) + row, at')
  {
    hide InsertsInto, IsInserted, Decreasing;
    var n := 2 * |log|;
    forall m | m in at ensures m < n { OlderInsertions(log, e, v, m, EdgeNode(0, 0)); }
    var at1 := if e.x == v then [n] + at else at;
    DecreasingPlus(n, at);
    at' := if e.y == v then [n + 1] + at1 else at1;
    DecreasingPlus(n + 1, at1);
    var row' := Nodes(e, v) + row;
    forall m ensures m in at' <==> InsertsInto(log + [e], v, m) {
      OlderInsertions(log, e, v, m, EdgeNode(0, 0));
      assert m in at' <==> m in at || (m == n && e.x == v) || (m == n + 1 && e.y == v);
    }
    var d := |at'| - |at|;
    forall a | 0 <= a < |at'| ensures IsInserted(log + [e], at'[a], row'[a]) {
      if a >= d { assert IsInserted(log, at[a - d], row[a - d]) && at'[a] == at[a - d] && row'[a] == row[a - d]; }
      OlderInsertions(log, e, v, at'[a], row'[a]);
    }
  }

  lemma {:induction false} RowIsInsertions(log: seq<Edge>, v: int) returns (at: seq<int>)
    ensures NewestFirst(log, v, Row(log, v), at)
  {
    if log == [] {
      at := [];
    } else {
      var init, e := log[..|log| - 1], log[|log| - 1];
      at := RowIsInsertions(init, v);
      hide NewestFirst;
      at := NewerInFront(init, e, v, Row(init, v), at);
      assert init + [e] == log;
    }
  }

  /** The same for the list of a directed graph: one node for each pair that starts at v. */
  ghost predicate NewestArcFirst(pairs: seq<(int, int)>, v: int, row: seq<EdgeNode>, at: seq<int>) {
    && |at| == |row| && Decreasing(at)
    && (forall m :: m in at <==> StartsAt(pairs, v, m))
    && (forall a :: 0 <= a < |at| ==> IsArc(pairs, at[a], row[a]))
  }

  ghost predicate IsArc(pairs: seq<(int, int)>, m: int, node: EdgeNode) {
    0 <= m < |pairs| && node == EdgeNode(pairs[m].1, 0)
  }

  ghost predicate StartsAt(pairs: seq<(int, int)>, v: int, m: int) {
    0 <= m < |pairs| && pairs[m].0 == v
  }

  lemma OlderArcs(pairs: seq<(int, int)>, p: (int, int), v: int, m: int, node: EdgeNode)
    ensures StartsAt(pairs + [p], v, m) <==> StartsAt(pairs, v, m) || (m == |pairs| && p.0 == v)
    ensures IsArc(pairs, m, node) ==> IsArc(pairs + [p], m, node)
    ensures IsArc(pairs + [p], |pairs|, EdgeNode(p.1, 0))
    ensures StartsAt(pairs, v, m) ==> m < |pairs|
  {}

  lemma NewerArcInFront(pairs: seq<(int, int)>, p: (int, int), v: int, row: seq<EdgeNode>, at: seq<int>)
      returns (at': seq<int>)
    requires NewestArcFirst(pairs, v, row, at)
    ensures NewestArcFirst(pairs + [p], v, (if p.0 == v then [EdgeNode(p.1, 0)] else []) + row, at')
  {
    hide StartsAt, IsArc, Decreasing;
    var n := |pairs|;
    forall m | m in at ensures m < n { OlderArcs(pairs, p, v, m, EdgeNode(0, 0)); }
    DecreasingPlus(n, at);
    at' := if p.0 == v then [n] + at else at;
    var row' := (if p.0 == v then [EdgeNode(p.1, 0)] else []) + row;
    forall m ensures m in at' <==> StartsAt(pairs + [p], v, m) {
      OlderArcs(pairs, p, v, m, EdgeNode(0, 0));
      assert m in at' <==> m in at || (m == n && p.0 == v);
    }
    var d := |at'| - |at|;
    forall a | 0 <= a < |at'| ensures IsArc(pairs + [p], at'[a], row'[a]) {
      if a >= d { assert IsArc(pairs, at[a - d], row[a - d]) && at'[a] == at[a - d] && row'[a] == row[a - d]; }
      OlderArcs(pairs, p, v, at'[a], row'[a]);
    }
  }

  lemma {:induction false} ArcRowIsInsertions(pairs: seq<(int, int)>, v: int) returns (at: seq<int>)
    ensures NewestArcFirst(pairs, v, ArcRow(pairs, v), at)
  {
    if pairs == [] {
      at := [];
    } else {
      var init, p := pairs[..|pairs| - 1], pairs[|pairs| - 1];
      at := ArcRowIsInsertions(init, v);
      hide NewestArcFirst;
      at := NewerArcInFront(init, p, v, ArcRow(init, v), at);
      assert init + [p] == pairs;
    }
  }

  // ---------- The undirected edges of a graph, each once ----------

  ghost function Oriented(e: Edge): Edge {
    if e.x <= e.y then e else Edge(e.y, e.x, e.weight)
  }

  ghost function OrientedLog(log: seq<Edge>): multiset<Edge> {
    if log == [] then multiset{} else
      var e := log[|log| - 1];
      OrientedLog(log[..|log| - 1]) + if e.x == e.y then multiset{} else multiset{Oriented(e)}
  }

  ghost function SelfLoops(log: seq<Edge>): nat {
    if log == [] then 0 else
      SelfLoops(log[..|log| - 1]) + if log[|log| - 1].x == log[|log| - 1].y then 1 else 0
  }

  /** The edges that vertex i contributes to the edge array: those to a larger neighbour. */
  ghost function Forward(row: seq<EdgeNode>, i: int): seq<Edge> {
    if row == [] then [] else
      (if row[0].y > i then [Edge(i, row[0].y, row[0].weight)] else []) + Forward(row[1..], i)
  }

  ghost function ForwardUpTo(g: Graph, k: nat): seq<Edge>
    requires k < |g.edges|
  {
    if k == 0 then [] else ForwardUpTo(g, k - 1) + Forward(g.edges[k], k)
  }

  ghost function ForwardRows(log: seq<Edge>, k: nat): multiset<Edge> {
    if k == 0 then multiset{} else ForwardRows(log, k - 1) + multiset(Forward(Row(log, k), k))
  }

  lemma {:induction false} ForwardConcat(a: seq<EdgeNode>, b: seq<EdgeNode>, i: int)
    ensures Forward(a + b, i) == Forward(a, i) + Forward(b, i)
  {
    if a == [] {
      assert a + b == b;
    } else {
      assert (a + b)[1..] == a[1..] + b;
      ForwardConcat(a[1..], b, i);
    }
  }

  /** What edge e adds to row v: one entry at its smaller end, and nothing for a self-loop. */
  ghost function AtRow(e: Edge, v: int): multiset<Edge> {
    if e.x != e.y && Oriented(e).x == v then multiset{Oriented(e)} else multiset{}
  }

  ghost function AtRows(e: Edge, k: int): multiset<Edge> {
    if e.x != e.y && Oriented(e).x <= k then multiset{Oriented(e)} else multiset{}
  }

  lemma ForwardSingle(y: int, weight: int, v: int)
    ensures Forward([EdgeNode(y, weight)], v) == if y > v then [Edge(v, y, weight)] else []
  {
    assert [EdgeNode(y, weight)][1..] == [];
  }

  lemma ForwardOfNodes(e: Edge, v: int)
    ensures multiset(Forward(Nodes(e, v), v)) == AtRow(e, v)
  {
    ForwardSingle(e.x, e.weight, v);
    ForwardSingle(e.y, e.weight, v);
    if e.x == v && e.y == v {
      ForwardConcat([EdgeNode(e.x, e.weight)], [EdgeNode(e.y, e.weight)], v);
    } else if e.x == v {
      assert Nodes(e, v) == [EdgeNode(e.y, e.weight)];
    } else if e.y == v {
      assert Nodes(e, v) == [EdgeNode(e.x, e.weight)];
    }
  }

  lemma ForwardOfNewEdge(log: seq<Edge>, v: int)
    requires log != []
    ensures multiset(Forward(Row(log, v), v))
            == multiset(Forward(Row(log[..|log| - 1], v), v)) + AtRow(log[|log| - 1], v)
  {
    var e := log[|log| - 1];
    ForwardOfNodes(e, v);
    ForwardConcat(Nodes(e, v), Row(log[..|log| - 1], v), v);
  }

  lemma AtRowsGrow(e: Edge, k: int)
    ensures AtRows(e, k) == AtRows(e, k - 1) + AtRow(e, k)
  {}

  lemma Regroup(a: multiset<Edge>, b: multiset<Edge>, c: multiset<Edge>, d: multiset<Edge>)
    ensures (a + b) + (c + d) == (a + c) + (b + d)
  {}

  lemma {:induction false} ForwardRowsGrow(log: seq<Edge>, k: nat)
    requires log != [] && Endpoints(log, MAXV)
    ensures ForwardRows(log, k) == ForwardRows(log[..|log| - 1], k) + AtRows(log[|log| - 1], k)
  {
    hide Row, Forward, AtRow;
    var e := log[|log| - 1];
    assert 1 <= e.x && 1 <= e.y;
    if k == 0 {
      assert AtRows(e, 0) == multiset{};
    } else {
      ForwardRowsGrow(log, k - 1);
      ForwardOfNewEdge(log, k);
      var init := log[..|log| - 1];
      AtRowsGrow(e, k);
      Regroup(ForwardRows(init, k - 1), AtRows(e, k - 1), multiset(Forward(Row(init, k), k)), AtRow(e, k));
    }
  }

  lemma {:induction false} NoLogNoRows(k: nat)
    ensures ForwardRows([], k) == multiset{}
  {
    if k > 0 { NoLogNoRows(k - 1); }
  }

  lemma {:induction false} ForwardRowsAreLog(log: seq<Edge>, n: nat)
    requires Endpoints(log, n) && n <= MAXV
    ensures ForwardRows(log, n) == OrientedLog(log)
  {
    if log == [] {
      NoLogNoRows(n);
    } else {
      ForwardRowsGrow(log, n);
      ForwardRowsAreLog(log[..|log| - 1], n);
    }
  }

  lemma {:induction false} ForwardUpToIsRows(g: Graph, log: seq<Edge>, k: nat)
    requires Undirected(g, log) && k <= MAXV
    ensures multiset(ForwardUpTo(g, k)) == ForwardRows(log, k)
  {
    hide Row, Forward;
    if k > 0 {
      ForwardUpToIsRows(g, log, k - 1);
      assert g.edges[k] == Row(log, k);
    }
  }

  lemma {:induction false} LogSize(log: seq<Edge>)
    ensures |OrientedLog(log)| == |log| - SelfLoops(log)
  {
    if log != [] { LogSize(log[..|log| - 1]); }
  }

  lemma {:induction false} SelfLoopsNone(log: seq<Edge>)
    ensures SelfLoops(log) == 0 <==> NoSelfLoops(log)
  {
    if log != [] {
      var init := log[..|log| - 1];
      SelfLoopsNone(init);
      assert NoSelfLoops(log) <==> NoSelfLoops(init) && log[|log| - 1].x != log[|log| - 1].y by {
        assert forall k :: 0 <= k < |init| ==> init[k] == log[k];
      }
    }
  }

  /** Scanning the lists for larger neighbours yields every undirected edge exactly once, so the
      number of edges found falls short of `nedges` by exactly the number of self-loops. */
  lemma EachEdgeExactlyOnce(g: Graph, log: seq<Edge>)
    requires Undirected(g, log) && WellFormed(g) && Endpoints(log, g.nvertices)
    ensures multiset(ForwardUpTo(g, g.nvertices)) == OrientedLog(log)
    ensures |ForwardUpTo(g, g.nvertices)| == g.nedges - SelfLoops(log)
    ensures |ForwardUpTo(g, g.nvertices)| == g.nedges <==> NoSelfLoops(log)
  {
    SelfLoopsNone(log);
    ForwardUpToIsRows(g, log, g.nvertices);
    ForwardRowsAreLog(log, g.nvertices);
    LogSize(log);
    var s := ForwardUpTo(g, g.nvertices);
    assert |multiset(s)| == |s|;
  }

  /** The distinct undirected edges of the graph, smaller end first. */
  ghost function EdgeSet(log: seq<Edge>): set<Edge> {
    set k | 0 <= k < |log| && log[k].x != log[k].y :: Oriented(log[k])
  }

  lemma {:induction false} OrientedLogMembers(log: seq<Edge>, e: Edge)
    ensures e in OrientedLog(log) <==> e in EdgeSet(log)
  {
    if log != [] {
      var init, d := log[..|log| - 1], log[|log| - 1];
      OrientedLogMembers(init, e);
      assert EdgeSet(log) == EdgeSet(init) + if d.x != d.y then {Oriented(d)} else {} by {
        assert forall k :: 0 <= k < |init| ==> init[k] == log[k];
      }
    }
  }
}
