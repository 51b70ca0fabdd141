/** Kruskal's algorithm: the accepted edges form a minimum spanning forest. */
module Kruskal {
  import opened Forests
  import opened Graphs
  import UnionFind

  // ---------- The edge array ----------

  lemma {:induction false} ForwardUpToMonotone(g: Graph, k: nat, n: nat)
    requires k <= n < |g.edges|
    ensures ForwardUpTo(g, k) <= ForwardUpTo(g, n)
  {
    if k < n { ForwardUpToMonotone(g, k, n - 1); }
  }

  /** Writes each edge to a larger neighbour into e, vertex by vertex and list by list. */
  method ToEdgeArray(g: Graph, e: array<Edge>) returns (ghost m: nat)
    requires WellFormed(g)
    requires |ForwardUpTo(g, g.nvertices)| <= e.Length
    modifies e
    ensures m == |ForwardUpTo(g, g.nvertices)|
    ensures e[..m] == ForwardUpTo(g, g.nvertices) && e[m..] == old(e[m..])
  {
    var count := 0;
    m := 0;
    for i := 1 to g.nvertices + 1
      invariant count == m == |ForwardUpTo(g, i - 1)| <= e.Length
      invariant e[..m] == ForwardUpTo(g, i - 1) && e[m..] == old(e[..])[m..]
    {
      ghost var done := ForwardUpTo(g, i - 1);
      ForwardUpToMonotone(g, i, g.nvertices);
      var row := g.edges[i];
      assert done + Forward(row, i) == ForwardUpTo(g, i);
      while row != []
        invariant count == m == |done| <= e.Length
        invariant e[..m] == done && e[m..] == old(e[..])[m..]
        invariant done + Forward(row, i) == ForwardUpTo(g, i)
        decreases |row|
      {
        if row[0].y > i {
          ghost var d := Edge(i, row[0].y, row[0].weight);
          assert (done + [d]) + Forward(row[1..], i) == ForwardUpTo(g, i);
          assert |done| < |ForwardUpTo(g, i)|;
          ghost var before := e[..];
          e[count] := Edge(i, row[0].y, row[0].weight);
          assert e[..] == before[count := d];
          done := done + [d];
          count, m := count + 1, m + 1;
          assert e[..m] == before[..m - 1] + [d];
        }
        row := row[1..];
      }
      assert done + [] == done;
    }
  }

  // ---------- Sorting (the library's qsort) ----------

  ghost predicate SortedByWeight(s: seq<Edge>) {
    forall i, j :: 0 <= i < j < |s| ==> s[i].weight <= s[j].weight
  }

  function Insert(e: Edge, s: seq<Edge>): seq<Edge> {
    if s == [] || e.weight <= s[0].weight then [e] + s else [s[0]] + Insert(e, s[1..])
  }

  function Sorted(s: seq<Edge>): seq<Edge> {
    if s == [] then [] else Insert(s[0], Sorted(s[1..]))
  }

  lemma {:induction false} InsertMembers(e: Edge, s: seq<Edge>)
    ensures multiset(Insert(e, s)) == multiset(s) + multiset{e}
  {
    if s != [] {
      InsertMembers(e, s[1..]);
      assert s == [s[0]] + s[1..];
    }
  }

  lemma {:induction false} InsertSorts(e: Edge, s: seq<Edge>)
    requires SortedByWeight(s)
    ensures SortedByWeight(Insert(e, s))
  {
    if s != [] && e.weight > s[0].weight {
      var r := Insert(e, s[1..]);
      InsertSorts(e, s[1..]);
      InsertMembers(e, s[1..]);
      forall k | 0 <= k < |r| ensures s[0].weight <= r[k].weight {
        assert r[k] in multiset(r);
        assert r[k] == e || r[k] in s[1..];
        if r[k] != e {
          var j :| 0 <= j < |s| - 1 && s[1..][j] == r[k];
          assert s[j + 1] == r[k];
        }
      }
    }
  }

  lemma {:induction false} SortedSorts(s: seq<Edge>)
    ensures SortedByWeight(Sorted(s)) && multiset(Sorted(s)) == multiset(s)
  {
    if s != [] {
      SortedSorts(s[1..]);
      InsertSorts(s[0], Sorted(s[1..]));
      InsertMembers(s[0], Sorted(s[1..]));
      assert s == [s[0]] + s[1..];
    }
  }

  /** Sorts the first m entries of e by weight; the order among equal weights is not relied on. */
  method SortPrefix(e: array<Edge>, m: nat)
    requires m <= e.Length
    modifies e
    ensures SortedByWeight(e[..m]) && multiset(e[..m]) == multiset(old(e[..m]))
  {
    var r := Sorted(e[..m]);
    SortedSorts(e[..m]);
    assert |multiset(r)| == |r| && |multiset(e[..m])| == m;
    forall i | 0 <= i < m { e[i] := r[i]; }
    assert e[..m] == r;
  }

  // ---------- The greedy step ----------

  lemma {:induction false} UnweightedConnected(A: set<Edge>, U: set<Edge>, a: int, b: int)
    requires U == Unweighted(A)
    ensures Connected(U, a, b) <==> Connected(A, a, b)
  {
    assert forall u, v :: Adjacent(U, u, v) ==> Adjacent(A, u, v);
    forall u, v | Adjacent(A, u, v) ensures Adjacent(U, u, v) {
      var e :| e in A && Joins(e, u, v);
      assert Joins(Edge(e.x, e.y, 0), u, v);
    }
    if Connected(U, a, b) { ConnectedMonotone(U, A, a, b); }
    if Connected(A, a, b) { ConnectedMonotone(A, U, a, b); }
  }

  ghost function Unweighted(A: set<Edge>): set<Edge> {
    set e | e in A :: Edge(e.x, e.y, 0)
  }

  /** A lightest edge that joins two components of the forest may always be accepted. */
  lemma GreedyStep(E: set<Edge>, A: set<Edge>, e: Edge)
    requires Extendable(E, A) && Acyclic(A) && A <= E && e in E
    requires !Connected(A, e.x, e.y)
    requires forall f :: f in E && f.weight < e.weight ==> Connected(A, f.x, f.y)
    ensures Extendable(E, A + {e}) && Acyclic(A + {e}) && e !in A
  {
    var R := iset v | Connected(A, e.x, v);
    ConnectedReflexive(A, e.x);
    forall f | Crosses(f, R) ensures !Connected(A, f.x, f.y) {
      if Connected(A, f.x, f.y) {
        ConnectedSymmetric(A, f.x, f.y);
        if f.x in R { ConnectedTransitive(A, e.x, f.x, f.y); } else { ConnectedTransitive(A, e.x, f.y, f.x); }
      }
    }
    forall f | f in A ensures !Crosses(f, R) { ConnectedByEdge(A, f); }
    CutProperty(E, A, R, e);
    AcyclicPlusEdge(A, e);
  }

  ghost function Members(s: seq<Edge>): set<Edge> { set e | e in s }

  /** Edges seen so far are connected by the accepted ones. */
  ghost predicate Handled(s: seq<Edge>, i: int, A: set<Edge>) {
    forall k {:trigger s[k]} :: 0 <= k < i <= |s| ==> Connected(A, s[k].x, s[k].y)
  }

  lemma AcceptStep(s: seq<Edge>, E: set<Edge>, i: int, A: set<Edge>)
    requires SortedByWeight(s) && E == Members(s) && 0 <= i < |s|
    requires Extendable(E, A) && Acyclic(A) && A <= E && Handled(s, i, A)
    requires !Connected(A, s[i].x, s[i].y)
    ensures Extendable(E, A + {s[i]}) && Acyclic(A + {s[i]}) && s[i] !in A && Handled(s, i + 1, A + {s[i]})
  {
    var e := s[i];
    forall f | f in E && f.weight < e.weight ensures Connected(A, f.x, f.y) {
      var k :| 0 <= k < |s| && s[k] == f;
      assert k < i;
    }
    GreedyStep(E, A, e);
    ConnectedByEdge(A + {e}, e);
  }

  /** What holds after the first i edges of the sorted array were considered. */
  ghost predicate GreedyState(s: seq<Edge>, E: set<Edge>, i: int, tree: seq<Edge>) {
    && 0 <= i <= |s| && SortedByWeight(s) && E == Members(s)
    && Members(tree) <= E && Extendable(E, Members(tree)) && Acyclic(Members(tree)) && Handled(s, i, Members(tree))
    && InOrder(tree, s, i)
  }

  /** Accepted edges are distinct, by increasing weight, and among the first i. */
  ghost predicate InOrder(tree: seq<Edge>, s: seq<Edge>, i: int)
    requires 0 <= i <= |s|
  {
    && SortedByWeight(tree)
    && (forall k, j :: 0 <= k < j < |tree| ==> tree[k] != tree[j])
    && (forall k :: 0 <= k < |tree| ==> tree[k] in s[..i])
  }

  lemma InitialState(s: seq<Edge>)
    requires SortedByWeight(s)
    ensures GreedyState(s, Members(s), 0, [])
  {
    NothingYetExtendable(Members(s));
    assert Members([]) == {};
  }

  lemma RejectState(s: seq<Edge>, E: set<Edge>, i: int, tree: seq<Edge>)
    requires GreedyState(s, E, i, tree) && i < |s| && Connected(Members(tree), s[i].x, s[i].y)
    ensures GreedyState(s, E, i + 1, tree)
  {
    hide Extendable, Acyclic, Connected;
    assert s[..i + 1] == s[..i] + [s[i]];
  }

  lemma AcceptState(s: seq<Edge>, E: set<Edge>, i: int, tree: seq<Edge>)
    requires GreedyState(s, E, i, tree) && i < |s| && !Connected(Members(tree), s[i].x, s[i].y)
    ensures GreedyState(s, E, i + 1, tree + [s[i]])
    ensures Members(tree + [s[i]]) == Members(tree) + {s[i]}
  {
    hide Extendable, Acyclic, Connected;
    var A := Members(tree);
    AcceptStep(s, E, i, A);
    assert Members(tree + [s[i]]) == A + {s[i]};
    assert s[..i + 1] == s[..i] + [s[i]];
    forall k | 0 <= k < |tree| ensures tree[k].weight <= s[i].weight && tree[k] != s[i] {
      assert tree[k] in s[..i];
      var j :| 0 <= j < i && s[..i][j] == tree[k];
      assert tree[k] in A;
    }
  }

  lemma FinalState(s: seq<Edge>, E: set<Edge>, tree: seq<Edge>)
    requires GreedyState(s, E, |s|, tree)
    ensures MinimumSpanningForest(E, Members(tree))
  {
    var A := Members(tree);
    forall e | e in E ensures Connected(A, e.x, e.y) {
      var k :| 0 <= k < |s| && s[k] == e;
    }
    ExtendableSpanningIsMinimum(E, A);
  }

  lemma ArrayHoldsEdgeSet(s: seq<Edge>, log: seq<Edge>)
    requires multiset(s) == OrientedLog(log)
    ensures Members(s) == EdgeSet(log)
  {
    forall e ensures e in Members(s) <==> e in EdgeSet(log) {
      assert e in s <==> e in multiset(s);
      OrientedLogMembers(log, e);
    }
  }

  lemma {:induction false} OrientedLogEndpoints(log: seq<Edge>, n: int, e: Edge)
    requires Endpoints(log, n) && e in EdgeSet(log)
    ensures 1 <= e.x <= n && 1 <= e.y <= n
  {
    var k :| 0 <= k < |log| && log[k].x != log[k].y && e == Oriented(log[k]);
    assert 1 <= log[k].x <= n;
  }

  /** The edges reported as tree edges, in the order of acceptance.
      The edge array holds MAXV + 1 edges; `nedges` entries of it are sorted and read, so they
      must all have been written, which is the case exactly without self-loops. */
  method Kruskal(g: Graph, ghost log: seq<Edge>) returns (tree: seq<Edge>)
    requires WellFormed(g) && Undirected(g, log) && Endpoints(log, g.nvertices)
    requires NoSelfLoops(log) && g.nedges <= MAXV + 1
    ensures MinimumSpanningForest(EdgeSet(log), Members(tree))
    ensures forall a, b :: Connected(Members(tree), a, b) <==> Connected(EdgeSet(log), a, b)
    ensures SortedByWeight(tree) && forall i, j :: 0 <= i < j < |tree| ==> tree[i] != tree[j]
  {
    hide GreedyState, Connected, UnionFind.SetUnion.Valid, OrientedLog, EdgeSet, Undirected, NoSelfLoops;
    hide Oriented, InOrder, SortedByWeight, Members, Forward, ForwardUpTo;
    var s := new UnionFind.SetUnion(g.nvertices);
    var e := new Edge[MAXV + 1](_ => Edge(0, 0, 0));
    EachEdgeExactlyOnce(g, log);
    ghost var m := ToEdgeArray(g, e);
    SortPrefix(e, g.nedges);
    ghost var es, E := e[..g.nedges], EdgeSet(log);
    ArrayHoldsEdgeSet(es, log);
    InitialState(es);
    NothingAccepted();
    tree := [];
    for i := 0 to g.nedges
      invariant es == e[..g.nedges] && fresh(s) && fresh(s.p) && fresh(s.size) && s.Valid()
      invariant s.unions == Unweighted(Members(tree))
      invariant GreedyState(es, E, i, tree)
    {
      ArrayMember(es, i);
      OrientedLogEndpoints(log, g.nvertices, es[i]);
      var same := s.SameComponent(e[i].x, e[i].y);
      UnweightedConnected(Members(tree), s.unions, es[i].x, es[i].y);
      if !same {
        AcceptState(es, E, i, tree);
        s.UnionSets(e[i].x, e[i].y);
        tree := tree + [e[i]];
      } else {
        RejectState(es, E, i, tree);
      }
    }
    FinalState(es, E, tree);
    StateInOrder(es, E, tree);
    TreeConnectsAll(E, Members(tree));
  }

  lemma TreeConnectsAll(E: set<Edge>, F: set<Edge>)
    requires MinimumSpanningForest(E, F)
    ensures forall a, b :: Connected(F, a, b) <==> Connected(E, a, b)
  {
    forall a, b ensures Connected(F, a, b) <==> Connected(E, a, b) { SpansPreservesConnected(F, E, a, b); }
  }

  lemma NothingAccepted()
    ensures Unweighted(Members([])) == {}
  {}

  lemma ArrayMember(s: seq<Edge>, i: int)
    requires 0 <= i < |s|
    ensures s[i] in Members(s)
  {}

  lemma StateInOrder(s: seq<Edge>, E: set<Edge>, tree: seq<Edge>)
    requires GreedyState(s, E, |s|, tree)
    ensures InOrder(tree, s, |s|)
  {}
}
