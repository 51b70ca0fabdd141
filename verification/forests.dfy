/** Undirected weighted edges, connectivity by walks, spanning forests, and the cut
    property on which both Kruskal's and Prim's algorithms rest.

    Edges are values, so two parallel edges that also agree in weight are one member of a
    `set<Edge>`. A forest never holds both, so no forest and no total weight is lost. */
module Forests {

  datatype Edge = Edge(x: int, y: int, weight: int)

  ghost predicate Joins(e: Edge, a: int, b: int) {
    (e.x == a && e.y == b) || (e.x == b && e.y == a)
  }

  ghost predicate Adjacent(F: set<Edge>, a: int, b: int) {
    exists e :: e in F && Joins(e, a, b)
  }

  ghost predicate Walk(F: set<Edge>, p: seq<int>) {
    |p| > 0 && forall i :: 0 <= i < |p| - 1 ==> Adjacent(F, p[i], p[i+1])
  }

  ghost predicate Connected(F: set<Edge>, a: int, b: int) {
    exists p :: Walk(F, p) && p[0] == a && p[|p| - 1] == b
  }

  // ---------- Connectivity is an equivalence, monotone in the edges ----------

  lemma ConnectedReflexive(F: set<Edge>, a: int)
    ensures Connected(F, a, a)
  {
    assert Walk(F, [a]);
  }

  lemma ConnectedByEdge(F: set<Edge>, e: Edge)
    requires e in F
    ensures Connected(F, e.x, e.y)
  {
    assert Joins(e, e.x, e.y);
    var p := [e.x, e.y];
    assert Walk(F, p) && p[0] == e.x && p[|p| - 1] == e.y;
  }

  lemma ConnectedTransitive(F: set<Edge>, a: int, b: int, c: int)
    requires Connected(F, a, b) && Connected(F, b, c)
    ensures Connected(F, a, c)
  {
    var p :| Walk(F, p) && p[0] == a && p[|p| - 1] == b;
    var q :| Walk(F, q) && q[0] == b && q[|q| - 1] == c;
    var r := p + q[1..];
    assert Walk(F, r) && r[0] == a && r[|r| - 1] == c by {
      forall i | 0 <= i < |r| - 1 ensures Adjacent(F, r[i], r[i+1]) {
        if i < |p| - 1 {
          assert r[i] == p[i] && r[i+1] == p[i+1];
        } else {
          var j := i - (|p| - 1);
          assert r[i] == q[j] && r[i+1] == q[j+1];
        }
      }
    }
  }

  lemma ConnectedSymmetric(F: set<Edge>, a: int, b: int)
    requires Connected(F, a, b)
    ensures Connected(F, b, a)
  {
    var p :| Walk(F, p) && p[0] == a && p[|p| - 1] == b;
    var r := seq(|p|, i requires 0 <= i < |p| => p[|p| - 1 - i]);
    assert Walk(F, r) && r[0] == b && r[|r| - 1] == a by {
      forall i | 0 <= i < |r| - 1 ensures Adjacent(F, r[i], r[i+1]) {
        var k := |p| - 2 - i;
        assert Adjacent(F, p[k], p[k+1]);
        var e :| e in F && Joins(e, p[k], p[k+1]);
        assert Joins(e, r[i], r[i+1]);
      }
    }
  }

  /** Connectivity depends only on which vertices are adjacent. */
  lemma ConnectedMonotone(F: set<Edge>, G: set<Edge>, a: int, b: int)
    requires Connected(F, a, b)
    requires forall u, v :: Adjacent(F, u, v) ==> Adjacent(G, u, v)
    ensures Connected(G, a, b)
  {
    var p :| Walk(F, p) && p[0] == a && p[|p| - 1] == b;
    assert Walk(G, p);
  }

  lemma ConnectedSubset(F: set<Edge>, G: set<Edge>, a: int, b: int)
    requires Connected(F, a, b) && F <= G
    ensures Connected(G, a, b)
  {
    ConnectedMonotone(F, G, a, b);
  }

  /** A walk that leaves a vertex set uses an edge that crosses its border. */
  lemma {:induction false} WalkStaysInside(F: set<Edge>, R: iset<int>, p: seq<int>)
    requires Walk(F, p) && p[0] in R
    requires forall e :: e in F ==> !Crosses(e, R)
    ensures p[|p| - 1] in R
  {
    if |p| > 1 {
      assert Adjacent(F, p[0], p[1]);
      assert Walk(F, p[1..]) by {
        forall i | 0 <= i < |p[1..]| - 1 ensures Adjacent(F, p[1..][i], p[1..][i+1]) {
          assert Adjacent(F, p[i+1], p[i+2]);
        }
      }
      WalkStaysInside(F, R, p[1..]);
    }
  }

  ghost predicate Crosses(e: Edge, R: iset<int>) {
    (e.x in R) != (e.y in R)
  }

  lemma ConnectedStaysInside(F: set<Edge>, R: iset<int>, a: int, b: int)
    requires Connected(F, a, b)
    requires forall e :: e in F ==> !Crosses(e, R)
    ensures a in R <==> b in R
  {
    ConnectedSymmetric(F, a, b);
    if a in R {
      var p :| Walk(F, p) && p[0] == a && p[|p| - 1] == b;
      WalkStaysInside(F, R, p);
    }
    if b in R {
      var p :| Walk(F, p) && p[0] == b && p[|p| - 1] == a;
      WalkStaysInside(F, R, p);
    }
  }

  // ---------- What one more edge connects ----------

  ghost predicate ConnectedThrough(F: set<Edge>, e: Edge, a: int, b: int) {
    || (Connected(F, a, e.x) && Connected(F, e.y, b))
    || (Connected(F, a, e.y) && Connected(F, e.x, b))
  }

  lemma {:induction false} WalkThroughEdge(F: set<Edge>, e: Edge, p: seq<int>)
    requires Walk(F + {e}, p)
    ensures Connected(F, p[0], p[|p|-1]) || ConnectedThrough(F, e, p[0], p[|p|-1])
  {
    var a, b := p[0], p[|p|-1];
    ConnectedReflexive(F, a);
    if |p| > 1 {
      var q := p[1..];
      assert Walk(F + {e}, q) by {
        forall i | 0 <= i < |q| - 1 ensures Adjacent(F + {e}, q[i], q[i+1]) {
          assert Adjacent(F + {e}, p[i+1], p[i+2]);
        }
      }
      WalkThroughEdge(F, e, q);
      assert Adjacent(F + {e}, a, p[1]);
      var d :| d in F + {e} && Joins(d, a, p[1]);
      if d in F {
        ConnectedByEdge(F, d);
        ConnectedSymmetric(F, d.x, d.y);
        assert Connected(F, a, p[1]);
        if Connected(F, p[1], b) {
          ConnectedTransitive(F, a, p[1], b);
        } else if Connected(F, p[1], e.x) && Connected(F, e.y, b) {
          ConnectedTransitive(F, a, p[1], e.x);
        } else {
          ConnectedTransitive(F, a, p[1], e.y);
        }
      }
    }
  }

  /** Adding e connects exactly the pairs that reach its two ends. */
  lemma ConnectedPlusEdge(F: set<Edge>, e: Edge, a: int, b: int)
    ensures Connected(F + {e}, a, b) <==> Connected(F, a, b) || ConnectedThrough(F, e, a, b)
  {
    var G := F + {e};
    if Connected(G, a, b) {
      var p :| Walk(G, p) && p[0] == a && p[|p| - 1] == b;
      WalkThroughEdge(F, e, p);
    }
    if Connected(F, a, b) {
      ConnectedSubset(F, G, a, b);
    } else if ConnectedThrough(F, e, a, b) {
      ConnectedByEdge(G, e);
      ConnectedSymmetric(G, e.x, e.y);
      var (u, v) := if Connected(F, a, e.x) && Connected(F, e.y, b) then (e.x, e.y) else (e.y, e.x);
      ConnectedSubset(F, G, a, u);
      ConnectedSubset(F, G, v, b);
      ConnectedTransitive(G, a, u, v);
      ConnectedTransitive(G, a, v, b);
    }
  }

  /** An edge whose ends are already connected adds no connection. */
  lemma RedundantEdge(F: set<Edge>, e: Edge, a: int, b: int)
    requires Connected(F, e.x, e.y)
    ensures Connected(F + {e}, a, b) <==> Connected(F, a, b)
  {
    ConnectedPlusEdge(F, e, a, b);
    ConnectedSymmetric(F, e.x, e.y);
    if Connected(F, a, e.x) && Connected(F, e.y, b) {
      ConnectedTransitive(F, a, e.x, e.y);
      ConnectedTransitive(F, a, e.y, b);
    } else if ConnectedThrough(F, e, a, b) {
      ConnectedTransitive(F, a, e.y, e.x);
      ConnectedTransitive(F, a, e.x, b);
    }
  }

  // ---------- Total weight ----------

  ghost function Weight(F: set<Edge>): int {
    if F == {} then 0 else var e :| e in F; e.weight + Weight(F - {e})
  }

  lemma {:induction false} WeightRemove(F: set<Edge>, e: Edge)
    requires e in F
    ensures Weight(F) == e.weight + Weight(F - {e})
  {
    var d :| d in F && Weight(F) == d.weight + Weight(F - {d});
    if d != e {
      WeightRemove(F - {d}, e);
      WeightRemove(F - {e}, d);
      assert F - {d} - {e} == F - {e} - {d};
    }
  }

  lemma WeightAdd(F: set<Edge>, e: Edge)
    requires e !in F
    ensures Weight(F + {e}) == Weight(F) + e.weight
  {
    WeightRemove(F + {e}, e);
    assert F + {e} - {e} == F;
  }

  // ---------- Spanning forests ----------

  /** Every edge is a bridge. */
  ghost predicate Acyclic(F: set<Edge>) {
    forall e {:trigger Connected(F - {e}, e.x, e.y)} :: e in F ==> !Connected(F - {e}, e.x, e.y)
  }

  /** F connects whatever E connects. */
  ghost predicate Spans(F: set<Edge>, E: set<Edge>) {
    forall e {:trigger Connected(F, e.x, e.y)} :: e in E ==> Connected(F, e.x, e.y)
  }

  ghost predicate SpanningForest(E: set<Edge>, F: set<Edge>) {
    F <= E && Acyclic(F) && Spans(F, E)
  }

  ghost predicate MinimumSpanningForest(E: set<Edge>, F: set<Edge>) {
    && SpanningForest(E, F)
    && forall S :: SpanningForest(E, S) ==> Weight(F) <= Weight(S)
  }

  /** Spanning edge by edge is the same as preserving all of connectivity. */
  lemma {:induction false} SpansAllWalks(F: set<Edge>, E: set<Edge>, p: seq<int>)
    requires Spans(F, E) && Walk(E, p)
    ensures Connected(F, p[0], p[|p|-1])
  {
    ConnectedReflexive(F, p[0]);
    if |p| > 1 {
      var q := p[1..];
      assert Walk(E, q) by {
        forall i | 0 <= i < |q| - 1 ensures Adjacent(E, q[i], q[i+1]) {
          assert Adjacent(E, p[i+1], p[i+2]);
        }
      }
      SpansAllWalks(F, E, q);
      assert Adjacent(E, p[0], p[1]);
      var d :| d in E && Joins(d, p[0], p[1]);
      ConnectedSymmetric(F, d.x, d.y);
      ConnectedTransitive(F, p[0], p[1], p[|p|-1]);
    }
  }

  lemma SpansPreservesConnected(F: set<Edge>, E: set<Edge>, a: int, b: int)
    requires Spans(F, E) && F <= E
    ensures Connected(F, a, b) <==> Connected(E, a, b)
  {
    if Connected(E, a, b) {
      var p :| Walk(E, p) && p[0] == a && p[|p| - 1] == b;
      SpansAllWalks(F, E, p);
    }
    if Connected(F, a, b) {
      ConnectedSubset(F, E, a, b);
    }
  }

  lemma AcyclicPlusEdge(F: set<Edge>, e: Edge)
    requires Acyclic(F) && !Connected(F, e.x, e.y)
    ensures e !in F && Acyclic(F + {e})
  {
    if e in F { ConnectedByEdge(F, e); }
    forall d | d in F + {e} ensures !Connected(F + {e} - {d}, d.x, d.y) {
      if d == e {
        assert F + {e} - {e} == F;
      } else {
        var G := F - {d};
        assert F + {e} - {d} == G + {e};
        ConnectedPlusEdge(G, e, d.x, d.y);
        if ConnectedThrough(G, e, d.x, d.y) {
          ThroughRedundant(G, F, d, e);
          assert false;
        }
      }
    }
  }

  /** If e closes a gap that d also closes, then d connects the ends of e. */
  lemma ThroughRedundant(G: set<Edge>, F: set<Edge>, d: Edge, e: Edge)
    requires G <= F && d in F && ConnectedThrough(G, e, d.x, d.y)
    ensures Connected(F, e.x, e.y)
  {
    var (u, v) := if Connected(G, d.x, e.x) && Connected(G, e.y, d.y) then (e.x, e.y) else (e.y, e.x);
    ConnectedSubset(G, F, d.x, u);
    ConnectedSubset(G, F, v, d.y);
    ConnectedByEdge(F, d);
    ConnectedSymmetric(F, d.x, u);
    ConnectedSymmetric(F, v, d.y);
    ConnectedTransitive(F, u, d.x, d.y);
    ConnectedTransitive(F, u, d.y, v);
    ConnectedSymmetric(F, u, v);
  }

  // ---------- Exchange and the cut property ----------

  /** Between a set B that does not connect the ends of e and a forest T that does, some edge
      of T outside B is critical: without it T no longer connects the ends of e. */
  lemma {:induction false} CriticalEdge(T: set<Edge>, B: set<Edge>, C: set<Edge>, e: Edge) returns (f: Edge)
    requires B <= C <= T && Acyclic(T)
    requires Connected(C, e.x, e.y) && !Connected(B, e.x, e.y)
    ensures f in T - B && ConnectedThrough(T - {f}, f, e.x, e.y) && !Connected(T - {f}, e.x, e.y)
    decreases C - B
  {
    if C <= B {
      ConnectedSubset(C, B, e.x, e.y);
      assert false;
    }
    f :| f in C && f !in B;
    var D := C - {f};
    assert D - B < C - B by { assert f in C - B && f !in D - B; }
    if Connected(D, e.x, e.y) {
      f := CriticalEdge(T, B, D, e);
    } else {
      assert C == D + {f};
      ConnectedPlusEdge(D, f, e.x, e.y);
      var (u, v) := if Connected(D, e.x, f.x) && Connected(D, f.y, e.y) then (f.x, f.y) else (f.y, f.x);
      var G := T - {f};
      ConnectedSubset(D, G, e.x, u);
      ConnectedSubset(D, G, v, e.y);
      if Connected(G, e.x, e.y) {
        ConnectedSymmetric(G, e.x, u);
        ConnectedSymmetric(G, v, e.y);
        ConnectedTransitive(G, u, e.x, e.y);
        ConnectedTransitive(G, u, e.y, v);
        ConnectedSymmetric(G, u, v);
        assert false;
      }
    }
  }

  lemma AcyclicSubset(F: set<Edge>, G: set<Edge>)
    requires F <= G && Acyclic(G)
    ensures Acyclic(F)
  {
    forall d | d in F ensures !Connected(F - {d}, d.x, d.y) {
      if Connected(F - {d}, d.x, d.y) {
        ConnectedSubset(F - {d}, G - {d}, d.x, d.y);
      }
    }
  }

  /** If f closes the gap of e, then conversely e connects the ends of f. */
  lemma GapClosedBothWays(G: set<Edge>, e: Edge, f: Edge)
    requires ConnectedThrough(G, f, e.x, e.y)
    ensures Connected(G + {e}, f.x, f.y)
  {
    var T := G + {e};
    assert e in T;
    ThroughRedundant(G, T, e, f);
  }

  lemma ExchangeSpans(E: set<Edge>, T: set<Edge>, G: set<Edge>, e: Edge, f: Edge)
    requires Spans(T, E) && T == G + {f}
    requires ConnectedThrough(G, f, e.x, e.y)
    ensures Spans(G + {e}, E)
  {
    var T' := G + {e};
    GapClosedBothWays(G, e, f);
    forall d | d in E ensures Connected(T', d.x, d.y) {
      ConnectedSubset(T, T' + {f}, d.x, d.y);
      RedundantEdge(T', f, d.x, d.y);
    }
  }

  /** Swapping a critical edge f for e keeps a spanning forest. */
  lemma ExchangeKeepsForest(E: set<Edge>, T: set<Edge>, e: Edge, f: Edge)
    requires SpanningForest(E, T) && e in E && f in T
    requires ConnectedThrough(T - {f}, f, e.x, e.y) && !Connected(T - {f}, e.x, e.y)
    ensures SpanningForest(E, T - {f} + {e})
  {
    var G := T - {f};
    assert Acyclic(G) by { AcyclicSubset(G, T); }
    assert Acyclic(G + {e}) by { AcyclicPlusEdge(G, e); }
    assert Spans(G + {e}, E) by {
      assert T == G + {f};
      ExchangeSpans(E, T, G, e, f);
    }
  }

  /** A can still be completed to a spanning forest no heavier than S. */
  ghost predicate CompletesTo(E: set<Edge>, A: set<Edge>, T: set<Edge>, S: set<Edge>) {
    A <= T && SpanningForest(E, T) && Weight(T) <= Weight(S)
  }

  /** A spanning forest to compare against. */
  ghost predicate Rival(E: set<Edge>, S: set<Edge>) {
    SpanningForest(E, S)
  }

  /** A can still be completed to a spanning forest no heavier than any given one. */
  ghost predicate Extendable(E: set<Edge>, A: set<Edge>) {
    forall S :: Rival(E, S) ==> exists T :: CompletesTo(E, A, T, S)
  }

  lemma NothingYetExtendable(E: set<Edge>)
    ensures Extendable(E, {})
  {
    forall S | Rival(E, S) ensures exists T :: CompletesTo(E, {}, T, S) {
      assert CompletesTo(E, {}, S, S);
    }
  }

  lemma CutExchange(E: set<Edge>, A: set<Edge>, R: iset<int>, e: Edge, T: set<Edge>) returns (T': set<Edge>)
    requires A <= T && SpanningForest(E, T) && e in E && Crosses(e, R)
    requires forall f :: f in A ==> !Crosses(f, R)
    requires forall f :: f in E && Crosses(f, R) ==> e.weight <= f.weight
    ensures A + {e} <= T' && SpanningForest(E, T') && Weight(T') <= Weight(T)
  {
    if e in T {
      T' := T;
    } else {
      var B := set f | f in T && !Crosses(f, R);
      assert !Connected(B, e.x, e.y) by {
        if Connected(B, e.x, e.y) { ConnectedStaysInside(B, R, e.x, e.y); }
      }
      var f := CriticalEdge(T, B, T, e);
      assert SpanningForest(E, T - {f} + {e}) by { ExchangeKeepsForest(E, T, e, f); }
      T' := T - {f} + {e};
      assert Weight(T') <= Weight(T) by {
        WeightRemove(T, f);
        WeightAdd(T - {f}, e);
      }
    }
  }

  /** Cut property: a lightest edge across a border that A does not cross may be added. */
  lemma CutProperty(E: set<Edge>, A: set<Edge>, R: iset<int>, e: Edge)
    requires Extendable(E, A) && e in E && Crosses(e, R)
    requires forall f :: f in A ==> !Crosses(f, R)
    requires forall f :: f in E && Crosses(f, R) ==> e.weight <= f.weight
    ensures Extendable(E, A + {e})
  {
    forall S | Rival(E, S) ensures exists T :: CompletesTo(E, A + {e}, T, S) {
      var T :| CompletesTo(E, A, T, S);
      var T' := CutExchange(E, A, R, e, T);
      assert CompletesTo(E, A + {e}, T', S);
    }
  }

  lemma ForestInsideForestIsAll(E: set<Edge>, A: set<Edge>, T: set<Edge>)
    requires A <= T <= E && Spans(A, E) && Acyclic(T)
    ensures A == T
  {
    if e :| e in T && e !in A {
      assert Connected(A, e.x, e.y);
      ConnectedSubset(A, T - {e}, e.x, e.y);
      assert false;
    }
  }

  /** Once an extendable forest spans, it is a minimum spanning forest. */
  lemma ExtendableSpanningIsMinimum(E: set<Edge>, A: set<Edge>)
    requires SpanningForest(E, A) && Extendable(E, A)
    ensures MinimumSpanningForest(E, A)
  {
    forall S | SpanningForest(E, S) ensures Weight(A) <= Weight(S) {
      assert Rival(E, S);
      var T :| CompletesTo(E, A, T, S);
      ForestInsideForestIsAll(E, A, T);
    }
  }

  /** Any two minimum spanning forests weigh the same. */
  lemma MinimumWeightUnique(E: set<Edge>, F: set<Edge>, G: set<Edge>)
    requires MinimumSpanningForest(E, F) && MinimumSpanningForest(E, G)
    ensures Weight(F) == Weight(G)
  {}
}
