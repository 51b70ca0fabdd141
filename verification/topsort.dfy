/** Topological sorting by repeatedly removing a vertex without remaining predecessors. */
module TopologicalSort {
  import opened Graphs
  import opened Paths
  import opened Counting
  import Queues

  // ---------- Counting arcs ----------

  /** Nodes of the list that point to v. */
  ghost function CountRow(row: seq<EdgeNode>, v: int): nat {
    if row == [] then 0 else (if row[0].y == v then 1 else 0) + CountRow(row[1..], v)
  }

  /** Arcs into v from vertices 1..m outside `done`, parallel ones counted separately. */
  ghost function Remaining(g: Graph, done: set<int>, v: int, m: nat): nat
    requires m < |g.edges|
  {
    if m == 0 then 0
    else Remaining(g, done, v, m - 1) + if m in done then 0 else CountRow(g.edges[m], v)
  }

  lemma {:induction false} CountRowZero(row: seq<EdgeNode>, v: int)
    ensures CountRow(row, v) == 0 <==> forall k :: 0 <= k < |row| ==> row[k].y != v
  {
    if row != [] {
      CountRowZero(row[1..], v);
      assert forall k :: 0 < k < |row| ==> row[k] == row[1..][k-1];
      if forall k :: 0 <= k < |row| ==> row[k].y != v {
        assert forall k :: 0 <= k < |row[1..]| ==> row[1..][k] == row[k+1];
      }
    }
  }

  lemma {:induction false} RemainingZero(g: Graph, done: set<int>, v: int, m: nat)
    requires m < |g.edges|
    ensures Remaining(g, done, v, m) == 0 <==>
      forall u, k :: 1 <= u <= m && u !in done && 0 <= k < |g.edges[u]| ==> g.edges[u][k].y != v
  {
    if m > 0 {
      RemainingZero(g, done, v, m - 1);
      CountRowZero(g.edges[m], v);
    }
  }

  /** Removing x takes away exactly the arcs in its list. */
  lemma {:induction false} RemainingWithout(g: Graph, done: set<int>, x: int, v: int, m: nat)
    requires m < |g.edges| && 1 <= x && x !in done
    ensures Remaining(g, done, v, m) ==
      Remaining(g, done + {x}, v, m) + if x <= m then CountRow(g.edges[x], v) else 0
  {
    if m > 0 { RemainingWithout(g, done, x, v, m - 1); }
  }

  method ComputeIndegrees(g: Graph, indegree: array<int>)
    requires WellFormed(g) && indegree.Length == MAXV + 1
    modifies indegree
    ensures forall v :: 1 <= v <= g.nvertices ==> indegree[v] == Remaining(g, {}, v, g.nvertices)
  {
    for i := 1 to g.nvertices + 1
      invariant forall v :: 1 <= v < i ==> indegree[v] == 0
    {
      indegree[i] := 0;
    }
    for i := 1 to g.nvertices + 1
      invariant forall v :: 1 <= v <= g.nvertices ==> indegree[v] == Remaining(g, {}, v, i - 1)
    {
      var row := g.edges[i];
      assert forall k :: 0 <= k < |row| ==> 1 <= row[k].y <= g.nvertices;
      while row != []
        invariant forall k :: 0 <= k < |row| ==> 1 <= row[k].y <= g.nvertices
        invariant forall v :: 1 <= v <= g.nvertices ==> indegree[v] + CountRow(row, v) == Remaining(g, {}, v, i)
        decreases |row|
      {
        indegree[row[0].y] := indegree[row[0].y] + 1;
        row := row[1..];
      }
    }
  }

  // ---------- State ----------

  ghost function Members(s: seq<int>): set<int> { set v | v in s }

  /** Every arc into out[i] comes from an earlier entry. */
  ghost predicate Ordered(g: Graph, out: seq<int>)
    requires WellFormed(g)
  {
    forall i, u {:trigger Arc(g, u, out[i])} :: 0 <= i < |out| && Arc(g, u, out[i]) ==> u in out[..i]
  }

  /** Listed and waiting vertices are exactly those without remaining arcs, each once. `row` is
      what is still to be scanned of the list of the vertex removed last. */
  ghost predicate Sorting(g: Graph, out: seq<int>, Q: seq<int>, row: seq<EdgeNode>, indegree: seq<int>)
    requires WellFormed(g) && |indegree| == MAXV + 1
  {
    && Distinct(out + Q)
    && (forall v :: v in out + Q <==> 1 <= v <= g.nvertices && indegree[v] == 0)
    && (forall v :: 1 <= v <= g.nvertices ==>
          indegree[v] == Remaining(g, Members(out), v, g.nvertices) + CountRow(row, v))
    && Ordered(g, out)
    && (forall k :: 0 <= k < |row| ==> 1 <= row[k].y <= g.nvertices)
  }

  lemma RemoveFirst(g: Graph, out: seq<int>, Q: seq<int>, indegree: seq<int>)
    requires WellFormed(g) && |indegree| == MAXV + 1 && Q != [] && Sorting(g, out, Q, [], indegree)
    ensures 1 <= Q[0] <= g.nvertices
    ensures Sorting(g, out + [Q[0]], Q[1..], g.edges[Q[0]], indegree)
  {
    var x, out' := Q[0], out + [Q[0]];
    assert out' + Q[1..] == out + Q;
    assert x == (out + Q)[|out|] && x in out + Q;
    assert forall i :: 0 <= i < |out| ==> (out + Q)[i] == out[i];
    assert x !in Members(out);
    assert Members(out') == Members(out) + {x};
    forall v | 1 <= v <= g.nvertices
      ensures indegree[v] == Remaining(g, Members(out'), v, g.nvertices) + CountRow(g.edges[x], v)
    {
      RemainingWithout(g, Members(out), x, v, g.nvertices);
    }
    RemainingZero(g, Members(out), x, g.nvertices);
    forall i, u | 0 <= i < |out'| && Arc(g, u, out'[i]) ensures u in out'[..i] {
      if i < |out| {
        assert out'[..i] == out[..i] && out'[i] == out[i];
      } else {
        assert out'[..i] == out;
        assert u in Members(out);
      }
    }
  }

  lemma ScanNode(g: Graph, out: seq<int>, Q: seq<int>, row: seq<EdgeNode>, indegree: seq<int>, indegree': seq<int>,
      Q': seq<int>)
    requires WellFormed(g) && |indegree| == MAXV + 1 && row != [] && Sorting(g, out, Q, row, indegree)
    requires 1 <= row[0].y <= g.nvertices && indegree' == indegree[row[0].y := indegree[row[0].y] - 1]
    requires Q' == if indegree'[row[0].y] == 0 then Q + [row[0].y] else Q
    ensures Sorting(g, out, Q', row[1..], indegree')
  {
    var y := row[0].y;
    assert indegree[y] > 0 && y !in out + Q;
    if indegree'[y] == 0 {
      assert out + Q' == (out + Q) + [y];
    }
  }

  // ---------- Cycles among the vertices that are left ----------

  /** Each vertex that is left has a predecessor that is left. */
  lemma LeftHasPredecessor(g: Graph, out: seq<int>, indegree: seq<int>, v: int) returns (u: int)
    requires WellFormed(g) && |indegree| == MAXV + 1 && Sorting(g, out, [], [], indegree)
    requires 1 <= v <= g.nvertices && v !in out
    ensures 1 <= u <= g.nvertices && u !in out && Arc(g, u, v)
  {
    assert out + [] == out;
    RemainingZero(g, Members(out), v, g.nvertices);
    var u', k :| 1 <= u' <= g.nvertices && u' !in Members(out) && 0 <= k < |g.edges[u']| && g.edges[u'][k].y == v;
    u := u';
  }

  /** Going back from predecessor to predecessor gives walks of any length. */
  lemma {:induction false} WalkBack(g: Graph, out: seq<int>, indegree: seq<int>, v: int, k: nat) returns (p: seq<int>)
    requires WellFormed(g) && |indegree| == MAXV + 1 && Sorting(g, out, [], [], indegree)
    requires 1 <= v <= g.nvertices && v !in out
    ensures Path(g, p) && |p| == k + 1 && p[k] == v
    ensures forall i :: 0 <= i < |p| ==> 1 <= p[i] <= g.nvertices && p[i] !in out
    decreases k
  {
    if k == 0 {
      p := [v];
    } else {
      var u := LeftHasPredecessor(g, out, indegree, v);
      var q := WalkBack(g, out, indegree, v, k - 1);
      var w := LeftHasPredecessor(g, out, indegree, q[0]);
      p := [w] + q;
      assert forall i :: 0 <= i < |p| - 1 ==> Arc(g, p[i], p[i+1]) by {
        forall i | 0 <= i < |p| - 1 ensures Arc(g, p[i], p[i+1]) {
          if i > 0 { assert p[i] == q[i-1] && p[i+1] == q[i]; }
        }
      }
    }
  }

  /** A walk longer than the number of vertices closes a cycle. */
  lemma RepeatedVertexIsCycle(g: Graph, p: seq<int>) returns (c: seq<int>)
    requires WellFormed(g) && Path(g, p) && |p| > g.nvertices && forall i :: 0 <= i < |p| ==> 1 <= p[i] <= g.nvertices
    ensures Cycle(g, c) && forall v :: v in c ==> v in p
  {
    if Distinct(p) {
      DistinctFits(p, g.nvertices);
      assert false;
    }
    var i, j :| 0 <= i < j < |p| && p[i] == p[j];
    c := p[i..j + 1];
    forall k | 0 <= k < |c| - 1 ensures Arc(g, c[k], c[k+1]) {
      assert c[k] == p[i + k] && c[k+1] == p[i + k + 1];
    }
  }

  /** Some cycle leads to v. */
  ghost predicate BehindCycle(g: Graph, v: int)
    requires WellFormed(g)
  {
    exists c :: Cycle(g, c) && Reachable(g, c[0], v)
  }

  lemma UnlistedIsBehindCycle(g: Graph, out: seq<int>, indegree: seq<int>, v: int)
    requires WellFormed(g) && |indegree| == MAXV + 1 && Sorting(g, out, [], [], indegree)
    requires 1 <= v <= g.nvertices && v !in out
    ensures BehindCycle(g, v)
  {
    hide Sorting, Arc;
    var p := WalkBack(g, out, indegree, v, g.nvertices);
    var c := RepeatedVertexIsCycle(g, p);
    assert c[0] in c && c[0] in p;
    var i :| 0 <= i < |p| && p[i] == c[0];
    var q := p[i..];
    forall k | 0 <= k < |q| - 1 ensures Arc(g, q[k], q[k+1]) {
      assert q[k] == p[i + k] && q[k+1] == p[i + k + 1];
    }
    assert PathFromTo(g, q, c[0], v);
  }

  lemma LeftoverHasCycle(g: Graph, out: seq<int>, indegree: seq<int>) returns (c: seq<int>)
    requires WellFormed(g) && |indegree| == MAXV + 1 && Sorting(g, out, [], [], indegree)
    requires |out| < g.nvertices
    ensures Cycle(g, c) && forall v :: v in c ==> v !in out
  {
    var v := MissingVertex(out, g.nvertices);
    var p := WalkBack(g, out, indegree, v, g.nvertices);
    c := RepeatedVertexIsCycle(g, p);
  }

  lemma {:induction false} MissingVertex(out: seq<int>, n: nat) returns (v: int)
    requires |out| < n
    ensures 1 <= v <= n && v !in out
  {
    v := n;
    if n in out {
      var i :| 0 <= i < |out| && out[i] == n;
      var rest := out[..i] + out[i + 1..];
      v := MissingVertex(rest, n - 1);
      assert forall j :: 0 <= j < |out| && j != i ==> out[j] == rest[if j < i then j else j - 1];
    }
  }

  // ---------- A full listing rules out cycles ----------

  lemma ArcGoesForward(g: Graph, out: seq<int>, u: int, v: int)
    requires WellFormed(g) && Ordered(g, out) && Distinct(out) && Arc(g, u, v) && v in out
    ensures u in out && Position(out, u) < Position(out, v)
  {
    var i := Position(out, v);
    assert Arc(g, u, out[i]);
    assert u in out[..i];
    var k :| 0 <= k < i && out[..i][k] == u;
    assert out[k] == u;
  }

  lemma {:induction false} PathGoesForward(g: Graph, out: seq<int>, p: seq<int>)
    requires WellFormed(g) && Ordered(g, out) && Distinct(out) && Path(g, p) && |p| >= 2 && p[|p| - 1] in out
    ensures p[0] in out && Position(out, p[0]) < Position(out, p[|p| - 1])
  {
    var v := p[|p| - 1];
    ArcGoesForward(g, out, p[|p| - 2], v);
    if |p| > 2 { PathGoesForward(g, out, p[..|p| - 1]); }
  }

  lemma ListedVertexOnNoCycle(g: Graph, out: seq<int>, c: seq<int>)
    requires WellFormed(g) && Ordered(g, out) && Distinct(out) && Cycle(g, c)
    ensures c[0] !in out
  {
    if c[0] in out { PathGoesForward(g, out, c); }
  }

  lemma ListedIsBehindNoCycle(g: Graph, out: seq<int>, v: int)
    requires WellFormed(g) && Ordered(g, out) && Distinct(out) && v in out
    ensures !BehindCycle(g, v)
  {
    if c :| Cycle(g, c) && Reachable(g, c[0], v) {
      var p :| PathFromTo(g, p, c[0], v);
      if |p| >= 2 { PathGoesForward(g, out, p); }
      ListedVertexOnNoCycle(g, out, c);
    }
  }

  // ---------- The sort ----------

  /** What the listing promises: exactly the vertices that no cycle leads to, each once and after
      its predecessors. So it is complete exactly on acyclic graphs, and otherwise the unlisted
      vertices contain a cycle. */
  ghost predicate TopologicalListing(g: Graph, out: seq<int>)
    requires WellFormed(g)
  {
    && Distinct(out) && (forall v :: v in out ==> 1 <= v <= g.nvertices)
    && Ordered(g, out)
    && (forall v :: 1 <= v <= g.nvertices ==> (v in out <==> !BehindCycle(g, v)))
    && (|out| == g.nvertices <==> !exists c :: Cycle(g, c))
    && (|out| < g.nvertices ==> exists c :: Cycle(g, c) && forall v :: v in c ==> v !in out)
    && |out| <= g.nvertices
  }

  lemma FinishedListing(g: Graph, out: seq<int>, indegree: seq<int>)
    requires WellFormed(g) && |indegree| == MAXV + 1 && Sorting(g, out, [], [], indegree)
    ensures TopologicalListing(g, out)
  {
    hide BehindCycle;
    assert out + [] == out;
    DistinctFits(out, g.nvertices);
    forall v | 1 <= v <= g.nvertices ensures v in out <==> !BehindCycle(g, v) {
      if v in out { ListedIsBehindNoCycle(g, out, v); } else { UnlistedIsBehindCycle(g, out, indegree, v); }
    }
    if |out| < g.nvertices {
      var c := LeftoverHasCycle(g, out, indegree);
    } else if c :| Cycle(g, c) {
      FullListingHasAll(g, out, c[0]);
      ListedVertexOnNoCycle(g, out, c);
    }
  }

  lemma FullListingHasAll(g: Graph, out: seq<int>, v: int)
    requires Distinct(out) && |out| == g.nvertices && forall u :: u in out ==> 1 <= u <= g.nvertices
    requires 1 <= v <= g.nvertices
    ensures v in out
  {
    if v !in out { DistinctFits(out + [v], g.nvertices); }
  }

  /** Queues the vertices without incoming arcs. */
  method EnqueueSources(g: Graph, indegree: array<int>, zeroin: Queues.Queue) returns (ghost Q: seq<int>)
    requires WellFormed(g) && indegree.Length == MAXV + 1 && zeroin.Valid() && zeroin.Contents() == []
        && zeroin.q != indegree
    requires forall v :: 1 <= v <= g.nvertices ==> indegree[v] == Remaining(g, {}, v, g.nvertices)
    modifies zeroin, zeroin.q
    ensures zeroin.Valid() && zeroin.Contents() == Q && Sorting(g, [], Q, [], indegree[..])
  {
    hide Sorting, Queues.Queue.Contents, Queues.Queue.Valid;
    Q := [];
    for i := 1 to g.nvertices + 1
      invariant zeroin.Valid() && zeroin.Contents() == Q
      invariant Distinct(Q) && |Q| < i && forall v :: v in Q <==> 1 <= v < i && indegree[v] == 0
    {
      if indegree[i] == 0 {
        zeroin.Enqueue(i);
        Q := Q + [i];
      }
    }
    StartSorting(g, Q, indegree[..]);
  }

  /** Takes the arcs of the vertex just listed out of the counts. */
  method ScanList(g: Graph, list: seq<EdgeNode>, indegree: array<int>, zeroin: Queues.Queue, ghost out: seq<int>,
      ghost Q0: seq<int>)
    returns (ghost Q: seq<int>)
    requires WellFormed(g) && indegree.Length == MAXV + 1 && zeroin.Valid() && zeroin.Contents() == Q0
        && zeroin.q != indegree
    requires Sorting(g, out, Q0, list, indegree[..])
    modifies indegree, zeroin, zeroin.q
    ensures zeroin.Valid() && zeroin.Contents() == Q && Sorting(g, out, Q, [], indegree[..])
  {
    hide Sorting, Queues.Queue.Contents, Queues.Queue.Valid;
    var row := list;
    Q := Q0;
    while row != []
      invariant zeroin.Valid() && zeroin.Contents() == Q
      invariant Sorting(g, out, Q, row, indegree[..])
      decreases |row|
    {
      ListingFits(g, out, Q, row, indegree[..]);
      var y := row[0].y;
      ghost var before, waiting := indegree[..], Q;
      indegree[y] := indegree[y] - 1;
      assert indegree[..] == before[y := before[y] - 1];
      if indegree[y] == 0 {
        zeroin.Enqueue(y);
        Q := Q + [y];
      }
      ScanNode(g, out, waiting, row, before, indegree[..], Q);
      row := row[1..];
    }
  }

  /** Writes sorted[1..j]; j falls short of nvertices exactly when the graph has a cycle. */
  method TopSort(g: Graph, sorted: array<int>) returns (j: int)
    requires WellFormed(g) && sorted.Length == MAXV + 1
    modifies sorted
    ensures 0 <= j <= g.nvertices && TopologicalListing(g, sorted[1..j + 1])
  {
    hide Sorting, TopologicalListing, Queues.Queue.Contents, Queues.Queue.Valid;
    var indegree := new int[MAXV + 1];
    ComputeIndegrees(g, indegree);
    var zeroin := new Queues.Queue();
    ghost var Q := EnqueueSources(g, indegree, zeroin);
    ghost var out: seq<int> := [];
    j := 0;
    var empty := zeroin.IsEmpty();
    while !empty
      invariant fresh(zeroin) && fresh(zeroin.q) && zeroin.q != indegree && zeroin.Valid()
          && zeroin.Contents() == Q && (empty <==> Q == [])
      invariant 0 <= j <= g.nvertices && out == sorted[1..j + 1]
      invariant Sorting(g, out, Q, [], indegree[..])
      decreases g.nvertices - j
    {
      RemoveFirst(g, out, Q, indegree[..]);
      ListingFits(g, out, Q, [], indegree[..]);
      j := j + 1;
      var x := zeroin.Dequeue();
      sorted[j] := x;
      assert sorted[1..j + 1] == out + [x];
      out := out + [x];
      Q := ScanList(g, g.edges[x], indegree, zeroin, out, Q[1..]);
      empty := zeroin.IsEmpty();
    }
    FinishedListing(g, out, indegree[..]);
  }

  lemma StartSorting(g: Graph, Q: seq<int>, indegree: seq<int>)
    requires WellFormed(g) && |indegree| == MAXV + 1
    requires Distinct(Q) && forall v :: v in Q <==> 1 <= v <= g.nvertices && indegree[v] == 0
    requires forall v :: 1 <= v <= g.nvertices ==> indegree[v] == Remaining(g, {}, v, g.nvertices)
    ensures Sorting(g, [], Q, [], indegree)
  {
    assert [] + Q == Q;
    assert Members([]) == {};
  }

  /** The queue never overflows and the listing fits the output array. */
  lemma ListingFits(g: Graph, out: seq<int>, Q: seq<int>, row: seq<EdgeNode>, indegree: seq<int>)
    requires WellFormed(g) && |indegree| == MAXV + 1 && Sorting(g, out, Q, row, indegree)
    ensures |out| + |Q| <= g.nvertices < Queues.QUEUESIZE
    ensures row != [] ==> 1 <= row[0].y <= g.nvertices
  {
    DistinctFits(out + Q, g.nvertices);
  }
}
