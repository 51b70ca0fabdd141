/** Depth-first search: intervals, ancestry, and the edges reported with their classes. */
module DepthFirst {
  import opened Forests
  import opened Graphs
  import opened Paths
  import opened Searches
  import opened Counting

  datatype EdgeClass = TREE | BACK | CROSS | FORWARD | SELFLOOP

  /** An edge handed to process_edge, with its class and the clock at that moment. */
  datatype Call = Call(x: int, y: int, kind: EdgeClass, time: int)

  // ---------- Ancestry in the parent array ----------

  /** c goes down the tree: each entry is the parent of the next. */
  ghost predicate Chain(par: seq<int>, c: seq<int>) {
    |c| >= 2 && forall i :: 0 < i < |c| ==> 0 <= c[i] < |par| && par[c[i]] == c[i-1]
  }

  /** u is a proper ancestor of w. */
  ghost predicate Ancestor(par: seq<int>, u: int, w: int) {
    exists c :: Chain(par, c) && c[0] == u && c[|c| - 1] == w
  }

  lemma AncestorStep(par: seq<int>, u: int, w: int)
    ensures Ancestor(par, u, w) <==> 0 <= w < |par| && (par[w] == u || Ancestor(par, u, par[w]))
  {
    if Ancestor(par, u, w) {
      var c :| Chain(par, c) && c[0] == u && c[|c| - 1] == w;
      if |c| > 2 {
        var d := c[..|c| - 1];
        assert Chain(par, d) && d[0] == u && d[|d| - 1] == par[w];
      }
    }
    if 0 <= w < |par| && par[w] == u {
      var c := [u, w];
      assert Chain(par, c) && c[0] == u && c[|c| - 1] == w;
    } else if 0 <= w < |par| && Ancestor(par, u, par[w]) {
      var d :| Chain(par, d) && d[0] == u && d[|d| - 1] == par[w];
      var c := d + [w];
      assert Chain(par, c) && c[0] == u && c[|c| - 1] == w;
    }
  }

  /** Parents of vertices in D are in D, except for roots. */
  ghost predicate ParentsInside(par: seq<int>, D: set<int>) {
    forall v {:trigger par[v]} :: v in D ==> 0 <= v < |par| && (par[v] == -1 || par[v] in D)
  }

  lemma {:induction false} ChainFrame(par: seq<int>, par': seq<int>, D: set<int>, c: seq<int>)
    requires ParentsInside(par, D) && |par'| == |par| && forall v :: v in D ==> 0 <= v < |par| && par'[v] == par[v]
    requires Chain(par, c) && c[|c| - 1] in D
    ensures Chain(par', c)
  {
    var w := c[|c| - 1];
    assert par[w] == c[|c| - 2];
    if |c| > 2 {
      var d := c[..|c| - 1];
      assert d[|d| - 1] == c[|c| - 2] && 0 <= d[|d| - 1];
      ChainFrame(par, par', D, d);
      forall i | 0 < i < |c| ensures par'[c[i]] == c[i-1] {
        if i < |c| - 1 { assert par'[d[i]] == d[i-1]; }
      }
    }
  }

  lemma AncestorFrame(par: seq<int>, par': seq<int>, D: set<int>, u: int, w: int)
    requires ParentsInside(par, D) && |par'| == |par| && forall v :: v in D ==> 0 <= v < |par| && par'[v] == par[v]
    requires w in D
    ensures Ancestor(par, u, w) <==> Ancestor(par', u, w)
  {
    if Ancestor(par, u, w) {
      var c :| Chain(par, c) && c[0] == u && c[|c| - 1] == w;
      ChainFrame(par, par', D, c);
    }
    if Ancestor(par', u, w) {
      var c :| Chain(par', c) && c[0] == u && c[|c| - 1] == w;
      assert ParentsInside(par', D) by {
        forall v | v in D ensures par'[v] == -1 || par'[v] in D { assert par[v] == par'[v]; }
      }
      ChainFrame(par', par, D, c);
    }
  }

  // ---------- The state of the search ----------

  datatype State = State(disc: set<int>, proc: set<int>, par: seq<int>, entry: seq<int>, exit: seq<int>, time: int,
      calls: seq<Call>)

  /** Active vertices are exactly those on the stack, from the start down along parents. */
  ghost predicate Stacked(g: Graph, s: int, st: State, stack: seq<int>) {
    && |st.par| == |st.entry| == |st.exit| == g.nvertices + 1
    && st.proc <= st.disc && (forall v :: v in st.disc ==> 1 <= v <= g.nvertices)
    && (forall v {:trigger v in stack} :: v in stack <==> v in st.disc && v !in st.proc)
    && (forall i :: 0 < i < |stack| ==> 1 <= stack[i] <= g.nvertices && st.par[stack[i]] == stack[i-1])
    && (stack != [] ==> stack[0] == s)
  }

  /** The parents form a tree of arcs rooted at s, with later entries below. */
  ghost predicate Treed(g: Graph, s: int, st: State)
    requires WellFormed(g)
  {
    && |st.par| == |st.entry| == |st.exit| == g.nvertices + 1
    && ParentsInside(st.par, st.disc)
    && (forall v :: v in st.disc ==> 1 <= v <= g.nvertices)
    && (forall v {:trigger st.par[v]} :: v in st.disc ==>
          (st.par[v] == -1 <==> v == s)
          && (v != s ==> st.par[v] in st.disc && Arc(g, st.par[v], v) && st.entry[st.par[v]] < st.entry[v]))
  }

  /** Entry times are distinct, and exit times lie between entry and now. */
  ghost predicate Timed(st: State) {
    && 0 <= st.time
    && (forall v :: v in st.disc ==> 0 <= v < |st.entry| && v < |st.exit| && 1 <= st.entry[v] <= st.time)
    && (forall v, w :: v in st.disc && w in st.disc && st.entry[v] == st.entry[w] ==> v == w)
    && (forall v :: v in st.proc && v in st.disc ==> st.entry[v] < st.exit[v] <= st.time)
  }

  /** Later entries lie inside the intervals of ancestors and after those of all others. */
  ghost predicate NestedPair(st: State, u: int, w: int)
    requires 0 <= u < |st.entry| && 0 <= w < |st.entry| == |st.exit|
  {
    st.entry[u] < st.entry[w] ==>
      if Ancestor(st.par, u, w) then u in st.proc ==> w in st.proc && st.exit[w] < st.exit[u]
      else u in st.proc && st.exit[u] < st.entry[w]
  }

  ghost predicate Nested(st: State)
    requires Timed(st) && |st.entry| == |st.exit|
  {
    forall u, w {:trigger NestedPair(st, u, w)} :: u in st.disc && w in st.disc ==> NestedPair(st, u, w)
  }

  /** The class of an arc according to the tree: child, ancestor or self, descendant, other. */
  ghost function ClassOf(par: seq<int>, x: int, y: int): EdgeClass
    requires 0 <= y < |par|
  {
    if par[y] == x then TREE
    else if x == y || Ancestor(par, y, x) then BACK
    else if Ancestor(par, x, y) then FORWARD
    else CROSS
  }

  ghost predicate Classified(g: Graph, st: State)
    requires WellFormed(g)
  {
    forall c :: c in st.calls ==>
      c.x in st.disc && c.y in st.disc && 0 <= c.y < |st.par| && Arc(g, c.x, c.y) && c.kind == ClassOf(st.par, c.x, c.y)
  }

  /** Every arc out of a finished vertex leads to one discovered before that vertex was finished. */
  ghost predicate Exhausted(g: Graph, st: State)
    requires WellFormed(g)
  {
    forall u, w {:trigger Arc(g, u, w)} :: u in st.proc && Arc(g, u, w) ==>
      w in st.disc && 0 <= u < |st.exit| && 0 <= w < |st.entry| && st.entry[w] < st.exit[u]
  }

  // ---------- Which edges are reported ----------

  /** The ends y of the calls for x, in the order of the calls. */
  ghost function Targets(calls: seq<Call>, x: int): seq<int> {
    if calls == [] then []
    else
      var c := calls[|calls| - 1];
      Targets(calls[..|calls| - 1], x) + if c.x == x then [c.y] else []
  }

  /** One of the first k nodes of the list of u leads to y. */
  ghost predicate Listed(g: Graph, u: int, k: int, y: int)
    requires WellFormed(g) && 1 <= u <= g.nvertices && k <= |g.edges[u]|
  {
    exists j :: 0 <= j < k && g.edges[u][j].y == y
  }

  /** Node j of the list of u is reported: always in a directed graph, otherwise if it leads to an
      ancestor or to u itself, or is the first node that leads to a child. */
  ghost predicate IsTold(g: Graph, par: seq<int>, u: int, j: int)
    requires WellFormed(g) && 1 <= u <= g.nvertices < |par| && 0 <= j < |g.edges[u]|
  {
    var y := g.edges[u][j].y;
    g.directed || ClassOf(par, u, y) == BACK || (par[y] == u && !Listed(g, u, j, y))
  }

  /** The targets reported among the first k nodes of the list of u, in list order. */
  ghost function Told(g: Graph, par: seq<int>, u: int, k: int): seq<int>
    requires WellFormed(g) && 1 <= u <= g.nvertices < |par| && 0 <= k <= |g.edges[u]|
  {
    if k == 0 then []
    else Told(g, par, u, k - 1) + if IsTold(g, par, u, k - 1) then [g.edges[u][k-1].y] else []
  }

  /** The whole list of u was reported, node by node. */
  ghost predicate ListTold(g: Graph, calls: seq<Call>, par: seq<int>, u: int)
    requires WellFormed(g)
  {
    1 <= u <= g.nvertices < |par| && Targets(calls, u) == Told(g, par, u, |g.edges[u]|)
  }

  ghost predicate AllTold(g: Graph, st: State)
    requires WellFormed(g)
  {
    forall u {:trigger ListTold(g, st.calls, st.par, u)} :: u in st.proc ==> ListTold(g, st.calls, st.par, u)
  }

  // ---------- The clock ----------

  ghost predicate EntersAt(st: State, t: int) {
    exists v :: v in st.disc && 0 <= v < |st.entry| && st.entry[v] == t
  }

  ghost predicate LeavesAt(st: State, t: int) {
    exists v :: v in st.proc && 0 <= v < |st.exit| && st.exit[v] == t
  }

  /** The clock counts entries and exits: each tick is one entry or one exit. */
  ghost predicate Ticking(st: State) {
    && st.time == |st.disc| + |st.proc|
    && (forall t :: 1 <= t <= st.time ==> (EntersAt(st, t) <==> !LeavesAt(st, t)))
    && (forall v, w :: v in st.proc && w in st.proc && 0 <= v < |st.exit| && 0 <= w < |st.exit| ==>
          (st.exit[v] == st.exit[w] ==> v == w))
  }

  /** A call for x is made while x is the innermost vertex that is not finished. */
  ghost predicate Innermost(st: State, c: Call) {
    && c.x in st.disc && 0 <= c.x < |st.entry| == |st.exit| && st.entry[c.x] <= c.time <= st.time
    && (c.x in st.proc ==> c.time < st.exit[c.x])
    && forall w {:trigger st.entry[w]} :: w in st.disc && 0 <= w < |st.entry| ==>
         (st.entry[c.x] < st.entry[w] <= c.time ==> w in st.proc && st.exit[w] <= c.time)
  }

  /** Calls are listed in the order in which they were made. */
  ghost predicate CallsTimed(st: State) {
    && (forall i, j :: 0 <= i <= j < |st.calls| ==> st.calls[i].time <= st.calls[j].time)
    && (forall i :: 0 <= i < |st.calls| ==> Innermost(st, st.calls[i]))
  }

  /** The tree edge to v was reported right before v was entered. */
  ghost predicate AnnouncedBy(st: State, v: int, m: int) {
    && 0 <= v < |st.par| && v < |st.entry| && 0 <= m < |st.calls|
    && st.calls[m] == Call(st.par[v], v, TREE, st.entry[v] - 1)
    && forall j :: m < j < |st.calls| ==> st.calls[j].time >= st.entry[v]
  }

  ghost predicate Announced(st: State, v: int) {
    exists m :: AnnouncedBy(st, v, m)
  }

  ghost predicate AllAnnounced(st: State) {
    forall v {:trigger Announced(st, v)} :: v in st.disc && 0 <= v < |st.par| && st.par[v] != -1 ==> Announced(st, v)
  }

  ghost predicate Clocked(st: State) {
    Ticking(st) && CallsTimed(st) && AllAnnounced(st)
  }

  lemma TargetsMore(calls: seq<Call>, c: Call, x: int)
    ensures Targets(calls + [c], x) == Targets(calls, x) + if c.x == x then [c.y] else []
  {
    assert (calls + [c])[..|calls|] == calls;
  }

  lemma {:induction false} TargetsAreCalls(calls: seq<Call>, x: int, y: int)
    ensures y in Targets(calls, x) <==> exists kind, time :: Call(x, y, kind, time) in calls
  {
    if calls != [] {
      var init, c := calls[..|calls| - 1], calls[|calls| - 1];
      TargetsAreCalls(init, x, y);
      assert calls == init + [c];
      if c.x == x && c.y == y { assert Call(x, y, c.kind, c.time) in calls; }
      if kind, time :| Call(x, y, kind, time) in init { assert Call(x, y, kind, time) in calls; }
    }
  }

  lemma {:induction false} NoTargets(calls: seq<Call>, x: int)
    requires forall c :: c in calls ==> c.x != x
    ensures Targets(calls, x) == []
  {
    if calls != [] {
      assert calls[|calls| - 1] in calls;
      NoTargets(calls[..|calls| - 1], x);
    }
  }

  lemma {:induction false} ToldAreListed(g: Graph, par: seq<int>, u: int, k: int, y: int)
    requires WellFormed(g) && 1 <= u <= g.nvertices < |par| && 0 <= k <= |g.edges[u]| && y in Told(g, par, u, k)
    ensures Listed(g, u, k, y)
  {
    if y in Told(g, par, u, k - 1) { ToldAreListed(g, par, u, k - 1, y); }
  }

  lemma {:induction false} IsToldMeansTold(g: Graph, par: seq<int>, u: int, k: int, j: int)
    requires WellFormed(g) && 1 <= u <= g.nvertices < |par| && 0 <= j < k <= |g.edges[u]| && IsTold(g, par, u, j)
    ensures g.edges[u][j].y in Told(g, par, u, k)
  {
    hide IsTold;
    ToldNext(g, par, u, k - 1);
    if j < k - 1 { IsToldMeansTold(g, par, u, k - 1, j); }
  }

  lemma ToldNext(g: Graph, par: seq<int>, u: int, k: int)
    requires WellFormed(g) && 1 <= u <= g.nvertices < |par| && 0 <= k < |g.edges[u]|
    ensures Told(g, par, u, k + 1) == Told(g, par, u, k) + if IsTold(g, par, u, k) then [g.edges[u][k].y] else []
  {}

  lemma ClassFrame(par: seq<int>, par': seq<int>, D: set<int>, x: int, y: int)
    requires ParentsInside(par, D) && |par'| == |par| && forall v :: v in D ==> 0 <= v < |par| && par'[v] == par[v]
    requires x in D && y in D
    ensures ClassOf(par, x, y) == ClassOf(par', x, y)
  {
    AncestorFrame(par, par', D, x, y);
    AncestorFrame(par, par', D, y, x);
  }

  /** Growing the tree outside D does not change what is reported inside. */
  lemma {:induction false} ToldFrame(g: Graph, par: seq<int>, par': seq<int>, D: set<int>, u: int, k: int)
    requires WellFormed(g) && 1 <= u <= g.nvertices < |par| == |par'| && 0 <= k <= |g.edges[u]|
    requires ParentsInside(par, D) && forall v :: v in D ==> 0 <= v < |par| && par'[v] == par[v]
    requires u in D && forall j :: 0 <= j < k ==> g.edges[u][j].y in D
    ensures Told(g, par, u, k) == Told(g, par', u, k)
  {
    hide ClassOf, ParentsInside, Listed;
    if k > 0 {
      ToldFrame(g, par, par', D, u, k - 1);
      ClassFrame(par, par', D, u, g.edges[u][k-1].y);
    }
  }

  ghost predicate Inv(g: Graph, s: int, st: State, stack: seq<int>)
    requires WellFormed(g)
  {
    && Stacked(g, s, st, stack) && Treed(g, s, st) && Timed(st) && Nested(st)
    && Classified(g, st) && Exhausted(g, st) && AllTold(g, st) && Clocked(st)
  }

  /** What never changes once known. */
  ghost predicate Grows(st: State, st': State) {
    && st.disc <= st'.disc && st.proc <= st'.proc
    && |st'.par| == |st.par| == |st'.entry| == |st.entry|
    && (forall v :: v in st.disc && 0 <= v < |st.par| ==> st'.par[v] == st.par[v] && st'.entry[v] == st.entry[v])
  }

  /** No further edges out of D were reported. */
  ghost predicate Quiet(calls: seq<Call>, calls': seq<Call>, D: set<int>) {
    forall u {:trigger Targets(calls', u)} :: u in D ==> Targets(calls', u) == Targets(calls, u)
  }

  // ---------- Ancestry, entries, and the stack ----------

  lemma {:induction false} ChainEntries(g: Graph, s: int, st: State, c: seq<int>)
    requires WellFormed(g) && Treed(g, s, st) && Chain(st.par, c) && c[|c| - 1] in st.disc && 0 <= c[0]
    ensures c[0] in st.disc && 0 <= c[0] < |st.entry| && 0 <= c[|c| - 1] < |st.entry|
        && st.entry[c[0]] < st.entry[c[|c| - 1]]
  {
    var w := c[|c| - 1];
    assert st.par[w] == c[|c| - 2];
    if |c| > 2 {
      ChainEntries(g, s, st, c[..|c| - 1]);
    }
  }

  lemma AncestorEntersEarlier(g: Graph, s: int, st: State, u: int, w: int)
    requires WellFormed(g) && Treed(g, s, st) && Ancestor(st.par, u, w) && w in st.disc && 0 <= u
    ensures u in st.disc && u < |st.entry| && 0 <= w < |st.entry| && st.entry[u] < st.entry[w]
  {
    var c :| Chain(st.par, c) && c[0] == u && c[|c| - 1] == w;
    ChainEntries(g, s, st, c);
  }

  /** A stacked vertex is the top of the stack or one of its ancestors. */
  lemma StackedIsAncestor(g: Graph, s: int, st: State, stack: seq<int>, i: int)
    requires Stacked(g, s, st, stack) && 0 <= i < |stack| - 1
    ensures Ancestor(st.par, stack[i], stack[|stack| - 1])
  {
    var c := stack[i..];
    forall k | 0 < k < |c| ensures 0 <= c[k] < |st.par| && st.par[c[k]] == c[k-1] {
      assert c[k] == stack[i + k] && c[k-1] == stack[i + k - 1];
    }
    assert Chain(st.par, c);
  }

  // ---------- Entering a vertex ----------

  /** y is discovered from v (-1 for the start), after the tree edge was reported. */
  ghost function Entered(st: State, v: int, y: int): State
    requires 0 <= y < |st.par| == |st.entry|
  {
    st.(disc := st.disc + {y}, par := st.par[y := v], entry := st.entry[y := st.time + 1], time := st.time + 1,
        calls := if v == -1 then st.calls else st.calls + [Call(v, y, TREE, st.time)])
  }

  ghost predicate CanEnter(g: Graph, s: int, st: State, stack: seq<int>, v: int, y: int)
    requires WellFormed(g)
  {
    && Inv(g, s, st, stack) && 1 <= y <= g.nvertices && y !in st.disc
    && if stack == [] then v == -1 && y == s && st.disc == {}
       else v == stack[|stack| - 1] && Arc(g, v, y)
  }

  lemma EnterAgrees(g: Graph, s: int, st: State, stack: seq<int>, v: int, y: int, u: int, w: int)
    requires WellFormed(g) && CanEnter(g, s, st, stack, v, y) && w in st.disc
    ensures Ancestor(Entered(st, v, y).par, u, w) <==> Ancestor(st.par, u, w)
  {
    AncestorFrame(st.par, Entered(st, v, y).par, st.disc, u, w);
  }

  lemma EnterAncestors(g: Graph, s: int, st: State, stack: seq<int>, v: int, y: int, u: int)
    requires WellFormed(g) && CanEnter(g, s, st, stack, v, y) && u in st.disc
    ensures Ancestor(Entered(st, v, y).par, u, y) <==> u !in st.proc
  {
    var par' := Entered(st, v, y).par;
    AncestorStep(par', u, y);
    assert stack != [];
    assert v in stack;
    EnterAgrees(g, s, st, stack, v, y, u, v);
    if Ancestor(st.par, u, v) {
      AncestorEntersEarlier(g, s, st, u, v);
      assert NestedPair(st, u, v);
    }
    if u !in st.proc {
      assert u in stack;
      var i :| 0 <= i < |stack| && stack[i] == u;
      if i < |stack| - 1 { StackedIsAncestor(g, s, st, stack, i); }
    }
  }

  lemma EnterNested(g: Graph, s: int, st: State, stack: seq<int>, v: int, y: int)
    requires WellFormed(g) && CanEnter(g, s, st, stack, v, y)
    ensures var st' := Entered(st, v, y); Timed(st') && |st'.entry| == |st'.exit| && Nested(st')
  {
    hide Ancestor, Arc, Treed, Exhausted, Classified, Clocked;
    var st' := Entered(st, v, y);
    forall u, w | u in st'.disc && w in st'.disc ensures NestedPair(st', u, w) {
      if u in st.disc && w in st.disc {
        EnterAgrees(g, s, st, stack, v, y, u, w);
        assert NestedPair(st, u, w);
      } else if w == y && u != y {
        EnterAncestors(g, s, st, stack, v, y, u);
      }
    }
  }

  lemma EnterTreed(g: Graph, s: int, st: State, stack: seq<int>, v: int, y: int)
    requires WellFormed(g) && CanEnter(g, s, st, stack, v, y)
    ensures Treed(g, s, Entered(st, v, y))
  {
    hide Ancestor, Arc, Nested, Exhausted, Classified, Clocked;
    if stack != [] {
      assert v in stack && stack[0] in stack;
      assert st.par[s] == -1;
    }
  }

  lemma EnterStacked(g: Graph, s: int, st: State, stack: seq<int>, v: int, y: int)
    requires WellFormed(g) && CanEnter(g, s, st, stack, v, y)
    ensures Stacked(g, s, Entered(st, v, y), stack + [y])
  {
    hide Ancestor, Arc, Nested, Exhausted, Classified, Treed, Clocked;
    var st', stack' := Entered(st, v, y), stack + [y];
    forall w ensures w in stack' <==> w in st'.disc && w !in st'.proc {
      assert w in stack' <==> w in stack || w == y;
    }
    forall i | 0 < i < |stack'| ensures 1 <= stack'[i] <= g.nvertices && st'.par[stack'[i]] == stack'[i-1] {
      if i < |stack| { assert stack[i] in stack; }
    }
  }

  lemma EnterClassified(g: Graph, s: int, st: State, stack: seq<int>, v: int, y: int)
    requires WellFormed(g) && CanEnter(g, s, st, stack, v, y)
    ensures Classified(g, Entered(st, v, y))
  {
    hide Ancestor, Arc, Nested, Exhausted, Clocked;
    var st' := Entered(st, v, y);
    forall c | c in st'.calls
      ensures c.x in st'.disc && c.y in st'.disc && 0 <= c.y < |st'.par| && Arc(g, c.x, c.y)
              && c.kind == ClassOf(st'.par, c.x, c.y)
    {
      if c in st.calls {
        EnterAgrees(g, s, st, stack, v, y, c.y, c.x);
        EnterAgrees(g, s, st, stack, v, y, c.x, c.y);
      } else {
        assert c == Call(v, y, TREE, st.time) && v in stack;
      }
    }
  }

  lemma FinishedTargets(g: Graph, st: State, u: int)
    requires WellFormed(g) && Exhausted(g, st) && u in st.proc && 1 <= u <= g.nvertices
    ensures forall j :: 0 <= j < |g.edges[u]| ==> g.edges[u][j].y in st.disc
  {
    forall j | 0 <= j < |g.edges[u]| ensures g.edges[u][j].y in st.disc { TopArc(g, u, j); }
  }

  lemma EnterTold(g: Graph, s: int, st: State, stack: seq<int>, v: int, y: int)
    requires WellFormed(g) && CanEnter(g, s, st, stack, v, y)
    ensures AllTold(g, Entered(st, v, y))
  {
    hide Ancestor, Arc, Nested, NestedPair, Classified, ClassOf, Targets, Told, Exhausted, Timed, Clocked;
    var st' := Entered(st, v, y);
    if stack != [] { assert v in stack; }
    forall u | u in st'.proc ensures ListTold(g, st'.calls, st'.par, u) {
      assert ListTold(g, st.calls, st.par, u);
      FinishedTargets(g, st, u);
      ToldFrame(g, st.par, st'.par, st.disc, u, |g.edges[u]|);
      if v != -1 { TargetsMore(st.calls, Call(v, y, TREE, st.time), u); }
    }
  }

  lemma EnterTicking(st: State, v: int, y: int)
    requires Ticking(st) && 0 <= st.time && 0 <= y < |st.par| == |st.entry| == |st.exit| && y !in st.disc
    requires forall u :: u in st.proc && 0 <= u < |st.exit| ==> st.exit[u] <= st.time
    ensures Ticking(Entered(st, v, y))
  {
    var st' := Entered(st, v, y);
    forall t | 1 <= t <= st'.time ensures EntersAt(st', t) <==> !LeavesAt(st', t) {
      if t <= st.time {
        assert LeavesAt(st', t) <==> LeavesAt(st, t);
        if u :| u in st.disc && 0 <= u < |st.entry| && st.entry[u] == t { assert st'.entry[u] == t; }
        if u :| u in st'.disc && 0 <= u < |st'.entry| && st'.entry[u] == t { assert u in st.disc && st.entry[u] == t; }
      } else {
        assert st'.entry[y] == t;
      }
    }
  }

  lemma EnterInnermost(st: State, v: int, y: int, c: Call)
    requires Innermost(st, c) && 0 <= y < |st.par| == |st.entry| && y !in st.disc
    ensures Innermost(Entered(st, v, y), c)
  {
    var st' := Entered(st, v, y);
    forall w {:trigger st'.entry[w]} | w in st'.disc && 0 <= w < |st'.entry| && st'.entry[c.x] < st'.entry[w] <= c.time
      ensures w in st'.proc && st'.exit[w] <= c.time
    {
      assert w != y && st.entry[w] == st'.entry[w];
    }
  }

  /** Only ancestors and the vertex itself are active when the top of the stack calls. */
  lemma TopIsInnermost(g: Graph, s: int, st: State, stack: seq<int>, c: Call)
    requires WellFormed(g) && Stacked(g, s, st, stack) && Treed(g, s, st) && Timed(st) && stack != []
    requires c.x == stack[|stack| - 1] && c.time == st.time
    ensures Innermost(st, c)
  {
    hide Arc;
    var v := c.x;
    assert v in stack;
    forall w {:trigger st.entry[w]} | w in st.disc && 0 <= w < |st.entry| && st.entry[v] < st.entry[w] <= c.time
      ensures w in st.proc && st.exit[w] <= c.time
    {
      if w !in st.proc {
        assert w in stack;
        var i :| 0 <= i < |stack| && stack[i] == w;
        if i < |stack| - 1 {
          StackedIsAncestor(g, s, st, stack, i);
          AncestorEntersEarlier(g, s, st, w, v);
        }
      }
    }
  }

  lemma EnterCallsTimed(g: Graph, s: int, st: State, stack: seq<int>, v: int, y: int)
    requires WellFormed(g) && CanEnter(g, s, st, stack, v, y)
    ensures CallsTimed(Entered(st, v, y))
  {
    hide Arc, Nested, Classified, Exhausted, AllTold, Ticking, AllAnnounced, Innermost;
    var st' := Entered(st, v, y);
    forall i | 0 <= i < |st'.calls| ensures Innermost(st', st'.calls[i]) && st'.calls[i].time <= st.time {
      if i < |st.calls| {
        assert Innermost(st, st.calls[i]);
        InnermostTime(st, st.calls[i]);
      } else {
        TopIsInnermost(g, s, st, stack, Call(v, y, TREE, st.time));
      }
      EnterInnermost(st, v, y, st'.calls[i]);
    }
  }

  lemma InnermostTime(st: State, c: Call)
    requires Innermost(st, c)
    ensures c.time <= st.time
  {}

  lemma AnnouncedStays(st: State, st': State, w: int, c: Call)
    requires Announced(st, w) && w < |st'.par| && w < |st'.entry|
    requires st'.calls == st.calls || (st'.calls == st.calls + [c] && (0 <= w < |st.entry| ==> c.time >= st.entry[w]))
    requires 0 <= w < |st.par| && w < |st.entry| ==> st'.par[w] == st.par[w] && st'.entry[w] == st.entry[w]
    ensures Announced(st', w)
  {
    var m :| AnnouncedBy(st, w, m);
    assert AnnouncedBy(st', w, m);
  }

  lemma EnterAnnounced(st: State, v: int, y: int)
    requires AllAnnounced(st) && 0 <= y < |st.par| == |st.entry| && y !in st.disc
    requires forall w :: w in st.disc ==> 0 <= w < |st.entry| && st.entry[w] <= st.time
    ensures AllAnnounced(Entered(st, v, y))
  {
    var st' := Entered(st, v, y);
    forall w | w in st'.disc && 0 <= w < |st'.par| && st'.par[w] != -1 ensures Announced(st', w) {
      if w == y {
        assert AnnouncedBy(st', y, |st.calls|);
      } else {
        assert Announced(st, w);
        AnnouncedStays(st, st', w, Call(v, y, TREE, st.time));
      }
    }
  }

  lemma EnterClocked(g: Graph, s: int, st: State, stack: seq<int>, v: int, y: int)
    requires WellFormed(g) && CanEnter(g, s, st, stack, v, y)
    ensures Clocked(Entered(st, v, y))
  {
    hide Arc, Nested, Classified, Exhausted, AllTold, Ticking, CallsTimed, AllAnnounced, Treed;
    EnterTicking(st, v, y);
    EnterCallsTimed(g, s, st, stack, v, y);
    EnterAnnounced(st, v, y);
  }

  lemma Enter(g: Graph, s: int, st: State, stack: seq<int>, v: int, y: int)
    requires WellFormed(g) && CanEnter(g, s, st, stack, v, y)
    ensures Inv(g, s, Entered(st, v, y), stack + [y]) && Grows(st, Entered(st, v, y)) && y !in st.disc
  {
    EnterNested(g, s, st, stack, v, y);
    EnterTreed(g, s, st, stack, v, y);
    EnterStacked(g, s, st, stack, v, y);
    EnterClassified(g, s, st, stack, v, y);
    EnterTold(g, s, st, stack, v, y);
    EnterClocked(g, s, st, stack, v, y);
  }

  // ---------- Reporting an arc to a vertex already discovered ----------

  /** edge_classification as the search evaluates it. */
  function EdgeClassification(discovered: bool, processed: bool, parentY: int, entryX: int, entryY: int,
      x: int): EdgeClass {
    if parentY == x then TREE
    else if discovered && !processed then BACK
    else if processed && entryY > entryX then FORWARD
    else if processed && entryY < entryX then CROSS
    else SELFLOOP
  }

  /** The flags and times read at the top of the stack decide the class rightly. */
  lemma ClassificationMeansAncestry(g: Graph, s: int, st: State, stack: seq<int>, y: int)
    requires WellFormed(g) && Inv(g, s, st, stack) && stack != [] && y in st.disc
    ensures var v := stack[|stack| - 1];
      1 <= v <= g.nvertices && 1 <= y <= g.nvertices &&
      EdgeClassification(y in st.disc, y in st.proc, st.par[y], st.entry[v], st.entry[y], v) == ClassOf(st.par, v, y)
  {
    hide Arc, Classified, Exhausted, AllTold, Clocked, Ancestor;
    var v := stack[|stack| - 1];
    assert v in stack && v in st.disc;
    assert NestedPair(st, v, y) && NestedPair(st, y, v);
    if Ancestor(st.par, y, v) { AncestorEntersEarlier(g, s, st, y, v); }
    if y !in st.proc {
      assert y in stack;
      var i :| 0 <= i < |stack| && stack[i] == y;
      if i < |stack| - 1 { StackedIsAncestor(g, s, st, stack, i); }
    }
    if Ancestor(st.par, v, y) { AncestorEntersEarlier(g, s, st, v, y); }
  }

  ghost function Noted(st: State, c: Call): State {
    st.(calls := st.calls + [c])
  }

  lemma NoteNested(st: State, c: Call)
    requires Timed(st) && |st.entry| == |st.exit| && Nested(st)
    ensures Timed(Noted(st, c)) && Nested(Noted(st, c))
  {
    hide Ancestor;
    var st' := Noted(st, c);
    assert Timed(st');
    forall u, w | u in st'.disc && w in st'.disc ensures NestedPair(st', u, w) { assert NestedPair(st, u, w); }
  }

  lemma NoteTold(g: Graph, st: State, c: Call)
    requires WellFormed(g) && AllTold(g, st) && c.x !in st.proc
    ensures AllTold(g, Noted(st, c))
  {
    hide Targets, Told;
    var st' := Noted(st, c);
    forall u | u in st'.proc ensures ListTold(g, st'.calls, st'.par, u) {
      assert ListTold(g, st.calls, st.par, u);
      TargetsMore(st.calls, c, u);
    }
  }

  lemma NoteClocked(g: Graph, s: int, st: State, stack: seq<int>, c: Call)
    requires WellFormed(g) && Inv(g, s, st, stack) && stack != []
    requires c.x == stack[|stack| - 1] && c.time == st.time
    ensures Clocked(Noted(st, c))
  {
    var st' := Noted(st, c);
    TopIsInnermost(g, s, st, stack, c);
    assert forall t :: EntersAt(st', t) == EntersAt(st, t) && LeavesAt(st', t) == LeavesAt(st, t);
    assert Ticking(st');
    hide Ticking, Stacked, Treed, Nested, Classified, Exhausted, AllTold;
    forall w | w in st'.disc && 0 <= w < |st'.par| && st'.par[w] != -1 ensures Announced(st', w) {
      assert Announced(st, w);
      AnnouncedStays(st, st', w, c);
    }
    hide AllAnnounced;
    NoteCallsTimed(st, c);
  }

  lemma NoteCallsTimed(st: State, c: Call)
    requires CallsTimed(st) && Innermost(st, c) && c.time == st.time
    ensures CallsTimed(Noted(st, c))
  {
    hide Innermost;
    var st' := Noted(st, c);
    forall i | 0 <= i < |st'.calls| ensures Innermost(st', st'.calls[i]) && st'.calls[i].time <= st.time {
      var d := st'.calls[i];
      assert Innermost(st, d);
      InnermostTime(st, d);
      InnermostNoted(st, c, d);
    }
  }

  lemma InnermostNoted(st: State, c: Call, d: Call)
    requires Innermost(st, d)
    ensures Innermost(Noted(st, c), d)
  {
    var st' := Noted(st, c);
    assert st'.entry == st.entry && st'.exit == st.exit;
  }

  lemma Note(g: Graph, s: int, st: State, stack: seq<int>, c: Call)
    requires WellFormed(g) && Inv(g, s, st, stack)
    requires c.x in st.disc && c.x !in st.proc && c.y in st.disc && Arc(g, c.x, c.y) && 0 <= c.y < |st.par|
        && c.kind == ClassOf(st.par, c.x, c.y) && stack != [] && c.x == stack[|stack| - 1] && c.time == st.time
    ensures Inv(g, s, Noted(st, c), stack) && Grows(st, Noted(st, c))
  {
    hide Ancestor, Arc, NestedPair, Nested, AllTold, Clocked, ClassOf;
    NoteClocked(g, s, st, stack, c);
    NoteNested(st, c);
    NoteTold(g, st, c);
  }

  /** A vertex that is still active is the top of the stack or one of its ancestors. */
  lemma ActiveIsBack(g: Graph, s: int, st: State, stack: seq<int>, y: int)
    requires WellFormed(g) && Inv(g, s, st, stack) && stack != [] && y in st.disc && y !in st.proc
    ensures 0 <= y < |st.par| && ClassOf(st.par, stack[|stack| - 1], y) == BACK
  {
    hide Arc, Nested, Classified, Exhausted, AllTold, Clocked;
    var v := stack[|stack| - 1];
    assert v in stack;
    assert y in stack;
    var i :| 0 <= i < |stack| && stack[i] == y;
    if i < |stack| - 1 {
      StackedIsAncestor(g, s, st, stack, i);
      AncestorEntersEarlier(g, s, st, y, v);
    }
    assert st.par[y] != v;
  }

  /** A finished vertex is neither, and if it is a child, an earlier node of the list led to it. */
  lemma FinishedIsUntold(g: Graph, s: int, st: State, stack: seq<int>, v: int, k: int)
    requires WellFormed(g) && Inv(g, s, st, stack) && stack != [] && v == stack[|stack| - 1] && 1 <= v <= g.nvertices
    requires 0 <= k < |g.edges[v]| && g.edges[v][k].y in st.proc && !g.directed && ReportedUpTo(g, st, v, k)
    ensures !IsTold(g, st.par, v, k) && g.edges[v][k].y in st.disc
  {
    hide Arc, Classified, Exhausted, AllTold, Told, Ticking, CallsTimed;
    var y := g.edges[v][k].y;
    assert v in stack && v in st.disc && y in st.disc;
    assert NestedPair(st, y, v);
    if Ancestor(st.par, y, v) { AncestorEntersEarlier(g, s, st, y, v); }
    if st.par[y] == v {
      assert Announced(st, y);
      assert Call(st.par[y], y, TREE, st.entry[y] - 1) in st.calls;
      TargetsAreCalls(st.calls, v, y);
      ToldAreListed(g, st.par, v, k, y);
    }
  }

  // ---------- Finishing a vertex ----------

  ghost function Closed(st: State, v: int): State
    requires 0 <= v < |st.exit|
  {
    st.(proc := st.proc + {v}, exit := st.exit[v := st.time + 1], time := st.time + 1)
  }

  lemma CloseNested(g: Graph, s: int, st: State, stack: seq<int>)
    requires WellFormed(g) && Inv(g, s, st, stack) && stack != []
    ensures 0 <= stack[|stack| - 1] < |st.exit|
    ensures var st' := Closed(st, stack[|stack| - 1]); Timed(st') && |st'.entry| == |st'.exit| && Nested(st')
  {
    hide Arc, Exhausted, Classified, Clocked;
    var v := stack[|stack| - 1];
    assert v in stack && v in st.disc;
    var st' := Closed(st, v);
    forall u, w | u in st'.disc && w in st'.disc ensures NestedPair(st', u, w) {
      assert NestedPair(st, u, w);
      if u == v && st.entry[v] < st.entry[w] && w !in st.proc {
        assert w in stack;
        var i :| 0 <= i < |stack| && stack[i] == w;
        if i < |stack| - 1 {
          StackedIsAncestor(g, s, st, stack, i);
          AncestorEntersEarlier(g, s, st, w, v);
        }
      }
    }
  }

  lemma TopIsActive(g: Graph, s: int, st: State, stack: seq<int>)
    requires Stacked(g, s, st, stack) && stack != []
    ensures var v := stack[|stack| - 1]; 1 <= v <= g.nvertices < |st.exit| && v in st.disc && v !in st.proc
    ensures st.proc <= st.disc
  {
    assert stack[|stack| - 1] in stack;
  }

  lemma Close(g: Graph, s: int, st: State, stack: seq<int>)
    requires WellFormed(g) && Inv(g, s, st, stack) && stack != []
    requires forall w :: Arc(g, stack[|stack| - 1], w) ==> w in st.disc
    requires ListTold(g, st.calls, st.par, stack[|stack| - 1])
    ensures 0 <= stack[|stack| - 1] < |st.exit| && stack[|stack| - 1] in st.disc
    ensures Inv(g, s, Closed(st, stack[|stack| - 1]), stack[..|stack| - 1]) && Grows(st, Closed(st, stack[|stack| - 1]))
  {
    hide Ancestor, Arc, Nested, Exhausted, Stacked, Targets, Told, Clocked;
    var v, rest := stack[|stack| - 1], stack[..|stack| - 1];
    TopIsActive(g, s, st, stack);
    CloseNested(g, s, st, stack);
    var st' := Closed(st, v);
    CloseStacked(g, s, st, stack);
    CloseExhausted(g, s, st, stack);
    CloseTold(g, st, v);
    assert Clocked(st') by { CloseClocked(st, v); }
  }

  lemma CloseClocked(st: State, v: int)
    requires Clocked(st) && Timed(st) && |st.entry| == |st.exit| && v in st.disc && v !in st.proc && 0 <= v < |st.exit|
    requires forall u :: u in st.proc ==> u in st.disc
    ensures Clocked(Closed(st, v))
  {
    var st' := Closed(st, v);
    CloseTicking(st, v);
    hide Ticking;
    forall w | w in st'.disc && 0 <= w < |st'.par| && st'.par[w] != -1 ensures Announced(st', w) {
      assert Announced(st, w);
      AnnouncedStays(st, st', w, Call(0, 0, TREE, 0));
    }
    hide AllAnnounced, Innermost;
    forall i | 0 <= i < |st'.calls| ensures Innermost(st', st'.calls[i]) {
      assert Innermost(st, st.calls[i]);
      CloseInnermost(st, v, st.calls[i]);
    }
  }

  lemma CloseInnermost(st: State, v: int, c: Call)
    requires Innermost(st, c) && 0 <= v < |st.exit| && v !in st.proc
    ensures Innermost(Closed(st, v), c)
  {
    var st' := Closed(st, v);
    forall w {:trigger st'.entry[w]} | w in st'.disc && 0 <= w < |st'.entry| && st'.entry[c.x] < st'.entry[w] <= c.time
      ensures w in st'.proc && st'.exit[w] <= c.time
    {
      assert st.entry[w] == st'.entry[w];
    }
  }

  lemma CloseTicking(st: State, v: int)
    requires Ticking(st) && Timed(st) && |st.entry| == |st.exit| && v in st.disc && v !in st.proc && 0 <= v < |st.exit|
    requires forall u :: u in st.proc ==> u in st.disc
    ensures Ticking(Closed(st, v))
  {
    var st' := Closed(st, v);
    forall t | 1 <= t <= st'.time ensures EntersAt(st', t) <==> !LeavesAt(st', t) {
      assert EntersAt(st', t) <==> EntersAt(st, t);
      if t <= st.time {
        if u :| u in st.proc && 0 <= u < |st.exit| && st.exit[u] == t { assert st'.exit[u] == t; }
        if u :| u in st'.proc && 0 <= u < |st'.exit| && st'.exit[u] == t { assert u in st.proc && st.exit[u] == t; }
      } else {
        assert st'.exit[v] == t;
      }
    }
  }

  lemma CloseTold(g: Graph, st: State, v: int)
    requires WellFormed(g) && AllTold(g, st) && 0 <= v < |st.exit| && ListTold(g, st.calls, st.par, v)
    ensures AllTold(g, Closed(st, v))
  {
    hide ListTold;
  }

  lemma CloseExhausted(g: Graph, s: int, st: State, stack: seq<int>)
    requires WellFormed(g) && Inv(g, s, st, stack) && stack != []
    requires forall w :: Arc(g, stack[|stack| - 1], w) ==> w in st.disc
    ensures 0 <= stack[|stack| - 1] < |st.exit| && Exhausted(g, Closed(st, stack[|stack| - 1]))
  {
    hide Ancestor, Arc, Nested, Treed, Classified, Clocked;
    var v := stack[|stack| - 1];
    assert v in stack;
    var st' := Closed(st, v);
    forall u, w {:trigger Arc(g, u, w)} | u in st'.proc && Arc(g, u, w)
      ensures w in st'.disc && 0 <= u < |st'.exit| && 0 <= w < |st'.entry| && st'.entry[w] < st'.exit[u]
    {}
  }

  lemma TopIsOnce(g: Graph, s: int, st: State, stack: seq<int>)
    requires WellFormed(g) && Stacked(g, s, st, stack) && Treed(g, s, st) && stack != []
    ensures stack[|stack| - 1] !in stack[..|stack| - 1]
  {
    hide Ancestor, Arc;
    var v, rest := stack[|stack| - 1], stack[..|stack| - 1];
    assert v in stack;
    if v in rest {
      var i :| 0 <= i < |rest| && rest[i] == v;
      StackedIsAncestor(g, s, st, stack, i);
      AncestorEntersEarlier(g, s, st, v, v);
    }
  }

  lemma CloseStacked(g: Graph, s: int, st: State, stack: seq<int>)
    requires WellFormed(g) && Stacked(g, s, st, stack) && Treed(g, s, st) && stack != []
    ensures var v := stack[|stack| - 1]; 0 <= v < |st.exit| && Stacked(g, s, Closed(st, v), stack[..|stack| - 1])
  {
    TopIsOnce(g, s, st, stack);
    hide Treed, WellFormed;
    var v, rest := stack[|stack| - 1], stack[..|stack| - 1];
    assert stack == rest + [v] && v in stack;
    assert forall w :: w in stack <==> w in rest || w == v;
    assert forall i :: 0 <= i < |rest| ==> rest[i] == stack[i];
  }

  // ---------- The search ----------

  /** The arrays hold the state; the reported calls are kept apart. */
  ghost predicate Mirrors(search: Search, n: int, st: State)
    reads search, search.processed, search.discovered, search.parent, search.entryTime, search.exitTime
  {
    && search.Valid() && 0 <= n <= MAXV
    && (forall v :: 1 <= v <= n ==>
          (search.discovered[v] <==> v in st.disc) && (search.processed[v] <==> v in st.proc))
    && search.parent[..n + 1] == st.par
    && search.entryTime[..n + 1] == st.entry
    && search.exitTime[..n + 1] == st.exit
    && search.time == st.time
  }

  /** The first k list nodes of v were handled, and those to be reported were. */
  ghost predicate ReportedUpTo(g: Graph, st: State, v: int, k: int)
    requires WellFormed(g) && 1 <= v <= g.nvertices && 0 <= k <= |g.edges[v]|
  {
    && |st.par| == g.nvertices + 1
    && (forall j :: 0 <= j < k ==> g.edges[v][j].y in st.disc)
    && Targets(st.calls, v) == Told(g, st.par, v, k)
  }

  lemma DiscoveredFits(g: Graph, s: int, st: State, stack: seq<int>)
    requires WellFormed(g) && Inv(g, s, st, stack)
    ensures |st.disc| <= g.nvertices
    ensures |st.par| == |st.entry| == |st.exit| == g.nvertices + 1
  {
    UpTo(g.nvertices, st.disc);
  }

  /** The tree consists of vertices. */
  ghost predicate Placed(g: Graph, st: State) {
    ParentsInside(st.par, st.disc) && forall w :: w in st.disc ==> 1 <= w <= g.nvertices
  }

  /** The child at node k was searched: the node was reported, and nothing else for D or v. */
  lemma AfterChild(g: Graph, st0: State, st: State, st': State, v: int, k: int, D: set<int>)
    requires WellFormed(g) && 1 <= v <= g.nvertices && 0 <= k < |g.edges[v]|
    requires |st.par| == |st.entry| == |st.exit| == g.nvertices + 1 && Placed(g, st)
    requires Grows(st0, st) && Grows(Entered(st, v, g.edges[v][k].y), st') && g.edges[v][k].y !in st.disc
    requires v in st.disc && D <= st.disc && v !in D && Quiet(st0.calls, st.calls, D)
    requires Quiet(Entered(st, v, g.edges[v][k].y).calls, st'.calls, st.disc)
    requires ReportedUpTo(g, st, v, k)
    ensures Grows(st0, st') && ReportedUpTo(g, st', v, k + 1) && Quiet(st0.calls, st'.calls, D)
  {
    hide ClassOf, Targets, Told;
    var y := g.edges[v][k].y;
    var c := Call(v, y, TREE, st.time);
    forall w | w in st.disc ensures 0 <= w < |st.par| && st'.par[w] == st.par[w] {
      assert w in Entered(st, v, y).disc && w != y;
    }
    ToldFrame(g, st.par, st'.par, st.disc, v, k);
    TargetsMore(st.calls, c, v);
    assert Targets(st'.calls, v) == Targets(st.calls, v) + [y];
    assert st'.par[y] == v && IsTold(g, st'.par, v, k);
    ToldNext(g, st'.par, v, k);
    forall u | u in D ensures Targets(st'.calls, u) == Targets(st0.calls, u) {
      TargetsMore(st.calls, c, u);
      assert Targets(st'.calls, u) == Targets(st.calls + [c], u);
    }
  }

  lemma AfterNote(g: Graph, st0: State, st: State, v: int, k: int, c: EdgeClass, D: set<int>)
    requires WellFormed(g) && 1 <= v <= g.nvertices && 0 <= k < |g.edges[v]|
    requires |st.par| == |st.entry| && Grows(st0, st) && ReportedUpTo(g, st, v, k) && g.edges[v][k].y in st.disc
    requires v !in D && Quiet(st0.calls, st.calls, D) && IsTold(g, st.par, v, k)
    ensures var st' := Noted(st, Call(v, g.edges[v][k].y, c, st.time));
      Grows(st0, st') && ReportedUpTo(g, st', v, k + 1) && Quiet(st0.calls, st'.calls, D)
  {
    hide IsTold, Targets, Told;
    var d := Call(v, g.edges[v][k].y, c, st.time);
    ToldNext(g, st.par, v, k);
    TargetsMore(st.calls, d, v);
    forall u | u in D ensures Targets(Noted(st, d).calls, u) == Targets(st0.calls, u) {
      TargetsMore(st.calls, d, u);
      assert Targets(st.calls, u) == Targets(st0.calls, u);
    }
  }

  lemma AfterSkip(g: Graph, s: int, st: State, stack: seq<int>, v: int, k: int)
    requires WellFormed(g) && Inv(g, s, st, stack) && stack != [] && v == stack[|stack| - 1] && 1 <= v <= g.nvertices
    requires 0 <= k < |g.edges[v]| && g.edges[v][k].y in st.proc && !g.directed && ReportedUpTo(g, st, v, k)
    ensures ReportedUpTo(g, st, v, k + 1)
  {
    hide Inv, IsTold, Targets, Told;
    FinishedIsUntold(g, s, st, stack, v, k);
    ToldNext(g, st.par, v, k);
  }

  lemma ToldOfActive(g: Graph, s: int, st: State, stack: seq<int>, v: int, k: int)
    requires WellFormed(g) && Inv(g, s, st, stack) && stack != [] && v == stack[|stack| - 1] && 1 <= v <= g.nvertices
    requires |st.par| == g.nvertices + 1
    requires 0 <= k < |g.edges[v]| && g.edges[v][k].y in st.disc && (g.edges[v][k].y !in st.proc || g.directed)
    ensures IsTold(g, st.par, v, k)
  {
    hide Inv, ClassOf;
    if g.edges[v][k].y !in st.proc { ActiveIsBack(g, s, st, stack, g.edges[v][k].y); }
  }

  lemma AllReported(g: Graph, st: State, v: int)
    requires WellFormed(g) && 1 <= v <= g.nvertices && ReportedUpTo(g, st, v, |g.edges[v]|)
    ensures ListTold(g, st.calls, st.par, v) && forall w :: Arc(g, v, w) ==> w in st.disc
  {
    hide Told, Targets;
  }

  lemma TopArc(g: Graph, v: int, k: int)
    requires WellFormed(g) && 1 <= v <= g.nvertices && 0 <= k < |g.edges[v]|
    ensures Arc(g, v, g.edges[v][k].y) && 1 <= g.edges[v][k].y <= g.nvertices
  {}

  lemma MirroredFlags(search: Search, y: int, n: int, st: State)
    requires Mirrors(search, n, st) && 1 <= y <= n
    ensures search.Valid() && y < search.discovered.Length == search.processed.Length
    ensures (search.discovered[y] <==> y in st.disc) && (search.processed[y] <==> y in st.proc)
    ensures search.time == st.time
  {}

  // ---------- One vertex, node by node ----------

  /** The list of v was handled up to node k, since the state `entered`; D was discovered before. */
  ghost predicate Progress(g: Graph, s: int, st: State, stack: seq<int>, v: int, k: int, entered: State, D: set<int>)
    requires WellFormed(g) && 1 <= v <= g.nvertices && 0 <= k <= |g.edges[v]|
  {
    && Inv(g, s, st, stack + [v]) && Grows(entered, st) && ReportedUpTo(g, st, v, k)
    && D < st.disc && v !in D && Quiet(entered.calls, st.calls, D)
  }

  lemma StartProgress(g: Graph, s: int, st: State, stack: seq<int>, from: int, v: int)
    requires WellFormed(g) && CanEnter(g, s, st, stack, from, v)
    ensures Progress(g, s, Entered(st, from, v), stack, v, 0, Entered(st, from, v), st.disc)
  {
    hide Inv, ReportedUpTo, Targets, Told;
    Enter(g, s, st, stack, from, v);
    ReportedNothing(g, s, st, stack, from, v);
  }

  /** What the next node needs. */
  lemma ProgressNext(g: Graph, s: int, st: State, stack: seq<int>, v: int, k: int, entered: State, D: set<int>)
    requires WellFormed(g) && 1 <= v <= g.nvertices && 0 <= k < |g.edges[v]|
    requires Progress(g, s, st, stack, v, k, entered, D)
    ensures |st.par| == |st.entry| == |st.exit| == g.nvertices + 1 && 1 <= g.edges[v][k].y <= g.nvertices
    ensures g.edges[v][k].y !in st.disc ==> CanEnter(g, s, st, stack + [v], v, g.edges[v][k].y)
    ensures |D| < |st.disc| <= g.nvertices
  {
    hide Grows, Quiet, ReportedUpTo;
    DiscoveredFits(g, s, st, stack + [v]);
    SmallerSet(D, st.disc);
    TopArc(g, v, k);
    hide Inv, Arc;
  }

  lemma ProgressChild(g: Graph, s: int, st: State, st': State, stack: seq<int>, v: int, k: int,
                      entered: State, D: set<int>)
    requires WellFormed(g) && 1 <= v <= g.nvertices && 0 <= k < |g.edges[v]|
    requires Progress(g, s, st, stack, v, k, entered, D) && |st.par| == |st.entry| == |st.exit| == g.nvertices + 1
    requires 1 <= g.edges[v][k].y <= g.nvertices && g.edges[v][k].y !in st.disc
    requires var st1 := Entered(st, v, g.edges[v][k].y);
      Inv(g, s, st', stack + [v]) && Grows(st1, st') && Quiet(st1.calls, st'.calls, st.disc)
    ensures Progress(g, s, st', stack, v, k + 1, entered, D)
  {
    hide Inv, ReportedUpTo, Quiet;
    TopIsDiscovered(g, s, st, stack, v);
    AfterChild(g, entered, st, st', v, k, D);
  }

  lemma ProgressNote(g: Graph, s: int, st: State, stack: seq<int>, v: int, k: int, entered: State, D: set<int>,
                     c: EdgeClass)
    requires WellFormed(g) && 1 <= v <= g.nvertices && 0 <= k < |g.edges[v]|
    requires Progress(g, s, st, stack, v, k, entered, D) && |st.par| == |st.entry| == |st.exit| == g.nvertices + 1
    requires var y := g.edges[v][k].y;
      && 1 <= y <= g.nvertices && y in st.disc && (y !in st.proc || g.directed)
      && c == EdgeClassification(true, y in st.proc, st.par[y], st.entry[v], st.entry[y], v)
    ensures Progress(g, s, Noted(st, Call(v, g.edges[v][k].y, c, st.time)), stack, v, k + 1, entered, D)
  {
    hide Inv, ReportedUpTo, Quiet, EdgeClassification, ClassOf, IsTold;
    var y, path := g.edges[v][k].y, stack + [v];
    TopArc(g, v, k);
    TopIsDiscovered(g, s, st, stack, v);
    ClassificationMeansAncestry(g, s, st, path, y);
    ToldOfActive(g, s, st, path, v, k);
    Note(g, s, st, path, Call(v, y, c, st.time));
    AfterNote(g, entered, st, v, k, c, D);
  }

  lemma ProgressSkip(g: Graph, s: int, st: State, stack: seq<int>, v: int, k: int, entered: State, D: set<int>)
    requires WellFormed(g) && 1 <= v <= g.nvertices && 0 <= k < |g.edges[v]|
    requires Progress(g, s, st, stack, v, k, entered, D) && g.edges[v][k].y in st.proc && !g.directed
    ensures Progress(g, s, st, stack, v, k + 1, entered, D)
  {
    hide Inv, ReportedUpTo;
    AfterSkip(g, s, st, stack + [v], v, k);
  }

  lemma ProgressEnd(g: Graph, s: int, st: State, stack: seq<int>, v: int, entered: State, D: set<int>)
    requires WellFormed(g) && 1 <= v <= g.nvertices
    requires Progress(g, s, st, stack, v, |g.edges[v]|, entered, D)
    ensures g.nvertices < |st.exit| && Inv(g, s, Closed(st, v), stack) && Grows(entered, Closed(st, v))
    ensures Quiet(entered.calls, Closed(st, v).calls, D)
  {
    hide Inv, ReportedUpTo, Quiet, ListTold;
    AllReported(g, st, v);
    assert (stack + [v])[..|stack|] == stack;
    DiscoveredFits(g, s, st, stack + [v]);
    Close(g, s, st, stack + [v]);
  }

  lemma SmallerSet(A: set<int>, B: set<int>)
    requires A < B
    ensures |A| < |B|
  {
    assert B == A + (B - A);
    assert |B| == |A| + |B - A|;
  }

  method Arrive(search: Search, v: int, ghost n: int, ghost st: State)
    requires search.Valid() && Mirrors(search, n, st) && 1 <= v <= n < |st.entry|
    modifies search`time, search.discovered, search.entryTime
    ensures Mirrors(search, n, st.(disc := st.disc + {v}, entry := st.entry[v := st.time + 1], time := st.time + 1))
  {
    search.discovered[v] := true;
    search.time := search.time + 1;
    search.entryTime[v] := search.time;
  }

  method SetParent(search: Search, y: int, v: int, ghost n: int, ghost st: State)
    requires search.Valid() && Mirrors(search, n, st) && 1 <= y <= n < |st.par|
    modifies search.parent
    ensures Mirrors(search, n, st.(par := st.par[y := v]))
  {
    search.parent[y] := v;
  }

  method Classify(search: Search, x: int, y: int, ghost n: int, ghost st: State) returns (c: EdgeClass)
    requires search.Valid() && Mirrors(search, n, st) && 1 <= x <= n && 1 <= y <= n
    requires |st.par| == |st.entry| == n + 1
    ensures c == EdgeClassification(y in st.disc, y in st.proc, st.par[y], st.entry[x], st.entry[y], x)
  {
    assert st.par[y] == search.parent[..n + 1][y];
    assert st.entry[x] == search.entryTime[..n + 1][x] && st.entry[y] == search.entryTime[..n + 1][y];
    c := EdgeClassification(search.discovered[y], search.processed[y], search.parent[y],
                            search.entryTime[x], search.entryTime[y], x);
  }

  method Depart(search: Search, v: int, ghost n: int, ghost st: State)
    requires search.Valid() && Mirrors(search, n, st) && 1 <= v <= n < |st.exit|
    modifies search`time, search.processed, search.exitTime
    ensures Mirrors(search, n, Closed(st, v))
  {
    search.time := search.time + 1;
    search.exitTime[v] := search.time;
    search.processed[v] := true;
  }

  /** Only the calls differ between two states, which the arrays do not hold. */
  lemma MirrorsIgnoresCalls(search: Search, n: int, st: State, st': State)
    requires Mirrors(search, n, st) && st' == st.(calls := st'.calls)
    ensures Mirrors(search, n, st')
  {}

  /** dfs(g, v), reached from `from` (-1 at the start). `calls` lists each edge handed to
      process_edge with the class that edge_classification gives it at that moment. */
  method Dfs(g: Graph, v: int, search: Search, calls0: seq<Call>,
             ghost s: int, ghost st0: State, ghost stack: seq<int>, ghost from: int)
    returns (calls: seq<Call>, ghost st: State)
    requires WellFormed(g) && search.Valid() && 1 <= v <= g.nvertices
    requires CanEnter(g, s, st0, stack, from, v) && |st0.par| == |st0.entry| == |st0.exit| == g.nvertices + 1
    requires Mirrors(search, g.nvertices, st0.(par := st0.par[v := from]))
    requires calls0 == Entered(st0, from, v).calls
    modifies search`time, search.processed, search.discovered, search.parent, search.entryTime, search.exitTime
    ensures Inv(g, s, st, stack) && Grows(Entered(st0, from, v), st) && v in st.proc
    ensures Quiet(calls0, calls, st0.disc)
    ensures Mirrors(search, g.nvertices, st) && calls == st.calls
    decreases g.nvertices - |st0.disc|
  {
    hide Inv, Grows, CanEnter, Mirrors, WellFormed, Quiet, Progress, EdgeClassification;
    calls := calls0;
    Arrive(search, v, g.nvertices, st0.(par := st0.par[v := from]));
    StartProgress(g, s, st0, stack, from, v);
    ghost var arrived := st0.(par := st0.par[v := from], disc := st0.disc + {v},
                              entry := st0.entry[v := st0.time + 1], time := st0.time + 1);
    st := Entered(st0, from, v);
    MirrorsIgnoresCalls(search, g.nvertices, arrived, st);
    ghost var entered := st;
    ListExists(g, v);
    var k := 0;
    while k < |g.edges[v]|
      invariant 0 <= k <= |g.edges[v]|
      invariant Progress(g, s, st, stack, v, k, entered, st0.disc)
      invariant Mirrors(search, g.nvertices, st) && calls == st.calls
    {
      var y := g.edges[v][k].y;
      ProgressNext(g, s, st, stack, v, k, entered, st0.disc);
      MirroredFlags(search, y, g.nvertices, st);
      if !search.discovered[y] {
        SetParent(search, y, v, g.nvertices, st);
        var c := Classify(search, v, y, g.nvertices, st.(par := st.par[y := v]));
        FirstIsTree(st, v, y, c);
        ghost var st1 := st;
        calls := calls + [Call(v, y, c, search.time)];
        calls, st := Dfs(g, y, search, calls, s, st, stack + [v], v);
        ProgressChild(g, s, st1, st, stack, v, k, entered, st0.disc);
      } else if !search.processed[y] || g.directed {
        var c := Classify(search, v, y, g.nvertices, st);
        ProgressNote(g, s, st, stack, v, k, entered, st0.disc, c);
        calls := calls + [Call(v, y, c, search.time)];
        MirrorsIgnoresCalls(search, g.nvertices, st, Noted(st, Call(v, y, c, st.time)));
        st := Noted(st, Call(v, y, c, st.time));
      } else {
        ProgressSkip(g, s, st, stack, v, k, entered, st0.disc);
      }
      k := k + 1;
    }
    ProgressEnd(g, s, st, stack, v, entered, st0.disc);
    Depart(search, v, g.nvertices, st);
    st := Closed(st, v);
  }

  lemma FirstIsTree(st: State, v: int, y: int, c: EdgeClass)
    requires 0 <= v < |st.par| && 0 <= y < |st.par| == |st.entry|
    requires var par := st.par[y := v];
      c == EdgeClassification(y in st.disc, y in st.proc, par[y], st.entry[v], st.entry[y], v)
    ensures c == TREE
  {}

  lemma ListExists(g: Graph, v: int)
    requires WellFormed(g) && 1 <= v <= g.nvertices
    ensures v < |g.edges|
  {}

  lemma ReportedNothing(g: Graph, s: int, st: State, stack: seq<int>, from: int, v: int)
    requires WellFormed(g) && CanEnter(g, s, st, stack, from, v)
    ensures ReportedUpTo(g, Entered(st, from, v), v, 0) && v !in st.disc
  {
    hide Arc, Nested, Exhausted, AllTold, Clocked, Ancestor;
    if stack != [] { assert from in stack; }
    NoTargets(Entered(st, from, v).calls, v);
  }

  lemma TopIsDiscovered(g: Graph, s: int, st: State, stack: seq<int>, v: int)
    requires WellFormed(g) && Inv(g, s, st, stack + [v])
    ensures v in st.disc && v !in st.proc && Placed(g, st)
  {
    TopIsActive(g, s, st, stack + [v]);
  }

  // ---------- What the finished search means ----------

  lemma {:induction false} ChainReaches(g: Graph, s: int, st: State, v: int)
    requires WellFormed(g) && Treed(g, s, st) && v in st.disc
    requires forall u :: u in st.disc ==> 0 <= st.entry[u]
    ensures Reachable(g, s, v)
    decreases st.entry[v]
  {
    assert st.par[v] == st.par[v];
    if v == s {
      ReachableReflexive(g, s);
    } else {
      ChainReaches(g, s, st, st.par[v]);
      ReachableExtend(g, s, st.par[v], v);
    }
  }

  lemma DiscoveredIsReachable(g: Graph, s: int, st: State)
    requires WellFormed(g) && Inv(g, s, st, []) && s in st.disc
    ensures st.proc == st.disc && forall v :: v in st.disc <==> Reachable(g, s, v)
  {
    hide Ancestor, Arc, Nested, Classified, Clocked;
    forall v | v in st.disc ensures v in st.proc { assert v !in []; }
    forall v ensures v in st.disc <==> Reachable(g, s, v) {
      if v in st.disc { ChainReaches(g, s, st, v); }
      if p :| PathFromTo(g, p, s, v) { ClosedHoldsPath(g, st.disc, p, s, v); }
    }
  }

  /** Interval of w strictly inside the interval of u. */
  ghost predicate Inside(st: State, w: int, u: int)
    requires 0 <= u < |st.entry| == |st.exit| && 0 <= w < |st.entry|
  {
    st.entry[u] < st.entry[w] && st.exit[w] < st.exit[u]
  }

  /** Parenthesis theorem: intervals nest exactly along ancestry and are otherwise disjoint. */
  lemma IntervalsNestAlongAncestry(g: Graph, s: int, st: State, u: int, w: int)
    requires WellFormed(g) && Inv(g, s, st, []) && u in st.disc && w in st.disc && u != w
    ensures 0 <= u < |st.entry| == |st.exit| && 0 <= w < |st.entry|
    ensures Ancestor(st.par, u, w) <==> Inside(st, w, u)
    ensures !Ancestor(st.par, u, w) && !Ancestor(st.par, w, u) ==>
              st.exit[u] < st.entry[w] || st.exit[w] < st.entry[u]
  {
    hide Arc, Exhausted, Classified, Clocked;
    assert u !in [] && w !in [];
    assert NestedPair(st, u, w) && NestedPair(st, w, u);
    assert st.entry[u] != st.entry[w];
    if Ancestor(st.par, u, w) { AncestorEntersEarlier(g, s, st, u, w); }
    if Ancestor(st.par, w, u) { AncestorEntersEarlier(g, s, st, w, u); }
  }

  // ---------- White paths ----------

  /** A walk from u to w through vertices that were undiscovered when u was entered. */
  ghost predicate Undiscovered(g: Graph, st: State, p: seq<int>, u: int, w: int)
    requires WellFormed(g)
  {
    && PathFromTo(g, p, u, w)
    && forall i :: 0 <= i < |p| ==> p[i] in st.disc && 0 <= p[i] < |st.entry| && 0 <= u < |st.entry|
                                    && st.entry[u] <= st.entry[p[i]]
  }

  ghost predicate UndiscoveredPath(g: Graph, st: State, u: int, w: int)
    requires WellFormed(g)
  {
    exists p :: Undiscovered(g, st, p, u, w)
  }

  lemma {:induction false} UndiscoveredGoesBelow(g: Graph, s: int, st: State, p: seq<int>, u: int, w: int)
    requires WellFormed(g) && Inv(g, s, st, []) && u in st.disc && Undiscovered(g, st, p, u, w)
    ensures u == w || Ancestor(st.par, u, w)
  {
    if |p| > 1 {
      var v := p[|p| - 2];
      UndiscoveredGoesBelow(g, s, st, p[..|p| - 1], u, v);
      assert u !in [] && v !in [] && w !in [];
      assert NestedPair(st, u, v) && NestedPair(st, u, w);
      hide Arc, Ancestor;
      if u != v { AncestorEntersEarlier(g, s, st, u, v); }
      assert st.entry[w] < st.exit[v] <= st.exit[u];
    }
  }

  /** White-path theorem: w comes to lie below u exactly if, when u was entered, undiscovered
      vertices led from u to w. */
  lemma WhitePath(g: Graph, s: int, st: State, u: int, w: int)
    requires WellFormed(g) && Inv(g, s, st, []) && u in st.disc && w in st.disc
    ensures (u == w || Ancestor(st.par, u, w)) <==> UndiscoveredPath(g, st, u, w)
  {
    hide Nested, Exhausted, Classified, AllTold, Clocked;
    if u == w {
      assert Undiscovered(g, st, [u], u, w);
    } else if Ancestor(st.par, u, w) {
      var c :| Chain(st.par, c) && c[0] == u && c[|c| - 1] == w;
      ChainIsPath(g, s, st, c);
      forall i | 0 <= i < |c|
        ensures c[i] in st.disc && 0 <= c[i] < |st.entry| && st.entry[u] <= st.entry[c[i]]
      {
        ChainAbove(g, s, st, c, i);
      }
      assert Undiscovered(g, st, c, u, w);
    }
    if p :| Undiscovered(g, st, p, u, w) { UndiscoveredGoesBelow(g, s, st, p, u, w); }
  }

  /** Every vertex of a chain down the tree lies below its first one. */
  lemma {:induction false} ChainAbove(g: Graph, s: int, st: State, c: seq<int>, i: int)
    requires WellFormed(g) && Treed(g, s, st) && Chain(st.par, c) && c[|c| - 1] in st.disc && c[0] in st.disc
    requires 0 <= i < |c|
    ensures c[i] in st.disc && 0 <= c[i] < |st.entry| && st.entry[c[0]] <= st.entry[c[i]]
  {
    if i == |c| - 1 {
      ChainEntries(g, s, st, c);
    } else if |c| > 2 {
      var d := c[..|c| - 1];
      assert st.par[c[|c| - 1]] == d[|d| - 1];
      ChainAbove(g, s, st, d, i);
    }
  }

  // ---------- Back edges and cycles ----------

  ghost predicate CycleReachable(g: Graph, s: int)
    requires WellFormed(g)
  {
    exists p :: Cycle(g, p) && Reachable(g, s, p[0])
  }

  ghost predicate BackReported(calls: seq<Call>) {
    exists c :: c in calls && c.kind == BACK
  }

  /** Going down the tree is a walk along arcs. */
  lemma {:induction false} ChainIsPath(g: Graph, s: int, st: State, c: seq<int>)
    requires WellFormed(g) && Treed(g, s, st) && Chain(st.par, c) && c[|c| - 1] in st.disc && 1 <= c[0] <= g.nvertices
    ensures Path(g, c)
  {
    var w := c[|c| - 1];
    assert st.par[w] == c[|c| - 2];
    if |c| > 2 {
      var d := c[..|c| - 1];
      ChainIsPath(g, s, st, d);
      forall i | 0 <= i < |c| - 1 ensures Arc(g, c[i], c[i+1]) {
        if i < |c| - 2 { assert Arc(g, d[i], d[i+1]); }
      }
    }
  }

  lemma BackEdgeClosesCycle(g: Graph, s: int, st: State, c: Call)
    requires WellFormed(g) && Inv(g, s, st, []) && s in st.disc && c in st.calls && c.kind == BACK
    ensures CycleReachable(g, s)
  {
    hide Nested, Exhausted, Ancestor, Clocked;
    DiscoveredIsReachable(g, s, st);
    var x, y := c.x, c.y;
    assert Arc(g, x, y) && ClassOf(st.par, x, y) == BACK;
    var p := if x == y then [x] else BackChain(st.par, y, x);
    BackCycle(g, s, st, x, y, p);
  }

  ghost function BackChain(par: seq<int>, y: int, x: int): (c: seq<int>)
    requires Ancestor(par, y, x)
    ensures Chain(par, c) && c[0] == y && c[|c| - 1] == x
  {
    var c :| Chain(par, c) && c[0] == y && c[|c| - 1] == x;
    c
  }

  lemma BackCycle(g: Graph, s: int, st: State, x: int, y: int, p: seq<int>)
    requires WellFormed(g) && Treed(g, s, st) && x in st.disc && y in st.disc && Arc(g, x, y) && Reachable(g, s, y)
    requires if x == y then p == [x] else Chain(st.par, p) && p[0] == y && p[|p| - 1] == x
    ensures CycleReachable(g, s)
  {
    if x != y { ChainIsPath(g, s, st, p); }
    PathExtend(g, p, y, x, y);
    var q := p + [y];
    assert Cycle(g, q) && q[0] == y;
  }

  lemma EveryArcIsCalled(g: Graph, s: int, st: State, u: int, w: int)
    requires WellFormed(g) && g.directed && Inv(g, s, st, []) && u in st.proc && Arc(g, u, w)
    ensures exists c :: c in st.calls && c.x == u && c.y == w
  {
    hide Stacked, Treed, Timed, Nested, Classified, Exhausted, Clocked;
    assert ListTold(g, st.calls, st.par, u);
    var j :| 0 <= j < |g.edges[u]| && g.edges[u][j].y == w;
    IsToldMeansTold(g, st.par, u, |g.edges[u]|, j);
    TargetsAreCalls(st.calls, u, w);
  }

  /** Without a back edge, exit times fall along every arc between discovered vertices. */
  lemma ExitFallsAlongArc(g: Graph, s: int, st: State, u: int, w: int)
    requires WellFormed(g) && g.directed && Inv(g, s, st, [])
    requires u in st.disc && Arc(g, u, w) && !BackReported(st.calls)
    ensures w in st.disc && 0 <= u < |st.exit| && 0 <= w < |st.exit| && st.exit[w] < st.exit[u]
  {
    assert u !in [];
    EveryArcIsCalled(g, s, st, u, w);
    hide Arc, Told, IsTold, Targets;
    var c :| c in st.calls && c.x == u && c.y == w;
    assert c.kind != BACK;
    assert w !in [];
    assert NestedPair(st, u, w) && NestedPair(st, w, u);
    AncestorStep(st.par, u, w);
  }

  lemma {:induction false} ExitFallsAlongPath(g: Graph, s: int, st: State, p: seq<int>)
    requires WellFormed(g) && g.directed && Inv(g, s, st, []) && !BackReported(st.calls)
    requires Path(g, p) && p[0] in st.disc && |p| >= 2
    ensures p[|p| - 1] in st.disc && 0 <= p[0] < |st.exit| && 0 <= p[|p| - 1] < |st.exit|
    ensures st.exit[p[|p| - 1]] < st.exit[p[0]]
  {
    hide Inv, Arc, BackReported;
    var u, v, w := p[0], p[|p| - 2], p[|p| - 1];
    if |p| > 2 {
      ExitFallsAlongPath(g, s, st, p[..|p| - 1]);
    }
    ExitFallsAlongArc(g, s, st, v, w);
  }

  /** Some call is classified BACK exactly when the start reaches a cycle. */
  lemma BackEdgeIffCycle(g: Graph, s: int, st: State)
    requires WellFormed(g) && g.directed && Inv(g, s, st, []) && s in st.disc
    ensures BackReported(st.calls) <==> CycleReachable(g, s)
  {
    hide Inv;
    if c :| c in st.calls && c.kind == BACK {
      BackEdgeClosesCycle(g, s, st, c);
    }
    if CycleReachable(g, s) && !BackReported(st.calls) {
      var p :| Cycle(g, p) && Reachable(g, s, p[0]);
      DiscoveredIsReachable(g, s, st);
      ExitFallsAlongPath(g, s, st, p);
      assert false;
    }
  }

  ghost predicate Symmetric(g: Graph)
    requires WellFormed(g)
  {
    forall u, w :: Arc(g, u, w) ==> Arc(g, w, u)
  }

  lemma UndirectedIsSymmetric(g: Graph, log: seq<Edge>)
    requires WellFormed(g) && Undirected(g, log)
    ensures Symmetric(g)
  {
    hide Row;
    forall u, w | Arc(g, u, w) ensures Arc(g, w, u) {
      var k :| 0 <= k < |g.edges[u]| && g.edges[u][k].y == w;
      var weight := g.edges[u][k].weight;
      RowSymmetric(log, u, w, weight);
      var j :| 0 <= j < |g.edges[w]| && g.edges[w][j] == EdgeNode(u, weight);
    }
  }

  lemma {:induction false} RowSymmetric(log: seq<Edge>, u: int, w: int, weight: int)
    requires EdgeNode(w, weight) in Row(log, u)
    ensures EdgeNode(u, weight) in Row(log, w)
  {
    var init, e := log[..|log| - 1], log[|log| - 1];
    if EdgeNode(w, weight) in Row(init, u) {
      RowSymmetric(init, u, w, weight);
    } else {
      assert EdgeNode(w, weight) in Nodes(e, u);
    }
  }

  /** In an undirected graph the way back to the parent is also reported as BACK, so a BACK edge
      says no more than that the start has a neighbour. */
  lemma UndirectedBackEdge(g: Graph, s: int, st: State)
    requires WellFormed(g) && !g.directed && Symmetric(g) && Inv(g, s, st, []) && s in st.disc
    ensures BackReported(st.calls) <==> exists w :: Arc(g, s, w)
  {
    hide Nested, Exhausted, Timed, AllTold, Clocked, Ancestor, Told, Targets;
    DiscoveredIsReachable(g, s, st);
    if c :| c in st.calls && c.kind == BACK {
      ReachedHasArc(g, s, c.x, c.y);
    }
    if w :| Arc(g, s, w) {
      assert w !in [];
      ReachableReflexive(g, s);
      ReachableExtend(g, s, s, w);
      if w == s {
        BackArcIsCalled(g, s, st, s, s);
      } else {
        var u := st.par[w];
        AncestorStep(st.par, u, w);
        AncestorStep(st.par, w, u);
        BackArcIsCalled(g, s, st, w, u);
      }
    }
  }

  lemma NobodyIsActive(g: Graph, s: int, st: State, u: int)
    requires WellFormed(g) && Inv(g, s, st, []) && u in st.disc
    ensures u in st.proc
  {
    assert u !in [];
  }

  lemma ReachedHasArc(g: Graph, s: int, x: int, y: int)
    requires WellFormed(g) && Reachable(g, s, x) && Arc(g, x, y)
    ensures exists w :: Arc(g, s, w)
  {
    hide Arc;
    var p :| PathFromTo(g, p, s, x);
    if |p| > 1 { assert Arc(g, p[0], p[0 + 1]); }
  }

  lemma BackArcIsCalled(g: Graph, s: int, st: State, u: int, w: int)
    requires WellFormed(g) && Inv(g, s, st, []) && u in st.disc && w in st.disc && Arc(g, u, w)
    requires 0 <= w < |st.par| && ClassOf(st.par, u, w) == BACK
    ensures BackReported(st.calls)
  {
    hide Stacked, Treed, Timed, Nested, Exhausted, Clocked, ClassOf;
    assert u in st.proc by { NobodyIsActive(g, s, st, u); }
    assert ListTold(g, st.calls, st.par, u);
    var j :| 0 <= j < |g.edges[u]| && g.edges[u][j].y == w;
    IsToldMeansTold(g, st.par, u, |g.edges[u]|, j);
    TargetsAreCalls(st.calls, u, w);
    var kind, time :| Call(u, w, kind, time) in st.calls;
  }

  /** Entry/exit intervals are nested along ancestry, and disjoint otherwise. */
  ghost predicate Parenthesized(g: Graph, st: State) {
    && |st.par| == |st.entry| == |st.exit| == g.nvertices + 1
    && (forall v :: v in st.disc ==> 1 <= v <= g.nvertices && 1 <= st.entry[v] < st.exit[v] <= st.time)
    && (forall u, w :: u in st.disc && w in st.disc && u != w ==>
          && (Ancestor(st.par, u, w) <==> Inside(st, w, u))
          && (Ancestor(st.par, u, w) || Ancestor(st.par, w, u) || st.exit[u] < st.entry[w] || st.exit[w] < st.entry[u]))
  }

  /** The edges of every vertex found were reported with their classes, and BACK means this. */
  ghost predicate Reported(g: Graph, s: int, st: State)
    requires WellFormed(g)
  {
    && (exists at :: NodeByNode(g, st, at))
    && (forall u :: u in st.disc ==> ListTold(g, st.calls, st.par, u))
    && Classified(g, st)
    && (g.directed ==> (BackReported(st.calls) <==> CycleReachable(g, s)))
    && (!g.directed && Symmetric(g) ==> (BackReported(st.calls) <==> exists w :: Arc(g, s, w)))
  }

  /** Everything a complete search promises about the arrays and the reported edges. */
  ghost predicate Complete(g: Graph, s: int, st: State)
    requires WellFormed(g)
  {
    && st.proc == st.disc && (forall v :: v in st.disc <==> Reachable(g, s, v))
    && Parenthesized(g, st)
    && st.time == 2 * |st.disc| && Clocked(st)
    && (forall u :: u in st.disc ==> CountsBelow(st, u))
    && (forall u, w :: u in st.disc && w in st.disc ==>
          ((u == w || Ancestor(st.par, u, w)) <==> UndiscoveredPath(g, st, u, w)))
    && Reported(g, s, st)
  }

  lemma FinishedIntervals(g: Graph, s: int, st: State)
    requires WellFormed(g) && Inv(g, s, st, [])
    ensures Parenthesized(g, st)
  {
    hide Ancestor, Arc, Nested, Classified, Exhausted, AllTold, Clocked;
    forall v | v in st.disc ensures v in st.proc { NobodyIsActive(g, s, st, v); }
    forall u, w | u in st.disc && w in st.disc && u != w
      ensures Ancestor(st.par, u, w) <==> Inside(st, w, u)
      ensures Ancestor(st.par, u, w) || Ancestor(st.par, w, u) || st.exit[u] < st.entry[w] || st.exit[w] < st.entry[u]
    {
      IntervalsNestAlongAncestry(g, s, st, u, w);
    }
  }

  // ---------- Which list node each call reports ----------

  /** The nodes reported among the first k nodes of the list of u. */
  ghost function ToldAt(g: Graph, par: seq<int>, u: int, k: int): seq<int>
    requires WellFormed(g) && 1 <= u <= g.nvertices < |par| && 0 <= k <= |g.edges[u]|
  {
    if k == 0 then [] else ToldAt(g, par, u, k - 1) + if IsTold(g, par, u, k - 1) then [k - 1] else []
  }

  lemma {:induction false} ToldAtPlaces(g: Graph, par: seq<int>, u: int, k: int)
    requires WellFormed(g) && 1 <= u <= g.nvertices < |par| && 0 <= k <= |g.edges[u]|
    ensures var at := ToldAt(g, par, u, k);
      && |at| == |Told(g, par, u, k)| && (forall j :: j in at <==> 0 <= j < k && IsTold(g, par, u, j))
      && (forall a, b :: 0 <= a < b < |at| ==> at[a] < at[b])
      && (forall a :: 0 <= a < |at| ==> 0 <= at[a] < k && Told(g, par, u, k)[a] == g.edges[u][at[a]].y)
  {
    hide IsTold;
    if k > 0 { ToldAtPlaces(g, par, u, k - 1); }
  }

  /** Call m is the one after those made for the same vertex before. */
  lemma {:induction false} RankedTarget(calls: seq<Call>, u: int, m: int)
    requires 0 <= m < |calls| && calls[m].x == u
    ensures var r := |Targets(calls[..m], u)|; r < |Targets(calls, u)| && Targets(calls, u)[r] == calls[m].y
  {
    var n := |calls| - 1;
    if m < n {
      RankedTarget(calls[..n], u, m);
      assert calls[..n][..m] == calls[..m];
    }
  }

  lemma RankGrows(calls: seq<Call>, u: int, m: int, n: int)
    requires 0 <= m < n < |calls| && calls[m].x == u
    ensures |Targets(calls[..m], u)| < |Targets(calls[..n], u)|
  {
    RankedTarget(calls[..n], u, m);
    assert calls[..n][..m] == calls[..m];
  }

  lemma {:induction false} CallOfRank(calls: seq<Call>, u: int, r: int) returns (m: int)
    requires 0 <= r < |Targets(calls, u)|
    ensures 0 <= m < |calls| && calls[m].x == u && |Targets(calls[..m], u)| == r
  {
    var n := |calls| - 1;
    if r < |Targets(calls[..n], u)| {
      m := CallOfRank(calls[..n], u, r);
      assert calls[..n][..m] == calls[..m];
    } else {
      m := n;
    }
  }

  /** Call m reports node at[m] of the list of its vertex. The nodes of a list are reported in
      order, each one that is to be reported exactly once. */
  ghost predicate NodeByNode(g: Graph, st: State, at: seq<int>)
    requires WellFormed(g)
  {
    && |at| == |st.calls| && |st.par| == g.nvertices + 1
    && (forall m :: 0 <= m < |at| ==> Reports(g, st.calls[m], at[m]))
    && (forall m, n :: 0 <= m < n < |at| && st.calls[m].x == st.calls[n].x ==> at[m] < at[n])
    && (forall u, j :: u in st.disc && 1 <= u <= g.nvertices && 0 <= j < |g.edges[u]| ==>
          (IsTold(g, st.par, u, j) <==> exists m :: ReportedBy(st.calls, at, m, u, j)))
  }

  ghost predicate Reports(g: Graph, c: Call, j: int)
    requires WellFormed(g)
  {
    1 <= c.x <= g.nvertices && 0 <= j < |g.edges[c.x]| && g.edges[c.x][j].y == c.y
  }

  ghost predicate ReportedBy(calls: seq<Call>, at: seq<int>, m: int, u: int, j: int) {
    0 <= m < |at| && m < |calls| && calls[m].x == u && at[m] == j
  }

  /** Where call m stands in the list of its vertex, when the lists were reported. */
  ghost function PlaceOf(g: Graph, st: State, m: int): int
    requires WellFormed(g) && 0 <= m < |st.calls| && ListTold(g, st.calls, st.par, st.calls[m].x)
  {
    var u := st.calls[m].x;
    var at, r := ToldAt(g, st.par, u, |g.edges[u]|), |Targets(st.calls[..m], u)|;
    if r < |at| then at[r] else 0
  }

  lemma PlaceReports(g: Graph, st: State, m: int)
    requires WellFormed(g) && 0 <= m < |st.calls| && ListTold(g, st.calls, st.par, st.calls[m].x)
    ensures Reports(g, st.calls[m], PlaceOf(g, st, m)) && IsTold(g, st.par, st.calls[m].x, PlaceOf(g, st, m))
    ensures var u := st.calls[m].x; var at := ToldAt(g, st.par, u, |g.edges[u]|);
      |Targets(st.calls[..m], u)| < |at| && PlaceOf(g, st, m) == at[|Targets(st.calls[..m], u)|]
  {
    hide IsTold;
    var u := st.calls[m].x;
    ToldAtPlaces(g, st.par, u, |g.edges[u]|);
    RankedTarget(st.calls, u, m);
    assert PlaceOf(g, st, m) in ToldAt(g, st.par, u, |g.edges[u]|);
  }

  lemma PlacesGrow(g: Graph, st: State, m: int, n: int)
    requires WellFormed(g) && 0 <= m < n < |st.calls| && st.calls[m].x == st.calls[n].x
    requires ListTold(g, st.calls, st.par, st.calls[m].x)
    ensures PlaceOf(g, st, m) < PlaceOf(g, st, n)
  {
    hide IsTold;
    var u := st.calls[m].x;
    PlaceReports(g, st, m);
    PlaceReports(g, st, n);
    RankGrows(st.calls, u, m, n);
    ToldAtPlaces(g, st.par, u, |g.edges[u]|);
  }

  lemma PlaceIsTaken(g: Graph, st: State, u: int, j: int) returns (m: int)
    requires WellFormed(g) && ListTold(g, st.calls, st.par, u) && 0 <= j < |g.edges[u]| && IsTold(g, st.par, u, j)
    ensures 0 <= m < |st.calls| && st.calls[m].x == u && PlaceOf(g, st, m) == j
  {
    hide IsTold;
    var at := ToldAt(g, st.par, u, |g.edges[u]|);
    ToldAtPlaces(g, st.par, u, |g.edges[u]|);
    var r :| 0 <= r < |at| && at[r] == j;
    m := CallOfRank(st.calls, u, r);
  }

  ghost predicate AllListsTold(g: Graph, st: State)
    requires WellFormed(g)
  {
    && |st.par| == g.nvertices + 1
    && (forall m :: 0 <= m < |st.calls| ==> ListTold(g, st.calls, st.par, st.calls[m].x))
    && (forall u :: u in st.disc ==> ListTold(g, st.calls, st.par, u))
  }

  ghost function Places(g: Graph, st: State): (at: seq<int>)
    requires WellFormed(g) && AllListsTold(g, st)
    ensures |at| == |st.calls| && forall m :: 0 <= m < |at| ==> at[m] == PlaceOf(g, st, m)
  {
    seq(|st.calls|, m requires 0 <= m < |st.calls| => PlaceOf(g, st, m))
  }

  lemma NodeIsReported(g: Graph, st: State, u: int, j: int)
    requires WellFormed(g) && AllListsTold(g, st) && u in st.disc && 1 <= u <= g.nvertices && 0 <= j < |g.edges[u]|
    ensures IsTold(g, st.par, u, j) <==> exists m :: ReportedBy(st.calls, Places(g, st), m, u, j)
  {
    hide IsTold, ListTold, PlaceOf;
    if IsTold(g, st.par, u, j) {
      var m := PlaceIsTaken(g, st, u, j);
      assert ReportedBy(st.calls, Places(g, st), m, u, j);
    }
    if m :| ReportedBy(st.calls, Places(g, st), m, u, j) { PlaceReports(g, st, m); }
  }

  lemma PlacesReport(g: Graph, st: State)
    requires WellFormed(g) && AllListsTold(g, st)
    ensures forall m :: 0 <= m < |st.calls| ==> Reports(g, st.calls[m], Places(g, st)[m])
    ensures forall m, n :: 0 <= m < n < |st.calls| && st.calls[m].x == st.calls[n].x ==>
              Places(g, st)[m] < Places(g, st)[n]
  {
    var at := Places(g, st);
    assert forall m :: 0 <= m < |st.calls| ==> ListTold(g, st.calls, st.par, st.calls[m].x);
    hide IsTold, ListTold, Reports, PlaceOf, Places, AllListsTold, WellFormed;
    forall m | 0 <= m < |at| ensures Reports(g, st.calls[m], at[m]) { PlaceReports(g, st, m); }
    forall m, n | 0 <= m < n < |at| && st.calls[m].x == st.calls[n].x ensures at[m] < at[n] { PlacesGrow(g, st, m, n); }
  }

  lemma CallsAreNodes(g: Graph, st: State)
    requires WellFormed(g) && AllListsTold(g, st)
    ensures NodeByNode(g, st, Places(g, st))
  {
    assert |st.par| == g.nvertices + 1 && |Places(g, st)| == |st.calls|;
    hide IsTold, ListTold, Reports, PlaceOf, Places, ReportedBy, AllListsTold;
    PlacesReport(g, st);
    forall u, j | u in st.disc && 1 <= u <= g.nvertices && 0 <= j < |g.edges[u]|
      ensures IsTold(g, st.par, u, j) <==> exists m :: ReportedBy(st.calls, Places(g, st), m, u, j)
    {
      NodeIsReported(g, st, u, j);
    }
  }

  // ---------- Intervals count the vertices below ----------

  ghost function Subtree(st: State, u: int): set<int> {
    set w | w in st.disc && (w == u || Ancestor(st.par, u, w))
  }

  /** The interval of u holds an entry and an exit for u and for every vertex below it. */
  ghost predicate CountsBelow(st: State, u: int) {
    0 <= u < |st.entry| == |st.exit| && st.exit[u] - st.entry[u] + 1 == 2 * |Subtree(st, u)|
  }

  lemma BelowIsWithin(g: Graph, st: State, u: int, w: int)
    requires Parenthesized(g, st) && u in st.disc && w in st.disc
    ensures 0 <= u < |st.entry| == |st.exit| && 0 <= w < |st.entry|
    ensures w in Subtree(st, u) <==> st.entry[u] <= st.entry[w] <= st.exit[u]
    ensures w in Subtree(st, u) <==> st.entry[u] <= st.exit[w] <= st.exit[u]
  {
    hide Ancestor;
  }

  /** The times inside the interval of u are the entries and exits of the vertices below it. */
  lemma IntervalIsTimesBelow(g: Graph, st: State, u: int, t: int)
    requires Parenthesized(g, st) && Ticking(st) && Timed(st) && st.proc == st.disc && u in st.disc
    requires forall w :: w in Subtree(st, u) ==> 0 <= w < |st.entry| == |st.exit|
    requires 0 <= u < |st.entry| == |st.exit|
    ensures t in Image(st.entry, Subtree(st, u)) + Image(st.exit, Subtree(st, u))
            <==> st.entry[u] <= t <= st.exit[u]
    ensures !(t in Image(st.entry, Subtree(st, u)) && t in Image(st.exit, Subtree(st, u)))
  {
    assert forall w :: w in st.disc ==> 1 <= st.entry[w] <= st.exit[w] <= st.time;
    hide Ancestor, Parenthesized, Timed;
    if t in Image(st.entry, Subtree(st, u)) {
      var w :| w in Subtree(st, u) && st.entry[w] == t;
      BelowIsWithin(g, st, u, w);
      assert EntersAt(st, t);
    }
    if t in Image(st.exit, Subtree(st, u)) {
      var w :| w in Subtree(st, u) && st.exit[w] == t;
      BelowIsWithin(g, st, u, w);
      assert LeavesAt(st, t);
    }
    if st.entry[u] <= t <= st.exit[u] {
      if EntersAt(st, t) {
        var w :| w in st.disc && 0 <= w < |st.entry| && st.entry[w] == t;
        BelowIsWithin(g, st, u, w);
      } else {
        assert LeavesAt(st, t);
        var w :| w in st.proc && 0 <= w < |st.exit| && st.exit[w] == t;
        BelowIsWithin(g, st, u, w);
      }
    }
  }

  /** The interval of u holds two times for every vertex below it, and for u itself. */
  lemma IntervalCountsSubtree(g: Graph, st: State, u: int)
    requires Parenthesized(g, st) && Ticking(st) && Timed(st) && st.proc == st.disc && u in st.disc
    ensures CountsBelow(st, u)
  {
    var S := Subtree(st, u);
    TimesAreDistinct(g, st, u);
    assert st.entry[u] < st.exit[u];
    var E, X, R := Image(st.entry, S), Image(st.exit, S), Range(st.entry[u], st.exit[u]);
    forall t ensures (t in E + X <==> t in R) && !(t in E && t in X) {
      IntervalIsTimesBelow(g, st, u, t);
    }
    hide Parenthesized, Ticking, Timed, Subtree, Image, Injective;
    ImageSize(st.entry, S, |st.entry|);
    ImageSize(st.exit, S, |st.exit|);
    assert E + X == R && E !! X;
    RangeSize(st.entry[u], st.exit[u]);
  }

  lemma TimesAreDistinct(g: Graph, st: State, u: int)
    requires Parenthesized(g, st) && Ticking(st) && Timed(st) && st.proc == st.disc && u in st.disc
    ensures var S := Subtree(st, u); Injective(st.entry, S) && Injective(st.exit, S)
    ensures 0 <= u < |st.entry| == |st.exit|
    ensures forall w :: w in Subtree(st, u) ==> w in st.disc && 0 <= w < |st.entry|
  {
    hide Ancestor;
  }

  lemma FinishedLists(g: Graph, s: int, st: State)
    requires WellFormed(g) && Inv(g, s, st, [])
    ensures AllListsTold(g, st)
  {
    hide Arc, Ancestor, Timed, Nested, Exhausted, ListTold, Clocked;
    forall v | v in st.disc ensures ListTold(g, st.calls, st.par, v) { NobodyIsActive(g, s, st, v); }
    assert forall m :: 0 <= m < |st.calls| ==> st.calls[m] in st.calls;
  }

  lemma FinishedReports(g: Graph, s: int, st: State)
    requires WellFormed(g) && Inv(g, s, st, []) && s in st.disc
    ensures Reported(g, s, st)
  {
    hide Arc, Ancestor, Stacked, Treed, Timed, Nested, Exhausted, ListTold, BackReported, CycleReachable;
    hide Classified, Clocked, Symmetric;
    forall v | v in st.disc ensures v in st.proc { NobodyIsActive(g, s, st, v); }
    FinishedLists(g, s, st);
    CallsAreNodes(g, st);
    hide AllListsTold, NodeByNode;
    if g.directed { BackEdgeIffCycle(g, s, st); }
    if !g.directed && Symmetric(g) { UndirectedBackEdge(g, s, st); }
  }

  lemma InvTicks(g: Graph, s: int, st: State)
    requires WellFormed(g) && Inv(g, s, st, [])
    ensures Timed(st) && Clocked(st) && Ticking(st) && st.time == |st.disc| + |st.proc|
  {
    hide Ancestor, Arc, Nested, Classified, Exhausted, AllTold, Treed, Stacked;
  }

  lemma InvIsComplete(g: Graph, s: int, st: State)
    requires WellFormed(g) && Inv(g, s, st, []) && s in st.disc
    ensures Complete(g, s, st)
  {
    hide Inv, Ancestor, Reported, UndiscoveredPath, CountsBelow, Timed, Clocked, Ticking, Arc, Parenthesized;
    InvTicks(g, s, st);
    DiscoveredIsReachable(g, s, st);
    FinishedIntervals(g, s, st);
    FinishedReports(g, s, st);
    forall u, w | u in st.disc && w in st.disc
      ensures (u == w || Ancestor(st.par, u, w)) <==> UndiscoveredPath(g, st, u, w)
    {
      WhitePath(g, s, st, u, w);
    }
    forall u | u in st.disc ensures CountsBelow(st, u) { IntervalCountsSubtree(g, st, u); }
  }

  /** initialize_search followed by dfs from s. */
  method DfsFrom(g: Graph, s: int, search: Search) returns (calls: seq<Call>, ghost st: State)
    requires WellFormed(g) && 1 <= s <= g.nvertices && search.Valid()
    modifies search, search.processed, search.discovered, search.parent, search.entryTime, search.exitTime
    ensures Complete(g, s, st) && calls == st.calls
    ensures Mirrors(search, g.nvertices, st)
  {
    hide Inv, Complete;
    search.Initialize(g);
    ghost var n := g.nvertices + 1;
    ghost var st0 := State({}, {}, search.parent[..n], search.entryTime[..n], search.exitTime[..n], 0, []);
    StartEmpty(g, s, st0);
    assert st0.par[s := -1] == st0.par;
    calls, st := Dfs(g, s, search, [], s, st0, [], -1);
    assert s in st.disc;
    InvIsComplete(g, s, st);
  }

  lemma StartEmpty(g: Graph, s: int, st: State)
    requires WellFormed(g) && 1 <= s <= g.nvertices && |st.par| == |st.entry| == |st.exit| == g.nvertices + 1
    requires st.disc == {} && st.proc == {} && st.calls == [] && st.time == 0
    ensures Inv(g, s, st, []) && CanEnter(g, s, st, [], -1, s)
  {}
}
