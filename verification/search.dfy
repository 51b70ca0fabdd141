/** The arrays shared by both searches, and the path printer that reads the parents. */
module Searches {
  import opened Graphs

  class Search {
    const processed: array<bool>
    const discovered: array<bool>
    const parent: array<int>
    const entryTime: array<int>
    const exitTime: array<int>
    var time: int

    ghost predicate Valid()
      reads this
    {
      && processed.Length == discovered.Length == parent.Length == entryTime.Length == exitTime.Length == MAXV + 1
      && processed != discovered && parent != entryTime && parent != exitTime && entryTime != exitTime
    }

    /** Static storage starts out cleared. */
    constructor ()
      ensures Valid() && fresh(processed) && fresh(discovered) && fresh(parent) && fresh(entryTime) && fresh(exitTime)
    {
      processed := new bool[MAXV + 1](_ => false);
      discovered := new bool[MAXV + 1](_ => false);
      parent := new int[MAXV + 1](_ => 0);
      entryTime := new int[MAXV + 1](_ => 0);
      exitTime := new int[MAXV + 1](_ => 0);
      time := 0;
    }

    /** Nothing found yet among 0..n. */
    ghost predicate Initialized(n: int)
      requires Valid() && 0 <= n <= MAXV
      reads this, processed, discovered, parent
    {
      time == 0 && forall v :: 0 <= v <= n ==> !processed[v] && !discovered[v] && parent[v] == -1
    }

    method Initialize(g: Graph)
      requires Valid() && WellFormed(g)
      modifies this, processed, discovered, parent
      ensures Initialized(g.nvertices)
    {
      time := 0;
      for i := 0 to g.nvertices + 1
        invariant time == 0 && forall v :: 0 <= v < i ==> !processed[v] && !discovered[v] && parent[v] == -1
      {
        processed[i], discovered[i], parent[i] := false, false, -1;
      }
    }
  }

  // ---------- Printing a path ----------

  /** Parents lead to ever smaller ranks, so following them ends. */
  ghost predicate Ranked(parents: seq<int>, rank: seq<int>) {
    && |parents| == |rank|
    && forall v {:trigger parents[v]} :: 1 <= v < |parents| && parents[v] != -1 ==>
         1 <= parents[v] < |parents| && 0 <= rank[parents[v]] < rank[v]
  }

  /** The vertices printed, in order. */
  function FindPath(start: int, end: int, parents: seq<int>, ghost rank: seq<int>): seq<int>
    requires Ranked(parents, rank) && (end == -1 || 1 <= end < |parents|)
    decreases if end == -1 then 0 else if rank[end] < 0 then 1 else rank[end] + 1
  {
    if start == end || end == -1 then [start]
    else FindPath(start, parents[end], parents, rank) + [end]
  }
}
