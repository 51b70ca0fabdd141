/** Disjoint sets in two arrays with union by size and no path compression. */
module UnionFind {
  import opened Forests
  import opened Counting

  const SET_SIZE := 1000

  // ---------- Parent and size arrays as values ----------

  /** Parent links stay inside 1..n, and every link at least doubles the recorded size. The
      size recorded below a root is frozen when the root is linked, so this stays true. */
  ghost predicate Links(p: seq<int>, size: seq<int>, n: int) {
    && 0 <= n < |p| == |size|
    && (forall x {:trigger p[x]} :: 1 <= x <= n ==>
          && 1 <= p[x] <= n
          && 1 <= size[x] <= n
          && (p[x] != x ==> 2 * size[x] <= size[p[x]]))
  }

  ghost function Root(p: seq<int>, size: seq<int>, n: int, x: int): (r: int)
    requires Links(p, size, n) && 1 <= x <= n
    ensures 1 <= r <= n && p[r] == r
    decreases n - size[x]
  {
    if p[x] == x then x else
      assert p[p[x]] == p[p[x]];
      Root(p, size, n, p[x])
  }

  /** Calls that the recursive search makes after the first one. */
  ghost function Depth(p: seq<int>, size: seq<int>, n: int, x: int): nat
    requires Links(p, size, n) && 1 <= x <= n
    decreases n - size[x]
  {
    if p[x] == x then 0 else
      assert p[p[x]] == p[p[x]];
      1 + Depth(p, size, n, p[x])
  }

  ghost function Pow2(k: nat): nat {
    if k == 0 then 1 else 2 * Pow2(k - 1)
  }

  lemma ScaledDouble(k: nat, a: int, b: int, c: int)
    requires 1 <= a && 2 * a <= b && k * b <= c
    ensures 2 * k * a <= c && 2 * k <= c
  {
    assert k * (2 * a) <= k * b;
    assert 2 * k * 1 <= 2 * k * a;
  }

  lemma ScaledAtLeast(k: nat, a: int)
    requires 1 <= a
    ensures k <= k * a
  {
    assert k * 1 <= k * a;
  }

  /** Under a node at depth d hangs at most size/2^d of the tree. */
  lemma {:induction false} DepthShrinksSize(p: seq<int>, size: seq<int>, n: int, x: int)
    requires Links(p, size, n) && 1 <= x <= n
    ensures Pow2(Depth(p, size, n, x)) * size[x] <= size[Root(p, size, n, x)]
    decreases n - size[x]
  {
    if p[x] != x {
      assert p[p[x]] == p[p[x]];
      DepthShrinksSize(p, size, n, p[x]);
      ScaledDouble(Pow2(Depth(p, size, n, p[x])), size[x], size[p[x]], size[Root(p, size, n, x)]);
    }
  }

  /** The recursive search makes at most log2(n) further calls. */
  lemma DepthIsLogarithmic(p: seq<int>, size: seq<int>, n: int, x: int)
    requires Links(p, size, n) && 1 <= x <= n
    ensures Pow2(Depth(p, size, n, x)) <= size[Root(p, size, n, x)] <= n
  {
    DepthShrinksSize(p, size, n, x);
    var r := Root(p, size, n, x);
    assert p[x] == p[x] && p[r] == r;
    ScaledAtLeast(Pow2(Depth(p, size, n, x)), size[x]);
  }

  ghost function Class(p: seq<int>, size: seq<int>, n: int, r: int): set<int>
    requires Links(p, size, n)
  {
    set x | 1 <= x <= n && Root(p, size, n, x) == r
  }

  ghost predicate Sized(p: seq<int>, size: seq<int>, n: int)
    requires Links(p, size, n)
  {
    forall r {:trigger Class(p, size, n, r)} :: 1 <= r <= n && p[r] == r ==> size[r] == |Class(p, size, n, r)|
  }

  /** Two elements share a root exactly when the unions made so far connect them. */
  ghost predicate Partition(p: seq<int>, size: seq<int>, n: int, unions: set<Edge>)
    requires Links(p, size, n)
  {
    forall x, y :: 1 <= x <= n && 1 <= y <= n ==>
      (Root(p, size, n, x) == Root(p, size, n, y) <==> Connected(unions, x, y))
  }

  /** The arrays after linking root s below root b. */
  ghost predicate Linked(p: seq<int>, size: seq<int>, n: int, b: int, s: int, p': seq<int>, size': seq<int>) {
    && Links(p, size, n) && 1 <= b <= n && 1 <= s <= n && b != s && p[b] == b && p[s] == s
    && size[s] <= size[b] && size[b] + size[s] <= n
    && p' == p[s := b] && size' == size[b := size[b] + size[s]]
  }

  lemma LinkKeepsLinks(p: seq<int>, size: seq<int>, n: int, b: int, s: int, p': seq<int>, size': seq<int>)
    requires Linked(p, size, n, b, s, p', size')
    ensures Links(p', size', n)
  {
    forall x {:trigger p'[x]} | 1 <= x <= n
      ensures 1 <= p'[x] <= n && 1 <= size'[x] <= n && (p'[x] != x ==> 2 * size'[x] <= size'[p'[x]])
    {
      assert p[x] == p[x];
    }
  }

  lemma {:induction false} LinkMovesRoots(p: seq<int>, size: seq<int>, n: int, b: int, s: int, p': seq<int>,
      size': seq<int>, x: int)
    requires Linked(p, size, n, b, s, p', size') && Links(p', size', n) && 1 <= x <= n
    ensures Root(p', size', n, x) == if Root(p, size, n, x) == s then b else Root(p, size, n, x)
    decreases n - size[x]
  {
    if x == s {
      assert p'[b] == b;
      assert Root(p', size', n, b) == b;
    } else if p[x] != x {
      assert p[p[x]] == p[p[x]];
      LinkMovesRoots(p, size, n, b, s, p', size', p[x]);
      assert p'[x] == p[x];
    }
  }

  lemma LinkMergesClasses(p: seq<int>, size: seq<int>, n: int, b: int, s: int, p': seq<int>, size': seq<int>)
    requires Linked(p, size, n, b, s, p', size') && Links(p', size', n)
    requires Sized(p, size, n)
    ensures Sized(p', size', n)
  {
    forall r {:trigger Class(p', size', n, r)} | 1 <= r <= n && p'[r] == r
      ensures size'[r] == |Class(p', size', n, r)|
    {
      forall x | 1 <= x <= n { LinkMovesRoots(p, size, n, b, s, p', size', x); }
      var B, S := Class(p, size, n, b), Class(p, size, n, s);
      if r == b {
        assert Class(p', size', n, b) == B + S;
        assert B !! S;
      } else {
        assert Class(p', size', n, r) == Class(p, size, n, r);
      }
    }
  }

  /** Two different classes have room for each other, so their sizes never overflow n. */
  lemma ClassSizesFit(p: seq<int>, size: seq<int>, n: int, b: int, s: int)
    requires Links(p, size, n) && Sized(p, size, n)
    requires 1 <= b <= n && 1 <= s <= n && b != s && p[b] == b && p[s] == s
    ensures size[b] + size[s] <= n
  {
    var B, S := Class(p, size, n, b), Class(p, size, n, s);
    assert B !! S;
    UpTo(n, B + S);
    assert |B + S| == |B| + |S|;
  }

  /** A fresh union merges the partition exactly as adding the edge merges connectivity. */
  lemma LinkKeepsPartition(p: seq<int>, size: seq<int>, n: int, b: int, s: int, p': seq<int>, size': seq<int>,
                           unions: set<Edge>, e: Edge)
    requires Linked(p, size, n, b, s, p', size') && Links(p', size', n)
    requires Partition(p, size, n, unions)
    requires 1 <= e.x <= n && 1 <= e.y <= n
    requires {Root(p, size, n, e.x), Root(p, size, n, e.y)} == {b, s}
    ensures Partition(p', size', n, unions + {e})
  {
    forall x, y | 1 <= x <= n && 1 <= y <= n
      ensures Root(p', size', n, x) == Root(p', size', n, y) <==> Connected(unions + {e}, x, y)
    {
      ConnectedPlusEdge(unions, e, x, y);
      LinkMovesRoots(p, size, n, b, s, p', size', x);
      LinkMovesRoots(p, size, n, b, s, p', size', y);
      assert b in {Root(p, size, n, e.x), Root(p, size, n, e.y)};
      assert s in {Root(p, size, n, e.x), Root(p, size, n, e.y)};
      assert Root(p, size, n, e.x) in {b, s} && Root(p, size, n, e.y) in {b, s};
      var rx, ry := Root(p, size, n, x), Root(p, size, n, y);
      assert (rx == Root(p, size, n, e.x)) <==> Connected(unions, x, e.x);
      assert (rx == Root(p, size, n, e.y)) <==> Connected(unions, x, e.y);
      assert (ry == Root(p, size, n, e.x)) <==> Connected(unions, e.x, y);
      assert (ry == Root(p, size, n, e.y)) <==> Connected(unions, e.y, y);
    }
  }

  lemma RedundantUnionKeepsPartition(p: seq<int>, size: seq<int>, n: int, unions: set<Edge>, e: Edge)
    requires Links(p, size, n) && Partition(p, size, n, unions)
    requires 1 <= e.x <= n && 1 <= e.y <= n && Root(p, size, n, e.x) == Root(p, size, n, e.y)
    ensures Partition(p, size, n, unions + {e})
  {
    forall x, y | 1 <= x <= n && 1 <= y <= n
      ensures Root(p, size, n, x) == Root(p, size, n, y) <==> Connected(unions + {e}, x, y)
    {
      RedundantEdge(unions, e, x, y);
    }
  }

  lemma SingletonsArePartition(p: seq<int>, size: seq<int>, n: int)
    requires 0 <= n < |p| == |size|
    requires forall x :: 1 <= x <= n ==> p[x] == x && size[x] == 1
    ensures Links(p, size, n) && Sized(p, size, n) && Partition(p, size, n, {})
  {
    forall r {:trigger Class(p, size, n, r)} | 1 <= r <= n ensures size[r] == |Class(p, size, n, r)| {
      assert Class(p, size, n, r) == {r};
    }
    forall x, y | 1 <= x <= n && 1 <= y <= n
      ensures Root(p, size, n, x) == Root(p, size, n, y) <==> Connected({}, x, y)
    {
      if x == y { ConnectedReflexive({}, x); }
      if Connected({}, x, y) { ConnectedStaysInside({}, iset{x}, x, y); }
    }
  }

  // ---------- The structure ----------

  class SetUnion {
    const p: array<int>
    const size: array<int>
    const n: int
    ghost var unions: set<Edge>  // the unions made so far, as unweighted edges

    ghost predicate Valid()
      reads this, p, size
    {
      && p != size && p.Length == size.Length == SET_SIZE + 1
      && Links(p[..], size[..], n)
      && Sized(p[..], size[..], n)
      && Partition(p[..], size[..], n, unions)
    }

    constructor (n: int)
      requires 0 <= n <= SET_SIZE
      ensures Valid() && fresh(p) && fresh(size)
      ensures this.n == n && unions == {}
    {
      this.n := n;
      p := new int[SET_SIZE + 1];
      size := new int[SET_SIZE + 1];
      unions := {};
      new;
      for i := 1 to n + 1
        invariant unions == {}
        invariant forall x :: 1 <= x < i ==> p[x] == x && size[x] == 1
      {
        p[i], size[i] := i, 1;
      }
      ghost var p', size' := p[..], size[..];
      assert forall x :: 1 <= x <= n ==> p'[x] == x && size'[x] == 1;
      SingletonsArePartition(p', size', n);
    }

    /** The representative of x, found in `calls` further recursive calls. */
    method Find(x: int) returns (r: int, ghost calls: nat)
      requires Valid() && 1 <= x <= n
      ensures r == Root(p[..], size[..], n, x) && Connected(unions, x, r)
      ensures calls == Depth(p[..], size[..], n, x) && Pow2(calls) <= n
      decreases n - size[x]
    {
      assert p[..][x] == p[x];
      if p[x] == x {
        r, calls := x, 0;
      } else {
        assert p[..][p[x]] == p[p[x]];
        r, calls := Find(p[x]);
        calls := calls + 1;
      }
      DepthIsLogarithmic(p[..], size[..], n, x);
      assert Root(p[..], size[..], n, r) == r;
    }

    method SameComponent(s1: int, s2: int) returns (same: bool)
      requires Valid() && 1 <= s1 <= n && 1 <= s2 <= n
      ensures same <==> Connected(unions, s1, s2)
    {
      var r1, _ := Find(s1);
      var r2, _ := Find(s2);
      same := r1 == r2;
    }

    method UnionSets(s1: int, s2: int)
      requires Valid() && 1 <= s1 <= n && 1 <= s2 <= n
      modifies this, p, size
      ensures Valid() && unions == old(unions) + {Edge(s1, s2, 0)}
    {
      hide Sized, Partition, Class, Connected;
      var r1, _ := Find(s1);
      var r2, _ := Find(s2);
      ghost var p0, size0, e := p[..], size[..], Edge(s1, s2, 0);
      if r1 == r2 {
        RedundantUnionKeepsPartition(p0, size0, n, unions, e);
        unions := unions + {e};
        return;
      }
      ClassSizesFit(p0, size0, n, r1, r2);
      ghost var b, s := if size[r1] >= size[r2] then r1 else r2, if size[r1] >= size[r2] then r2 else r1;
      if size[r1] >= size[r2] {
        size[r1] := size[r1] + size[r2];
        p[r2] := r1;
      } else {
        size[r2] := size[r1] + size[r2];
        p[r1] := r2;
      }
      assert Linked(p0, size0, n, b, s, p[..], size[..]);
      LinkKeepsLinks(p0, size0, n, b, s, p[..], size[..]);
      LinkMergesClasses(p0, size0, n, b, s, p[..], size[..]);
      LinkKeepsPartition(p0, size0, n, b, s, p[..], size[..], unions, e);
      unions := unions + {e};
    }
  }
}
