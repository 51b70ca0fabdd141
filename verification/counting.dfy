/** Counting elements of 1..n and of sequences without repetition. */
module Counting {
  lemma {:induction false} UpTo(n: nat, S: set<int>)
    requires forall x :: x in S ==> 1 <= x <= n
    ensures |S| <= n
  {
    if n == 0 {
      assert forall x :: x !in S;
      assert S == {};
    } else {
      UpTo(n - 1, S - {n});
    }
  }

  ghost predicate Distinct(s: seq<int>) {
    forall i, j :: 0 <= i < j < |s| ==> s[i] != s[j]
  }

  lemma {:induction false} DistinctFits(s: seq<int>, n: nat)
    requires Distinct(s) && forall v :: v in s ==> 1 <= v <= n
    ensures |s| <= n
  {
    var S := set v | v in s;
    DistinctSize(s, S);
    UpTo(n, S);
  }

  lemma {:induction false} DistinctSize(s: seq<int>, S: set<int>)
    requires Distinct(s) && S == set v | v in s
    ensures |S| == |s|
  {
    if s != [] {
      var t := s[..|s| - 1];
      DistinctSize(t, set v | v in t);
      assert S == (set v | v in t) + {s[|s| - 1]};
    }
  }

  /** A position of x in s: the only one if s does not repeat. */
  ghost function Position(s: seq<int>, x: int): (i: int)
    requires x in s
    ensures 0 <= i < |s| && s[i] == x
  {
    var i :| 0 <= i < |s| && s[i] == x;
    i
  }

  /** Lexicographic order of places: rows first. */
  ghost predicate Earlier(a: (int, int), b: (int, int)) {
    a.0 < b.0 || (a.0 == b.0 && a.1 < b.1)
  }

  ghost predicate Increasing(at: seq<(int, int)>) {
    forall i, j :: 0 <= i < j < |at| ==> Earlier(at[i], at[j])
  }

  lemma IncreasingPlus(at: seq<(int, int)>, p: (int, int))
    requires Increasing(at) && forall m :: 0 <= m < |at| ==> Earlier(at[m], p)
    ensures Increasing(at + [p])
  {}

  ghost function Range(lo: int, hi: int): (r: set<int>)
    ensures forall t :: t in r <==> lo <= t <= hi
    decreases hi - lo
  {
    if hi < lo then {} else Range(lo, hi - 1) + {hi}
  }

  lemma {:induction false} RangeSize(lo: int, hi: int)
    requires lo <= hi + 1
    ensures |Range(lo, hi)| == hi - lo + 1
    decreases hi - lo
  {
    if lo <= hi { RangeSize(lo, hi - 1); }
  }

  /** The entries of the elements of S. */
  ghost function Image(a: seq<int>, S: set<int>): set<int>
    requires forall w :: w in S ==> 0 <= w < |a|
  {
    set w | w in S :: a[w]
  }

  ghost predicate Injective(a: seq<int>, S: set<int>) {
    && (forall w :: w in S ==> 0 <= w < |a|)
    && forall v, w :: v in S && w in S && a[v] == a[w] ==> v == w
  }

  lemma ImagePlus(a: seq<int>, S: set<int>, x: int)
    requires Injective(a, S + {x}) && x !in S
    ensures Injective(a, S) && Image(a, S + {x}) == Image(a, S) + {a[x]} && a[x] !in Image(a, S)
  {
    assert forall w :: w in S ==> w in S + {x};
  }

  lemma {:induction false} ImageSize(a: seq<int>, S: set<int>, n: nat)
    requires Injective(a, S) && n <= |a| && forall w :: w in S ==> w < n
    ensures |Image(a, S)| == |S|
  {
    if n == 0 {
      assert forall w :: w !in S;
      assert S == {} && Image(a, S) == {};
    } else if n - 1 in S {
      var rest := S - {n - 1};
      assert rest + {n - 1} == S;
      assert forall w :: w in rest ==> w < n - 1;
      hide Injective, Image;
      ImagePlus(a, rest, n - 1);
      ImageSize(a, rest, n - 1);
    } else {
      hide Injective, Image;
      ImageSize(a, S, n - 1);
    }
  }
}
