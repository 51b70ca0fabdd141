/** Counting the processes that are at certain points of their program. */
module Tally {

  ghost function Count<T>(s: seq<T>, f: T -> bool): nat {
    if s == [] then 0 else Count(s[..|s| - 1], f) + if f(s[|s| - 1]) then 1 else 0
  }

  ghost function One(b: bool): nat { if b then 1 else 0 }

  /** When one process moves, only its own contribution changes. */
  lemma {:induction false} CountUpdate<T>(s: seq<T>, i: nat, x: T, f: T -> bool)
    requires i < |s|
    ensures Count(s[i := x], f) == Count(s, f) - One(f(s[i])) + One(f(x))
    ensures One(f(s[i])) <= Count(s, f)
  {
    var init := s[..|s| - 1];
    if i == |s| - 1 {
      assert s[i := x][..|s| - 1] == init;
    } else {
      assert s[i := x][..|s| - 1] == init[i := x];
      CountUpdate(init, i, x, f);
    }
  }

  lemma {:induction false} CountNone<T>(s: seq<T>, f: T -> bool)
    requires forall i :: 0 <= i < |s| ==> !f(s[i])
    ensures Count(s, f) == 0
  {
    if s != [] {
      assert forall i :: 0 <= i < |s| - 1 ==> s[..|s| - 1][i] == s[i];
      CountNone(s[..|s| - 1], f);
    }
  }

  lemma {:induction false} CountSome<T>(s: seq<T>, f: T -> bool) returns (i: int)
    requires Count(s, f) > 0
    ensures 0 <= i < |s| && f(s[i])
  {
    if f(s[|s| - 1]) { i := |s| - 1; } else { i := CountSome(s[..|s| - 1], f); }
  }

  lemma {:induction false} CountFits<T>(s: seq<T>, f: T -> bool)
    ensures Count(s, f) <= |s|
  {
    if s != [] { CountFits(s[..|s| - 1], f); }
  }

  /** Splitting the points into two disjoint groups splits the count. */
  lemma {:induction false} CountSplit<T>(s: seq<T>, f: T -> bool, g: T -> bool, h: T -> bool)
    requires forall i :: 0 <= i < |s| ==> One(f(s[i])) == One(g(s[i])) + One(h(s[i]))
    ensures Count(s, f) == Count(s, g) + Count(s, h)
  {
    if s != [] {
      assert forall i :: 0 <= i < |s| - 1 ==> s[..|s| - 1][i] == s[i];
      CountSplit(s[..|s| - 1], f, g, h);
    }
  }

  lemma {:induction false} CountLess<T>(s: seq<T>, f: T -> bool, g: T -> bool)
    requires forall i :: 0 <= i < |s| && f(s[i]) ==> g(s[i])
    ensures Count(s, f) <= Count(s, g)
  {
    if s != [] {
      assert forall i :: 0 <= i < |s| - 1 ==> s[..|s| - 1][i] == s[i];
      CountLess(s[..|s| - 1], f, g);
    }
  }

  lemma NotCounted<T>(s: seq<T>, f: T -> bool, i: int)
    requires 0 <= i < |s| && Count(s, f) == 0
    ensures !f(s[i])
  {
    CountUpdate(s, i, s[i], f);
  }
}
