/** Merge sort through two bounded queues: what it does to ranges of any length, and for
    which lengths that is sorting. */
module MergeSort {
  import opened Queues

  // ---------- Overwriting a stretch of a sequence ----------

  /** s with the cells from lo on overwritten by x. */
  ghost function Replaced(s: seq<int>, lo: int, x: seq<int>): (r: seq<int>)
    requires 0 <= lo && lo + |x| <= |s|
    ensures |r| == |s|
  {
    s[..lo] + x + s[lo + |x|..]
  }

  lemma ReplacedNothing(s: seq<int>, lo: int)
    requires 0 <= lo <= |s|
    ensures Replaced(s, lo, []) == s
  {}

  lemma ReplacedTwice(s: seq<int>, lo: int, x: seq<int>, y: seq<int>)
    requires 0 <= lo && lo + |x| + |y| <= |s|
    ensures Replaced(Replaced(s, lo, x), lo + |x|, y) == Replaced(s, lo, x + y)
  {
    var t := Replaced(s, lo, x);
    assert t[..lo + |x|] == s[..lo] + x;
    assert t[lo + |x| + |y|..] == s[lo + |x| + |y|..];
    assert Replaced(t, lo + |x|, y) == s[..lo] + x + y + s[lo + |x| + |y|..];
    assert Replaced(s, lo, x + y) == s[..lo] + (x + y) + s[lo + |x| + |y|..];
  }

  lemma ReplacedAgain(s: seq<int>, lo: int, x: seq<int>, y: seq<int>)
    requires 0 <= lo && lo + |x| <= |s| && |x| == |y|
    ensures Replaced(Replaced(s, lo, x), lo, y) == Replaced(s, lo, y)
    ensures Replaced(s, lo, x)[lo..lo + |x|] == x
  {
    var t := Replaced(s, lo, x);
    assert t[..lo] == s[..lo] && t[lo + |x|..] == s[lo + |x|..];
  }

  lemma ReplacedBefore(s: seq<int>, lo: int, x: seq<int>, from: int, to: int)
    requires 0 <= lo && lo + |x| <= from <= to <= |s|
    ensures Replaced(s, lo, x)[from..to] == s[from..to]
  {}

  lemma ReplacedByCell(s: seq<int>, lo: int, x: seq<int>, v: int)
    requires 0 <= lo && lo + |x| < |s|
    ensures Replaced(s, lo, x)[lo + |x| := v] == Replaced(s, lo, x + [v])
  {}

  lemma SliceOfSlice(s: seq<int>, lo: int, hi: int, a: int, b: int)
    requires 0 <= lo <= hi <= |s| && 0 <= a <= b <= hi - lo
    ensures s[lo..hi][a..b] == s[lo + a..lo + b]
  {
    var x, y := s[lo..hi][a..b], s[lo + a..lo + b];
    assert |x| == |y| && forall k :: 0 <= k < |x| ==> x[k] == y[k];
  }

  // ---------- Specification on values ----------

  /** What a queue keeps of the values offered to it. */
  ghost function Kept(x: seq<int>): seq<int> {
    if |x| <= QUEUESIZE then x else x[..QUEUESIZE]
  }

  ghost function Merged(a: seq<int>, b: seq<int>): (r: seq<int>)
    ensures |r| == |a| + |b|
  {
    if a == [] then b
    else if b == [] then a
    else if a[0] <= b[0] then [a[0]] + Merged(a[1..], b)
    else [b[0]] + Merged(a, b[1..])
  }

  /** Merging the halves of x; cells that no buffered value reaches keep what they held. */
  ghost function MergedHalves(x: seq<int>, h: int): (r: seq<int>)
    requires 0 <= h <= |x|
    ensures |r| == |x|
  {
    var m := Merged(Kept(x[..h]), Kept(x[h..]));
    m + x[|m|..]
  }

  ghost function Half(n: int): int { (n + 1) / 2 }

  /** The effect of sorting a range that holds x. */
  ghost function SortOf(x: seq<int>): (r: seq<int>)
    ensures |r| == |x|
    decreases |x|
  {
    if |x| <= 1 then x
    else var h := Half(|x|); MergedHalves(SortOf(x[..h]) + SortOf(x[h..]), h)
  }

  // ---------- The program ----------

  method Fill(s: array<int>, q: Queue, from: int, to: int)
    requires 0 <= from <= to <= s.Length && q.Valid() && q.Contents() == [] && q.q != s
    modifies q, q.q
    ensures q.Valid() && q.Contents() == Kept(s[from..to])
  {
    hide Queue.Valid, Queue.Contents;
    for i := from to to
      invariant q.Valid() && q.Contents() == Kept(s[from..i])
    {
      assert s[from..i + 1] == s[from..i] + [s[i]];
      q.Enqueue(s[i]);
    }
  }

  /** Moves the front of q to cell i. */
  method Move(s: array<int>, q: Queue, i: int)
    requires 0 <= i < s.Length && q.Valid() && q.Contents() != [] && q.q != s
    modifies s, q
    ensures q.Valid() && q.Contents() == old(q.Contents())[1..]
    ensures s[..] == old(s[..])[i := old(q.Contents())[0]]
  {
    hide Queue.Valid, Queue.Contents;
    var x := q.Dequeue();
    s[i] := x;
  }

  /** The cells from `from` on hold the values drained so far; c is still queued. */
  ghost predicate Draining(s0: seq<int>, s: seq<int>, from: int, done: seq<int>, c: seq<int>, all: seq<int>) {
    && 0 <= from && from + |all| <= |s0| && done + c == all
    && s == Replaced(s0, from, done)
  }

  lemma DrainingStep(s0: seq<int>, s: seq<int>, from: int, done: seq<int>, c: seq<int>, all: seq<int>)
    requires Draining(s0, s, from, done, c, all) && c != []
    ensures 0 <= from && from + |done| < |s|
    ensures Draining(s0, s[from + |done| := c[0]], from, done + [c[0]], c[1..], all)
  {
    hide Replaced;
    assert [c[0]] + c[1..] == c;
    assert (done + [c[0]]) + c[1..] == done + ([c[0]] + c[1..]);
    ReplacedByCell(s0, from, done, c[0]);
  }

  lemma DrainingStarts(s: seq<int>, from: int, all: seq<int>)
    requires 0 <= from && from + |all| <= |s|
    ensures Draining(s, s, from, [], all, all)
  {
    ReplacedNothing(s, from);
    assert [] + all == all;
  }

  lemma DrainingEnds(s0: seq<int>, s: seq<int>, from: int, done: seq<int>, all: seq<int>)
    requires Draining(s0, s, from, done, [], all)
    ensures done == all && s == Replaced(s0, from, all)
  {
    assert done + [] == done;
  }

  /** Moves everything in q to the cells from `from` on. */
  method Drain(s: array<int>, q: Queue, from: int) returns (i: int)
    requires 0 <= from && q.Valid() && from + |q.Contents()| <= s.Length && q.q != s
    modifies s, q
    ensures i == from + |old(q.Contents())|
    ensures q.Valid() && q.Contents() == []
    ensures s[..] == Replaced(old(s[..]), from, old(q.Contents()))
  {
    hide Queue.Valid, Queue.Contents, Replaced, Draining;
    i := from;
    ghost var all, done, s0 := q.Contents(), [], s[..];
    DrainingStarts(s0, from, all);
    var empty := q.IsEmpty();
    while !empty
      invariant q.Valid() && (empty <==> q.Contents() == []) && i == from + |done|
      invariant Draining(s0, s[..], from, done, q.Contents(), all)
      decreases |q.Contents()|
    {
      DrainingStep(s0, s[..], from, done, q.Contents(), all);
      done := done + [q.Contents()[0]];
      Move(s, q, i);
      i := i + 1;
      empty := q.IsEmpty();
    }
    DrainingEnds(s0, s[..], from, done, all);
  }

  /** Cells from low on hold the values merged so far; the queues hold the rest. */
  ghost predicate Merging(s0: seq<int>, s: seq<int>, low: int, done: seq<int>, M: seq<int>, a: seq<int>, b: seq<int>) {
    && 0 <= low && low + |M| <= |s0| && |done| + |a| + |b| == |M|
    && s == Replaced(s0, low, done)
    && done + Merged(a, b) == M
  }

  lemma MergingAdvance(s0: seq<int>, s: seq<int>, low: int, done: seq<int>, M: seq<int>, a: seq<int>, b: seq<int>,
                       x: int, a': seq<int>, b': seq<int>)
    requires Merging(s0, s, low, done, M, a, b) && |a'| + |b'| == |a| + |b| - 1
    requires Merged(a, b) == [x] + Merged(a', b')
    ensures 0 <= low && low + |done| < |s| == |s0|
    ensures Merging(s0, s[low + |done| := x], low, done + [x], M, a', b')
  {
    hide Replaced, Merged;
    ReplacedByCell(s0, low, done, x);
    assert done + ([x] + Merged(a', b')) == (done + [x]) + Merged(a', b');
  }

  /** Moving the smaller front is one step of the merge. */
  lemma MergingStep(s0: seq<int>, s: seq<int>, low: int, done: seq<int>, M: seq<int>, a: seq<int>, b: seq<int>)
    requires Merging(s0, s, low, done, M, a, b) && a != [] && b != []
    ensures 0 <= low && low + |done| < |s| == |s0|
    ensures var i := low + |done|;
      if a[0] <= b[0] then Merging(s0, s[i := a[0]], low, done + [a[0]], M, a[1..], b)
      else Merging(s0, s[i := b[0]], low, done + [b[0]], M, a, b[1..])
  {
    MergedFront(a, b);
    hide Merging, Replaced, Merged;
    if a[0] <= b[0] {
      MergingAdvance(s0, s, low, done, M, a, b, a[0], a[1..], b);
    } else {
      MergingAdvance(s0, s, low, done, M, a, b, b[0], a, b[1..]);
    }
  }

  lemma MergedFront(a: seq<int>, b: seq<int>)
    requires a != [] && b != []
    ensures Merged(a, b) == if a[0] <= b[0] then [a[0]] + Merged(a[1..], b) else [b[0]] + Merged(a, b[1..])
  {}

  /** When one queue is empty the other one is the rest of the result. */
  lemma MergingEnds(s0: seq<int>, s: seq<int>, low: int, done: seq<int>, M: seq<int>, a: seq<int>, b: seq<int>)
    requires Merging(s0, s, low, done, M, a, b) && (a == [] || b == [])
    ensures 0 <= low && low + |done| + |a| + |b| <= |s| == |s0|
    ensures Replaced(Replaced(s, low + |done|, a), low + |done| + |a|, b) == Replaced(s0, low, M)
  {
    hide Replaced;
    ReplacedTwice(s0, low, done, a);
    ReplacedTwice(s0, low, done + a, b);
    assert M == (done + a) + b by {
      assert Merged(a, b) == a + b;
      assert done + (a + b) == (done + a) + b;
    }
  }

  lemma RestOfRange(s: seq<int>, from: int, to: int)
    requires 0 <= from <= to <= |s|
    ensures s[from..] == s[from..to] + s[to..]
  {}

  lemma MergedInPlace(s0: seq<int>, low: int, middle: int, high: int, a: seq<int>, b: seq<int>)
    requires 0 <= low <= middle < high < |s0|
    requires a == Kept(s0[low..middle + 1]) && b == Kept(s0[middle + 1..high + 1])
    ensures low + |Merged(a, b)| <= high + 1
    ensures Replaced(s0, low, Merged(a, b)) == Replaced(s0, low, MergedHalves(s0[low..high + 1], middle + 1 - low))
  {
    hide Merged;
    var x, M, n := s0[low..high + 1], Merged(a, b), high + 1 - low;
    SliceOfSlice(s0, low, high + 1, 0, middle + 1 - low);
    SliceOfSlice(s0, low, high + 1, middle + 1 - low, n);
    assert x[..middle + 1 - low] == s0[low..middle + 1];
    SliceOfSlice(s0, low, high + 1, |M|, n);
    RestOfRange(s0, low + |M|, high + 1);
    assert MergedHalves(x, middle + 1 - low) == M + s0[low + |M|..high + 1];
  }

  /** Two buffers with what they keep of the two halves. */
  method Buffers(s: array<int>, low: int, middle: int, high: int) returns (buffer1: Queue, buffer2: Queue)
    requires 0 <= low <= middle < high < s.Length
    ensures fresh(buffer1) && fresh(buffer2) && fresh(buffer1.q) && fresh(buffer2.q) && buffer1 != buffer2
    ensures buffer1.Valid() && buffer1.Contents() == Kept(s[..][low..middle + 1])
    ensures buffer2.Valid() && buffer2.Contents() == Kept(s[..][middle + 1..high + 1])
  {
    hide Kept, Queue.Valid, Queue.Contents;
    buffer1 := new Queue();
    buffer2 := new Queue();
    Fill(s, buffer1, low, middle + 1);
    Fill(s, buffer2, middle + 1, high + 1);
    assert s[..][low..middle + 1] == s[low..middle + 1] && s[..][middle + 1..high + 1] == s[middle + 1..high + 1];
  }

  /** Moves the smaller front until one buffer is empty, then drains both. */
  method Interleave(s: array<int>, buffer1: Queue, buffer2: Queue, low: int)
    requires buffer1 != buffer2 && buffer1.q != s && buffer2.q != s && buffer1.Valid() && buffer2.Valid()
    requires 0 <= low && low + |buffer1.Contents()| + |buffer2.Contents()| <= s.Length
    modifies s, buffer1, buffer2
    ensures |Merged(old(buffer1.Contents()), old(buffer2.Contents()))| <= s.Length - low
    ensures s[..] == Replaced(old(s[..]), low, Merged(old(buffer1.Contents()), old(buffer2.Contents())))
  {
    hide Merging, Merged, Replaced, Queue.Valid, Queue.Contents;
    ghost var s0, M, done := s[..], Merged(buffer1.Contents(), buffer2.Contents()), [];
    MergingStarts(s0, low, M, buffer1.Contents(), buffer2.Contents());
    var i := low;
    var empty1 := buffer1.IsEmpty();
    var empty2 := buffer2.IsEmpty();
    while !(empty1 || empty2)
      invariant buffer1.Valid() && buffer2.Valid()
      invariant (empty1 <==> buffer1.Contents() == []) && (empty2 <==> buffer2.Contents() == [])
      invariant i == low + |done| && Merging(s0, s[..], low, done, M, buffer1.Contents(), buffer2.Contents())
      decreases |buffer1.Contents()| + |buffer2.Contents()|
    {
      MergingStep(s0, s[..], low, done, M, buffer1.Contents(), buffer2.Contents());
      var h1 := buffer1.Head();
      var h2 := buffer2.Head();
      if h1 <= h2 {
        Move(s, buffer1, i);
        done := done + [h1];
      } else {
        Move(s, buffer2, i);
        done := done + [h2];
      }
      i := i + 1;
      empty1 := buffer1.IsEmpty();
      empty2 := buffer2.IsEmpty();
    }
    MergingEnds(s0, s[..], low, done, M, buffer1.Contents(), buffer2.Contents());
    i := Drain(s, buffer1, i);
    i := Drain(s, buffer2, i);
  }

  method Merge(s: array<int>, low: int, middle: int, high: int)
    requires 0 <= low <= middle < high < s.Length
    modifies s
    ensures s[..] == Replaced(old(s[..]), low, MergedHalves(old(s[..])[low..high + 1], middle + 1 - low))
  {
    hide MergedHalves, Kept, Replaced, Queue.Valid, Queue.Contents;
    var buffer1, buffer2 := Buffers(s, low, middle, high);
    MergedInPlace(s[..], low, middle, high, buffer1.Contents(), buffer2.Contents());
    Interleave(s, buffer1, buffer2, low);
  }

  lemma MergingStarts(s0: seq<int>, low: int, M: seq<int>, a: seq<int>, b: seq<int>)
    requires 0 <= low && low + |M| <= |s0| && M == Merged(a, b)
    ensures Merging(s0, s0, low, [], M, a, b)
  {
    ReplacedNothing(s0, low);
    assert [] + M == M;
  }

  lemma SortOfUnfolds(x: seq<int>)
    requires |x| > 1
    ensures var h := Half(|x|); SortOf(x) == MergedHalves(SortOf(x[..h]) + SortOf(x[h..]), h)
  {}

  lemma HalvesOfRange(s: seq<int>, low: int, mid: int, high: int)
    requires 0 <= low < high < |s| && mid == (low + high) / 2
    ensures var x, h := s[low..high + 1], Half(high + 1 - low);
      h == mid + 1 - low && x[..h] == s[low..mid + 1] && x[h..] == s[mid + 1..high + 1]
  {
    SliceOfSlice(s, low, high + 1, 0, mid + 1 - low);
    SliceOfSlice(s, low, high + 1, mid + 1 - low, high + 1 - low);
  }

  /** Both halves sorted one after the other lie side by side. */
  lemma HalvesSideBySide(s: seq<int>, low: int, L: seq<int>, R: seq<int>)
    requires 0 <= low && low + |L| + |R| <= |s|
    ensures Replaced(s, low, L)[low + |L|..low + |L| + |R|] == s[low + |L|..low + |L| + |R|]
    ensures Replaced(Replaced(s, low, L), low + |L|, R) == Replaced(s, low, L + R)
    ensures Replaced(s, low, L + R)[low..low + |L| + |R|] == L + R
  {
    ReplacedBefore(s, low, L, low + |L|, low + |L| + |R|);
    ReplacedTwice(s, low, L, R);
    ReplacedAgain(s, low, L + R, L + R);
  }

  method Sort(s: array<int>, low: int, high: int)
    requires 0 <= low <= high + 1 <= s.Length
    modifies s
    ensures s[..] == Replaced(old(s[..]), low, SortOf(old(s[..])[low..high + 1]))
    decreases high - low
  {
    hide MergedHalves, Replaced, SortOf, Half;
    ghost var s0 := s[..];
    if low < high {
      var mid := (low + high) / 2;
      HalvesOfRange(s0, low, mid, high);
      ghost var x, h := s0[low..high + 1], Half(high + 1 - low);
      ghost var L, R := SortOf(x[..h]), SortOf(x[h..]);
      HalvesSideBySide(s0, low, L, R);
      Sort(s, low, mid);
      Sort(s, mid + 1, high);
      assert s[..] == Replaced(s0, low, L + R);
      Merge(s, low, mid, high);
      SortOfUnfolds(x);
      ReplacedAgain(s0, low, L + R, SortOf(x));
    } else {
      SortedShort(s0, low, high);
    }
  }

  lemma SortedShort(s: seq<int>, low: int, high: int)
    requires 0 <= low <= high + 1 <= |s| && high <= low
    ensures Replaced(s, low, SortOf(s[low..high + 1])) == s
  {
    assert SortOf(s[low..high + 1]) == s[low..high + 1];
    hide SortOf;
    assert s == s[..low] + s[low..high + 1] + s[high + 1..];
  }

  // ---------- Ranges whose halves fit the buffers are sorted ----------

  ghost predicate Ascending(s: seq<int>) {
    forall i, j :: 0 <= i < j < |s| ==> s[i] <= s[j]
  }

  ghost predicate Sorts(x: seq<int>, r: seq<int>) {
    Ascending(r) && multiset(r) == multiset(x)
  }

  lemma HeadAndTail(s: seq<int>)
    requires s != []
    ensures multiset(s) == multiset{s[0]} + multiset(s[1..])
  {
    assert s == [s[0]] + s[1..];
  }

  lemma {:induction false} MergedPermutes(a: seq<int>, b: seq<int>)
    ensures multiset(Merged(a, b)) == multiset(a) + multiset(b)
  {
    if a != [] && b != [] {
      MergedFront(a, b);
      hide Merged;
      HeadAndTail(a);
      HeadAndTail(b);
      if a[0] <= b[0] {
        MergedPermutes(a[1..], b);
      } else {
        MergedPermutes(a, b[1..]);
      }
    }
  }

  ghost predicate AtLeast(x: int, s: seq<int>) {
    forall i :: 0 <= i < |s| ==> x <= s[i]
  }

  lemma MergedAtLeast(x: int, a: seq<int>, b: seq<int>)
    requires AtLeast(x, a) && AtLeast(x, b)
    ensures AtLeast(x, Merged(a, b))
  {
    var r := Merged(a, b);
    MergedPermutes(a, b);
    forall i | 0 <= i < |r| ensures x <= r[i] {
      assert r[i] in multiset(r);
      assert r[i] in a || r[i] in b;
    }
  }

  lemma {:induction false} MergedAscends(a: seq<int>, b: seq<int>)
    requires Ascending(a) && Ascending(b)
    ensures Ascending(Merged(a, b))
  {
    if a != [] && b != [] {
      if a[0] <= b[0] {
        MergedAscends(a[1..], b);
        MergedAtLeast(a[0], a[1..], b);
      } else {
        MergedAscends(a, b[1..]);
        MergedAtLeast(b[0], a, b[1..]);
      }
    }
  }

  lemma MergedSorts(x: seq<int>, h: int, L: seq<int>, R: seq<int>)
    requires 0 <= h <= |x| && Sorts(x[..h], L) && Sorts(x[h..], R)
    ensures Sorts(x, Merged(L, R))
  {
    MergedAscends(L, R);
    MergedPermutes(L, R);
    assert x == x[..h] + x[h..];
  }

  lemma {:induction false} ShortRangesAreSorted(x: seq<int>)
    requires |x| <= 2 * QUEUESIZE
    ensures Sorts(x, SortOf(x))
    decreases |x|
  {
    if |x| > 1 {
      SortOfUnfolds(x);
      hide SortOf, Merged, MergedHalves, Sorts;
      var h := Half(|x|);
      var L, R := SortOf(x[..h]), SortOf(x[h..]);
      ShortRangesAreSorted(x[..h]);
      ShortRangesAreSorted(x[h..]);
      SmallHalvesMerge(L, R);
      MergedSorts(x, h, L, R);
    }
  }

  lemma SmallHalvesMerge(L: seq<int>, R: seq<int>)
    requires |L| <= QUEUESIZE && |R| <= QUEUESIZE
    ensures MergedHalves(L + R, |L|) == Merged(L, R)
  {
    assert (L + R)[..|L|] == L && (L + R)[|L|..] == R;
  }

  // ---------- What becomes of longer ranges ----------

  /** Only the first values of both sorted halves are merged; the cells behind stay as the halves
      left them. */
  ghost predicate FrontsMerged(L: seq<int>, R: seq<int>, r: seq<int>) {
    && |r| == |L| + |R| && |L| >= QUEUESIZE && |R| >= QUEUESIZE
    && Ascending(r[..2 * QUEUESIZE])
    && multiset(r[..2 * QUEUESIZE]) == multiset(L[..QUEUESIZE]) + multiset(R[..QUEUESIZE])
    && r[2 * QUEUESIZE..] == (L + R)[2 * QUEUESIZE..]
  }

  lemma {:induction false} LongRangesMergeFronts(x: seq<int>)
    requires |x| > 2 * QUEUESIZE
    ensures var h := (|x| + 1) / 2; FrontsMerged(SortOf(x[..h]), SortOf(x[h..]), SortOf(x))
    decreases |x|, 0
  {
    var h := (|x| + 1) / 2;
    SortOfUnfolds(x);
    hide SortOf, MergedHalves, Ascending;
    FrontAscends(x[..h]);
    FrontAscends(x[h..]);
    FrontsOfHalves(SortOf(x[..h]), SortOf(x[h..]));
  }

  lemma {:induction false} FrontAscends(x: seq<int>)
    requires |x| >= QUEUESIZE
    ensures Ascending(SortOf(x)[..QUEUESIZE])
    decreases |x|, 1
  {
    hide SortOf;
    if |x| <= 2 * QUEUESIZE {
      ShortRangesAreSorted(x);
    } else {
      LongRangesMergeFronts(x);
    }
  }

  lemma FrontsOfHalves(L: seq<int>, R: seq<int>)
    requires |L| >= QUEUESIZE && |R| >= QUEUESIZE && Ascending(L[..QUEUESIZE]) && Ascending(R[..QUEUESIZE])
    ensures FrontsMerged(L, R, MergedHalves(L + R, |L|))
  {
    var a, b := L[..QUEUESIZE], R[..QUEUESIZE];
    assert (L + R)[..|L|] == L && (L + R)[|L|..] == R;
    assert Kept(L) == a && Kept(R) == b;
    MergedAscends(a, b);
    MergedPermutes(a, b);
    hide Merged, Ascending;
    var m := Merged(a, b);
    assert (m + (L + R)[|m|..])[..|m|] == m;
  }

  // ---------- Longer ranges lose elements ----------

  ghost function Constant(c: int, n: nat): seq<int> { seq(n, _ => c) }

  lemma {:induction false} MergedConstants(c: int, m: nat, n: nat)
    ensures Merged(Constant(c, m), Constant(c, n)) == Constant(c, m + n)
  {
    if m > 0 && n > 0 {
      assert Constant(c, m)[1..] == Constant(c, m - 1);
      MergedConstants(c, m - 1, n);
    }
  }

  lemma ConstantSplits(c: int, n: nat, h: nat)
    requires h <= n
    ensures Constant(c, n)[..h] == Constant(c, h) && Constant(c, n)[h..] == Constant(c, n - h)
    ensures Constant(c, h) + Constant(c, n - h) == Constant(c, n) && |Constant(c, n)| == n
  {}

  lemma {:induction false} ConstantsStay(c: int, n: nat)
    ensures SortOf(Constant(c, n)) == Constant(c, n)
    decreases n
  {
    var h := Half(n);
    ConstantSplits(c, n, h);
    if n > 1 {
      SortOfUnfolds(Constant(c, n));
      ConstantsStay(c, h);
      ConstantsStay(c, n - h);
      ConstantHalvesStay(c, n, h);
      hide SortOf, Constant, MergedHalves;
    }
  }

  lemma ConstantHalvesStay(c: int, n: nat, h: nat)
    requires h <= n
    ensures MergedHalves(Constant(c, n), h) == Constant(c, n)
  {
    var x := Constant(c, n);
    var a, b := if h <= QUEUESIZE then h else QUEUESIZE, if n - h <= QUEUESIZE then n - h else QUEUESIZE;
    assert Kept(x[..h]) == Constant(c, a) && Kept(x[h..]) == Constant(c, b);
    MergedConstants(c, a, b);
  }

  lemma {:induction false} MergedZerosOnes(m: nat, n: nat)
    ensures Merged(Constant(0, m), Constant(1, n)) == Constant(0, m) + Constant(1, n)
  {
    if m > 0 && n > 0 {
      assert Constant(0, m)[1..] == Constant(0, m - 1);
      MergedZerosOnes(m - 1, n);
      assert Constant(0, m) == [0] + Constant(0, m - 1);
    }
  }

  lemma {:induction false} CountConstant(c: int, n: nat, v: int)
    ensures multiset(Constant(c, n))[v] == if v == c then n else 0
  {
    if n > 0 {
      CountConstant(c, n - 1, v);
      HeadAndTail(Constant(c, n));
      assert Constant(c, n)[1..] == Constant(c, n - 1);
    }
  }

  lemma CountConcat(a: seq<int>, b: seq<int>, v: int)
    ensures multiset(a + b)[v] == multiset(a)[v] + multiset(b)[v]
  {}

  lemma CountZeros(m: nat, n: nat)
    ensures multiset(Constant(0, m) + Constant(1, n))[0] == m
  {
    hide Constant;
    CountConstant(0, m, 0);
    CountConstant(1, n, 0);
    CountConcat(Constant(0, m), Constant(1, n), 0);
  }

  /** Zeros in the left half and ones in the right half, already in order. */
  ghost function Steps(n: nat): seq<int> {
    Constant(0, Half(n)) + Constant(1, n - Half(n))
  }

  /** Both halves are in order before the last merge. */
  lemma StepsBeforeMerge(n: nat)
    requires n > 1
    ensures |Steps(n)| == n && SortOf(Steps(n)) == MergedHalves(Steps(n), Half(n))
  {
    StepsHalves(n);
    ConstantsStay(0, Half(n));
    ConstantsStay(1, n - Half(n));
    SortOfUnfolds(Steps(n));
    hide SortOf, MergedHalves, Constant;
  }

  lemma StepsHalves(n: nat)
    ensures |Steps(n)| == n && Steps(n)[..Half(n)] == Constant(0, Half(n))
        && Steps(n)[Half(n)..] == Constant(1, n - Half(n))
  {}

  /** A range longer than both buffers overwrites values that no buffer kept. */
  lemma LongRangesLoseValues(n: nat)
    requires n > 2 * QUEUESIZE
    ensures |Steps(n)| == n && !Sorts(Steps(n), SortOf(Steps(n)))
  {
    StepsBeforeMerge(n);
    StepsOverflow(n);
    CountZeros(Half(n), n - Half(n));
    hide SortOf, MergedHalves, Constant;
  }

  /** Zeros among the cells that the merge leaves as they were. */
  ghost function ZerosLeft(n: nat): nat {
    if Half(n) <= 2 * QUEUESIZE then 0 else Half(n) - 2 * QUEUESIZE
  }

  lemma StepsSplit(n: nat)
    requires n > 2 * QUEUESIZE
    ensures var x, h, K, z := Steps(n), Half(n), QUEUESIZE, ZerosLeft(n);
      && |x| == n && Kept(x[..h]) == Constant(0, K) && Kept(x[h..]) == Constant(1, K)
      && z <= n - 2 * K && x[2 * K..] == Constant(0, z) + Constant(1, n - 2 * K - z)
  {
    var x, h, K, z := Steps(n), Half(n), QUEUESIZE, ZerosLeft(n);
    StepsHalves(n);
    assert x[2 * K..] == Constant(0, z) + Constant(1, n - 2 * K - z);
  }

  lemma StepsOverflow(n: nat)
    requires n > 2 * QUEUESIZE
    ensures Half(n) <= |Steps(n)| && multiset(MergedHalves(Steps(n), Half(n)))[0] != Half(n)
  {
    var x, h, K, z := Steps(n), Half(n), QUEUESIZE, ZerosLeft(n);
    StepsSplit(n);
    MergedZerosOnes(K, K);
    hide Constant, Steps, Merged;
    var m := Constant(0, K) + Constant(1, K);
    assert MergedHalves(x, h) == m + x[2 * K..] by { assert |Merged(Kept(x[..h]), Kept(x[h..]))| == 2 * K; }
    CountZeros(K, K);
    CountZeros(z, n - 2 * K - z);
    CountConcat(m, x[2 * K..], 0);
  }

  /** Every range of length n is sorted exactly when both halves fit their buffers. */
  lemma SortsExactlyShortRanges(n: nat)
    ensures (forall x: seq<int> :: |x| == n ==> Sorts(x, SortOf(x))) <==> n <= 2 * QUEUESIZE
  {
    if n <= 2 * QUEUESIZE {
      forall x: seq<int> | |x| == n ensures Sorts(x, SortOf(x)) { ShortRangesAreSorted(x); }
    } else {
      LongRangesLoseValues(n);
    }
  }
}
