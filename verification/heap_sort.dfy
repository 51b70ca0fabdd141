/** Heap sort in place. */
module HeapSort {

  // ---------- Heaps on the first n entries ----------

  function Up(k: int): int { (k - 1) / 2 }

  /** Entries from `lo` on dominate their children among the first n. */
  ghost predicate Heap(s: seq<int>, n: int, lo: int) {
    0 <= n <= |s| && forall k {:trigger s[k]} :: 1 <= k < n && Up(k) >= lo ==> s[Up(k)] >= s[k]
  }

  /** The same, except that entry i may be smaller than its children. */
  ghost predicate HeapExcept(s: seq<int>, n: int, lo: int, i: int) {
    && 0 <= lo <= i && 0 <= n <= |s|
    && (forall k {:trigger s[k]} :: 1 <= k < n && Up(k) >= lo && Up(k) != i ==> s[Up(k)] >= s[k])
    && (i > 0 && Up(i) >= lo ==> forall k {:trigger s[k]} :: 1 <= k < n && Up(k) == i ==> s[Up(i)] >= s[k])
  }

  lemma {:induction false} RootIsMaximum(s: seq<int>, n: int, k: int)
    requires Heap(s, n, 0) && 0 <= k < n
    ensures s[k] <= s[0]
  {
    if k > 0 { RootIsMaximum(s, n, Up(k)); }
  }

  ghost function Swapped(s: seq<int>, i: int, j: int): seq<int>
    requires 0 <= i < |s| && 0 <= j < |s|
  {
    s[i := s[j]][j := s[i]]
  }

  lemma SwapPermutes(s: seq<int>, i: int, j: int)
    requires 0 <= i < |s| && 0 <= j < |s|
    ensures multiset(Swapped(s, i, j)) == multiset(s)
  {}

  lemma SwapPermutesPrefix(s: seq<int>, i: int, j: int, n: int)
    requires 0 <= i < n <= |s| && 0 <= j < n
    ensures multiset(Swapped(s, i, j)[..n]) == multiset(s[..n]) && Swapped(s, i, j)[n..] == s[n..]
  {
    SwapPermutes(s[..n], i, j);
    assert Swapped(s, i, j)[..n] == Swapped(s[..n], i, j);
  }

  /** Exchanging i with its larger child c moves the possible violation down to c. */
  lemma SiftDown(s: seq<int>, n: int, lo: int, i: int, c: int)
    requires HeapExcept(s, n, lo, i) && 1 <= c < n && Up(c) == i && s[c] > s[i]
    requires forall k {:trigger s[k]} :: 1 <= k < n && Up(k) == i ==> s[c] >= s[k]
    ensures HeapExcept(Swapped(s, i, c), n, lo, c)
  {
    var t := Swapped(s, i, c);
    assert i < c;
    forall k {:trigger t[k]} | 1 <= k < n && Up(k) >= lo && Up(k) != c ensures t[Up(k)] >= t[k] {
      assert s[k] == s[k];
    }
    forall k {:trigger t[k]} | 1 <= k < n && Up(k) == c ensures t[Up(c)] >= t[k] {
      assert s[Up(k)] >= s[k] && k != i && k != c;
    }
  }

  /** Entry i dominates its children, so nothing is violated. */
  lemma NoViolation(s: seq<int>, n: int, lo: int, i: int)
    requires HeapExcept(s, n, lo, i)
    requires forall k {:trigger s[k]} :: 1 <= k < n && Up(k) == i ==> s[i] >= s[k]
    ensures Heap(s, n, lo)
  {}

  /** The choice of `largest` among i and its children inside the heap. */
  ghost predicate Chosen(s: seq<int>, n: int, i: int, largest: int) {
    && 0 <= i < n <= |s| && i <= largest < n
    && (largest != i ==> Up(largest) == i && s[largest] > s[i])
    && forall k {:trigger s[k]} :: 1 <= k < n && Up(k) == i ==> s[largest] >= s[k]
  }

  method Largest(arr: array<int>, n: int, i: int) returns (largest: int)
    requires 0 <= i < n <= arr.Length
    ensures Chosen(arr[..], n, i, largest)
  {
    largest := i;
    var l, r := 2 * i + 1, 2 * i + 2;
    if l < n && arr[i] < arr[l] {
      largest := l;
    }
    if r < n && arr[largest] < arr[r] {
      largest := r;
    }
  }

  /** Restores the heap when only entry i may violate it; lo is the first entry concerned. */
  method Heapify(arr: array<int>, n: int, i: int, ghost lo: int)
    requires 0 <= i < n <= arr.Length && HeapExcept(arr[..], n, lo, i)
    modifies arr
    ensures Heap(arr[..], n, lo)
    ensures multiset(arr[..][..n]) == multiset(old(arr[..])[..n]) && arr[..][n..] == old(arr[..])[n..]
    decreases n - i
  {
    hide HeapExcept, Heap;
    var largest := Largest(arr, n, i);
    ghost var s := arr[..];
    if largest != i {
      SiftDown(s, n, lo, i, largest);
      arr[i], arr[largest] := arr[largest], arr[i];
      assert arr[..] == Swapped(s, i, largest);
      SwapPermutesPrefix(s, i, largest, n);
      Heapify(arr, n, largest, lo);
    } else {
      NoViolation(s, n, lo, i);
    }
  }

  ghost predicate SortedFrom(s: seq<int>, lo: int) {
    forall a, b :: 0 <= lo <= a < b < |s| ==> s[a] <= s[b]
  }

  ghost predicate Below(s: seq<int>, n: int) {
    forall a, b :: 0 <= a < n <= b < |s| ==> s[a] <= s[b]
  }

  /** Rearranging the prefix keeps it below the suffix. */
  lemma BelowPermuted(s: seq<int>, t: seq<int>, n: int)
    requires 0 <= n <= |s| == |t| && Below(s, n) && multiset(t[..n]) == multiset(s[..n]) && t[n..] == s[n..]
    ensures Below(t, n)
  {
    forall a, b | 0 <= a < n <= b < |t| ensures t[a] <= t[b] {
      assert t[..n][a] in multiset(s[..n]);
      assert t[a] in s[..n];
      assert t[b] == t[n..][b - n] == s[n..][b - n] == s[b];
    }
  }

  /** Moving the root behind the heap extends the sorted suffix. */
  lemma ExtractKeepsHeap(s: seq<int>, i: int)
    requires 0 < i < |s| && Heap(s, i + 1, 0)
    ensures HeapExcept(Swapped(s, i, 0), i, 0, 0)
  {
    var t := Swapped(s, i, 0);
    forall k {:trigger t[k]} | 1 <= k < i && Up(k) != 0 ensures t[Up(k)] >= t[k] {
      assert s[k] == s[k];
    }
  }

  lemma ExtractSorts(s: seq<int>, i: int)
    requires 0 < i < |s| && SortedFrom(s, i + 1) && Below(s, i + 1)
    requires forall a {:trigger s[a]} :: 0 <= a <= i ==> s[a] <= s[0]
    ensures SortedFrom(Swapped(s, i, 0), i) && Below(Swapped(s, i, 0), i)
  {}

  lemma ExtractRoot(s: seq<int>, i: int)
    requires 0 < i < |s| && Heap(s, i + 1, 0) && SortedFrom(s, i + 1) && Below(s, i + 1)
    ensures var t := Swapped(s, i, 0); HeapExcept(t, i, 0, 0) && SortedFrom(t, i) && Below(t, i)
  {
    hide HeapExcept, SortedFrom, Below;
    ExtractKeepsHeap(s, i);
    forall a {:trigger s[a]} | 0 <= a <= i ensures s[a] <= s[0] { RootIsMaximum(s, i + 1, a); }
    ExtractSorts(s, i);
  }

  lemma {:induction false} SplitMultiset(s: seq<int>, t: seq<int>, n: int)
    requires 0 <= n <= |s| == |t| && multiset(t[..n]) == multiset(s[..n]) && t[n..] == s[n..]
    ensures multiset(t) == multiset(s)
  {
    assert s == s[..n] + s[n..] && t == t[..n] + t[n..];
  }

  lemma LeavesAreHeap(s: seq<int>)
    ensures Heap(s, |s|, |s| / 2) && SortedFrom(s, |s|) && Below(s, |s|)
  {}

  lemma OneMoreParent(s: seq<int>, n: int, i: int)
    requires 0 <= i && Heap(s, n, i + 1)
    ensures HeapExcept(s, n, i, i)
  {}

  lemma AllSorted(s: seq<int>)
    requires (s == [] || SortedFrom(s, 1)) && (s == [] || Below(s, 1))
    ensures SortedFrom(s, 0)
  {}

  method BuildHeap(arr: array<int>)
    modifies arr
    ensures Heap(arr[..], arr.Length, 0) && multiset(arr[..]) == multiset(old(arr[..]))
  {
    hide Heap, HeapExcept, SortedFrom, Below;
    var n := arr.Length;
    LeavesAreHeap(arr[..]);
    var i := n / 2 - 1;
    while i > -1
      invariant -1 <= i <= n / 2 - 1
      invariant Heap(arr[..], n, i + 1) && multiset(arr[..]) == multiset(old(arr[..]))
    {
      ghost var s := arr[..];
      OneMoreParent(s, n, i);
      Heapify(arr, n, i, i);
      SplitMultiset(s, arr[..], n);
      i := i - 1;
    }
  }

  method Sort(arr: array<int>)
    modifies arr
    ensures SortedFrom(arr[..], 0) && multiset(arr[..]) == multiset(old(arr[..]))
  {
    hide Heap, HeapExcept, SortedFrom, Below, Swapped;
    BuildHeap(arr);
    LeavesAreHeap(arr[..]);
    var i := arr.Length - 1;
    while i > 0
      invariant (arr.Length == 0 && i == -1) || 0 <= i <= arr.Length - 1
      invariant Heap(arr[..], i + 1, 0) && SortedFrom(arr[..], i + 1) && Below(arr[..], i + 1)
      invariant multiset(arr[..]) == multiset(old(arr[..]))
    {
      ghost var s := arr[..];
      ExtractRoot(s, i);
      SwapPermutes(s, i, 0);
      arr[i], arr[0] := arr[0], arr[i];
      ghost var t := arr[..];
      SwapIsSwapped(s, i, t);
      Heapify(arr, i, 0, 0);
      HeapifyKept(t, arr[..], i);
      i := i - 1;
    }
    AllSorted(arr[..]);
  }

  lemma SwapIsSwapped(s: seq<int>, i: int, t: seq<int>)
    requires 0 < i < |s| && t == s[i := s[0]][0 := s[i]]
    ensures t == Swapped(s, i, 0)
  {}

  lemma HeapifyKept(t: seq<int>, u: seq<int>, i: int)
    requires 0 < i < |t| == |u| && multiset(u[..i]) == multiset(t[..i]) && u[i..] == t[i..]
    requires SortedFrom(t, i) && Below(t, i)
    ensures SortedFrom(u, i) && Below(u, i) && multiset(u) == multiset(t)
  {
    SplitMultiset(t, u, i);
    BelowPermuted(t, u, i);
    assert forall b :: i <= b < |t| ==> u[b] == u[i..][b - i] == t[i..][b - i] == t[b];
  }
}
