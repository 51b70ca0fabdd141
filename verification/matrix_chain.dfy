/** Matrix-chain multiplication: optimal costs, the recorded splits, and what they print and multiply. */
module MatrixChain {
  // ---------- Full parenthesizations ----------

  datatype Tree = Leaf(index: int) | Node(left: Tree, right: Tree)

  /** t multiplies exactly the matrices i..j, in order. */
  ghost predicate Spans(t: Tree, i: int, j: int) {
    match t
    case Leaf(k) => i == j == k
    case Node(l, r) => Last(l) < j && i <= Last(l) && Spans(l, i, Last(l)) && Spans(r, Last(l) + 1, j)
  }

  ghost function Last(t: Tree): int {
    match t
    case Leaf(k) => k
    case Node(_, r) => Last(r)
  }

  ghost function Leaves(t: Tree): seq<int> {
    match t
    case Leaf(k) => [k]
    case Node(l, r) => Leaves(l) + Leaves(r)
  }

  lemma {:induction false} SpansLeaves(t: Tree, i: int, j: int)
    requires Spans(t, i, j)
    ensures i <= j && Last(t) == j && Leaves(t) == seq(j - i + 1, k => i + k)
  {
    match t
    case Leaf(_) =>
    case Node(l, r) =>
      SpansLeaves(l, i, Last(l));
      SpansLeaves(r, Last(l) + 1, j);
  }

  /** Scalar multiplications when matrix k has dimensions p[k-1] x p[k]. */
  ghost function Cost(p: seq<int>, t: Tree, i: int, j: int): int
    requires Spans(t, i, j) && 1 <= i <= j < |p|
  {
    match t
    case Leaf(_) => 0
    case Node(l, r) =>
      SpansLeaves(l, i, Last(l));
      Cost(p, l, i, Last(l)) + Cost(p, r, Last(l) + 1, j) + p[i-1] * p[Last(l)] * p[j]
  }

  // ---------- The recurrence ----------

  ghost function Best(p: seq<int>, i: int, j: int): int
    requires 1 <= i <= j < |p|
    decreases j - i, 0
  {
    if i == j then 0 else BestSplit(p, i, j, j - 1)
  }

  ghost function SplitCost(p: seq<int>, i: int, k: int, j: int): int
    requires 1 <= i <= k < j < |p|
    decreases j - i, 0, k
  {
    Best(p, i, k) + Best(p, k + 1, j) + p[i-1] * p[k] * p[j]
  }

  /** The cheapest of the splits i..k. */
  ghost function BestSplit(p: seq<int>, i: int, j: int, k: int): int
    requires 1 <= i <= k < j < |p|
    decreases j - i, 0, k + 1
  {
    if k == i then SplitCost(p, i, k, j) else Min(BestSplit(p, i, j, k - 1), SplitCost(p, i, k, j))
  }

  function Min(a: int, b: int): int { if b < a then b else a }

  lemma {:induction false} BestSplitIsLeast(p: seq<int>, i: int, j: int, k: int, q: int)
    requires 1 <= i <= q <= k < j < |p|
    ensures BestSplit(p, i, j, k) <= SplitCost(p, i, q, j)
  {
    if q < k { BestSplitIsLeast(p, i, j, k - 1, q); }
  }

  /** No parenthesization is cheaper than the recurrence. */
  lemma {:induction false} BestIsLowerBound(p: seq<int>, t: Tree, i: int, j: int)
    requires Spans(t, i, j) && 1 <= i <= j < |p|
    ensures Best(p, i, j) <= Cost(p, t, i, j)
    decreases t
  {
    match t
    case Leaf(_) =>
    case Node(l, r) =>
      var k := Last(l);
      BestIsLowerBound(p, l, i, k);
      BestIsLowerBound(p, r, k + 1, j);
      BestSplitIsLeast(p, i, j, j - 1, k);
  }

  // ---------- The split table ----------

  /** Every entry of the table inside i..j names a split that attains the optimum. */
  ghost predicate OptimalSplits(p: seq<int>, s: seq<seq<int>>, i: int, j: int) {
    && 1 <= i <= j < |p|
    && (forall a :: 0 <= a < |s| ==> |s[a]| == |s|) && j < |s|
    && forall a, b {:trigger s[a][b]} :: i <= a < b <= j ==>
        a <= s[a][b] < b && SplitCost(p, a, s[a][b], b) == Best(p, a, b)
  }

  /** The tree that the printer and the multiplier walk through. */
  function SplitTree(s: seq<seq<int>>, i: int, j: int): Tree
    requires ValidSplits(s, i, j)
    decreases j - i
  {
    if i == j then Leaf(i) else Node(SplitTree(s, i, s[i][j]), SplitTree(s, s[i][j] + 1, j))
  }

  ghost predicate ValidSplits(s: seq<seq<int>>, i: int, j: int) {
    && 1 <= i <= j < |s| && (forall a :: 0 <= a < |s| ==> |s[a]| == |s|)
    && forall a, b {:trigger s[a][b]} :: i <= a < b <= j ==> a <= s[a][b] < b
  }

  lemma {:induction false} SplitTreeSpans(s: seq<seq<int>>, i: int, j: int)
    requires ValidSplits(s, i, j)
    ensures Spans(SplitTree(s, i, j), i, j) && Last(SplitTree(s, i, j)) == j
    decreases j - i
  {
    if i < j {
      SplitTreeSpans(s, i, s[i][j]);
      SplitTreeSpans(s, s[i][j] + 1, j);
    }
  }

  /** The tree read from the table spans i..j and costs exactly the optimum. */
  lemma {:induction false} SplitTreeIsOptimal(p: seq<int>, s: seq<seq<int>>, i: int, j: int)
    requires OptimalSplits(p, s, i, j)
    ensures ValidSplits(s, i, j) && Spans(SplitTree(s, i, j), i, j)
    ensures Cost(p, SplitTree(s, i, j), i, j) == Best(p, i, j)
    decreases j - i
  {
    SplitTreeSpans(s, i, j);
    if i < j {
      var k := s[i][j];
      SplitTreeIsOptimal(p, s, i, k);
      SplitTreeIsOptimal(p, s, k + 1, j);
      SplitTreeSpans(s, i, k);
    }
  }

  /** e is the cost of t, and no full parenthesization of i..j is cheaper. */
  ghost predicate Minimum(p: seq<int>, e: Extended, t: Tree, i: int, j: int)
    requires 1 <= i <= j < |p|
  {
    && e.Finite? && Spans(t, i, j) && Cost(p, t, i, j) == e.value
    && forall u :: Spans(u, i, j) ==> e.value <= Cost(p, u, i, j)
  }

  /** The recurrence value is the minimum, and the tree of s attains it. */
  lemma TablesAreOptimal(p: seq<int>, m: seq<seq<Extended>>, s: seq<seq<int>>, i: int, j: int)
    requires OptimalSplits(p, s, i, j) && i < |m| && j < |m[i]| && m[i][j] == Finite(Best(p, i, j))
    ensures ValidSplits(s, i, j) && Minimum(p, m[i][j], SplitTree(s, i, j), i, j)
  {
    SplitTreeIsOptimal(p, s, i, j);
    forall t | Spans(t, i, j) ensures Best(p, i, j) <= Cost(p, t, i, j) { BestIsLowerBound(p, t, i, j); }
  }

  // ---------- Filling the tables bottom-up ----------

  datatype Extended = Infinite | Finite(value: int)

  predicate LessThan(q: int, e: Extended) { e.Infinite? || q < e.value }

  ghost predicate Square<T>(m: seq<seq<T>>, n: int) {
    |m| == n && forall a :: 0 <= a < n ==> |m[a]| == n
  }

  /** Chain a..b comes before chain i..i+l-1 in the order of filling. */
  ghost predicate Earlier(a: int, b: int, l: int, i: int) {
    b - a + 1 < l || (b - a + 1 == l && a < i)
  }

  /** Entry (a, b) holds the optimum and a split that attains it. */
  ghost predicate Entry(p: seq<int>, e: Extended, split: int, a: int, b: int)
    requires 1 <= a <= b < |p|
  {
    && e == Finite(Best(p, a, b))
    && (a < b ==> a <= split < b && SplitCost(p, a, split, b) == Best(p, a, b))
  }

  /** Chains shorter than `l`, and chains of length l that start before i, are done. */
  ghost predicate Done(p: seq<int>, n: int, m: seq<seq<Extended>>, s: seq<seq<int>>, l: int, i: int) {
    && 0 <= n <= |p| && Square(m, n) && Square(s, n)
    && forall a, b {:trigger m[a][b]} {:trigger s[a][b]} :: 1 <= a <= b < n && Earlier(a, b, l, i) ==>
         Entry(p, m[a][b], s[a][b], a, b)
  }

  /** Entry (i, j) holds the best of the splits i..k-1 tried so far. */
  ghost predicate Trying(p: seq<int>, e: Extended, split: int, i: int, j: int, k: int)
    requires 1 <= i <= k <= j < |p| && i < j
  {
    if k == i then e == Infinite
    else
      && e == Finite(BestSplit(p, i, j, k - 1))
      && i <= split < k && SplitCost(p, i, split, j) == BestSplit(p, i, j, k - 1)
  }

  lemma TryStep(p: seq<int>, e: Extended, split: int, i: int, j: int, k: int, q: int)
    requires 1 <= i <= k < j < |p| && Trying(p, e, split, i, j, k) && q == SplitCost(p, i, k, j)
    ensures if LessThan(q, e) then Trying(p, Finite(q), k, i, j, k + 1) else Trying(p, e, split, i, j, k + 1)
  {}

  method Calculate(p: seq<int>, n: int) returns (m: seq<seq<Extended>>, s: seq<seq<int>>)
    requires 0 <= n <= |p|
    ensures Square(m, n) && Square(s, n)
    ensures forall i, j :: 1 <= i <= j < n ==> m[i][j] == Finite(Best(p, i, j)) && OptimalSplits(p, s, i, j)
    ensures forall i, j :: 1 <= i <= j < n ==>
              ValidSplits(s, i, j) && Minimum(p, m[i][j], SplitTree(s, i, j), i, j)
  {
    hide BestSplit, ValidSplits, Minimum, SplitTree;
    m := seq(n, _ => seq(n, _ => Finite(0)));
    s := seq(n, _ => seq(n, _ => 0));
    var l := 2;
    while l < n
      invariant 2 <= l && Done(p, n, m, s, l, 0)
    {
      var i := 1;
      while i < n - l + 1
        invariant 1 <= i && Done(p, n, m, s, l, i)
      {
        var j := i + l - 1;
        m := m[i := m[i][j := Infinite]];
        var k := i;
        while k < j
          invariant i <= k <= j && Done(p, n, m, s, l, i)
          invariant Trying(p, m[i][j], s[i][j], i, j, k)
        {
          var q := m[i][k].value + m[k+1][j].value + p[i-1] * p[k] * p[j];
          TryStep(p, m[i][j], s[i][j], i, j, k, q);
          if LessThan(q, m[i][j]) {
            m := m[i := m[i][j := Finite(q)]];
            s := s[i := s[i][j := k]];
          }
          k := k + 1;
        }
        i := i + 1;
      }
      l := l + 1;
    }
    forall i, j | 1 <= i <= j < n ensures OptimalSplits(p, s, i, j) && m[i][j] == Finite(Best(p, i, j)) {
    }
    forall i, j | 1 <= i <= j < n ensures ValidSplits(s, i, j) && Minimum(p, m[i][j], SplitTree(s, i, j), i, j) {
      TablesAreOptimal(p, m, s, i, j);
    }
  }

  // ---------- The variant with a finite sentinel ----------

  const MAXINT := 1_000_000_007

  ghost predicate NonNegative(p: seq<int>) {
    forall k :: 0 <= k < |p| ==> 0 <= p[k]
  }

  lemma {:induction false} BestNonNegative(p: seq<int>, i: int, j: int)
    requires NonNegative(p) && 1 <= i <= j < |p|
    ensures 0 <= Best(p, i, j)
    decreases j - i, 0
  {
    if i < j { SplitNonNegative(p, i, j, j - 1); }
  }

  lemma {:induction false} SplitNonNegative(p: seq<int>, i: int, j: int, k: int)
    requires NonNegative(p) && 1 <= i <= k < j < |p|
    ensures 0 <= BestSplit(p, i, j, k)
    decreases j - i, 0, k + 1
  {
    BestNonNegative(p, i, k);
    BestNonNegative(p, k + 1, j);
    if k > i { SplitNonNegative(p, i, j, k - 1); }
  }

  /** Capping the parts does not change the capped whole. */
  lemma CappedSplit(p: seq<int>, i: int, k: int, j: int)
    requires NonNegative(p) && 1 <= i <= k < j < |p|
    ensures var q := Min(MAXINT, Best(p, i, k)) + Min(MAXINT, Best(p, k + 1, j)) + p[i-1] * p[k] * p[j];
      Min(MAXINT, q) == Min(MAXINT, SplitCost(p, i, k, j)) && (q < MAXINT ==> q == SplitCost(p, i, k, j))
  {
    BestNonNegative(p, i, k);
    BestNonNegative(p, k + 1, j);
  }

  /** A split is recorded exactly when the optimum stays below the sentinel. */
  ghost predicate CappedEntry(p: seq<int>, cost: int, split: int, i: int, j: int)
    requires 1 <= i <= j < |p|
  {
    && cost == Min(MAXINT, Best(p, i, j))
    && (i < j && Best(p, i, j) < MAXINT ==> i <= split < j && SplitCost(p, i, split, j) == Best(p, i, j))
    && (i < j && Best(p, i, j) >= MAXINT ==> split == 0)
  }

  ghost predicate CappedDone(p: seq<int>, n: int, m: seq<seq<int>>, s: seq<seq<int>>, l: int, i: int) {
    && 0 <= n <= |p| && Square(m, n) && Square(s, n)
    && forall a, b {:trigger m[a][b]} {:trigger s[a][b]} :: 1 <= a <= b < n && Earlier(a, b, l, i) ==>
         CappedEntry(p, m[a][b], s[a][b], a, b)
  }

  ghost predicate Untouched(s: seq<seq<int>>, n: int, l: int, i: int) {
    && Square(s, n)
    && forall a, b {:trigger s[a][b]} :: 1 <= a < b < n && !Earlier(a, b, l, i) ==> s[a][b] == 0
  }

  ghost predicate CappedTrying(p: seq<int>, cost: int, split: int, i: int, j: int, k: int)
    requires 1 <= i <= k <= j < |p| && i < j
  {
    if k == i then cost == MAXINT && split == 0
    else
      && cost == Min(MAXINT, BestSplit(p, i, j, k - 1))
      && if cost < MAXINT then i <= split < k && SplitCost(p, i, split, j) == cost else split == 0
  }

  lemma CappedTryStep(p: seq<int>, cost: int, split: int, i: int, j: int, k: int, q: int)
    requires NonNegative(p) && 1 <= i <= k < j < |p| && CappedTrying(p, cost, split, i, j, k)
    requires q == Min(MAXINT, Best(p, i, k)) + Min(MAXINT, Best(p, k + 1, j)) + p[i-1] * p[k] * p[j]
    ensures if q < cost then CappedTrying(p, q, k, i, j, k + 1) else CappedTrying(p, cost, split, i, j, k + 1)
  {
    CappedSplit(p, i, k, j);
  }

  lemma NothingTried(p: seq<int>, i: int, j: int)
    requires 1 <= i < j < |p|
    ensures CappedTrying(p, MAXINT, 0, i, j, i)
  {}

  lemma CappedEntryDone(p: seq<int>, cost: int, split: int, i: int, j: int)
    requires 1 <= i < j < |p| && CappedTrying(p, cost, split, i, j, j)
    ensures CappedEntry(p, cost, split, i, j)
  {
    assert Best(p, i, j) == BestSplit(p, i, j, j - 1);
  }

  method MatrixChainOrder(p: seq<int>, n: int) returns (m: seq<seq<int>>, s: seq<seq<int>>)
    requires 0 <= n <= |p| && NonNegative(p)
    ensures Square(m, n) && Square(s, n)
    ensures forall i, j :: 1 <= i <= j < n ==> CappedEntry(p, m[i][j], s[i][j], i, j)
  {
    hide BestSplit, SplitCost, NonNegative, CappedTrying;
    m := seq(n, _ => seq(n, _ => 0));
    s := seq(n, _ => seq(n, _ => 0));
    var d := 1;
    while d < n
      invariant 1 <= d && Square(m, n) && forall a, b :: 0 <= a < n && 0 <= b < n ==> m[a][b] == 0
    {
      m := m[d := m[d][d := 0]];
      d := d + 1;
    }
    var l := 2;
    while l < n
      invariant 2 <= l && CappedDone(p, n, m, s, l, 0) && Untouched(s, n, l, 0)
    {
      var i := 1;
      while i < n - l + 1
        invariant 1 <= i && CappedDone(p, n, m, s, l, i) && Untouched(s, n, l, i)
      {
        var j := i + l - 1;
        m := m[i := m[i][j := MAXINT]];
        NothingTried(p, i, j);
        var k := i;
        while k < j
          invariant i <= k <= j && CappedDone(p, n, m, s, l, i) && Untouched(s, n, l, i + 1)
          invariant CappedTrying(p, m[i][j], s[i][j], i, j, k)
        {
          var q := m[i][k] + m[k+1][j] + p[i-1] * p[k] * p[j];
          assert CappedEntry(p, m[i][k], s[i][k], i, k) && CappedEntry(p, m[k+1][j], s[k+1][j], k + 1, j);
          CappedTryStep(p, m[i][j], s[i][j], i, j, k, q);
          if q < m[i][j] {
            m := m[i := m[i][j := q]];
            s := s[i := s[i][j := k]];
          }
          k := k + 1;
        }
        CappedEntryDone(p, m[i][j], s[i][j], i, j);
        i := i + 1;
      }
      l := l + 1;
    }
  }

  /** The two programs fill the same costs exactly where the optimum does not pass the sentinel,
      and below the sentinel the recorded splits of both are optimal. */
  lemma VariantsAgree(p: seq<int>, s: seq<seq<int>>, capped: int, split: int, i: int, j: int)
    requires NonNegative(p) && OptimalSplits(p, s, i, j) && CappedEntry(p, capped, split, i, j)
    ensures capped == Best(p, i, j) <==> Best(p, i, j) <= MAXINT
    ensures i < j && Best(p, i, j) < MAXINT ==> SplitCost(p, i, split, j) == SplitCost(p, i, s[i][j], j)
    ensures i < j && Best(p, i, j) >= MAXINT ==> split != s[i][j]
  {
    if i < j { assert i <= s[i][j] < j; }
  }

  // ---------- Printing and reading back ----------

  datatype Token = Open | Close | Matrix(index: int)

  /** The printer follows the table; a matrix name is the token of its index. */
  function PrintOptimalParens(s: seq<seq<int>>, i: int, j: int): seq<Token>
    requires ValidSplits(s, i, j)
    decreases j - i
  {
    if i == j then [Matrix(i)]
    else [Open] + PrintOptimalParens(s, i, s[i][j]) + PrintOptimalParens(s, s[i][j] + 1, j) + [Close]
  }

  datatype Parsed = Failed | Parsed(tree: Tree, rest: seq<Token>)

  /** A reader of fully parenthesized products. */
  function Parse(tokens: seq<Token>): (r: Parsed)
    ensures r.Parsed? ==> |r.rest| < |tokens|
    decreases |tokens|
  {
    if tokens == [] then Failed
    else match tokens[0]
      case Matrix(k) => Parsed(Leaf(k), tokens[1..])
      case Close => Failed
      case Open =>
        var l := Parse(tokens[1..]);
        if l.Failed? then Failed
        else
          var r := Parse(l.rest);
          if r.Failed? || r.rest == [] || r.rest[0] != Close then Failed
          else Parsed(Node(l.tree, r.tree), r.rest[1..])
  }

  lemma ParseOpen(tokens: seq<Token>, afterLeft: seq<Token>, afterRight: seq<Token>, left: Tree, right: Tree)
    requires tokens != [] && tokens[0] == Open && Parse(tokens[1..]) == Parsed(left, afterLeft)
    requires Parse(afterLeft) == Parsed(right, afterRight) && afterRight != [] && afterRight[0] == Close
    ensures Parse(tokens) == Parsed(Node(left, right), afterRight[1..])
  {}

  lemma ParsePair(l: seq<Token>, r: seq<Token>, rest: seq<Token>, left: Tree, right: Tree)
    requires Parse(l + (r + ([Close] + rest))) == Parsed(left, r + ([Close] + rest))
    requires Parse(r + ([Close] + rest)) == Parsed(right, [Close] + rest)
    ensures Parse([Open] + l + r + [Close] + rest) == Parsed(Node(left, right), rest)
  {
    hide Parse;
    var all, tail := [Open] + l + r + [Close] + rest, [Close] + rest;
    assert all[1..] == l + (r + tail);
    assert tail[1..] == rest;
    ParseOpen(all, r + tail, tail, left, right);
  }

  /** Reading the printed form gives back exactly the tree of the table. */
  lemma {:induction false} PrintedFormParsesBack(s: seq<seq<int>>, i: int, j: int, rest: seq<Token>)
    requires ValidSplits(s, i, j)
    ensures Parse(PrintOptimalParens(s, i, j) + rest) == Parsed(SplitTree(s, i, j), rest)
    decreases j - i
  {
    hide Parse;
    if i < j {
      var k := s[i][j];
      hide PrintOptimalParens, SplitTree;
      var l, r := PrintOptimalParens(s, i, k), PrintOptimalParens(s, k + 1, j);
      PrintedFormParsesBack(s, i, k, r + ([Close] + rest));
      PrintedFormParsesBack(s, k + 1, j, [Close] + rest);
      ParsePair(l, r, rest, SplitTree(s, i, k), SplitTree(s, k + 1, j));
    } else {
      ParseMatrix(i, rest);
    }
  }

  lemma ParseMatrix(i: int, rest: seq<Token>)
    ensures Parse([Matrix(i)] + rest) == Parsed(Leaf(i), rest)
  {
    assert ([Matrix(i)] + rest)[1..] == rest;
  }

  /** Open parentheses minus closed ones. */
  ghost function Depth(tokens: seq<Token>): int {
    if tokens == [] then 0
    else Depth(tokens[..|tokens| - 1]) + match tokens[|tokens| - 1]
      case Open => 1
      case Close => -1
      case Matrix(_) => 0
  }

  /** The matrices in the order in which they are printed. */
  ghost function Names(tokens: seq<Token>): seq<int> {
    if tokens == [] then []
    else Names(tokens[..|tokens| - 1]) + match tokens[|tokens| - 1]
      case Open => []
      case Close => []
      case Matrix(k) => [k]
  }

  lemma {:induction false} ConcatPrints(a: seq<Token>, b: seq<Token>)
    ensures Depth(a + b) == Depth(a) + Depth(b) && Names(a + b) == Names(a) + Names(b)
  {
    if b == [] {
      assert a + b == a;
    } else {
      var init := b[..|b| - 1];
      ConcatPrints(a, init);
      assert (a + b)[..|a + b| - 1] == a + init;
    }
  }

  /** One pair of parentheses encloses all of the tokens. */
  ghost predicate Enclosed(tokens: seq<Token>) {
    Depth(tokens) == 0 && forall k :: 0 < k < |tokens| ==> Depth(tokens[..k]) > 0
  }

  lemma OneToken(t: Token)
    ensures Depth([t]) == (match t case Open => 1 case Close => -1 case Matrix(_) => 0)
    ensures Names([t]) == (match t case Open => [] case Close => [] case Matrix(k) => [k])
  {
    assert [t][..0] == [];
  }

  lemma EnclosedPair(l: seq<Token>, r: seq<Token>)
    requires Enclosed(l) && Enclosed(r)
    ensures var all := [Open] + l + r + [Close]; Enclosed(all) && Names(all) == Names(l) + Names(r)
  {
    hide Depth, Names;
    var all := [Open] + l + r + [Close];
    OneToken(Open);
    OneToken(Close);
    ConcatPrints([Open], l);
    ConcatPrints([Open] + l, r);
    ConcatPrints([Open] + l + r, [Close]);
    forall k | 0 < k < |all| ensures Depth(all[..k]) > 0 {
      if k <= 1 + |l| {
        assert all[..k] == [Open] + l[..k - 1];
        ConcatPrints([Open], l[..k - 1]);
        EnclosedPrefix(l, k - 1);
      } else {
        assert all[..k] == [Open] + l + r[..k - 1 - |l|];
        ConcatPrints([Open] + l, r[..k - 1 - |l|]);
        EnclosedPrefix(r, k - 1 - |l|);
      }
    }
  }

  lemma EnclosedPrefix(tokens: seq<Token>, k: int)
    requires Enclosed(tokens) && 0 <= k <= |tokens|
    ensures Depth(tokens[..k]) >= 0
  {
    assert tokens[..|tokens|] == tokens;
  }

  /** The printed form names the matrices i..j in order, and every chain of two or more is
      enclosed in one pair of parentheses. */
  lemma {:induction false} PrintedFormIsEnclosed(s: seq<seq<int>>, i: int, j: int)
    requires ValidSplits(s, i, j)
    ensures Enclosed(PrintOptimalParens(s, i, j))
    ensures Names(PrintOptimalParens(s, i, j)) == seq(j - i + 1, k => i + k)
    decreases j - i
  {
    hide Enclosed, Depth, Names;
    if i < j {
      var k := s[i][j];
      PrintedFormIsEnclosed(s, i, k);
      PrintedFormIsEnclosed(s, k + 1, j);
      EnclosedPair(PrintOptimalParens(s, i, k), PrintOptimalParens(s, k + 1, j));
    } else {
      OneMatrix(i);
    }
  }

  lemma OneMatrix(i: int)
    ensures Enclosed([Matrix(i)]) && Names([Matrix(i)]) == [i]
  {
    OneToken(Matrix(i));
  }

  // ---------- Multiplying along the table ----------

  /** A[k-1] is matrix k. */
  function ChainMultiply<T>(A: seq<T>, s: seq<seq<int>>, mul: (T, T) -> T, i: int, j: int): T
    requires ValidSplits(s, i, j) && j <= |A|
    decreases j - i
  {
    if i == j then A[i-1]
    else mul(ChainMultiply(A, s, mul, i, s[i][j]), ChainMultiply(A, s, mul, s[i][j] + 1, j))
  }

  /** The value of a full parenthesization of i..j. */
  ghost function Evaluate<T>(t: Tree, A: seq<T>, mul: (T, T) -> T, i: int, j: int): T
    requires Spans(t, i, j) && 1 <= i <= j <= |A|
  {
    match t
    case Leaf(k) => A[k-1]
    case Node(l, r) => mul(Evaluate(l, A, mul, i, Last(l)), Evaluate(r, A, mul, Last(l) + 1, j))
  }

  /** For any operation the product is the value of the tree of the table. */
  lemma {:induction false} MultipliesAlongTree<T>(A: seq<T>, s: seq<seq<int>>, mul: (T, T) -> T, i: int, j: int)
    requires ValidSplits(s, i, j) && j <= |A|
    ensures Spans(SplitTree(s, i, j), i, j)
    ensures ChainMultiply(A, s, mul, i, j) == Evaluate(SplitTree(s, i, j), A, mul, i, j)
    decreases j - i
  {
    SplitTreeSpans(s, i, j);
    if i < j {
      SplitTreeSpans(s, i, s[i][j]);
      MultipliesAlongTree(A, s, mul, i, s[i][j]);
      MultipliesAlongTree(A, s, mul, s[i][j] + 1, j);
    }
  }

  /** Multiplying symbols builds exactly the tree of the table. */
  lemma {:induction false} MultiplyingBuildsTree(s: seq<seq<int>>, names: seq<Tree>, i: int, j: int)
    requires ValidSplits(s, i, j) && j <= |names| && forall k :: 0 <= k < |names| ==> names[k] == Leaf(k + 1)
    ensures ChainMultiply(names, s, (l, r) => Node(l, r), i, j) == SplitTree(s, i, j)
    decreases j - i
  {
    if i < j {
      MultiplyingBuildsTree(s, names, i, s[i][j]);
      MultiplyingBuildsTree(s, names, s[i][j] + 1, j);
    }
  }

  /** A matrix by its size, with the scalar multiplications it took to compute it. */
  datatype Sized = Sized(rows: int, cols: int, work: int)

  function Times(a: Sized, b: Sized): Sized {
    Sized(a.rows, b.cols, a.work + b.work + a.rows * a.cols * b.cols)
  }

  /** Multiplying along an optimal table takes the minimum number of scalar multiplications. */
  lemma {:induction false} MultiplyingTakesMinimum(p: seq<int>, s: seq<seq<int>>, A: seq<Sized>, i: int, j: int)
    requires OptimalSplits(p, s, i, j) && |A| == |p| - 1
    requires forall k :: 0 <= k < |A| ==> A[k] == Sized(p[k], p[k+1], 0)
    ensures ValidSplits(s, i, j) && ChainMultiply(A, s, Times, i, j) == Sized(p[i-1], p[j], Best(p, i, j))
    decreases j - i
  {
    if i < j {
      var k := s[i][j];
      MultiplyingTakesMinimum(p, s, A, i, k);
      MultiplyingTakesMinimum(p, s, A, k + 1, j);
      assert SplitCost(p, i, k, j) == Best(p, i, j);
    }
  }

  ghost predicate Associative<T(!new)>(mul: (T, T) -> T) {
    forall a, b, c :: mul(mul(a, b), c) == mul(a, mul(b, c))
  }

  /** A[i-1] * ... * A[j-1], multiplied from the left. */
  ghost function LeftProduct<T>(A: seq<T>, mul: (T, T) -> T, i: int, j: int): T
    requires 1 <= i <= j <= |A|
    decreases j
  {
    if i == j then A[i-1] else mul(LeftProduct(A, mul, i, j - 1), A[j-1])
  }

  lemma {:induction false} LeftProductSplits<T(!new)>(A: seq<T>, mul: (T, T) -> T, i: int, k: int, j: int)
    requires Associative(mul) && 1 <= i <= k < j <= |A|
    ensures LeftProduct(A, mul, i, j) == mul(LeftProduct(A, mul, i, k), LeftProduct(A, mul, k + 1, j))
    decreases j
  {
    if k + 1 < j {
      LeftProductSplits(A, mul, i, k, j - 1);
      var a, b, c := LeftProduct(A, mul, i, k), LeftProduct(A, mul, k + 1, j - 1), A[j-1];
      assert mul(mul(a, b), c) == mul(a, mul(b, c));
    }
  }

  /** Whatever splits the table holds, an associative product comes out the same. */
  lemma {:induction false} SplitsDoNotChangeProduct<T(!new)>(A: seq<T>, s: seq<seq<int>>, mul: (T, T) -> T, i: int,
      j: int)
    requires ValidSplits(s, i, j) && j <= |A| && Associative(mul)
    ensures ChainMultiply(A, s, mul, i, j) == LeftProduct(A, mul, i, j)
    decreases j - i
  {
    if i < j {
      var k := s[i][j];
      SplitsDoNotChangeProduct(A, s, mul, i, k);
      SplitsDoNotChangeProduct(A, s, mul, k + 1, j);
      LeftProductSplits(A, mul, i, k, j);
    }
  }
}
