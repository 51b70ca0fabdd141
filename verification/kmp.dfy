/** Knuth-Morris-Pratt search: the border table and the first occurrence. */
module Kmp {

  // ---------- Borders ----------

  /** The first b of the first k characters are also the last b of them, and b < k. */
  ghost predicate Border(p: string, k: int, b: int) {
    0 <= b < k <= |p| && p[..b] == p[k - b..k]
  }

  ghost predicate LongestBorder(p: string, k: int, b: int) {
    Border(p, k, b) && forall c :: Border(p, k, c) ==> c <= b
  }

  /** next[0] is -1 and next[k] is the longest proper border of the first k characters. */
  ghost predicate BorderTable(p: string, next: seq<int>, upto: int)
    requires 0 <= upto <= |next|
  {
    forall k {:trigger next[k]} :: 0 <= k < upto ==> if k == 0 then next[k] == -1 else LongestBorder(p, k, next[k])
  }

  lemma BorderExtends(p: string, k: int, b: int)
    requires Border(p, k, b) && k < |p| && p[k] == p[b]
    ensures Border(p, k + 1, b + 1)
  {
    assert p[..b + 1] == p[..b] + [p[b]];
    assert p[k - b..k + 1] == p[k - b..k] + [p[k]];
  }

  lemma BorderShrinks(p: string, k: int, b: int)
    requires 0 <= k < |p| && 0 <= b && Border(p, k + 1, b + 1)
    ensures Border(p, k, b) && p[k] == p[b]
  {
    var s := p[k - b..k + 1];
    assert p[..b + 1][b] == s[b];
    assert p[..b] == p[..b + 1][..b];
    assert p[k - b..k] == s[..b];
  }

  lemma BorderOfBorder(p: string, k: int, b: int, c: int)
    requires Border(p, k, b) && Border(p, k, c) && c < b
    ensures Border(p, b, c)
  {
    assert p[b - c..b] == p[..b][b - c..];
    assert p[k - c..k] == p[k - b..k][b - c..];
  }

  lemma BorderTransitive(p: string, k: int, b: int, c: int)
    requires Border(p, k, b) && Border(p, b, c)
    ensures Border(p, k, c)
  {
    assert p[b - c..b] == p[..b][b - c..];
    assert p[k - c..k] == p[k - b..k][b - c..];
  }

  lemma EmptyBorder(p: string, k: int)
    requires 1 <= k <= |p|
    ensures Border(p, k, 0)
  {}

  /** j is a border of the first i characters (or -1), and no longer border can be extended. */
  ghost predicate Candidate(p: string, i: int, j: int)
    requires 0 <= i < |p|
  {
    && -1 <= j < |p| && (j == -1 || Border(p, i, j))
    && forall b :: Border(p, i, b) && b > j ==> p[b] != p[i]
  }

  lemma CandidateMatches(p: string, i: int, j: int)
    requires 0 <= i < |p| - 1 && Candidate(p, i, j) && (j == -1 || p[i] == p[j])
    ensures LongestBorder(p, i + 1, j + 1) && Candidate(p, i + 1, j + 1)
  {
    if j == -1 { EmptyBorder(p, i + 1); } else { BorderExtends(p, i, j); }
    var k := i + 1;
    forall b | Border(p, k, b) ensures b <= j + 1 {
      if b > j + 1 { BorderShrinks(p, i, b - 1); }
    }
  }

  lemma CandidateFallsBack(p: string, i: int, j: int, next: seq<int>)
    requires 0 <= i < |p| && Candidate(p, i, j) && 0 <= j < i && p[i] != p[j]
    requires 0 <= i < |next| && BorderTable(p, next, i + 1)
    ensures Candidate(p, i, next[j]) && -1 <= next[j] < j
  {
    assert Border(p, i, j);
    if j > 0 { BorderTransitive(p, i, j, next[j]); }
    forall b | Border(p, i, b) && b > next[j] ensures p[b] != p[i] {
      if b < j { BorderOfBorder(p, i, j, b); }
    }
  }

  method GetNext(p: string, next: array<int>)
    requires 0 < |p| == next.Length
    modifies next
    ensures BorderTable(p, next[..], |p|)
  {
    var i, j := 0, -1;
    next[0] := -1;
    while i < |p| - 1
      invariant 0 <= i < |p| && -1 <= j && (j == -1 || j < i)
      invariant BorderTable(p, next[..], i + 1) && Candidate(p, i, j)
      decreases |p| - i, j + 1
    {
      if j == -1 || p[i] == p[j] {
        CandidateMatches(p, i, j);
        ghost var before := next[..];
        i := i + 1;
        j := j + 1;
        next[i] := j;
        assert next[..] == before[i := j];
      } else {
        CandidateFallsBack(p, i, j, next[..]);
        j := next[j];
      }
    }
  }

  // ---------- Searching ----------

  ghost predicate OccursAt(haystack: string, needle: string, q: int) {
    0 <= q && q + |needle| <= |haystack| && haystack[q..q + |needle|] == needle
  }

  ghost predicate FirstOccurrence(haystack: string, needle: string, r: int) {
    if r == -1 then forall q :: !OccursAt(haystack, needle, q)
    else OccursAt(haystack, needle, r) && forall q :: OccursAt(haystack, needle, q) ==> r <= q
  }

  /** The last j characters read match, and no occurrence starts before them. */
  ghost predicate Matching(haystack: string, needle: string, i: int, j: int) {
    && 0 <= i <= |haystack| && -1 <= j <= |needle| && j <= i
    && (j >= 0 ==> haystack[i - j..i] == needle[..j])
    && forall q :: OccursAt(haystack, needle, q) ==> q >= i - j
  }

  lemma MatchAdvances(haystack: string, needle: string, i: int, j: int)
    requires Matching(haystack, needle, i, j) && i < |haystack| && j < |needle|
    requires j == -1 || haystack[i] == needle[j]
    ensures Matching(haystack, needle, i + 1, j + 1)
  {
    if j >= 0 {
      assert haystack[i - j..i + 1] == haystack[i - j..i] + [haystack[i]];
      assert needle[..j + 1] == needle[..j] + [needle[j]];
    }
  }

  lemma MismatchShifts(haystack: string, needle: string, i: int, j: int, next: seq<int>)
    requires Matching(haystack, needle, i, j) && i < |haystack| && 0 <= j < |needle| == |next|
    requires haystack[i] != needle[j] && BorderTable(needle, next, |needle|)
    ensures -1 <= next[j] < j && Matching(haystack, needle, i, next[j])
  {
    var b := next[j];
    if j > 0 {
      assert haystack[i - b..i] == haystack[i - j..i][j - b..];
      assert needle[j - b..j] == needle[..j][j - b..];
    }
    forall q | OccursAt(haystack, needle, q) ensures q >= i - b {
      if q < i - b {
        var c := i - q;
        var w := haystack[q..q + |needle|];
        assert haystack[q + j] == needle[j];
        if c != j {
          assert needle[..c] == haystack[q..i] by { assert w[..c] == haystack[q..i]; }
          assert haystack[q..i] == haystack[i - j..i][j - c..];
          assert needle[j - c..j] == needle[..j][j - c..];
          assert Border(needle, j, c);
        }
      }
    }
  }

  method StrStr(haystack: string, needle: string) returns (r: int)
    ensures FirstOccurrence(haystack, needle, r)
  {
    if |needle| == 0 {
      return 0;
    }
    var i, j := 0, 0;
    var next := new int[|needle|];
    GetNext(needle, next);
    while i < |haystack| && j < |needle|
      invariant Matching(haystack, needle, i, j) && j < |needle|
      invariant BorderTable(needle, next[..], |needle|)
      decreases |haystack| - i, j + 1
    {
      if j == -1 || haystack[i] == needle[j] {
        MatchAdvances(haystack, needle, i, j);
        i := i + 1;
        j := j + 1;
      } else {
        MismatchShifts(haystack, needle, i, j, next[..]);
        j := next[j];
      }
      if j == |needle| {
        assert needle[..j] == needle;
        return i - j;
      }
    }
    r := -1;
  }
}
