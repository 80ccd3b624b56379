/** Substring containment (Python's `p in t` on strings) and the longest
    common substring that difflib's `find_longest_match` reports, both over
    the normalised paragraph and the normalised PDF text. */
module Matching {

  /** `p in t`: `p` occurs contiguously in `t` (the empty string occurs everywhere). */
  predicate IsSubstring(p: string, t: string) {
    exists i | 0 <= i <= |t| - |p| :: OccursAt(p, t, i)
  }

  /** `p` occurs in `t` starting at position `i`. */
  predicate OccursAt(p: string, t: string, i: int) {
    0 <= i && i + |p| <= |t| && t[i..i + |p|] == p
  }

  /** Occurrence is transitive: whatever occurs in `t` occurs in every text `t` occurs in. */
  lemma SubstringTransitive(p: string, t: string, u: string)
    requires IsSubstring(p, t) && IsSubstring(t, u)
    ensures IsSubstring(p, u)
  {
    var i :| 0 <= i <= |t| - |p| && OccursAt(p, t, i);
    var o :| 0 <= o <= |u| - |t| && OccursAt(t, u, o);
    SliceOfSlice(u, o, |t|, i, |p|);
    assert OccursAt(p, u, o + i);
  }

  /** A slice of a slice is a slice of the whole. */
  lemma SliceOfSlice(u: string, o: nat, n: nat, i: nat, m: nat)
    requires o + n <= |u| && i + m <= n
    ensures u[o..o + n][i..i + m] == u[o + i..o + i + m]
  {
    var v := u[o..o + n];
    forall k | i <= k < i + m ensures v[k] == u[o + k] {
    }
  }

  /** A block shared by both texts: `a[a'..a'+size] == b[b'..b'+size]`
      (difflib's `Match(a, b, size)`). */
  datatype Match = Match(a: nat, b: nat, size: nat)

  /** The length of the common block that starts at `a[i]` and `b[j]` and
      runs as long as the two texts agree. */
  function RunAt(a: string, b: string, i: nat, j: nat): (n: nat)
    requires i <= |a| && j <= |b|
    ensures i + n <= |a| && j + n <= |b|
    decreases |a| - i
  {
    if i == |a| || j == |b| || a[i] != b[j] then 0
    else 1 + RunAt(a, b, i + 1, j + 1)
  }

  /** The run is a common block. */
  lemma {:induction false} RunAtIsCommon(a: string, b: string, i: nat, j: nat)
    requires i <= |a| && j <= |b|
    ensures IsCommonBlock(a, b, i, j, RunAt(a, b, i, j))
    decreases |a| - i
  {
    var n := RunAt(a, b, i, j);
    if n > 0 {
      RunAtIsCommon(a, b, i + 1, j + 1);
      assert a[i..i + n] == [a[i]] + a[i + 1..i + n];
      assert b[j..j + n] == [b[j]] + b[j + 1..j + n];
    }
  }

  /** No common block starting at `a[i]` and `b[j]` is longer than the run. */
  lemma {:induction false} RunAtIsLongest(a: string, b: string, i: nat, j: nat, n: nat)
    requires IsCommonBlock(a, b, i, j, n)
    ensures n <= RunAt(a, b, i, j)
    decreases n
  {
    if n > 0 {
      assert a[i] == a[i..i + n][0] == b[j..j + n][0] == b[j];
      assert a[i + 1..i + n] == a[i..i + n][1..];
      assert b[j + 1..j + n] == b[j..j + n][1..];
      RunAtIsLongest(a, b, i + 1, j + 1, n - 1);
    }
  }

  /** The longest block starting at `a[i]` and at `b[j']` for some `j' >= j`;
      on a tie the earliest `j'` wins. */
  function BestInRow(a: string, b: string, i: nat, j: nat): (m: Match)
    requires i <= |a| && j <= |b|
    ensures m.a == i && j <= m.b <= |b| && m.size == RunAt(a, b, i, m.b)
    ensures forall j' :: j <= j' <= |b| ==> RunAt(a, b, i, j') <= m.size
    decreases |b| - j
  {
    var here := Match(i, j, RunAt(a, b, i, j));
    if j == |b| then here
    else
      var rest := BestInRow(a, b, i, j + 1);
      if rest.size > here.size then rest else here
  }

  /** The longest block starting at `a[i']` for some `i' >= i`; on a tie the
      earliest `i'` wins, then the earliest position in `b`. */
  function BestFrom(a: string, b: string, i: nat): (m: Match)
    requires i <= |a|
    ensures i <= m.a <= |a| && m.b <= |b| && m.size == RunAt(a, b, m.a, m.b)
    ensures forall i', j' :: i <= i' <= |a| && 0 <= j' <= |b| ==> RunAt(a, b, i', j') <= m.size
    decreases |a| - i
  {
    var row := BestInRow(a, b, i, 0);
    if i == |a| then row
    else
      var rest := BestFrom(a, b, i + 1);
      if rest.size > row.size then rest else row
  }

  /** `a[i..i+n]` and `b[j..j+n]` are the same block of characters. */
  predicate IsCommonBlock(a: string, b: string, i: nat, j: nat, n: nat) {
    i + n <= |a| && j + n <= |b| && a[i..i + n] == b[j..j + n]
  }

  /** `find_longest_match(0, len(a), 0, len(b))`: a block common to `a` and
      `b` that no other common block is longer than. */
  function LongestMatch(a: string, b: string): (m: Match)
    ensures IsCommonBlock(a, b, m.a, m.b, m.size)
    ensures forall i: nat, j: nat, n: nat :: IsCommonBlock(a, b, i, j, n) ==> n <= m.size
  {
    var m := BestFrom(a, b, 0);
    BestFromIsLongest(a, b, m);
    m
  }

  lemma BestFromIsLongest(a: string, b: string, m: Match)
    requires m == BestFrom(a, b, 0)
    ensures IsCommonBlock(a, b, m.a, m.b, m.size)
    ensures forall i: nat, j: nat, n: nat :: IsCommonBlock(a, b, i, j, n) ==> n <= m.size
  {
    RunAtIsCommon(a, b, m.a, m.b);
    forall i: nat, j: nat, n: nat | IsCommonBlock(a, b, i, j, n) ensures n <= m.size {
      RunAtIsLongest(a, b, i, j, n);
    }
  }

  /** The reported block covers all of `p` exactly when `p` occurs in `t`. */
  lemma FullMatchIffContained(p: string, t: string)
    ensures LongestMatch(p, t).size == |p| <==> IsSubstring(p, t)
  {
    var m := LongestMatch(p, t);
    if m.size == |p| {
      assert p[m.a..m.a + m.size] == p;
      assert OccursAt(p, t, m.b);
    }
    if IsSubstring(p, t) {
      var i :| 0 <= i <= |t| - |p| && OccursAt(p, t, i);
      assert p[0..|p|] == p;
      assert IsCommonBlock(p, t, 0, i, |p|);
    }
  }

  /** A longer text can only lengthen the longest common block. */
  lemma LongestMatchGrowsWithText(p: string, t: string, u: string)
    requires IsSubstring(t, u)
    ensures LongestMatch(p, t).size <= LongestMatch(p, u).size
  {
    var o :| 0 <= o <= |u| - |t| && OccursAt(t, u, o);
    var m := LongestMatch(p, t);
    SliceOfSlice(u, o, |t|, m.b, m.size);
    assert IsCommonBlock(p, u, m.a, o + m.b, m.size);
  }
}
