/**
  The longest-common-subsequence length table (`_compute_longest_common_subsequence` in the
  Python port, `Lcs.computeLcsTable` in the Java port), over any two sequences whose elements
  can be compared for equality: lines, or parsed rows.
 */
module Lcs {

  function Max(x: int, y: int): int { if x >= y then x else y }

  function Min(x: int, y: int): int { if x <= y then x else y }

  /**
    Cell (i, j) of the table: the recurrence both ports fill the table with. Row 0 and
    column 0 are zero; a matching pair extends the diagonal; otherwise the larger neighbour.
   */
  function LcsLength<T(==)>(a: seq<T>, b: seq<T>, i: nat, j: nat): nat
    requires i <= |a| && j <= |b|
    decreases i + j
  {
    if i == 0 || j == 0 then 0
    else if a[i - 1] == b[j - 1] then 1 + LcsLength(a, b, i - 1, j - 1)
    else Max(LcsLength(a, b, i - 1, j), LcsLength(a, b, i, j - 1))
  }

  /** `row` is row `i` of the table of (a, b). */
  predicate IsLcsRow<T(==)>(a: seq<T>, b: seq<T>, i: nat, row: seq<nat>)
    requires i <= |a|
  {
    |row| == |b| + 1 && forall c :: 0 <= c <= |b| ==> row[c] == LcsLength(a, b, i, c)
  }

  /** The nested loop that fills the (n+1) x (m+1) table row by row. */
  method ComputeLcsTable<T(==)>(a: seq<T>, b: seq<T>) returns (table: seq<seq<nat>>)
    ensures |table| == |a| + 1
    ensures forall i :: 0 <= i < |table| ==> |table[i]| == |b| + 1
    ensures forall j :: 0 <= j <= |b| ==> table[0][j] == 0
    ensures forall i :: 0 <= i <= |a| ==> table[i][0] == 0
    ensures forall i, j :: 0 <= i <= |a| && 0 <= j <= |b| ==> table[i][j] == LcsLength(a, b, i, j)
  {
    table := [];
    var i := 0;
    while i <= |a|
      invariant 0 <= i <= |a| + 1
      invariant |table| == i
      invariant forall r :: 0 <= r < i ==> IsLcsRow(a, b, r, table[r])
    {
      var row := ComputeLcsRow(a, b, i, if i == 0 then [] else table[i - 1]);
      table := table + [row];
      i := i + 1;
    }
    forall r, c | 0 <= r <= |a| && 0 <= c <= |b|
      ensures table[r][c] == LcsLength(a, b, r, c)
    {
      assert IsLcsRow(a, b, r, table[r]);
    }
  }

  /** The inner loop: row `i` of the table, computed from row `i - 1`. */
  method ComputeLcsRow<T(==)>(a: seq<T>, b: seq<T>, i: nat, previous: seq<nat>) returns (row: seq<nat>)
    requires i <= |a|
    requires i > 0 ==> IsLcsRow(a, b, i - 1, previous)
    ensures IsLcsRow(a, b, i, row)
  {
    row := [];
    var j := 0;
    while j <= |b|
      invariant 0 <= j <= |b| + 1
      invariant |row| == j
      invariant forall c :: 0 <= c < j ==> row[c] == LcsLength(a, b, i, c)
    {
      var v: nat;
      if i == 0 || j == 0 {
        v := 0;
      } else if a[i - 1] == b[j - 1] {
        v := 1 + previous[j - 1];
      } else {
        v := Max(previous[j], row[j - 1]);
      }
      row := row + [v];
      j := j + 1;
    }
  }

  /**
    The shape of the table: every cell is at most min(i, j), and moving one step up or one
    step left lowers the value by 0 or 1.
   */
  lemma {:induction false} LcsSteps<T>(a: seq<T>, b: seq<T>, i: nat, j: nat)
    requires i <= |a| && j <= |b|
    ensures LcsLength(a, b, i, j) <= i && LcsLength(a, b, i, j) <= j
    ensures i > 0 ==> LcsLength(a, b, i - 1, j) <= LcsLength(a, b, i, j) <= LcsLength(a, b, i - 1, j) + 1
    ensures j > 0 ==> LcsLength(a, b, i, j - 1) <= LcsLength(a, b, i, j) <= LcsLength(a, b, i, j - 1) + 1
    decreases i + j
  {
    if i > 0 && j > 0 {
      LcsSteps(a, b, i - 1, j);
      LcsSteps(a, b, i, j - 1);
      LcsSteps(a, b, i - 1, j - 1);
    }
  }

  /** The table grows along both axes. */
  lemma {:induction false} LcsMonotone<T>(a: seq<T>, b: seq<T>, i1: nat, j1: nat, i2: nat, j2: nat)
    requires i1 <= i2 <= |a| && j1 <= j2 <= |b|
    ensures LcsLength(a, b, i1, j1) <= LcsLength(a, b, i2, j2)
    decreases i2 - i1 + j2 - j1
  {
    if i1 < i2 {
      LcsMonotone(a, b, i1, j1, i2 - 1, j2);
      LcsSteps(a, b, i2, j2);
    } else if j1 < j2 {
      LcsMonotone(a, b, i1, j1, i2, j2 - 1);
      LcsSteps(a, b, i2, j2);
    }
  }

  /** The table of (b, a) is the transpose of the table of (a, b). */
  lemma {:induction false} LcsTranspose<T>(a: seq<T>, b: seq<T>, i: nat, j: nat)
    requires i <= |a| && j <= |b|
    ensures LcsLength(b, a, j, i) == LcsLength(a, b, i, j)
    decreases i + j
  {
    if i > 0 && j > 0 {
      LcsTranspose(a, b, i - 1, j - 1);
      LcsTranspose(a, b, i - 1, j);
      LcsTranspose(a, b, i, j - 1);
    }
  }

  // ---------------------------------------------------------------------------
  // Optimality: cell (n, m) is the length of a longest common subsequence.
  // ---------------------------------------------------------------------------

  /** `s` can be obtained from `a` by deleting elements. */
  predicate IsSubsequence<T(==)>(s: seq<T>, a: seq<T>)
    decreases |a|
  {
    if |s| == 0 then true
    else if |a| == 0 then false
    else (s[|s| - 1] == a[|a| - 1] && IsSubsequence(s[..|s| - 1], a[..|a| - 1]))
         || IsSubsequence(s, a[..|a| - 1])
  }

  predicate IsCommonSubsequence<T(==)>(s: seq<T>, a: seq<T>, b: seq<T>)
  {
    IsSubsequence(s, a) && IsSubsequence(s, b)
  }

  lemma SubsequenceExtend<T>(s: seq<T>, a: seq<T>, x: T)
    requires IsSubsequence(s, a)
    ensures IsSubsequence(s, a + [x])
    ensures IsSubsequence(s + [x], a + [x])
  {
    assert (a + [x])[..|a|] == a;
    assert (s + [x])[..|s|] == s;
  }

  /** No common subsequence of the prefixes a[..i] and b[..j] is longer than cell (i, j). */
  lemma {:induction false} LcsUpperBound<T>(a: seq<T>, b: seq<T>, s: seq<T>, i: nat, j: nat)
    requires i <= |a| && j <= |b|
    requires IsSubsequence(s, a[..i]) && IsSubsequence(s, b[..j])
    ensures |s| <= LcsLength(a, b, i, j)
    decreases i + j
  {
    if |s| > 0 {
      assert a[..i][..i - 1] == a[..i - 1];
      assert b[..j][..j - 1] == b[..j - 1];
      LcsSteps(a, b, i, j);
      if IsSubsequence(s, a[..i - 1]) {
        LcsUpperBound(a, b, s, i - 1, j);
      } else if IsSubsequence(s, b[..j - 1]) {
        LcsUpperBound(a, b, s, i, j - 1);
      } else {
        LcsUpperBound(a, b, s[..|s| - 1], i - 1, j - 1);
      }
    }
  }

  /** A common subsequence of a[..i] and b[..j] as long as cell (i, j), read off the table. */
  function LcsWitness<T(==)>(a: seq<T>, b: seq<T>, i: nat, j: nat): (s: seq<T>)
    requires i <= |a| && j <= |b|
    ensures |s| == LcsLength(a, b, i, j)
    ensures IsSubsequence(s, a[..i]) && IsSubsequence(s, b[..j])
    decreases i + j
  {
    if i == 0 || j == 0 then []
    else
      assert a[..i] == a[..i - 1] + [a[i - 1]];
      assert b[..j] == b[..j - 1] + [b[j - 1]];
      if a[i - 1] == b[j - 1] then
        var w := LcsWitness(a, b, i - 1, j - 1);
        SubsequenceExtend(w, a[..i - 1], a[i - 1]);
        SubsequenceExtend(w, b[..j - 1], b[j - 1]);
        w + [a[i - 1]]
      else if LcsLength(a, b, i - 1, j) >= LcsLength(a, b, i, j - 1) then
        var w := LcsWitness(a, b, i - 1, j);
        SubsequenceExtend(w, a[..i - 1], a[i - 1]);
        w
      else
        var w := LcsWitness(a, b, i, j - 1);
        SubsequenceExtend(w, b[..j - 1], b[j - 1]);
        w
  }

  /** Cell (|a|, |b|) is the length of a longest common subsequence of `a` and `b`. */
  lemma LcsIsLongest<T>(a: seq<T>, b: seq<T>)
    ensures exists s :: IsCommonSubsequence(s, a, b) && |s| == LcsLength(a, b, |a|, |b|)
    ensures forall s :: IsCommonSubsequence(s, a, b) ==> |s| <= LcsLength(a, b, |a|, |b|)
  {
    assert a[..|a|] == a && b[..|b|] == b;
    var w := LcsWitness(a, b, |a|, |b|);
    assert IsCommonSubsequence(w, a, b);
    forall s | IsCommonSubsequence(s, a, b)
      ensures |s| <= LcsLength(a, b, |a|, |b|)
    {
      LcsUpperBound(a, b, s, |a|, |b|);
    }
  }
}
