/**
  Row comparison for the CSV path: the field-difference finders of the two ports
  (`identify_row_field_differences`, `identifyRowFieldDifferences`) and the similarity
  scorer (`calculate_row_similarity`, `calculateRowSimilarity`). Scores are exact rationals
  here; the source's floating-point values are compared only against well-separated
  constants.
 */
module Similarity {
  import opened Wrappers
  import opened Elements
  import opened Lcs

  // ---------------------------------------------------------------------------
  // Field differences
  // ---------------------------------------------------------------------------

  /** Python: pairs of fields up to the shorter row (`zip`), from index k on. */
  function ZipDifferencesFrom(r1: Row, r2: Row, k: nat): (d: seq<nat>)
    requires k <= Min(|r1|, |r2|)
    ensures forall p :: 0 <= p < |d| ==> k <= d[p] < Min(|r1|, |r2|) && r1[d[p]] != r2[d[p]]
    ensures forall p, q :: 0 <= p < q < |d| ==> d[p] < d[q]
    ensures forall x :: k <= x < Min(|r1|, |r2|) && r1[x] != r2[x] ==> x in d
    decreases Min(|r1|, |r2|) - k
  {
    if k == Min(|r1|, |r2|) then []
    else if r1[k] != r2[k] then [k] + ZipDifferencesFrom(r1, r2, k + 1)
    else ZipDifferencesFrom(r1, r2, k + 1)
  }

  /**
    `identify_row_field_differences` (Python): the ascending indices below the shorter
    length at which the two rows hold different fields.
   */
  function ZipDifferences(r1: Row, r2: Row): (d: seq<nat>)
    ensures forall p, q :: 0 <= p < q < |d| ==> d[p] < d[q]
    ensures forall x: nat :: x in d <==> x < Min(|r1|, |r2|) && r1[x] != r2[x]
  {
    ZipDifferencesFrom(r1, r2, 0)
  }

  /** Java reads a missing field as `null`, which differs from every present field. */
  function FieldAt(r: Row, k: nat): Option<string>
  {
    if k < |r| then Some(r[k]) else None
  }

  function PaddedDifferencesFrom(r1: Row, r2: Row, k: nat): (d: seq<nat>)
    requires k <= Max(|r1|, |r2|)
    ensures forall p :: 0 <= p < |d| ==> k <= d[p] < Max(|r1|, |r2|) && FieldAt(r1, d[p]) != FieldAt(r2, d[p])
    ensures forall p, q :: 0 <= p < q < |d| ==> d[p] < d[q]
    ensures forall x :: k <= x < Max(|r1|, |r2|) && FieldAt(r1, x) != FieldAt(r2, x) ==> x in d
    decreases Max(|r1|, |r2|) - k
  {
    if k == Max(|r1|, |r2|) then []
    else if FieldAt(r1, k) != FieldAt(r2, k) then [k] + PaddedDifferencesFrom(r1, r2, k + 1)
    else PaddedDifferencesFrom(r1, r2, k + 1)
  }

  /**
    `identifyRowFieldDifferences` (Java): the ascending indices below the LONGER length at
    which the fields differ; every index past the shorter row is included.
   */
  function PaddedDifferences(r1: Row, r2: Row): (d: seq<nat>)
    ensures forall p, q :: 0 <= p < q < |d| ==> d[p] < d[q]
    ensures forall x: nat :: x in d <==> x < Max(|r1|, |r2|) && (x >= Min(|r1|, |r2|) || r1[x] != r2[x])
  {
    var d := PaddedDifferencesFrom(r1, r2, 0);
    assert forall x :: x in d ==> 0 <= x < Max(|r1|, |r2|) && FieldAt(r1, x) != FieldAt(r2, x);
    d
  }

  /** The finder each port's CSV post-pass calls. */
  function FieldDifferences(port: Port, r1: Row, r2: Row): seq<nat>
  {
    match port
    case Python => ZipDifferences(r1, r2)
    case Java => PaddedDifferences(r1, r2)
  }

  function Range(lo: nat, hi: nat): (r: seq<nat>)
    requires lo <= hi
    ensures |r| == hi - lo
    ensures forall k :: 0 <= k < |r| ==> r[k] == lo + k
  {
    seq(hi - lo, k requires 0 <= k < hi - lo => lo + k)
  }

  /** The Java finder is the Python finder followed by every index in [min, max). */
  lemma {:induction false} PaddedIsZipPlusTail(r1: Row, r2: Row, k: nat)
    requires k <= Min(|r1|, |r2|)
    ensures PaddedDifferencesFrom(r1, r2, k) == ZipDifferencesFrom(r1, r2, k) + Range(Min(|r1|, |r2|), Max(|r1|, |r2|))
    decreases Min(|r1|, |r2|) - k
  {
    if k < Min(|r1|, |r2|) {
      var head := if r1[k] != r2[k] then [k] else [];
      var zipRest, tail := ZipDifferencesFrom(r1, r2, k + 1), Range(Min(|r1|, |r2|), Max(|r1|, |r2|));
      BothStepBelowShorter(r1, r2, k);
      assert PaddedDifferencesFrom(r1, r2, k) == head + PaddedDifferencesFrom(r1, r2, k + 1);
      assert ZipDifferencesFrom(r1, r2, k) == head + zipRest;
      PaddedIsZipPlusTail(r1, r2, k + 1);
      assert head + (zipRest + tail) == (head + zipRest) + tail;
    } else {
      PaddedTailAll(r1, r2, k);
    }
  }

  lemma {:induction false} PaddedTailAll(r1: Row, r2: Row, k: nat)
    requires Min(|r1|, |r2|) <= k <= Max(|r1|, |r2|)
    ensures PaddedDifferencesFrom(r1, r2, k) == Range(k, Max(|r1|, |r2|))
    decreases Max(|r1|, |r2|) - k
  {
    var hi := Max(|r1|, |r2|);
    if k < hi {
      PaddedTailAll(r1, r2, k + 1);
      PaddedPastShorter(r1, r2, k);
      RangeCons(k, hi);
    }
  }

  /** Below the shorter length both finders take the same step. */
  lemma BothStepBelowShorter(r1: Row, r2: Row, k: nat)
    requires k < Min(|r1|, |r2|)
    ensures var head := if r1[k] != r2[k] then [k] else [];
      && PaddedDifferencesFrom(r1, r2, k) == head + PaddedDifferencesFrom(r1, r2, k + 1)
      && ZipDifferencesFrom(r1, r2, k) == head + ZipDifferencesFrom(r1, r2, k + 1)
  {
    assert FieldAt(r1, k) != FieldAt(r2, k) <==> r1[k] != r2[k];
  }

  /** Past the shorter row every index differs, since one side is missing. */
  lemma PaddedPastShorter(r1: Row, r2: Row, k: nat)
    requires Min(|r1|, |r2|) <= k < Max(|r1|, |r2|)
    ensures PaddedDifferencesFrom(r1, r2, k) == [k] + PaddedDifferencesFrom(r1, r2, k + 1)
  {
    assert FieldAt(r1, k) != FieldAt(r2, k) by {
      assert k >= |r1| || k >= |r2|;
    }
  }

  lemma RangeCons(lo: nat, hi: nat)
    requires lo < hi
    ensures Range(lo, hi) == [lo] + Range(lo + 1, hi)
  {
    var a, b := Range(lo, hi), [lo] + Range(lo + 1, hi);
    assert |a| == |b|;
    forall k | 0 <= k < |a|
      ensures a[k] == b[k]
    {
      if k > 0 {
        assert b[k] == Range(lo + 1, hi)[k - 1];
      }
    }
  }

  /** Both finders are symmetric in their two rows. */
  lemma {:induction false} FieldDifferencesSymmetric(port: Port, r1: Row, r2: Row)
    ensures FieldDifferences(port, r1, r2) == FieldDifferences(port, r2, r1)
  {
    ZipSymmetric(r1, r2, 0);
    PaddedIsZipPlusTail(r1, r2, 0);
    PaddedIsZipPlusTail(r2, r1, 0);
  }

  lemma {:induction false} ZipSymmetric(r1: Row, r2: Row, k: nat)
    requires k <= Min(|r1|, |r2|)
    ensures ZipDifferencesFrom(r1, r2, k) == ZipDifferencesFrom(r2, r1, k)
    decreases Min(|r1|, |r2|) - k
  {
    assert Min(|r1|, |r2|) == Min(|r2|, |r1|);
    if k < Min(|r1|, |r2|) {
      ZipSymmetric(r1, r2, k + 1);
      assert ZipDifferencesFrom(r1, r2, k) == (if r1[k] != r2[k] then [k] else []) + ZipDifferencesFrom(r1, r2, k + 1);
      assert ZipDifferencesFrom(r2, r1, k) == (if r2[k] != r1[k] then [k] else []) + ZipDifferencesFrom(r2, r1, k + 1);
    }
  }

  // ---------------------------------------------------------------------------
  // Similarity score
  // ---------------------------------------------------------------------------

  /** The number of positions below the shorter length where the two rows agree. */
  function MatchingFieldsFrom(r1: Row, r2: Row, k: nat): nat
    requires k <= Min(|r1|, |r2|)
    decreases Min(|r1|, |r2|) - k
  {
    if k == Min(|r1|, |r2|) then 0
    else (if r1[k] == r2[k] then 1 else 0) + MatchingFieldsFrom(r1, r2, k + 1)
  }

  function MatchingFields(r1: Row, r2: Row): nat
  {
    MatchingFieldsFrom(r1, r2, 0)
  }

  /** The differing positions counted by the scorer, plus one per field only the longer row has. */
  function DifferenceCount(r1: Row, r2: Row): nat
  {
    |ZipDifferences(r1, r2)| + (Max(|r1|, |r2|) - Min(|r1|, |r2|))
  }

  /** Every position below the shorter length either matches or differs. */
  lemma {:induction false} MatchingPlusDifferent(r1: Row, r2: Row, k: nat)
    requires k <= Min(|r1|, |r2|)
    ensures MatchingFieldsFrom(r1, r2, k) + |ZipDifferencesFrom(r1, r2, k)| == Min(|r1|, |r2|) - k
    decreases Min(|r1|, |r2|) - k
  {
    if k < Min(|r1|, |r2|) {
      MatchingPlusDifferent(r1, r2, k + 1);
      assert |ZipDifferencesFrom(r1, r2, k)| == (if r1[k] != r2[k] then 1 else 0) + |ZipDifferencesFrom(r1, r2, k + 1)|;
    }
  }

  /** The scorer's difference count is the length of the Java finder's result. */
  lemma DifferenceCountIsPadded(r1: Row, r2: Row)
    ensures DifferenceCount(r1, r2) == |PaddedDifferences(r1, r2)|
  {
    PaddedIsZipPlusTail(r1, r2, 0);
  }

  /**
    `calculate_row_similarity` / `calculateRowSimilarity`. Rules in order: an empty row
    scores 0; equal rows 1.0; equal first fields 0.95; 1, 2 or 3 differences 0.90, 0.85,
    0.80; otherwise 0.7 times the fraction of matching fields (`RowSimilarityRules`).
   */
  function RowSimilarity(r1: Row, r2: Row): (score: real)
    ensures 0.0 <= score <= 1.0
  {
    if |r1| == 0 || |r2| == 0 then 0.0
    else if r1 == r2 then 1.0
    else if r1[0] == r2[0] then 0.95
    else
      var matching := MatchingFields(r1, r2);
      var maxLen := Max(|r1|, |r2|);
      var different := DifferenceCount(r1, r2);
      if different == 1 then 0.90
      else if different == 2 then 0.85
      else if different == 3 then 0.80
      else if maxLen == 0 then 0.0
      else
        MatchingPlusDifferent(r1, r2, 0);
        RatioAtMostOne(matching, maxLen);
        matching as real / maxLen as real * 0.7
  }

  /**
    The score in terms of the rows: 0 for an empty row, 1.0 exactly for equal non-empty
    rows, 0.95 for equal first fields, and otherwise a function of the difference count,
    which is then at least one.
   */
  lemma RowSimilarityRules(r1: Row, r2: Row)
    ensures var score := RowSimilarity(r1, r2);
      && (|r1| == 0 || |r2| == 0 ==> score == 0.0)
      && (score == 1.0 <==> |r1| > 0 && r1 == r2)
      && (|r1| > 0 && |r2| > 0 && r1 != r2 && r1[0] == r2[0] ==> score == 0.95)
      && (|r1| > 0 && |r2| > 0 && r1[0] != r2[0] ==>
          && 1 <= DifferenceCount(r1, r2)
          && (DifferenceCount(r1, r2) == 1 ==> score == 0.90)
          && (DifferenceCount(r1, r2) == 2 ==> score == 0.85)
          && (DifferenceCount(r1, r2) == 3 ==> score == 0.80)
          && (DifferenceCount(r1, r2) >= 4 ==>
                score <= 0.7
                && score == 0.7 * ((Max(|r1|, |r2|) - DifferenceCount(r1, r2)) as real / Max(|r1|, |r2|) as real)))
  {
    if |r1| > 0 && |r2| > 0 && r1[0] != r2[0] {
      assert 0 in ZipDifferences(r1, r2);
      MatchingPlusDifferent(r1, r2, 0);
      var maxLen := Max(|r1|, |r2|);
      if DifferenceCount(r1, r2) >= 4 {
        RatioAtMostOne(MatchingFields(r1, r2), maxLen);
        assert MatchingFields(r1, r2) == maxLen - DifferenceCount(r1, r2);
      }
    }
  }

  lemma RatioAtMostOne(x: nat, y: nat)
    requires 0 < y && x <= y
    ensures 0.0 <= x as real / y as real <= 1.0
  {
    assert x as real / y as real * y as real == x as real;
  }

  /** The Java/Python `isIdMatch`: both rows non-empty with equal first fields. */
  predicate IsIdMatch(r1: Row, r2: Row)
  {
    |r1| > 0 && |r2| > 0 && r1[0] == r2[0]
  }

  /** The post-pass links a Removal/Addition pair when its rows pass this test. */
  predicate IsModificationPair(r1: Row, r2: Row)
  {
    IsIdMatch(r1, r2) || RowSimilarity(r1, r2) >= 0.8
  }

  /**
    The `isIdMatch` disjunct is redundant (an id match already scores at least 0.95), and a
    pair is linked exactly when both rows are non-empty and they are equal, share their
    first field, or differ in at most three places.
   */
  lemma ModificationPairThreshold(r1: Row, r2: Row)
    ensures IsModificationPair(r1, r2) <==> RowSimilarity(r1, r2) >= 0.8
    ensures IsModificationPair(r1, r2) <==>
      |r1| > 0 && |r2| > 0 && (r1 == r2 || r1[0] == r2[0] || DifferenceCount(r1, r2) <= 3)
  {
    RowSimilarityRules(r1, r2);
  }

  /** The score does not depend on the order of the two rows. */
  lemma RowSimilaritySymmetric(r1: Row, r2: Row)
    ensures RowSimilarity(r1, r2) == RowSimilarity(r2, r1)
  {
    ZipSymmetric(r1, r2, 0);
    MatchingSymmetric(r1, r2, 0);
  }

  lemma {:induction false} MatchingSymmetric(r1: Row, r2: Row, k: nat)
    requires k <= Min(|r1|, |r2|)
    ensures MatchingFieldsFrom(r1, r2, k) == MatchingFieldsFrom(r2, r1, k)
    decreases Min(|r1|, |r2|) - k
  {
    if k < Min(|r1|, |r2|) {
      MatchingSymmetric(r1, r2, k + 1);
    }
  }
}
