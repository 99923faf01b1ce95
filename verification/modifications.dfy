/**
  Step 3 of the CSV diff in both ports: one forward pass over the traceback's list that
  turns each adjacent Removal -> Addition pair whose rows are similar enough into a linked
  modification pair. Each half of a pair records the position of the other half in the
  FINAL list.
 */
module Modifications {
  import opened Wrappers
  import opened Elements
  import opened Similarity

  /**
    How the pass decides and describes a pair, given the two lines: whether they are linked,
    and the field indices recorded on both halves. `PortPairing` is what the ports use; the
    pass and its structural properties hold for any pairing.
   */
  datatype Pairing = Pairing(linked: (string, string) -> bool, indices: (string, string) -> seq<nat>)

  /** Both ports link when the parsed rows pass the similarity test, and record the port's field finder. */
  function PortPairing(parse: string -> Row, port: Port): Pairing
  {
    Pairing((a, b) => IsModificationPair(parse(a), parse(b)), (a, b) => FieldDifferences(port, parse(a), parse(b)))
  }

  /** What `PortPairing` decides and records for two given lines. */
  lemma PortPairingAt(parse: string -> Row, port: Port, a: string, b: string)
    ensures PortPairing(parse, port).linked(a, b) == IsModificationPair(parse(a), parse(b))
    ensures PortPairing(parse, port).indices(a, b) == FieldDifferences(port, parse(a), parse(b))
  {
  }

  /**
    The pass over `xs`, where `at` is the position in the final list of the first entry
    produced. A linked pair takes two input entries and produces two output entries, so the
    final position always equals the input position (`finalIndexCounter == idx`).
   */
  function LinkFrom(pairing: Pairing, xs: seq<DiffElement>, at: nat): (r: seq<DiffElement>)
    ensures |r| == |xs|
    ensures forall k {:trigger r[k]} :: 0 <= k < |xs| ==> r[k].GetType() == xs[k].GetType() && r[k].content == xs[k].content
    decreases |xs|
  {
    if |xs| == 0 then []
    else if |xs| >= 2 && Linkable(pairing, xs[0], xs[1]) then
      var indices := pairing.indices(xs[0].content, xs[1].content);
      [ModifiedRemoval(xs[0].content, indices, at + 1), ModifiedAddition(xs[1].content, indices, at)]
        + LinkFrom(pairing, xs[2..], at + 2)
    else
      [xs[0]] + LinkFrom(pairing, xs[1..], at + 1)
  }

  /** The post-pass over a whole list. */
  function LinkModifications(parse: string -> Row, port: Port, xs: seq<DiffElement>): (r: seq<DiffElement>)
    ensures |r| == |xs|
    ensures forall k :: 0 <= k < |xs| ==> r[k].GetType() == xs[k].GetType() && r[k].content == xs[k].content
  {
    LinkFrom(PortPairing(parse, port), xs, 0)
  }

  /**
    The Java loop as written: a `processed` flag per input entry, a separate
    `finalIndexCounter`, and `idx++` inside the body for a pair. The skip on an already
    processed entry never fires, the counter always equals `idx`, and the result is the
    pure pass.
   */
  method LinkModificationsLoop(parse: string -> Row, port: Port, xs: seq<DiffElement>)
    returns (finalResults: seq<DiffElement>, finalIndexCounter: nat)
    ensures finalResults == LinkModifications(parse, port, xs)
    ensures finalIndexCounter == |xs| == |finalResults|
  {
    ghost var pairing := PortPairing(parse, port);
    finalResults := [];
    var processed := seq(|xs|, _ => false);
    finalIndexCounter := 0;
    var idx := 0;
    while idx < |xs|
      invariant 0 <= idx <= |xs| && |processed| == |xs|
      invariant finalIndexCounter == idx == |finalResults|
      invariant forall k :: idx <= k < |xs| ==> !processed[k]
      invariant finalResults + LinkFrom(pairing, xs[idx..], idx) == LinkFrom(pairing, xs, 0)
    {
      LinkFromSuffix(pairing, xs, idx);
      if processed[idx] {
        idx := idx + 1;
        continue;
      }
      var current := xs[idx];
      if idx + 1 < |xs| && current.Removal? && xs[idx + 1].Addition? {
        var linked, indices := ScorePair(parse, port, current.content, xs[idx + 1].content);
        if linked {
          assert LinksAt(pairing, xs, idx);
          var pair := [ModifiedRemoval(current.content, indices, finalIndexCounter + 1),
                       ModifiedAddition(xs[idx + 1].content, indices, finalIndexCounter)];
          AppendAssoc(finalResults, pair, LinkFrom(pairing, xs[idx + 2..], idx + 2));
          finalResults := finalResults + pair;
          processed := processed[idx := true][idx + 1 := true];
          finalIndexCounter := finalIndexCounter + 2;
          idx := idx + 2;
          continue;
        }
      }
      assert !LinksAt(pairing, xs, idx);
      AppendAssoc(finalResults, [current], LinkFrom(pairing, xs[idx + 1..], idx + 1));
      finalResults := finalResults + [current];
      processed := processed[idx := true];
      finalIndexCounter := finalIndexCounter + 1;
      idx := idx + 1;
    }
  }

  /**
    The test inside the Java loop: parse both lines, score the rows, and link on an id
    match or a score of at least 0.8; for a link, the field indices the port records.
   */
  method ScorePair(parse: string -> Row, port: Port, removal: string, addition: string)
    returns (linked: bool, indices: seq<nat>)
    ensures linked == PortPairing(parse, port).linked(removal, addition)
    ensures linked <==> var r1, r2 := parse(removal), parse(addition);
      |r1| > 0 && |r2| > 0 && (r1 == r2 || r1[0] == r2[0] || DifferenceCount(r1, r2) <= 3)
    ensures linked ==> indices == PortPairing(parse, port).indices(removal, addition)
  {
    var removalRow := parse(removal);
    var additionRow := parse(addition);
    var score := RowSimilarity(removalRow, additionRow);
    var isIdMatch := |removalRow| > 0 && |additionRow| > 0 && removalRow[0] == additionRow[0];
    PortPairingAt(parse, port, removal, addition);
    ModificationPairThreshold(removalRow, additionRow);
    linked := isIdMatch || score >= 0.8;
    indices := if linked then FieldDifferences(port, removalRow, additionRow) else [];
  }

  lemma AppendAssoc<T>(a: seq<T>, b: seq<T>, c: seq<T>)
    ensures a + (b + c) == (a + b) + c
  {
  }

  /** One step of the pass over the suffix of `xs` that starts at `idx`. */
  lemma LinkFromSuffix(pairing: Pairing, xs: seq<DiffElement>, idx: nat)
    requires idx < |xs|
    ensures LinksAt(pairing, xs, idx) ==>
      LinkFrom(pairing, xs[idx..], idx)
      == [ModifiedRemoval(xs[idx].content, pairing.indices(xs[idx].content, xs[idx + 1].content), idx + 1),
          ModifiedAddition(xs[idx + 1].content, pairing.indices(xs[idx].content, xs[idx + 1].content), idx)]
         + LinkFrom(pairing, xs[idx + 2..], idx + 2)
    ensures !LinksAt(pairing, xs, idx) ==>
      LinkFrom(pairing, xs[idx..], idx) == [xs[idx]] + LinkFrom(pairing, xs[idx + 1..], idx + 1)
  {
    var s := xs[idx..];
    assert s[0] == xs[idx];
    if idx + 1 < |xs| {
      assert s[1] == xs[idx + 1] && s[2..] == xs[idx + 2..];
    }
    assert s[1..] == xs[idx + 1..];
  }

  /** The test the pass applies to the entries at p and p + 1 of its input. */
  predicate LinksAt(pairing: Pairing, xs: seq<DiffElement>, p: nat)
  {
    p + 1 < |xs| && Linkable(pairing, xs[p], xs[p + 1])
  }

  /** A Removal followed by an Addition whose lines the pairing links. */
  predicate Linkable(pairing: Pairing, a: DiffElement, b: DiffElement)
  {
    a.Removal? && b.Addition? && pairing.linked(a.content, b.content)
  }

  /** The test at position q of a suffix is the test at the matching position of the whole. */
  lemma LinksAtShift(pairing: Pairing, xs: seq<DiffElement>, n: nat, q: nat)
    requires n <= |xs|
    ensures LinksAt(pairing, xs[n..], q) == LinksAt(pairing, xs, q + n)
  {
    if q + 1 < |xs| - n {
      assert xs[n..][q] == xs[q + n] && xs[n..][q + 1] == xs[q + n + 1];
    }
  }

  /**
    What the pass puts at position p: the Removal of a linkable pair becomes its linked
    half pointing at p + 1, the Addition after it becomes the other half pointing at p, and
    every other entry is passed through as it was.
   */
  function LinkedEntry(pairing: Pairing, xs: seq<DiffElement>, at: nat, p: nat): DiffElement
    requires p < |xs|
  {
    if xs[p].Removal? && LinksAt(pairing, xs, p) then
      ModifiedRemoval(xs[p].content, pairing.indices(xs[p].content, xs[p + 1].content), at + p + 1)
    else if xs[p].Addition? && p > 0 && LinksAt(pairing, xs, p - 1) then
      ModifiedAddition(xs[p].content, pairing.indices(xs[p - 1].content, xs[p].content), at + p - 1)
    else
      xs[p]
  }

  /**
    Which entries the pass links: a Removal gets a partner exactly when the next entry is an
    Addition and the pairing links the two lines. A Removal is never the second half of a
    pair, so the greedy scan considers every one and never skips a linkable pair.
   */
  lemma {:induction false} LinkFromEntry(pairing: Pairing, xs: seq<DiffElement>, at: nat, p: nat)
    requires p < |xs|
    ensures LinkFrom(pairing, xs, at)[p] == LinkedEntry(pairing, xs, at, p)
    decreases |xs|, 1
  {
    if LinksAt(pairing, xs, 0) {
      EntryAfterPair(pairing, xs, at, p);
    } else {
      EntryAfterSingle(pairing, xs, at, p);
    }
  }

  /** The inductive step of `LinkFromEntry` when the first two entries form a pair. */
  lemma {:induction false} EntryAfterPair(pairing: Pairing, xs: seq<DiffElement>, at: nat, p: nat)
    requires p < |xs| && LinksAt(pairing, xs, 0)
    ensures LinkFrom(pairing, xs, at)[p] == LinkedEntry(pairing, xs, at, p)
    decreases |xs|, 0
  {
    var indices := pairing.indices(xs[0].content, xs[1].content);
    assert LinkFrom(pairing, xs, at)
           == [ModifiedRemoval(xs[0].content, indices, at + 1), ModifiedAddition(xs[1].content, indices, at)]
              + LinkFrom(pairing, xs[2..], at + 2);
    if p >= 2 {
      LinkFromEntry(pairing, xs[2..], at + 2, p - 2);
      ShiftedEntry(pairing, xs, at, p, 2);
    } else if p == 1 {
      assert !xs[1].Removal?;
    }
  }

  /** The inductive step of `LinkFromEntry` when the first entry is passed through. */
  lemma {:induction false} EntryAfterSingle(pairing: Pairing, xs: seq<DiffElement>, at: nat, p: nat)
    requires p < |xs| && !LinksAt(pairing, xs, 0)
    ensures LinkFrom(pairing, xs, at)[p] == LinkedEntry(pairing, xs, at, p)
    decreases |xs|, 0
  {
    assert LinkFrom(pairing, xs, at) == [xs[0]] + LinkFrom(pairing, xs[1..], at + 1);
    if p >= 1 {
      LinkFromEntry(pairing, xs[1..], at + 1, p - 1);
      ShiftedEntry(pairing, xs, at, p, 1);
    }
  }

  /** Dropping the first `n` entries (not a pair split) shifts every later entry's outcome by `n`. */
  lemma ShiftedEntry(pairing: Pairing, xs: seq<DiffElement>, at: nat, p: nat, n: nat)
    requires 1 <= n <= 2 && n <= p < |xs|
    requires n == 2 ==> xs[1].Addition?
    requires n == 1 ==> !LinksAt(pairing, xs, 0)
    ensures LinkedEntry(pairing, xs[n..], at + n, p - n) == LinkedEntry(pairing, xs, at, p)
  {
    var rest := xs[n..];
    assert rest[p - n] == xs[p];
    LinksAtShift(pairing, xs, n, p - n);
    if p - n >= 1 {
      assert rest[p - n - 1] == xs[p - 1];
      LinksAtShift(pairing, xs, n, p - n - 1);
    } else {
      assert !LinksAt(pairing, xs, p - 1);
    }
  }

  /**
    The links of the final list are mutually consistent: a linked Removal at position p
    points at p + 1, which holds an Addition pointing back at p, both with the same field
    indices; a linked Addition at p points at p - 1, which holds a Removal pointing at p.
   */
  lemma LinksConsistent(pairing: Pairing, xs: seq<DiffElement>)
    requires forall k :: 0 <= k < |xs| ==> xs[k].IsPlain()
    ensures var r := LinkFrom(pairing, xs, 0);
      && (forall p :: 0 <= p < |r| && r[p].Removal? && r[p].GetMatchedIndex().Some? ==>
            && p + 1 < |r| && r[p].GetMatchedIndex() == Some(p + 1)
            && r[p + 1].Addition? && r[p + 1].GetMatchedIndex() == Some(p)
            && r[p].GetDiffIndices() == r[p + 1].GetDiffIndices() != None)
      && (forall p :: 0 <= p < |r| && r[p].Addition? && r[p].GetMatchedIndex().Some? ==>
            && 0 < p && r[p].GetMatchedIndex() == Some(p - 1)
            && r[p - 1].Removal? && r[p - 1].GetMatchedIndex() == Some(p))
  {
    LinkedRemovalsPointForward(pairing, xs);
    LinkedAdditionsPointBack(pairing, xs);
  }

  lemma LinkedRemovalsPointForward(pairing: Pairing, xs: seq<DiffElement>)
    requires forall k :: 0 <= k < |xs| ==> xs[k].IsPlain()
    ensures var r := LinkFrom(pairing, xs, 0);
      forall p :: 0 <= p < |r| && r[p].Removal? && r[p].GetMatchedIndex().Some? ==>
        && p + 1 < |r| && r[p].GetMatchedIndex() == Some(p + 1)
        && r[p + 1].Addition? && r[p + 1].GetMatchedIndex() == Some(p)
        && r[p].GetDiffIndices() == r[p + 1].GetDiffIndices() != None
  {
    var r := LinkFrom(pairing, xs, 0);
    forall p | 0 <= p < |r| && r[p].Removal? && r[p].GetMatchedIndex().Some?
      ensures p + 1 < |r| && r[p].GetMatchedIndex() == Some(p + 1)
      ensures r[p + 1].Addition? && r[p + 1].GetMatchedIndex() == Some(p)
      ensures r[p].GetDiffIndices() == r[p + 1].GetDiffIndices() != None
    {
      LinkFromEntry(pairing, xs, 0, p);
      assert xs[p].IsPlain();
      LinkFromEntry(pairing, xs, 0, p + 1);
    }
  }

  lemma LinkedAdditionsPointBack(pairing: Pairing, xs: seq<DiffElement>)
    requires forall k :: 0 <= k < |xs| ==> xs[k].IsPlain()
    ensures var r := LinkFrom(pairing, xs, 0);
      forall p :: 0 <= p < |r| && r[p].Addition? && r[p].GetMatchedIndex().Some? ==>
        && 0 < p && r[p].GetMatchedIndex() == Some(p - 1)
        && r[p - 1].Removal? && r[p - 1].GetMatchedIndex() == Some(p)
  {
    var r := LinkFrom(pairing, xs, 0);
    forall p | 0 <= p < |r| && r[p].Addition? && r[p].GetMatchedIndex().Some?
      ensures 0 < p && r[p].GetMatchedIndex() == Some(p - 1)
      ensures r[p - 1].Removal? && r[p - 1].GetMatchedIndex() == Some(p)
    {
      LinkFromEntry(pairing, xs, 0, p);
      assert xs[p].IsPlain();
      LinkFromEntry(pairing, xs, 0, p - 1);
    }
  }

  /**
    Pairing is decided by the score alone: a Removal followed by an Addition is linked
    exactly when the two rows score at least 0.8.
   */
  lemma LinkedExactlyWhenSimilar(parse: string -> Row, port: Port, xs: seq<DiffElement>, p: nat)
    requires forall k :: 0 <= k < |xs| ==> xs[k].IsPlain()
    requires p + 1 < |xs| && xs[p].Removal? && xs[p + 1].Addition?
    ensures LinkModifications(parse, port, xs)[p].GetMatchedIndex().Some?
            <==> RowSimilarity(parse(xs[p].content), parse(xs[p + 1].content)) >= 0.8
  {
    LinkFromEntry(PortPairing(parse, port), xs, 0, p);
    PortPairingAt(parse, port, xs[p].content, xs[p + 1].content);
    assert xs[p].IsPlain();
    ModificationPairThreshold(parse(xs[p].content), parse(xs[p + 1].content));
  }

  /** The pass keeps the length, tags and texts of its input, so the two file views too. */
  lemma LinkKeepsViews(pairing: Pairing, xs: seq<DiffElement>)
    ensures var r := LinkFrom(pairing, xs, 0);
      && |r| == |xs|
      && FileOneView(r) == FileOneView(xs) && FileTwoView(r) == FileTwoView(xs)
      && forall t :: CountOf(r, t) == CountOf(xs, t)
  {
    ViewsPointwise(LinkFrom(pairing, xs, 0), xs);
  }
}
