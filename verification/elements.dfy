/**
  The entries of a diff result. The Python port has three frozen dataclasses and the Java
  port three final classes behind one interface; here they are the three cases of one
  closed datatype. Every optional annotation is an `Option`; the Java accessors are member
  functions with the defaults the Java classes apply.
 */
module Elements {
  import opened Wrappers

  /** A parsed comma-delimited row: its fields in order. */
  type Row = seq<string>

  /** Which of the two ports a behaviour belongs to, where they differ. */
  datatype Port = Python | Java

  /** The Java `ElementType` enum. */
  datatype ElementType = ADDITION | REMOVAL | UNCHANGED

  datatype DiffElement =
    | Addition(content: string, diffIndices: Option<seq<nat>>, matchedIndex: Option<nat>,
               moved: Option<bool>, originalIndex: Option<nat>, newIndex: Option<nat>)
    | Removal(content: string, diffIndices: Option<seq<nat>>, matchedIndex: Option<nat>,
              moved: Option<bool>, combinedMod: Option<bool>, combinedNewIndex: Option<nat>,
              originalIndex: Option<nat>, newIndex: Option<nat>)
    | Unchanged(content: string, moved: Option<bool>, originalIndex: Option<nat>, newIndex: Option<nat>)
  {
    /** `getType`: the tag, one per case. */
    function GetType(): (t: ElementType)
      ensures t == ADDITION <==> Addition?
      ensures t == REMOVAL <==> Removal?
      ensures t == UNCHANGED <==> Unchanged?
    {
      match this
      case Addition(_, _, _, _, _, _) => ADDITION
      case Removal(_, _, _, _, _, _, _, _) => REMOVAL
      case Unchanged(_, _, _, _) => UNCHANGED
    }

    /** `getDiffIndices`: an Unchanged entry never carries differing-field indices. */
    function GetDiffIndices(): (d: Option<seq<nat>>)
      ensures Unchanged? ==> d == None
      ensures !Unchanged? ==> d == diffIndices
    {
      if Unchanged? then None else diffIndices
    }

    /** `getMatchedIndex`: an Unchanged entry is never linked to a partner. */
    function GetMatchedIndex(): (m: Option<nat>)
      ensures Unchanged? ==> m == None
      ensures !Unchanged? ==> m == matchedIndex
    {
      if Unchanged? then None else matchedIndex
    }

    /** `isMoved`: an absent flag reads as false. */
    function IsMoved(): (b: bool)
      ensures b <==> moved == Some(true)
    {
      moved.GetOr(false)
    }

    /** `isCombinedModification`: only a Removal can be combined; an absent flag reads as false. */
    function IsCombinedModification(): (b: bool)
      ensures b <==> Removal? && combinedMod == Some(true)
    {
      if Removal? then combinedMod.GetOr(false) else false
    }

    /** `getCombinedNewIndex`: only a Removal carries one. */
    function GetCombinedNewIndex(): (c: Option<nat>)
      ensures !Removal? ==> c == None
      ensures Removal? ==> c == combinedNewIndex
    {
      if Removal? then combinedNewIndex else None
    }

    /** `getOriginalIndex`: the row's position in file 1, when one was recorded. */
    function GetOriginalIndex(): Option<nat> { originalIndex }

    /** `getNewIndex`: the row's position in file 2, when one was recorded. */
    function GetNewIndex(): Option<nat> { newIndex }

    /** No annotation at all: what the simple one-argument constructors build. */
    predicate IsPlain()
    {
      && GetDiffIndices() == None && GetMatchedIndex() == None && moved == None
      && GetOriginalIndex() == None && GetNewIndex() == None
      && (Removal? ==> combinedMod == None && combinedNewIndex == None)
    }
  }

  /** `new Addition(content)` / `Addition(content)`. */
  function NewAddition(content: string): (e: DiffElement)
    ensures e.GetType() == ADDITION && e.content == content
    ensures e.GetDiffIndices() == None && e.GetMatchedIndex() == None
    ensures !e.IsMoved() && e.GetOriginalIndex() == None && e.GetNewIndex() == None
    ensures !e.IsCombinedModification() && e.GetCombinedNewIndex() == None
    ensures e.IsPlain()
  {
    Addition(content, None, None, None, None, None)
  }

  /** `new Addition(content, diffIndices)`. */
  function AdditionWithIndices(content: string, diffIndices: seq<nat>): (e: DiffElement)
    ensures e.GetType() == ADDITION && e.content == content
    ensures e.GetDiffIndices() == Some(diffIndices) && e.GetMatchedIndex() == None
    ensures !e.IsMoved() && e.GetOriginalIndex() == None && e.GetNewIndex() == None
    ensures !e.IsCombinedModification() && e.GetCombinedNewIndex() == None
  {
    Addition(content, Some(diffIndices), None, None, None, None)
  }

  /** `new Addition(content, diffIndices, matchedIndex)`: the Addition half of a modification pair. */
  function ModifiedAddition(content: string, diffIndices: seq<nat>, matchedIndex: nat): (e: DiffElement)
    ensures e.GetType() == ADDITION && e.content == content
    ensures e.GetDiffIndices() == Some(diffIndices) && e.GetMatchedIndex() == Some(matchedIndex)
    ensures !e.IsMoved() && e.GetOriginalIndex() == None && e.GetNewIndex() == None
    ensures !e.IsCombinedModification() && e.GetCombinedNewIndex() == None
  {
    Addition(content, Some(diffIndices), Some(matchedIndex), None, None, None)
  }

  /** `new Removal(content)`. */
  function NewRemoval(content: string): (e: DiffElement)
    ensures e.GetType() == REMOVAL && e.content == content
    ensures e.GetDiffIndices() == None && e.GetMatchedIndex() == None
    ensures !e.IsMoved() && !e.IsCombinedModification() && e.GetCombinedNewIndex() == None
    ensures e.GetOriginalIndex() == None && e.GetNewIndex() == None
    ensures e.IsPlain()
  {
    Removal(content, None, None, None, None, None, None, None)
  }

  /** `new Removal(content, diffIndices, matchedIndex)`: the Removal half of a modification pair. */
  function ModifiedRemoval(content: string, diffIndices: seq<nat>, matchedIndex: nat): (e: DiffElement)
    ensures e.GetType() == REMOVAL && e.content == content
    ensures e.GetDiffIndices() == Some(diffIndices) && e.GetMatchedIndex() == Some(matchedIndex)
    ensures !e.IsMoved() && !e.IsCombinedModification() && e.GetCombinedNewIndex() == None
    ensures e.GetOriginalIndex() == None && e.GetNewIndex() == None
  {
    Removal(content, Some(diffIndices), Some(matchedIndex), None, None, None, None, None)
  }

  /** `new Removal(content, diffIndices, matchedIndex, isCombinedMod, combinedNewIndex)`. */
  function CombinedRemoval(content: string, diffIndices: seq<nat>, matchedIndex: nat,
                           isCombinedMod: bool, combinedNewIndex: nat): (e: DiffElement)
    ensures e.GetType() == REMOVAL && e.content == content
    ensures e.GetDiffIndices() == Some(diffIndices) && e.GetMatchedIndex() == Some(matchedIndex)
    ensures e.IsCombinedModification() == isCombinedMod && e.GetCombinedNewIndex() == Some(combinedNewIndex)
    ensures !e.IsMoved() && e.GetOriginalIndex() == None && e.GetNewIndex() == None
  {
    Removal(content, Some(diffIndices), Some(matchedIndex), None, Some(isCombinedMod), Some(combinedNewIndex), None, None)
  }

  /** `new Unchanged(content)`. */
  function NewUnchanged(content: string): (e: DiffElement)
    ensures e.GetType() == UNCHANGED && e.content == content
    ensures e.GetDiffIndices() == None && e.GetMatchedIndex() == None
    ensures !e.IsMoved() && e.GetOriginalIndex() == None && e.GetNewIndex() == None
    ensures !e.IsCombinedModification() && e.GetCombinedNewIndex() == None
    ensures e.IsPlain()
  {
    Unchanged(content, None, None, None)
  }

  /** `new Unchanged(content, isMoved, originalIndex, newIndex)`: a row found at another position. */
  function MovedUnchanged(content: string, isMoved: bool, originalIndex: nat, newIndex: nat): (e: DiffElement)
    ensures e.GetType() == UNCHANGED && e.content == content
    ensures e.IsMoved() == isMoved
    ensures e.GetOriginalIndex() == Some(originalIndex) && e.GetNewIndex() == Some(newIndex)
    ensures e.GetDiffIndices() == None && e.GetMatchedIndex() == None
    ensures !e.IsCombinedModification() && e.GetCombinedNewIndex() == None
  {
    Unchanged(content, Some(isMoved), Some(originalIndex), Some(newIndex))
  }

  // ---------------------------------------------------------------------------
  // Reading a diff back as the two files it relates.
  // ---------------------------------------------------------------------------

  /** The entries that belong to file 1 (Removal and Unchanged), in order. */
  function SideOne(d: seq<DiffElement>): (s: seq<DiffElement>)
    ensures |s| <= |d|
    ensures forall k :: 0 <= k < |s| ==> !s[k].Addition?
  {
    if |d| == 0 then []
    else SideOne(d[..|d| - 1]) + (if d[|d| - 1].Addition? then [] else [d[|d| - 1]])
  }

  /** The entries that belong to file 2 (Addition and Unchanged), in order. */
  function SideTwo(d: seq<DiffElement>): (s: seq<DiffElement>)
    ensures |s| <= |d|
    ensures forall k :: 0 <= k < |s| ==> !s[k].Removal?
  {
    if |d| == 0 then []
    else SideTwo(d[..|d| - 1]) + (if d[|d| - 1].Removal? then [] else [d[|d| - 1]])
  }

  function Contents(d: seq<DiffElement>): (s: seq<string>)
    ensures |s| == |d|
    ensures forall k :: 0 <= k < |d| ==> s[k] == d[k].content
  {
    seq(|d|, k requires 0 <= k < |d| => d[k].content)
  }

  /** The lines of file 1 that a diff describes. */
  function FileOneView(d: seq<DiffElement>): seq<string>
  {
    Contents(SideOne(d))
  }

  /** The lines of file 2 that a diff describes (an Unchanged entry contributes its own text). */
  function FileTwoView(d: seq<DiffElement>): seq<string>
  {
    Contents(SideTwo(d))
  }

  /** How many entries of `d` have tag `t`. */
  function CountOf(d: seq<DiffElement>, t: ElementType): (c: nat)
    ensures c <= |d|
  {
    if |d| == 0 then 0
    else CountOf(d[..|d| - 1], t) + (if d[|d| - 1].GetType() == t then 1 else 0)
  }

  /** Concatenating two diffs concatenates their sides, views and tag counts. */
  lemma ViewsAppend(d1: seq<DiffElement>, d2: seq<DiffElement>)
    ensures SideOne(d1 + d2) == SideOne(d1) + SideOne(d2)
    ensures SideTwo(d1 + d2) == SideTwo(d1) + SideTwo(d2)
    ensures forall t :: CountOf(d1 + d2, t) == CountOf(d1, t) + CountOf(d2, t)
    ensures FileOneView(d1 + d2) == FileOneView(d1) + FileOneView(d2)
    ensures FileTwoView(d1 + d2) == FileTwoView(d1) + FileTwoView(d2)
  {
    SideOneAppend(d1, d2);
    SideTwoAppend(d1, d2);
    forall t
      ensures CountOf(d1 + d2, t) == CountOf(d1, t) + CountOf(d2, t)
    {
      CountAppend(d1, d2, t);
    }
    ContentsAppend(SideOne(d1), SideOne(d2));
    ContentsAppend(SideTwo(d1), SideTwo(d2));
  }

  lemma {:induction false} SideOneAppend(d1: seq<DiffElement>, d2: seq<DiffElement>)
    ensures SideOne(d1 + d2) == SideOne(d1) + SideOne(d2)
    decreases |d2|
  {
    if |d2| == 0 {
      assert d1 + d2 == d1;
    } else {
      var init, last := d2[..|d2| - 1], d2[|d2| - 1];
      SideOneAppend(d1, init);
      assert d2 == init + [last];
      assert d1 + d2 == (d1 + init) + [last];
      assert SideOne(d1 + d2) == SideOne(d1 + init) + (if last.Addition? then [] else [last]) by {
        assert (d1 + d2)[..|d1 + d2| - 1] == d1 + init;
      }
      assert SideOne(d2) == SideOne(init) + (if last.Addition? then [] else [last]);
    }
  }

  lemma {:induction false} SideTwoAppend(d1: seq<DiffElement>, d2: seq<DiffElement>)
    ensures SideTwo(d1 + d2) == SideTwo(d1) + SideTwo(d2)
    decreases |d2|
  {
    if |d2| == 0 {
      assert d1 + d2 == d1;
    } else {
      var init, last := d2[..|d2| - 1], d2[|d2| - 1];
      SideTwoAppend(d1, init);
      assert d2 == init + [last];
      assert d1 + d2 == (d1 + init) + [last];
      assert SideTwo(d1 + d2) == SideTwo(d1 + init) + (if last.Removal? then [] else [last]) by {
        assert (d1 + d2)[..|d1 + d2| - 1] == d1 + init;
      }
      assert SideTwo(d2) == SideTwo(init) + (if last.Removal? then [] else [last]);
    }
  }

  lemma {:induction false} CountAppend(d1: seq<DiffElement>, d2: seq<DiffElement>, t: ElementType)
    ensures CountOf(d1 + d2, t) == CountOf(d1, t) + CountOf(d2, t)
    decreases |d2|
  {
    if |d2| == 0 {
      assert d1 + d2 == d1;
    } else {
      var init, last := d2[..|d2| - 1], d2[|d2| - 1];
      CountAppend(d1, init, t);
      assert d2 == init + [last];
      assert d1 + d2 == (d1 + init) + [last];
      CountSnoc(d1 + init, last, t);
      CountSnoc(init, last, t);
    }
  }

  lemma ContentsAppend(d1: seq<DiffElement>, d2: seq<DiffElement>)
    ensures Contents(d1 + d2) == Contents(d1) + Contents(d2)
  {
  }

  /** Appending one entry extends the side(s) it belongs to. */
  lemma SidesSnoc(d: seq<DiffElement>, e: DiffElement)
    ensures SideOne(d + [e]) == SideOne(d) + (if e.Addition? then [] else [e])
    ensures SideTwo(d + [e]) == SideTwo(d) + (if e.Removal? then [] else [e])
  {
    assert (d + [e])[..|d|] == d;
  }

  lemma CountSnoc(d: seq<DiffElement>, e: DiffElement, t: ElementType)
    ensures CountOf(d + [e], t) == CountOf(d, t) + (if e.GetType() == t then 1 else 0)
  {
    assert (d + [e])[..|d|] == d;
  }

  /** A diff without Additions is all file 1; one without Removals is all file 2. */
  lemma {:induction false} SidesWithoutOtherTag(d: seq<DiffElement>)
    ensures (forall k :: 0 <= k < |d| ==> !d[k].Addition?) ==> SideOne(d) == d
    ensures (forall k :: 0 <= k < |d| ==> !d[k].Removal?) ==> SideTwo(d) == d
  {
    if |d| > 0 {
      SidesWithoutOtherTag(d[..|d| - 1]);
    }
  }

  /** A diff's length splits by tag, and each file's view counts the entries it owns. */
  lemma {:induction false} CountsBySide(d: seq<DiffElement>)
    ensures |d| == CountOf(d, ADDITION) + CountOf(d, REMOVAL) + CountOf(d, UNCHANGED)
    ensures |SideOne(d)| == CountOf(d, REMOVAL) + CountOf(d, UNCHANGED)
    ensures |SideTwo(d)| == CountOf(d, ADDITION) + CountOf(d, UNCHANGED)
  {
    if |d| > 0 {
      CountsBySide(d[..|d| - 1]);
    }
  }

  /** Two diffs with the same tags and contents position by position describe the same files. */
  lemma {:induction false} ViewsPointwise(d: seq<DiffElement>, e: seq<DiffElement>)
    requires |d| == |e|
    requires forall k :: 0 <= k < |d| ==> d[k].GetType() == e[k].GetType() && d[k].content == e[k].content
    ensures FileOneView(d) == FileOneView(e)
    ensures FileTwoView(d) == FileTwoView(e)
    ensures forall t :: CountOf(d, t) == CountOf(e, t)
  {
    if |d| > 0 {
      var n := |d| - 1;
      ViewsPointwise(d[..n], e[..n]);
      assert d == d[..n] + [d[n]];
      assert e == e[..n] + [e[n]];
      ViewsAppend(d[..n], [d[n]]);
      ViewsAppend(e[..n], [e[n]]);
    }
  }
}
