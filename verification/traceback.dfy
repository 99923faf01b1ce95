/**
  The LCS traceback shared by the plain line diff and the CSV row diff. It walks the table
  backward from (n, m) to (0, 0), comparing KEYS (the lines themselves, or their parsed rows)
  and emitting entries that carry the TEXT of the lines. The entries come out last-first,
  as the source's `results` list does, and are then reversed.
 */
module Traceback {
  import opened Wrappers
  import opened Elements
  import opened Lcs

  /** One step of the traceback: an Unchanged line, an Addition, or a Removal. */
  datatype Move = Diagonal | Insert | Delete

  function Reverse<T>(s: seq<T>): (r: seq<T>)
    ensures |r| == |s|
    ensures forall k :: 0 <= k < |s| ==> r[k] == s[|s| - 1 - k]
  {
    if |s| == 0 then [] else Reverse(s[1..]) + [s[0]]
  }

  function MapSeq<K>(f: string -> K, s: seq<string>): (r: seq<K>)
    ensures |r| == |s|
    ensures forall k :: 0 <= k < |s| ==> r[k] == f(s[k])
  {
    seq(|s|, k requires 0 <= k < |s| => f(s[k]))
  }

  /**
    The branch the loop of `diff_traditional` (differ.py) takes at (i, j): exhausted sides
    first, then a matching pair, then toward the larger neighbour, preferring an Addition
    when the two neighbours are equal.
   */
  function PlainMove<K(==)>(ka: seq<K>, kb: seq<K>, i: nat, j: nat): (mv: Move)
    requires i <= |ka| && j <= |kb| && i + j > 0
    ensures mv == Diagonal ==> 0 < i && 0 < j && ka[i - 1] == kb[j - 1]
    ensures mv == Insert ==> 0 < j
    ensures mv == Delete ==> 0 < i
  {
    if i == 0 then Insert
    else if j == 0 then Delete
    else if ka[i - 1] == kb[j - 1] then Diagonal
    else if LcsLength(ka, kb, i - 1, j) <= LcsLength(ka, kb, i, j - 1) then Insert
    else Delete
  }

  /**
    The branch chain of the Java `diffTraditional` loop and of both ports' CSV traceback:
    three guarded branches and a final error branch that breaks out of the loop (None).
   */
  function ChainMove<K(==)>(ka: seq<K>, kb: seq<K>, i: nat, j: nat): (mv: Option<Move>)
    requires i <= |ka| && j <= |kb|
    ensures mv == None ==> i == 0 && j == 0
  {
    if i > 0 && j > 0 && ka[i - 1] == kb[j - 1] then Some(Diagonal)
    else if j > 0 && (i == 0 || LcsLength(ka, kb, i, j - 1) >= LcsLength(ka, kb, i - 1, j)) then Some(Insert)
    else if i > 0 && (j == 0 || LcsLength(ka, kb, i, j - 1) < LcsLength(ka, kb, i - 1, j)) then Some(Delete)
    else None
  }

  /**
    While (i, j) is not (0, 0) one of the three Java branches always fires, so the error
    branch is unreachable, and it fires exactly where the Python loop goes: the two ports
    trace back identically, including the tie-break toward an Addition.
   */
  lemma MovesAgree<K>(ka: seq<K>, kb: seq<K>, i: nat, j: nat)
    requires i <= |ka| && j <= |kb| && i + j > 0
    ensures ChainMove(ka, kb, i, j) == Some(PlainMove(ka, kb, i, j))
    ensures ChainMove(ka, kb, i, j) != None
  {
  }

  /**
    The Java `diffTraditional` loop's `results`: the branch chain of `ChainMove`, stopping
    when the error branch fires.
   */
  function ChainEmit<K(==)>(ka: seq<K>, kb: seq<K>, ta: seq<string>, tb: seq<string>, i: nat, j: nat): (steps: seq<DiffElement>)
    requires |ka| == |ta| && |kb| == |tb| && i <= |ka| && j <= |kb|
    ensures forall k :: 0 <= k < |steps| ==> steps[k].IsPlain()
    decreases i + j
  {
    if i == 0 && j == 0 then []
    else
      match ChainMove(ka, kb, i, j)
      case Some(Diagonal) => [NewUnchanged(ta[i - 1])] + ChainEmit(ka, kb, ta, tb, i - 1, j - 1)
      case Some(Insert) => [NewAddition(tb[j - 1])] + ChainEmit(ka, kb, ta, tb, i, j - 1)
      case Some(Delete) => [NewRemoval(ta[i - 1])] + ChainEmit(ka, kb, ta, tb, i - 1, j)
      case None => []
  }

  /** The Java loop never breaks early and emits exactly what the Python loop emits. */
  lemma {:induction false} ChainEmitIsEmit<K>(ka: seq<K>, kb: seq<K>, ta: seq<string>, tb: seq<string>, i: nat, j: nat)
    requires |ka| == |ta| && |kb| == |tb| && i <= |ka| && j <= |kb|
    ensures ChainEmit(ka, kb, ta, tb, i, j) == Emit(ka, kb, ta, tb, i, j)
    decreases i + j
  {
    if i + j > 0 {
      MovesAgree(ka, kb, i, j);
      var mv := PlainMove(ka, kb, i, j);
      var ni, nj := if mv == Insert then i else i - 1, if mv == Delete then j else j - 1;
      ChainEmitIsEmit(ka, kb, ta, tb, ni, nj);
    }
  }

  /** The `results` list of the traceback from (i, j), in the order it is appended to. */
  function Emit<K(==)>(ka: seq<K>, kb: seq<K>, ta: seq<string>, tb: seq<string>, i: nat, j: nat): (steps: seq<DiffElement>)
    requires |ka| == |ta| && |kb| == |tb| && i <= |ka| && j <= |kb|
    ensures forall k :: 0 <= k < |steps| ==> steps[k].IsPlain()
    decreases i + j
  {
    if i == 0 && j == 0 then []
    else
      match PlainMove(ka, kb, i, j)
      case Diagonal => [NewUnchanged(ta[i - 1])] + Emit(ka, kb, ta, tb, i - 1, j - 1)
      case Insert => [NewAddition(tb[j - 1])] + Emit(ka, kb, ta, tb, i, j - 1)
      case Delete => [NewRemoval(ta[i - 1])] + Emit(ka, kb, ta, tb, i - 1, j)
  }

  /** The diff of the prefixes ta[..i] and tb[..j]: the emitted list, reversed. */
  function TracebackTo<K(==)>(ka: seq<K>, kb: seq<K>, ta: seq<string>, tb: seq<string>, i: nat, j: nat): seq<DiffElement>
    requires |ka| == |ta| && |kb| == |tb| && i <= |ka| && j <= |kb|
  {
    Reverse(Emit(ka, kb, ta, tb, i, j))
  }

  /** The whole diff: traceback from (n, m). */
  function BacktrackDiff<K(==)>(ka: seq<K>, kb: seq<K>, ta: seq<string>, tb: seq<string>): seq<DiffElement>
    requires |ka| == |ta| && |kb| == |tb|
  {
    TracebackTo(ka, kb, ta, tb, |ka|, |kb|)
  }

  lemma ReverseCons<T>(x: T, s: seq<T>)
    ensures Reverse([x] + s) == Reverse(s) + [x]
  {
    assert ([x] + s)[1..] == s;
  }

  /** Reversal turns each step, emitted first, into the LAST entry of the prefix diff. */
  lemma TracebackToStep<K>(ka: seq<K>, kb: seq<K>, ta: seq<string>, tb: seq<string>, i: nat, j: nat)
    requires |ka| == |ta| && |kb| == |tb| && i <= |ka| && j <= |kb| && i + j > 0
    ensures PlainMove(ka, kb, i, j) == Diagonal ==>
      TracebackTo(ka, kb, ta, tb, i, j) == TracebackTo(ka, kb, ta, tb, i - 1, j - 1) + [NewUnchanged(ta[i - 1])]
    ensures PlainMove(ka, kb, i, j) == Insert ==>
      TracebackTo(ka, kb, ta, tb, i, j) == TracebackTo(ka, kb, ta, tb, i, j - 1) + [NewAddition(tb[j - 1])]
    ensures PlainMove(ka, kb, i, j) == Delete ==>
      TracebackTo(ka, kb, ta, tb, i, j) == TracebackTo(ka, kb, ta, tb, i - 1, j) + [NewRemoval(ta[i - 1])]
  {
    match PlainMove(ka, kb, i, j)
    case Diagonal => ReverseCons(NewUnchanged(ta[i - 1]), Emit(ka, kb, ta, tb, i - 1, j - 1));
    case Insert => ReverseCons(NewAddition(tb[j - 1]), Emit(ka, kb, ta, tb, i, j - 1));
    case Delete => ReverseCons(NewRemoval(ta[i - 1]), Emit(ka, kb, ta, tb, i - 1, j));
  }

  /**
    Reconstruction and optimality of the prefix diff. File 1's view is exactly ta[..i]; file
    2's view, read through the key function `f`, is exactly kb[..j] (an Unchanged entry
    carries file-1 text whose key equals the file-2 key); the number of Unchanged entries is
    the LCS length of the prefixes.
   */
  lemma {:induction false} TracebackReconstructs<K>(f: string -> K, ka: seq<K>, kb: seq<K>,
                                                   ta: seq<string>, tb: seq<string>, i: nat, j: nat)
    requires |ka| == |ta| && |kb| == |tb| && i <= |ka| && j <= |kb|
    requires forall k :: 0 <= k < |ta| ==> f(ta[k]) == ka[k]
    requires forall k :: 0 <= k < |tb| ==> f(tb[k]) == kb[k]
    ensures FileOneView(TracebackTo(ka, kb, ta, tb, i, j)) == ta[..i]
    ensures MapSeq(f, FileTwoView(TracebackTo(ka, kb, ta, tb, i, j))) == kb[..j]
    ensures CountOf(TracebackTo(ka, kb, ta, tb, i, j), UNCHANGED) == LcsLength(ka, kb, i, j)
    decreases i + j
  {
    if i + j > 0 {
      var mv := PlainMove(ka, kb, i, j);
      TracebackReconstructs(f, ka, kb, ta, tb, if mv == Insert then i else i - 1, if mv == Delete then j else j - 1);
      ReconstructMove(f, ka, kb, ta, tb, i, j);
    }
  }

  /** The inductive step of `TracebackReconstructs`, by the move taken at (i, j). */
  lemma ReconstructMove<K>(f: string -> K, ka: seq<K>, kb: seq<K>, ta: seq<string>, tb: seq<string>, i: nat, j: nat)
    requires |ka| == |ta| && |kb| == |tb| && i <= |ka| && j <= |kb| && i + j > 0
    requires forall k :: 0 <= k < |ta| ==> f(ta[k]) == ka[k]
    requires forall k :: 0 <= k < |tb| ==> f(tb[k]) == kb[k]
    requires var mv := PlainMove(ka, kb, i, j);
      var ni, nj := if mv == Insert then i else i - 1, if mv == Delete then j else j - 1;
      && FileOneView(TracebackTo(ka, kb, ta, tb, ni, nj)) == ta[..ni]
      && MapSeq(f, FileTwoView(TracebackTo(ka, kb, ta, tb, ni, nj))) == kb[..nj]
      && CountOf(TracebackTo(ka, kb, ta, tb, ni, nj), UNCHANGED) == LcsLength(ka, kb, ni, nj)
    ensures FileOneView(TracebackTo(ka, kb, ta, tb, i, j)) == ta[..i]
    ensures MapSeq(f, FileTwoView(TracebackTo(ka, kb, ta, tb, i, j))) == kb[..j]
    ensures CountOf(TracebackTo(ka, kb, ta, tb, i, j), UNCHANGED) == LcsLength(ka, kb, i, j)
  {
    match PlainMove(ka, kb, i, j)
    case Diagonal => ReconstructDiagonal(f, ka, kb, ta, tb, i, j);
    case Insert => ReconstructInsert(f, ka, kb, ta, tb, i, j);
    case Delete => ReconstructDelete(f, ka, kb, ta, tb, i, j);
  }

  /** The inductive step of `TracebackReconstructs` for an Unchanged entry. */
  lemma ReconstructDiagonal<K>(f: string -> K, ka: seq<K>, kb: seq<K>, ta: seq<string>, tb: seq<string>, i: nat, j: nat)
    requires |ka| == |ta| && |kb| == |tb| && i <= |ka| && j <= |kb| && i + j > 0
    requires forall k :: 0 <= k < |ta| ==> f(ta[k]) == ka[k]
    requires PlainMove(ka, kb, i, j) == Diagonal
    requires FileOneView(TracebackTo(ka, kb, ta, tb, i - 1, j - 1)) == ta[..i - 1]
    requires MapSeq(f, FileTwoView(TracebackTo(ka, kb, ta, tb, i - 1, j - 1))) == kb[..j - 1]
    requires CountOf(TracebackTo(ka, kb, ta, tb, i - 1, j - 1), UNCHANGED) == LcsLength(ka, kb, i - 1, j - 1)
    ensures FileOneView(TracebackTo(ka, kb, ta, tb, i, j)) == ta[..i]
    ensures MapSeq(f, FileTwoView(TracebackTo(ka, kb, ta, tb, i, j))) == kb[..j]
    ensures CountOf(TracebackTo(ka, kb, ta, tb, i, j), UNCHANGED) == LcsLength(ka, kb, i, j)
  {
    TracebackToStep(ka, kb, ta, tb, i, j);
    MoveFollowsTable(ka, kb, i, j);
    var prev := TracebackTo(ka, kb, ta, tb, i - 1, j - 1);
    ReconstructStep(f, prev, NewUnchanged(ta[i - 1]));
    PrefixSnoc(ta, i);
    PrefixSnoc(kb, j);
    assert f(ta[i - 1]) == kb[j - 1];
  }

  /** The inductive step of `TracebackReconstructs` for an Addition. */
  lemma ReconstructInsert<K>(f: string -> K, ka: seq<K>, kb: seq<K>, ta: seq<string>, tb: seq<string>, i: nat, j: nat)
    requires |ka| == |ta| && |kb| == |tb| && i <= |ka| && j <= |kb| && i + j > 0
    requires forall k :: 0 <= k < |tb| ==> f(tb[k]) == kb[k]
    requires PlainMove(ka, kb, i, j) == Insert
    requires FileOneView(TracebackTo(ka, kb, ta, tb, i, j - 1)) == ta[..i]
    requires MapSeq(f, FileTwoView(TracebackTo(ka, kb, ta, tb, i, j - 1))) == kb[..j - 1]
    requires CountOf(TracebackTo(ka, kb, ta, tb, i, j - 1), UNCHANGED) == LcsLength(ka, kb, i, j - 1)
    ensures FileOneView(TracebackTo(ka, kb, ta, tb, i, j)) == ta[..i]
    ensures MapSeq(f, FileTwoView(TracebackTo(ka, kb, ta, tb, i, j))) == kb[..j]
    ensures CountOf(TracebackTo(ka, kb, ta, tb, i, j), UNCHANGED) == LcsLength(ka, kb, i, j)
  {
    TracebackToStep(ka, kb, ta, tb, i, j);
    MoveFollowsTable(ka, kb, i, j);
    var prev := TracebackTo(ka, kb, ta, tb, i, j - 1);
    ReconstructStep(f, prev, NewAddition(tb[j - 1]));
    PrefixSnoc(kb, j);
    assert f(tb[j - 1]) == kb[j - 1];
  }

  /** The inductive step of `TracebackReconstructs` for a Removal. */
  lemma ReconstructDelete<K>(f: string -> K, ka: seq<K>, kb: seq<K>, ta: seq<string>, tb: seq<string>, i: nat, j: nat)
    requires |ka| == |ta| && |kb| == |tb| && i <= |ka| && j <= |kb| && i + j > 0
    requires PlainMove(ka, kb, i, j) == Delete
    requires FileOneView(TracebackTo(ka, kb, ta, tb, i - 1, j)) == ta[..i - 1]
    requires MapSeq(f, FileTwoView(TracebackTo(ka, kb, ta, tb, i - 1, j))) == kb[..j]
    requires CountOf(TracebackTo(ka, kb, ta, tb, i - 1, j), UNCHANGED) == LcsLength(ka, kb, i - 1, j)
    ensures FileOneView(TracebackTo(ka, kb, ta, tb, i, j)) == ta[..i]
    ensures MapSeq(f, FileTwoView(TracebackTo(ka, kb, ta, tb, i, j))) == kb[..j]
    ensures CountOf(TracebackTo(ka, kb, ta, tb, i, j), UNCHANGED) == LcsLength(ka, kb, i, j)
  {
    TracebackToStep(ka, kb, ta, tb, i, j);
    MoveFollowsTable(ka, kb, i, j);
    var prev := TracebackTo(ka, kb, ta, tb, i - 1, j);
    ReconstructStep(f, prev, NewRemoval(ta[i - 1]));
    PrefixSnoc(ta, i);
  }

  lemma PrefixSnoc<T>(s: seq<T>, i: nat)
    requires 0 < i <= |s|
    ensures s[..i] == s[..i - 1] + [s[i - 1]]
  {
  }

  /** Each move steps to a neighbour whose cell accounts for the current one. */
  lemma MoveFollowsTable<K>(ka: seq<K>, kb: seq<K>, i: nat, j: nat)
    requires i <= |ka| && j <= |kb| && i + j > 0
    ensures PlainMove(ka, kb, i, j) == Diagonal ==> LcsLength(ka, kb, i, j) == LcsLength(ka, kb, i - 1, j - 1) + 1
    ensures PlainMove(ka, kb, i, j) == Insert ==> LcsLength(ka, kb, i, j) == LcsLength(ka, kb, i, j - 1)
    ensures PlainMove(ka, kb, i, j) == Delete ==> LcsLength(ka, kb, i, j) == LcsLength(ka, kb, i - 1, j)
  {
  }

  /** How appending one entry changes the two views and the Unchanged count. */
  lemma ReconstructStep<K>(f: string -> K, prev: seq<DiffElement>, e: DiffElement)
    ensures FileOneView(prev + [e]) == FileOneView(prev) + (if e.Addition? then [] else [e.content])
    ensures MapSeq(f, FileTwoView(prev + [e])) == MapSeq(f, FileTwoView(prev)) + (if e.Removal? then [] else [f(e.content)])
    ensures CountOf(prev + [e], UNCHANGED) == CountOf(prev, UNCHANGED) + (if e.Unchanged? then 1 else 0)
  {
    OneViewSnoc(prev, e);
    MappedViewSnoc(f, prev, e);
    CountSnoc(prev, e, UNCHANGED);
  }

  lemma OneViewSnoc(prev: seq<DiffElement>, e: DiffElement)
    ensures FileOneView(prev + [e]) == FileOneView(prev) + (if e.Addition? then [] else [e.content])
  {
    SidesSnoc(prev, e);
    var one: seq<DiffElement> := if e.Addition? then [] else [e];
    ContentsAppend(SideOne(prev), one);
    assert Contents(one) == (if e.Addition? then [] else [e.content]);
  }

  lemma MappedViewSnoc<K>(f: string -> K, prev: seq<DiffElement>, e: DiffElement)
    ensures MapSeq(f, FileTwoView(prev + [e])) == MapSeq(f, FileTwoView(prev)) + (if e.Removal? then [] else [f(e.content)])
  {
    SidesSnoc(prev, e);
    var two: seq<DiffElement> := if e.Removal? then [] else [e];
    var texts := Contents(two);
    ContentsAppend(SideTwo(prev), two);
    assert FileTwoView(prev + [e]) == FileTwoView(prev) + texts;
    MapSeqAppend(f, FileTwoView(prev), texts);
    assert MapSeq(f, texts) == (if e.Removal? then [] else [f(e.content)]);
  }

  lemma MapSeqAppend<K>(f: string -> K, a: seq<string>, b: seq<string>)
    ensures MapSeq(f, a + b) == MapSeq(f, a) + MapSeq(f, b)
  {
  }

  /** Entry counts: T[n][m] Unchanged, n - T[n][m] Removals and m - T[n][m] Additions. */
  lemma TracebackCounts<K>(f: string -> K, ka: seq<K>, kb: seq<K>, ta: seq<string>, tb: seq<string>)
    requires |ka| == |ta| && |kb| == |tb|
    requires forall k :: 0 <= k < |ta| ==> f(ta[k]) == ka[k]
    requires forall k :: 0 <= k < |tb| ==> f(tb[k]) == kb[k]
    ensures var d := BacktrackDiff(ka, kb, ta, tb);
      var common := LcsLength(ka, kb, |ka|, |kb|);
      && CountOf(d, UNCHANGED) == common
      && CountOf(d, REMOVAL) == |ka| - common
      && CountOf(d, ADDITION) == |kb| - common
  {
    var d := BacktrackDiff(ka, kb, ta, tb);
    TracebackReconstructs(f, ka, kb, ta, tb, |ka|, |kb|);
    CountsBySide(d);
    assert |FileOneView(d)| == |ta[..|ka|]|;
    assert |MapSeq(f, FileTwoView(d))| == |kb[..|kb|]|;
  }

  /** Diffing a sequence against itself: every line Unchanged, in order. */
  lemma {:induction false} TracebackIdentity<K>(ka: seq<K>, ta: seq<string>, i: nat)
    requires |ka| == |ta| && i <= |ka|
    ensures TracebackTo(ka, ka, ta, ta, i, i) == seq(i, k requires 0 <= k < i => NewUnchanged(ta[k]))
  {
    if i > 0 {
      TracebackToStep(ka, ka, ta, ta, i, i);
      TracebackIdentity(ka, ta, i - 1);
    }
  }

  /** Against an empty file 2: every line of file 1 is a Removal, in order. */
  lemma {:induction false} TracebackAllRemovals<K>(ka: seq<K>, kb: seq<K>, ta: seq<string>, tb: seq<string>, i: nat)
    requires |ka| == |ta| && |kb| == |tb| == 0 && i <= |ka|
    ensures TracebackTo(ka, kb, ta, tb, i, 0) == seq(i, k requires 0 <= k < i => NewRemoval(ta[k]))
  {
    if i > 0 {
      TracebackToStep(ka, kb, ta, tb, i, 0);
      TracebackAllRemovals(ka, kb, ta, tb, i - 1);
    }
  }

  /** From an empty file 1: every line of file 2 is an Addition, in order. */
  lemma {:induction false} TracebackAllAdditions<K>(ka: seq<K>, kb: seq<K>, ta: seq<string>, tb: seq<string>, j: nat)
    requires |ka| == |ta| == 0 && |kb| == |tb| && j <= |kb|
    ensures TracebackTo(ka, kb, ta, tb, 0, j) == seq(j, k requires 0 <= k < j => NewAddition(tb[k]))
  {
    if j > 0 {
      TracebackToStep(ka, kb, ta, tb, 0, j);
      TracebackAllAdditions(ka, kb, ta, tb, j - 1);
    }
  }
}
