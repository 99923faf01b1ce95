/**
  The diff entry points of both ports: the CSV-or-plain dispatch (`diff`), the plain line
  diff (`diff_traditional` / `diffTraditional`) and the CSV row diff (`diff_csv` /
  `diffCsv`). CSV field parsing is not modelled: the parser is the parameter `parse`,
  applied to one line at a time.
 */
module Differ {
  import opened Wrappers
  import opened Elements
  import opened Lcs
  import opened Traceback
  import opened Similarity
  import opened Modifications

  // ---------------------------------------------------------------------------
  // Dispatch
  // ---------------------------------------------------------------------------

  function CommaLines(lines: seq<string>): (c: nat)
    ensures c <= |lines|
    ensures c == |lines| <==> forall k :: 0 <= k < |lines| ==> ',' in lines[k]
  {
    if |lines| == 0 then 0
    else CommaLines(lines[..|lines| - 1]) + (if ',' in lines[|lines| - 1] then 1 else 0)
  }

  /**
    Whether the input goes down the CSV path. Python compares the count with 80% of the
    length (`comma_lines > len * 0.8`); Java first requires a non-empty list and then
    compares the ratio (`commaLines / size > 0.8`). Both are read in exact arithmetic.
   */
  predicate LikelyCsv(port: Port, lines1: seq<string>, lines2: seq<string>): (csv: bool)
    ensures csv ==> |lines1| > 0 && |lines2| > 0
  {
    match port
    case Python =>
      && CommaLines(lines1) as real > |lines1| as real * 0.8
      && CommaLines(lines2) as real > |lines2| as real * 0.8
    case Java =>
      && |lines1| > 0 && CommaLines(lines1) as real / |lines1| as real > 0.8
      && |lines2| > 0 && CommaLines(lines2) as real / |lines2| as real > 0.8
  }

  lemma RatioAboveFourFifths(c: nat, n: nat)
    ensures c as real > n as real * 0.8 <==> 5 * c > 4 * n
    ensures n > 0 ==> (c as real / n as real > 0.8 <==> 5 * c > 4 * n)
  {
    var cr, nr := c as real, n as real;
    assert (5 * c) as real == 5.0 * cr && (4 * n) as real == 4.0 * nr;
    assert cr > nr * 0.8 <==> 5.0 * cr > 4.0 * nr;
    if n > 0 {
      var q := cr / nr;
      assert q * nr == cr;
      ScaleByPositive(q, 0.8, nr);
    }
  }

  lemma ScaleByPositive(x: real, y: real, z: real)
    requires z > 0.0
    ensures x > y <==> x * z > y * z
  {
  }

  /**
    Both ports take the CSV path exactly when, in each input, more than four fifths of the
    lines contain a comma (5 * commaLines > 4 * length); an empty input never does.
   */
  lemma {:induction false} DispatchRule(port: Port, lines1: seq<string>, lines2: seq<string>)
    ensures LikelyCsv(port, lines1, lines2) <==>
      5 * CommaLines(lines1) > 4 * |lines1| && 5 * CommaLines(lines2) > 4 * |lines2|
    ensures |lines1| == 0 || |lines2| == 0 ==> !LikelyCsv(port, lines1, lines2)
    ensures LikelyCsv(Python, lines1, lines2) == LikelyCsv(Java, lines1, lines2)
  {
    RatioAboveFourFifths(CommaLines(lines1), |lines1|);
    RatioAboveFourFifths(CommaLines(lines2), |lines2|);
  }

  /** `diff`: the CSV diff when the inputs look tabular, the plain line diff otherwise. */
  function Diff(parse: string -> Row, port: Port, lines1: seq<string>, lines2: seq<string>): (d: seq<DiffElement>)
    ensures 5 * CommaLines(lines1) > 4 * |lines1| && 5 * CommaLines(lines2) > 4 * |lines2| ==>
      d == DiffCsv(parse, port, lines1, lines2)
    ensures !(5 * CommaLines(lines1) > 4 * |lines1| && 5 * CommaLines(lines2) > 4 * |lines2|) ==>
      d == DiffTraditional(lines1, lines2)
    ensures |lines1| == 0 || |lines2| == 0 ==> d == DiffTraditional(lines1, lines2)
  {
    DispatchRule(port, lines1, lines2);
    if LikelyCsv(port, lines1, lines2) then DiffCsv(parse, port, lines1, lines2)
    else DiffTraditional(lines1, lines2)
  }

  // ---------------------------------------------------------------------------
  // Plain line diff
  // ---------------------------------------------------------------------------

  function Identity(s: string): string { s }

  /**
    `diff_traditional` / `diffTraditional`: the traceback over lines. Removals and Unchanged
    lines spell out file 1, Additions and Unchanged lines spell out file 2, and the number
    of Unchanged lines is the LCS length.
   */
  function DiffTraditional(lines1: seq<string>, lines2: seq<string>): (d: seq<DiffElement>)
    ensures FileOneView(d) == lines1
    ensures FileTwoView(d) == lines2
    ensures CountOf(d, UNCHANGED) == LcsLength(lines1, lines2, |lines1|, |lines2|)
    ensures forall k :: 0 <= k < |d| ==> d[k].IsPlain()
  {
    var d := BacktrackDiff(lines1, lines2, lines1, lines2);
    TracebackReconstructs(Identity, lines1, lines2, lines1, lines2, |lines1|, |lines2|);
    assert lines1[..|lines1|] == lines1 && lines2[..|lines2|] == lines2;
    assert MapSeq(Identity, FileTwoView(d)) == FileTwoView(d);
    ReverseKeepsPlain(Emit(lines1, lines2, lines1, lines2, |lines1|, |lines2|));
    d
  }

  /**
    The Java `diffTraditional`: the branch chain with its error branch, then the reversal.
    It produces the same list as the Python `diff_traditional`, tie-break included.
   */
  function DiffTraditionalJava(lines1: seq<string>, lines2: seq<string>): (d: seq<DiffElement>)
    ensures d == DiffTraditional(lines1, lines2)
  {
    ChainEmitIsEmit(lines1, lines2, lines1, lines2, |lines1|, |lines2|);
    Reverse(ChainEmit(lines1, lines2, lines1, lines2, |lines1|, |lines2|))
  }

  lemma ReverseKeepsPlain(s: seq<DiffElement>)
    requires forall k :: 0 <= k < |s| ==> s[k].IsPlain()
    ensures forall k :: 0 <= k < |Reverse(s)| ==> Reverse(s)[k].IsPlain()
  {
    forall k | 0 <= k < |Reverse(s)|
      ensures Reverse(s)[k].IsPlain()
    {
      assert Reverse(s)[k] == s[|s| - 1 - k];
    }
  }

  /** Exactly T[n][m] Unchanged lines, n - T[n][m] Removals and m - T[n][m] Additions. */
  lemma DiffTraditionalCounts(lines1: seq<string>, lines2: seq<string>)
    ensures var d := DiffTraditional(lines1, lines2);
      var common := LcsLength(lines1, lines2, |lines1|, |lines2|);
      && CountOf(d, UNCHANGED) == common
      && CountOf(d, REMOVAL) == |lines1| - common
      && CountOf(d, ADDITION) == |lines2| - common
  {
    TracebackCounts(Identity, lines1, lines2, lines1, lines2);
  }

  /** A file diffed against itself is all Unchanged; against nothing, all Removals; from nothing, all Additions. */
  lemma DiffTraditionalDegenerate(lines: seq<string>)
    ensures DiffTraditional(lines, lines) == seq(|lines|, k requires 0 <= k < |lines| => NewUnchanged(lines[k]))
    ensures DiffTraditional(lines, []) == seq(|lines|, k requires 0 <= k < |lines| => NewRemoval(lines[k]))
    ensures DiffTraditional([], lines) == seq(|lines|, k requires 0 <= k < |lines| => NewAddition(lines[k]))
  {
    TracebackIdentity(lines, lines, |lines|);
    TracebackAllRemovals(lines, [], lines, [], |lines|);
    TracebackAllAdditions([], lines, [], lines, |lines|);
  }

  // ---------------------------------------------------------------------------
  // CSV row diff
  // ---------------------------------------------------------------------------

  /** One row per line. */
  function Rows(parse: string -> Row, lines: seq<string>): (rows: seq<Row>)
    ensures |rows| == |lines|
    ensures forall k :: 0 <= k < |lines| ==> rows[k] == parse(lines[k])
  {
    MapSeq(parse, lines)
  }

  /** Python's parser yields no fields for an empty line. */
  predicate ParsesEmptyLineToNoFields(parse: string -> Row)
  {
    parse("") == []
  }

  /** `identicalHeaders`: both inputs have a first row and the two first rows are equal. */
  predicate IdenticalHeaders(rows1: seq<Row>, rows2: seq<Row>)
  {
    |rows1| > 0 && |rows2| > 0 && rows1[0] == rows2[0]
  }

  /**
    The CSV traceback loop AS WRITTEN, in the order it appends: at (1, 1) with identical
    headers it steps to (0, 0) without emitting; otherwise the three-branch chain, whose
    error branch ends the loop.
   */
  function CsvEmit(rows1: seq<Row>, rows2: seq<Row>, lines1: seq<string>, lines2: seq<string>,
                   i: nat, j: nat, identicalHeaders: bool): (steps: seq<DiffElement>)
    requires |rows1| == |lines1| && |rows2| == |lines2| && i <= |rows1| && j <= |rows2|
    ensures forall k :: 0 <= k < |steps| ==> steps[k].IsPlain()
    decreases i + j
  {
    if i == 0 && j == 0 then []
    else if i == 1 && j == 1 && identicalHeaders then CsvEmit(rows1, rows2, lines1, lines2, 0, 0, identicalHeaders)
    else
      match ChainMove(rows1, rows2, i, j)
      case Some(Diagonal) =>
        [NewUnchanged(lines1[i - 1])] + CsvEmit(rows1, rows2, lines1, lines2, i - 1, j - 1, identicalHeaders)
      case Some(Insert) =>
        [NewAddition(lines2[j - 1])] + CsvEmit(rows1, rows2, lines1, lines2, i, j - 1, identicalHeaders)
      case Some(Delete) =>
        [NewRemoval(lines1[i - 1])] + CsvEmit(rows1, rows2, lines1, lines2, i - 1, j, identicalHeaders)
      case None => []
  }

  /**
    Steps 1-2 of `diff_csv` / `diffCsv` as written: the traceback, then the header appended
    as Unchanged whenever the headers are identical, then the reversal.
   */
  function CsvInitialResults(parse: string -> Row, lines1: seq<string>, lines2: seq<string>): (initial: seq<DiffElement>)
    ensures forall k :: 0 <= k < |initial| ==> initial[k].IsPlain()
  {
    var rows1 := Rows(parse, lines1);
    var rows2 := Rows(parse, lines2);
    var headers := IdenticalHeaders(rows1, rows2);
    Reverse(CsvEmit(rows1, rows2, lines1, lines2, |lines1|, |lines2|, headers)
            + (if headers then [NewUnchanged(lines1[0])] else []))
  }

  /** `diff_csv` / `diffCsv` as written: the traceback over rows, then the modification pass. */
  function DiffCsv(parse: string -> Row, port: Port, lines1: seq<string>, lines2: seq<string>): (d: seq<DiffElement>)
    ensures var initial := CsvInitialResults(parse, lines1, lines2);
      && |d| == |initial|
      && forall k :: 0 <= k < |d| ==> d[k].GetType() == initial[k].GetType() && d[k].content == initial[k].content
  {
    LinkModifications(parse, port, CsvInitialResults(parse, lines1, lines2))
  }

  /** The header row appears nowhere else in either input. */
  predicate HeaderOnlyFirst(rows1: seq<Row>, rows2: seq<Row>)
  {
    && IdenticalHeaders(rows1, rows2)
    && (forall k :: 1 <= k < |rows1| ==> rows1[k] != rows1[0])
    && (forall k :: 1 <= k < |rows2| ==> rows2[k] != rows2[0])
  }

  /** Without identical headers the CSV loop takes the plain traceback's steps. */
  lemma {:induction false} CsvEmitWithoutHeader(rows1: seq<Row>, rows2: seq<Row>, lines1: seq<string>, lines2: seq<string>, i: nat, j: nat)
    requires |rows1| == |lines1| && |rows2| == |lines2| && i <= |rows1| && j <= |rows2|
    ensures CsvEmit(rows1, rows2, lines1, lines2, i, j, false) == Emit(rows1, rows2, lines1, lines2, i, j)
    decreases i + j
  {
    if i + j > 0 {
      MovesAgree(rows1, rows2, i, j);
      match PlainMove(rows1, rows2, i, j)
      case Diagonal => CsvEmitWithoutHeader(rows1, rows2, lines1, lines2, i - 1, j - 1);
      case Insert => CsvEmitWithoutHeader(rows1, rows2, lines1, lines2, i, j - 1);
      case Delete => CsvEmitWithoutHeader(rows1, rows2, lines1, lines2, i - 1, j);
    }
  }

  /**
    With an identical header that appears nowhere else, every traceback path from a cell
    (i, j) with i, j >= 1 runs through (1, 1); skipping the header there and appending it
    afterwards yields exactly the plain traceback's list.
   */
  lemma {:induction false} CsvEmitWithHeader(rows1: seq<Row>, rows2: seq<Row>, lines1: seq<string>, lines2: seq<string>, i: nat, j: nat)
    requires |rows1| == |lines1| && |rows2| == |lines2| && 1 <= i <= |rows1| && 1 <= j <= |rows2|
    requires HeaderOnlyFirst(rows1, rows2)
    ensures CsvEmit(rows1, rows2, lines1, lines2, i, j, true) + [NewUnchanged(lines1[0])]
            == Emit(rows1, rows2, lines1, lines2, i, j)
    decreases i + j
  {
    var header := [NewUnchanged(lines1[0])];
    if i == 1 && j == 1 {
      assert PlainMove(rows1, rows2, 1, 1) == Diagonal;
      assert Emit(rows1, rows2, lines1, lines2, 1, 1) == header;
    } else {
      MovesAgree(rows1, rows2, i, j);
      match PlainMove(rows1, rows2, i, j)
      case Diagonal =>
        // the matched rows are equal, so neither is the header unless both are
        assert rows1[i - 1] == rows2[j - 1];
        assert i >= 2 && j >= 2;
        CsvEmitWithHeader(rows1, rows2, lines1, lines2, i - 1, j - 1);
        PrependStep(NewUnchanged(lines1[i - 1]), CsvEmit(rows1, rows2, lines1, lines2, i - 1, j - 1, true),
                    header, Emit(rows1, rows2, lines1, lines2, i - 1, j - 1));
      case Insert =>
        // matching the headers makes every cell (i', 1) with i' >= 1 worth 1, so the
        // traceback never moves left out of column 1
        assert LcsLength(rows1, rows2, 1, 1) == 1;
        if i >= 2 {
          LcsMonotone(rows1, rows2, 1, 1, i - 1, 1);
        }
        assert j >= 2;
        CsvEmitWithHeader(rows1, rows2, lines1, lines2, i, j - 1);
        PrependStep(NewAddition(lines2[j - 1]), CsvEmit(rows1, rows2, lines1, lines2, i, j - 1, true),
                    header, Emit(rows1, rows2, lines1, lines2, i, j - 1));
      case Delete =>
        // row 0 of the table is zero, so the traceback never moves up out of row 1
        assert LcsLength(rows1, rows2, 0, j) == 0;
        assert i >= 2;
        CsvEmitWithHeader(rows1, rows2, lines1, lines2, i - 1, j);
        PrependStep(NewRemoval(lines1[i - 1]), CsvEmit(rows1, rows2, lines1, lines2, i - 1, j, true),
                    header, Emit(rows1, rows2, lines1, lines2, i - 1, j));
    }
  }

  lemma PrependStep(x: DiffElement, rest: seq<DiffElement>, tail: seq<DiffElement>, whole: seq<DiffElement>)
    requires rest + tail == whole
    ensures ([x] + rest) + tail == [x] + whole
  {
  }

  /**
    When the headers differ, or are identical and appear nowhere else, the CSV traceback as
    written is the plain traceback over parsed rows.
   */
  lemma CsvInitialIsPlainTraceback(parse: string -> Row, lines1: seq<string>, lines2: seq<string>)
    requires var rows1 := Rows(parse, lines1); var rows2 := Rows(parse, lines2);
      !IdenticalHeaders(rows1, rows2) || HeaderOnlyFirst(rows1, rows2)
    ensures CsvInitialResults(parse, lines1, lines2)
            == BacktrackDiff(Rows(parse, lines1), Rows(parse, lines2), lines1, lines2)
  {
    var rows1 := Rows(parse, lines1);
    var rows2 := Rows(parse, lines2);
    if IdenticalHeaders(rows1, rows2) {
      CsvEmitWithHeader(rows1, rows2, lines1, lines2, |lines1|, |lines2|);
    } else {
      CsvEmitWithoutHeader(rows1, rows2, lines1, lines2, |lines1|, |lines2|);
      assert CsvEmit(rows1, rows2, lines1, lines2, |lines1|, |lines2|, false) + [] ==
             CsvEmit(rows1, rows2, lines1, lines2, |lines1|, |lines2|, false);
    }
  }

  /**
    Under the same condition the CSV diff as written reconstructs its inputs: Removals and
    Unchanged rows spell out `lines1`; Additions and Unchanged rows, parsed, spell out the
    parsed `lines2` (an Unchanged entry carries the file-1 text of an equal row); and
    Unchanged plus Additions number |lines2|.
   */
  lemma DiffCsvReconstructs(parse: string -> Row, port: Port, lines1: seq<string>, lines2: seq<string>)
    requires var rows1 := Rows(parse, lines1); var rows2 := Rows(parse, lines2);
      !IdenticalHeaders(rows1, rows2) || HeaderOnlyFirst(rows1, rows2)
    ensures var d := DiffCsv(parse, port, lines1, lines2);
      && FileOneView(d) == lines1
      && Rows(parse, FileTwoView(d)) == Rows(parse, lines2)
      && CountOf(d, UNCHANGED) + CountOf(d, ADDITION) == |lines2|
  {
    CsvInitialIsPlainTraceback(parse, lines1, lines2);
    CsvRowTracebackReconstructs(parse, lines1, lines2);
    LinkKeepsViews(PortPairing(parse, port), CsvInitialResults(parse, lines1, lines2));
    var d := DiffCsv(parse, port, lines1, lines2);
    CountsBySide(d);
    assert |Rows(parse, FileTwoView(d))| == |lines2|;
  }

  /** The plain traceback over parsed rows reconstructs both inputs, the second one parsed. */
  lemma CsvRowTracebackReconstructs(parse: string -> Row, lines1: seq<string>, lines2: seq<string>)
    ensures var d := BacktrackDiff(Rows(parse, lines1), Rows(parse, lines2), lines1, lines2);
      && FileOneView(d) == lines1
      && Rows(parse, FileTwoView(d)) == Rows(parse, lines2)
      && forall k :: 0 <= k < |d| ==> d[k].IsPlain()
  {
    var rows1 := Rows(parse, lines1);
    var rows2 := Rows(parse, lines2);
    TracebackReconstructs(parse, rows1, rows2, lines1, lines2, |lines1|, |lines2|);
    assert lines1[..|lines1|] == lines1 && rows2[..|rows2|] == rows2;
    ReverseKeepsPlain(Emit(rows1, rows2, lines1, lines2, |lines1|, |lines2|));
  }

  /**
    The CSV diff's links are consistent for every input: each linked Removal at p points at
    p + 1, which holds an Addition pointing back at p, and vice versa.
   */
  lemma DiffCsvLinksConsistent(parse: string -> Row, port: Port, lines1: seq<string>, lines2: seq<string>)
    ensures var r := DiffCsv(parse, port, lines1, lines2);
      && (forall p :: 0 <= p < |r| && r[p].Removal? && r[p].GetMatchedIndex().Some? ==>
            && p + 1 < |r| && r[p].GetMatchedIndex() == Some(p + 1)
            && r[p + 1].Addition? && r[p + 1].GetMatchedIndex() == Some(p))
      && (forall p :: 0 <= p < |r| && r[p].Addition? && r[p].GetMatchedIndex().Some? ==>
            && 0 < p && r[p].GetMatchedIndex() == Some(p - 1)
            && r[p - 1].Removal? && r[p - 1].GetMatchedIndex() == Some(p))
  {
    var initial := CsvInitialResults(parse, lines1, lines2);
    LinksConsistent(PortPairing(parse, port), initial);
    assert DiffCsv(parse, port, lines1, lines2) == LinkFrom(PortPairing(parse, port), initial, 0);
  }

  /**
    Where an entry of the CSV traceback may come from, given that it was emitted inside the
    top-left i x j corner of the table: an Unchanged entry carries the file-1 text of a row
    that equals some row of file 2, an Addition carries a file-2 line and a Removal a file-1
    line.
   */
  predicate Sourced(rows1: seq<Row>, rows2: seq<Row>, lines1: seq<string>, lines2: seq<string>,
                    i: nat, j: nat, x: DiffElement)
    requires |rows1| == |lines1| && |rows2| == |lines2| && i <= |rows1| && j <= |rows2|
  {
    && (x.Unchanged? ==> exists p, q :: 0 <= p < i && 0 <= q < j && rows1[p] == rows2[q] && x.content == lines1[p])
    && (x.Addition? ==> exists q :: 0 <= q < j && x.content == lines2[q])
    && (x.Removal? ==> exists p :: 0 <= p < i && x.content == lines1[p])
  }

  lemma SourcedWider(rows1: seq<Row>, rows2: seq<Row>, lines1: seq<string>, lines2: seq<string>,
                     i: nat, j: nat, i2: nat, j2: nat, x: DiffElement)
    requires |rows1| == |lines1| && |rows2| == |lines2| && i <= i2 <= |rows1| && j <= j2 <= |rows2|
    requires Sourced(rows1, rows2, lines1, lines2, i, j, x)
    ensures Sourced(rows1, rows2, lines1, lines2, i2, j2, x)
  {
    if x.Unchanged? {
      var p, q :| 0 <= p < i && 0 <= q < j && rows1[p] == rows2[q] && x.content == lines1[p];
    }
  }

  /** Every entry of the CSV traceback, for every input, is sourced from the table it walks. */
  lemma {:induction false} CsvEmitProvenance(rows1: seq<Row>, rows2: seq<Row>, lines1: seq<string>, lines2: seq<string>,
                                             i: nat, j: nat, identicalHeaders: bool)
    requires |rows1| == |lines1| && |rows2| == |lines2| && i <= |rows1| && j <= |rows2|
    ensures forall k :: 0 <= k < |CsvEmit(rows1, rows2, lines1, lines2, i, j, identicalHeaders)| ==>
      Sourced(rows1, rows2, lines1, lines2, i, j, CsvEmit(rows1, rows2, lines1, lines2, i, j, identicalHeaders)[k])
    decreases i + j, 0
  {
    if i + j > 0 && !(i == 1 && j == 1 && identicalHeaders) {
      var e := CsvEmit(rows1, rows2, lines1, lines2, i, j, identicalHeaders);
      var mv := ChainMove(rows1, rows2, i, j);
      if mv.Some? {
        var (i2, j2) := match mv.value
          case Diagonal => (i - 1, j - 1)
          case Insert => (i, j - 1)
          case Delete => (i - 1, j);
        var tail := CsvEmit(rows1, rows2, lines1, lines2, i2, j2, identicalHeaders);
        assert e == [e[0]] + tail;
        assert Sourced(rows1, rows2, lines1, lines2, i, j, e[0]) by {
          if mv.value == Diagonal {
            assert e[0] == NewUnchanged(lines1[i - 1]) && rows1[i - 1] == rows2[j - 1];
          }
        }
        ProvenanceStep(rows1, rows2, lines1, lines2, i, j, i2, j2, identicalHeaders);
        forall k | 1 <= k < |e|
          ensures Sourced(rows1, rows2, lines1, lines2, i, j, e[k])
        {
          assert e[k] == tail[k - 1];
        }
      }
    }
  }

  /** The entries emitted after the first step are sourced from the wider corner too. */
  lemma ProvenanceStep(rows1: seq<Row>, rows2: seq<Row>, lines1: seq<string>, lines2: seq<string>,
                       i: nat, j: nat, i2: nat, j2: nat, identicalHeaders: bool)
    requires |rows1| == |lines1| && |rows2| == |lines2| && i <= |rows1| && j <= |rows2|
    requires i2 <= i && j2 <= j && i2 + j2 < i + j
    ensures forall k :: 0 <= k < |CsvEmit(rows1, rows2, lines1, lines2, i2, j2, identicalHeaders)| ==>
      Sourced(rows1, rows2, lines1, lines2, i, j, CsvEmit(rows1, rows2, lines1, lines2, i2, j2, identicalHeaders)[k])
    decreases i2 + j2, 1
  {
    var tail := CsvEmit(rows1, rows2, lines1, lines2, i2, j2, identicalHeaders);
    CsvEmitProvenance(rows1, rows2, lines1, lines2, i2, j2, identicalHeaders);
    forall k | 0 <= k < |tail|
      ensures Sourced(rows1, rows2, lines1, lines2, i, j, tail[k])
    {
      SourcedWider(rows1, rows2, lines1, lines2, i2, j2, i, j, tail[k]);
    }
  }

  /**
    The provenance of the CSV diff's output, for every input (the header case included):
    every Unchanged line is file-1 text of a row equal to some row of file 2, every Addition
    is a line of file 2 and every Removal a line of file 1.
   */
  lemma DiffCsvSourced(parse: string -> Row, port: Port, lines1: seq<string>, lines2: seq<string>)
    ensures var d := DiffCsv(parse, port, lines1, lines2);
      forall k :: 0 <= k < |d| ==>
        Sourced(Rows(parse, lines1), Rows(parse, lines2), lines1, lines2, |lines1|, |lines2|, d[k])
  {
    var rows1 := Rows(parse, lines1);
    var rows2 := Rows(parse, lines2);
    var headers := IdenticalHeaders(rows1, rows2);
    var emitted := CsvEmit(rows1, rows2, lines1, lines2, |lines1|, |lines2|, headers);
    var appended := emitted + (if headers then [NewUnchanged(lines1[0])] else []);
    CsvEmitProvenance(rows1, rows2, lines1, lines2, |lines1|, |lines2|, headers);
    assert forall k :: 0 <= k < |appended| ==> Sourced(rows1, rows2, lines1, lines2, |lines1|, |lines2|, appended[k]) by {
      forall k | 0 <= k < |appended|
        ensures Sourced(rows1, rows2, lines1, lines2, |lines1|, |lines2|, appended[k])
      {
        if k < |emitted| {
          assert appended[k] == emitted[k];
        } else {
          assert appended[k] == NewUnchanged(lines1[0]) && rows1[0] == rows2[0];
        }
      }
    }
    var initial := Reverse(appended);
    assert initial == CsvInitialResults(parse, lines1, lines2);
    var d := LinkModifications(parse, port, initial);
    forall k | 0 <= k < |d|
      ensures Sourced(rows1, rows2, lines1, lines2, |lines1|, |lines2|, d[k])
    {
      assert initial[k] == appended[|appended| - 1 - k];
      assert d[k].GetType() == initial[k].GetType() && d[k].content == initial[k].content;
    }
  }

  /**
    A counterexample to reconstruction for the code as written: the header row repeated in
    file 1 (["a,b", "a,b"] against ["a,b"]). The traceback matches the second line, reaches
    (1, 0) rather than (1, 1), emits the first line as a Removal, and then the header is
    appended as Unchanged anyway, so file 1's view has three lines instead of two.
   */
  lemma HeaderDuplicated(parse: string -> Row, port: Port)
    ensures var lines1 := ["a,b", "a,b"]; var lines2 := ["a,b"];
      && LikelyCsv(port, lines1, lines2)
      && Diff(parse, port, lines1, lines2) == DiffCsv(parse, port, lines1, lines2)
      && DiffCsv(parse, port, lines1, lines2)
         == [NewUnchanged("a,b"), NewRemoval("a,b"), NewUnchanged("a,b")]
      && FileOneView(DiffCsv(parse, port, lines1, lines2)) == ["a,b", "a,b", "a,b"] != lines1
  {
    var lines1 := ["a,b", "a,b"];
    var lines2 := ["a,b"];
    var d := [NewUnchanged("a,b"), NewRemoval("a,b"), NewUnchanged("a,b")];
    HeaderDuplicatedIsCsv(port, lines1, lines2);
    assert Diff(parse, port, lines1, lines2) == DiffCsv(parse, port, lines1, lines2);
    HeaderDuplicatedInitial(parse, lines1, lines2);
    LinkWithoutPairs(PortPairing(parse, port), d, 0);
    assert DiffCsv(parse, port, lines1, lines2) == d;
    AllOnSideOne(d);
  }

  lemma AllOnSideOne(d: seq<DiffElement>)
    requires d == [NewUnchanged("a,b"), NewRemoval("a,b"), NewUnchanged("a,b")]
    ensures FileOneView(d) == ["a,b", "a,b", "a,b"]
  {
    SidesWithoutOtherTag(d);
  }

  lemma HeaderDuplicatedIsCsv(port: Port, lines1: seq<string>, lines2: seq<string>)
    requires lines1 == ["a,b", "a,b"] && lines2 == ["a,b"]
    ensures LikelyCsv(port, lines1, lines2)
  {
    assert ',' in "a,b";
    assert CommaLines(lines1[..1]) == 1 by { assert lines1[..1][..0] == []; }
    assert CommaLines(lines2) == 1 by { assert lines2[..0] == []; }
    DispatchRule(port, lines1, lines2);
  }

  lemma HeaderDuplicatedInitial(parse: string -> Row, lines1: seq<string>, lines2: seq<string>)
    requires lines1 == ["a,b", "a,b"] && lines2 == ["a,b"]
    ensures CsvInitialResults(parse, lines1, lines2)
            == [NewUnchanged("a,b"), NewRemoval("a,b"), NewUnchanged("a,b")]
  {
    var rows1 := Rows(parse, lines1);
    var rows2 := Rows(parse, lines2);
    assert IdenticalHeaders(rows1, rows2);
    assert rows1[1] == rows2[0];
    assert ChainMove(rows1, rows2, 2, 1) == Some(Diagonal);
    assert ChainMove(rows1, rows2, 1, 0) == Some(Delete);
    assert CsvEmit(rows1, rows2, lines1, lines2, 1, 0, true) == [NewRemoval("a,b")];
    assert CsvEmit(rows1, rows2, lines1, lines2, 2, 1, true) == [NewUnchanged("a,b"), NewRemoval("a,b")];
  }

  /** The modification pass leaves a list alone when no Removal is directly followed by an Addition. */
  lemma {:induction false} LinkWithoutPairs(pairing: Pairing, xs: seq<DiffElement>, at: nat)
    requires forall k :: 0 <= k < |xs| - 1 ==> !(xs[k].Removal? && xs[k + 1].Addition?)
    ensures LinkFrom(pairing, xs, at) == xs
    decreases |xs|
  {
    if |xs| > 0 {
      assert !(|xs| >= 2 && xs[0].Removal? && xs[1].Addition?);
      LinkWithoutPairs(pairing, xs[1..], at + 1);
      assert forall k :: 0 <= k < |xs[1..]| - 1 ==> xs[1..][k] == xs[k + 1];
    }
  }

  // ---------------------------------------------------------------------------
  // The corrected CSV diff
  // ---------------------------------------------------------------------------

  /**
    The CSV diff with the header handled as evidently intended: the plain traceback over
    parsed rows, which emits an identical header as Unchanged exactly when it is part of the
    alignment, then the modification pass. It reconstructs both inputs for EVERY input.
   */
  function DiffCsvCorrected(parse: string -> Row, port: Port, lines1: seq<string>, lines2: seq<string>): (d: seq<DiffElement>)
    ensures FileOneView(d) == lines1
    ensures Rows(parse, FileTwoView(d)) == Rows(parse, lines2)
    ensures CountOf(d, UNCHANGED) == LcsLength(Rows(parse, lines1), Rows(parse, lines2), |lines1|, |lines2|)
  {
    var initial := BacktrackDiff(Rows(parse, lines1), Rows(parse, lines2), lines1, lines2);
    CsvRowTracebackReconstructs(parse, lines1, lines2);
    TracebackReconstructs(parse, Rows(parse, lines1), Rows(parse, lines2), lines1, lines2, |lines1|, |lines2|);
    LinkKeepsViews(PortPairing(parse, port), initial);
    LinkModifications(parse, port, initial)
  }

  /** Where the header is not repeated, the corrected CSV diff is the one the code computes. */
  lemma DiffCsvCorrectedAgrees(parse: string -> Row, port: Port, lines1: seq<string>, lines2: seq<string>)
    requires var rows1 := Rows(parse, lines1); var rows2 := Rows(parse, lines2);
      !IdenticalHeaders(rows1, rows2) || HeaderOnlyFirst(rows1, rows2)
    ensures DiffCsvCorrected(parse, port, lines1, lines2) == DiffCsv(parse, port, lines1, lines2)
  {
    CsvInitialIsPlainTraceback(parse, lines1, lines2);
  }

  /** `diff` with the corrected CSV diff: it reconstructs file 1, and file 2 up to parsing, for every input. */
  function DiffCorrected(parse: string -> Row, port: Port, lines1: seq<string>, lines2: seq<string>): (d: seq<DiffElement>)
    ensures FileOneView(d) == lines1
    ensures Rows(parse, FileTwoView(d)) == Rows(parse, lines2)
    ensures !LikelyCsv(port, lines1, lines2) ==> FileTwoView(d) == lines2
  {
    if LikelyCsv(port, lines1, lines2) then DiffCsvCorrected(parse, port, lines1, lines2)
    else DiffTraditional(lines1, lines2)
  }

  /**
    An empty line (which the Python parser turns into no fields) is never linked as half of
    a modification: an empty row scores 0 and has no first field.
   */
  lemma EmptyLineNeverLinked(parse: string -> Row, port: Port, xs: seq<DiffElement>, p: nat)
    requires ParsesEmptyLineToNoFields(parse)
    requires forall k :: 0 <= k < |xs| ==> xs[k].IsPlain()
    requires p < |xs| && xs[p].content == ""
    ensures LinkModifications(parse, port, xs)[p] == xs[p]
  {
    LinkFromEntry(PortPairing(parse, port), xs, 0, p);
    if p + 1 < |xs| {
      PortPairingAt(parse, port, xs[p].content, xs[p + 1].content);
    }
    if p > 0 {
      PortPairingAt(parse, port, xs[p - 1].content, xs[p].content);
    }
  }
}
