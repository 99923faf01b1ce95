/**
  The side-by-side layout of visualization.py: a diff split into a left column (file 1) and
  a right column (file 2) of equal height, with blank filler rows so that every Unchanged
  line sits on one row in both columns.
 */
module SideBySide {
  import opened Elements
  import opened Lcs

  /**
    One cell of a column. `Filler` is the shared blank placeholder (an `Unchanged("")` that
    the renderer recognises by identity), so it is a case of its own here and is never
    confused with a real empty Unchanged line.
   */
  datatype Cell = Filler | Entry(element: DiffElement)

  function Fillers(n: nat): (cells: seq<Cell>)
    ensures |cells| == n
    ensures forall k :: 0 <= k < n ==> cells[k] == Filler
  {
    seq(n, _ => Filler)
  }

  /** The diff entries a column holds, fillers dropped, in order. */
  function Entries(cells: seq<Cell>): (d: seq<DiffElement>)
    ensures |d| <= |cells|
  {
    if |cells| == 0 then []
    else
      var last := cells[|cells| - 1];
      Entries(cells[..|cells| - 1]) + (if last.Entry? then [last.element] else [])
  }

  predicate IsEntryOf(c: Cell, t: ElementType)
  {
    c.Entry? && c.element.GetType() == t
  }

  /**
    The four shapes a row may take: one Unchanged line on both sides; a Removal beside an
    Addition; a Removal beside a filler; a filler beside an Addition. A row is never blank
    on both sides.
   */
  predicate AlignedRow(l: Cell, r: Cell)
  {
    || (l == r && IsEntryOf(l, UNCHANGED))
    || (IsEntryOf(l, REMOVAL) && IsEntryOf(r, ADDITION))
    || (IsEntryOf(l, REMOVAL) && r == Filler)
    || (l == Filler && IsEntryOf(r, ADDITION))
  }

  /**
    How many rows the layout needs, counted independently of the loop: every Unchanged line
    takes one row, and each run of changes between them takes as many rows as the larger of
    its Removal and Addition counts. `removals` and `additions` count the open run so far.
   */
  function AlignedLen(d: seq<DiffElement>, removals: nat, additions: nat): nat
    decreases |d|
  {
    if |d| == 0 then Max(removals, additions)
    else match d[0]
      case Unchanged(_, _, _, _) => Max(removals, additions) + 1 + AlignedLen(d[1..], 0, 0)
      case Removal(_, _, _, _, _, _, _, _) => AlignedLen(d[1..], removals + 1, additions)
      case Addition(_, _, _, _, _, _) => AlignedLen(d[1..], removals, additions + 1)
  }

  /**
    `_diff_to_sxs_diffs`: Removals go to the left, Additions to the right; at every Unchanged
    line, and after the last entry, the shorter column is padded with fillers up to the
    longer one; an Unchanged line then goes to both. The columns come out equally tall, each
    row has one of the four aligned shapes, the left column read without fillers is exactly
    file 1's side of the diff and the right column file 2's side, and the height is the
    minimum the run structure allows.
   */
  method SideBySide(diff: seq<DiffElement>) returns (left: seq<Cell>, right: seq<Cell>)
    ensures |left| == |right| == AlignedLen(diff, 0, 0)
    ensures forall k :: 0 <= k < |left| ==> AlignedRow(left[k], right[k])
    ensures Entries(left) == SideOne(diff)
    ensures Entries(right) == SideTwo(diff)
    ensures |left| <= |diff|
  {
    left, right := [], [];
    ghost var base: nat := 0;
    var i := 0;
    while i < |diff|
      invariant 0 <= i <= |diff|
      invariant base <= |left| && base <= |right|
      invariant forall k :: 0 <= k < base ==> AlignedRow(left[k], right[k])
      invariant forall k :: base <= k < |left| ==> IsEntryOf(left[k], REMOVAL)
      invariant forall k :: base <= k < |right| ==> IsEntryOf(right[k], ADDITION)
      invariant Entries(left) == SideOne(diff[..i])
      invariant Entries(right) == SideTwo(diff[..i])
      invariant AlignedLen(diff, 0, 0) == base + AlignedLen(diff[i..], |left| - base, |right| - base)
      invariant i == |diff| ==> |left| == base && |right| == base
    {
      ghost var prefix := diff[..i];
      assert diff[..i + 1] == prefix + [diff[i]];
      assert diff[i..] == [diff[i]] + diff[i + 1..];
      SidesSnoc(prefix, diff[i]);
      left, right, base := Place(left, right, diff[i], i == |diff| - 1, base, diff[i + 1..]);
      i := i + 1;
    }
    assert diff[..i] == diff;
    AlignedLenAtMost(diff, 0, 0);
  }

  /**
    The loop body for one entry: a Removal goes to the left, an Addition to the right; at an
    Unchanged entry or the last one the open run is padded; an Unchanged entry then goes to
    both columns. `base` is the height of the finished rows and `rest` the entries still to
    come. The finished rows stay aligned, the entry lands in its file's column(s), and the
    finished height plus what the rest still owes is unchanged.
   */
  method Place(left: seq<Cell>, right: seq<Cell>, element: DiffElement, isLast: bool,
               ghost base: nat, ghost rest: seq<DiffElement>)
    returns (nextLeft: seq<Cell>, nextRight: seq<Cell>, ghost nextBase: nat)
    requires base <= |left| && base <= |right|
    requires isLast <==> rest == []
    requires forall k :: 0 <= k < base ==> AlignedRow(left[k], right[k])
    requires forall k :: base <= k < |left| ==> IsEntryOf(left[k], REMOVAL)
    requires forall k :: base <= k < |right| ==> IsEntryOf(right[k], ADDITION)
    ensures nextBase <= |nextLeft| && nextBase <= |nextRight|
    ensures forall k :: 0 <= k < nextBase ==> AlignedRow(nextLeft[k], nextRight[k])
    ensures forall k :: nextBase <= k < |nextLeft| ==> IsEntryOf(nextLeft[k], REMOVAL)
    ensures forall k :: nextBase <= k < |nextRight| ==> IsEntryOf(nextRight[k], ADDITION)
    ensures Entries(nextLeft) == Entries(left) + (if element.Addition? then [] else [element])
    ensures Entries(nextRight) == Entries(right) + (if element.Removal? then [] else [element])
    ensures nextBase + AlignedLen(rest, |nextLeft| - nextBase, |nextRight| - nextBase)
            == base + AlignedLen([element] + rest, |left| - base, |right| - base)
    ensures isLast ==> |nextLeft| == nextBase && |nextRight| == nextBase
  {
    if element.Unchanged? {
      nextLeft, nextRight, nextBase := PlaceUnchanged(left, right, element, base);
    } else {
      nextLeft, nextRight := PlaceChange(left, right, element, base);
      nextBase := base;
      if isLast {
        nextLeft, nextRight := PadColumns(nextLeft, nextRight, base);
        nextBase := |nextLeft|;
      }
    }
    OwedAfterPlace(element, rest, |left|, |right|, base, |nextLeft|, |nextRight|, nextBase);
  }

  /**
    The accounting behind `Place`: the finished height plus what the rest owes stays the
    same, given the heights each kind of entry leaves behind.
   */
  lemma OwedAfterPlace(e: DiffElement, rest: seq<DiffElement>, l: nat, r: nat, base: nat, nl: nat, nr: nat, nb: nat)
    requires base <= l && base <= r && nb <= nl && nb <= nr
    requires e.Unchanged? ==> nb == nl == nr == Max(l, r) + 1
    requires !e.Unchanged? && rest != [] ==>
      nb == base && nl == l + (if e.Removal? then 1 else 0) && nr == r + (if e.Addition? then 1 else 0)
    requires !e.Unchanged? && rest == [] ==>
      nb == nl == nr == Max(l + (if e.Removal? then 1 else 0), r + (if e.Addition? then 1 else 0))
    ensures nb + AlignedLen(rest, nl - nb, nr - nb) == base + AlignedLen([e] + rest, l - base, r - base)
  {
    AlignedLenStep(e, rest, l - base, r - base);
    AlignedLenStep(e, rest, 0, 0);
  }

  /** A Removal joins the open run on the left, an Addition on the right. */
  method PlaceChange(left: seq<Cell>, right: seq<Cell>, element: DiffElement, ghost base: nat)
    returns (nextLeft: seq<Cell>, nextRight: seq<Cell>)
    requires !element.Unchanged?
    requires base <= |left| && base <= |right|
    requires forall k :: base <= k < |left| ==> IsEntryOf(left[k], REMOVAL)
    requires forall k :: base <= k < |right| ==> IsEntryOf(right[k], ADDITION)
    ensures |nextLeft| == |left| + (if element.Removal? then 1 else 0)
    ensures |nextRight| == |right| + (if element.Addition? then 1 else 0)
    ensures forall k :: 0 <= k < |left| ==> nextLeft[k] == left[k]
    ensures forall k :: 0 <= k < |right| ==> nextRight[k] == right[k]
    ensures forall k :: base <= k < |nextLeft| ==> IsEntryOf(nextLeft[k], REMOVAL)
    ensures forall k :: base <= k < |nextRight| ==> IsEntryOf(nextRight[k], ADDITION)
    ensures Entries(nextLeft) == Entries(left) + (if element.Addition? then [] else [element])
    ensures Entries(nextRight) == Entries(right) + (if element.Removal? then [] else [element])
  {
    nextLeft, nextRight := left, right;
    if element.Removal? {
      EntriesAppend(left, [Entry(element)]);
      nextLeft := left + [Entry(element)];
    } else {
      EntriesAppend(right, [Entry(element)]);
      nextRight := right + [Entry(element)];
    }
  }

  /** An Unchanged line closes the open run and then takes one row in both columns. */
  method PlaceUnchanged(left: seq<Cell>, right: seq<Cell>, element: DiffElement, ghost base: nat)
    returns (nextLeft: seq<Cell>, nextRight: seq<Cell>, ghost nextBase: nat)
    requires element.Unchanged?
    requires base <= |left| && base <= |right|
    requires forall k :: 0 <= k < base ==> AlignedRow(left[k], right[k])
    requires forall k :: base <= k < |left| ==> IsEntryOf(left[k], REMOVAL)
    requires forall k :: base <= k < |right| ==> IsEntryOf(right[k], ADDITION)
    ensures nextBase == |nextLeft| == |nextRight| == Max(|left|, |right|) + 1
    ensures forall k :: 0 <= k < nextBase ==> AlignedRow(nextLeft[k], nextRight[k])
    ensures Entries(nextLeft) == Entries(left) + [element]
    ensures Entries(nextRight) == Entries(right) + [element]
  {
    var padLeft, padRight := PadColumns(left, right, base);
    EntriesAppend(padLeft, [Entry(element)]);
    EntriesAppend(padRight, [Entry(element)]);
    nextLeft := padLeft + [Entry(element)];
    nextRight := padRight + [Entry(element)];
    nextBase := |nextLeft|;
  }

  /** One step of `AlignedLen`: a change extends the open run, an Unchanged line closes it. */
  lemma AlignedLenStep(e: DiffElement, rest: seq<DiffElement>, removals: nat, additions: nat)
    ensures AlignedLen([e] + rest, removals, additions)
            == if e.Unchanged? then Max(removals, additions) + 1 + AlignedLen(rest, 0, 0)
               else AlignedLen(rest, removals + (if e.Removal? then 1 else 0), additions + (if e.Addition? then 1 else 0))
    ensures AlignedLen([], removals, additions) == Max(removals, additions)
  {
    assert ([e] + rest)[1..] == rest;
  }

  lemma {:induction false} EntriesAppend(a: seq<Cell>, b: seq<Cell>)
    ensures Entries(a + b) == Entries(a) + Entries(b)
    decreases |b|
  {
    if |b| == 0 {
      assert a + b == a;
    } else {
      EntriesAppend(a, b[..|b| - 1]);
      assert (a + b)[..|a + b| - 1] == a + b[..|b| - 1];
    }
  }

  lemma {:induction false} FillersHoldNoEntries(n: nat)
    ensures Entries(Fillers(n)) == []
  {
    if n > 0 {
      FillersHoldNoEntries(n - 1);
      assert Fillers(n)[..n - 1] == Fillers(n - 1);
    }
  }

  /**
    Padding the open run: the pending Removals on the left and Additions on the right are
    filled up with fillers to equal height. The rows they form are aligned, the rows above
    are kept, and no entry is added.
   */
  method PadColumns(left: seq<Cell>, right: seq<Cell>, ghost base: nat) returns (padLeft: seq<Cell>, padRight: seq<Cell>)
    requires base <= |left| && base <= |right|
    requires forall k :: base <= k < |left| ==> IsEntryOf(left[k], REMOVAL)
    requires forall k :: base <= k < |right| ==> IsEntryOf(right[k], ADDITION)
    ensures |padLeft| == |padRight| == Max(|left|, |right|)
    ensures forall k :: 0 <= k < |left| ==> padLeft[k] == left[k]
    ensures forall k :: 0 <= k < |right| ==> padRight[k] == right[k]
    ensures Entries(padLeft) == Entries(left) && Entries(padRight) == Entries(right)
    ensures forall k :: base <= k < |padLeft| ==> AlignedRow(padLeft[k], padRight[k])
  {
    var pad := Max(|left|, |right|);
    var addLeft := Max(0, pad - |left|);
    var addRight := Max(0, pad - |right|);
    padLeft := left + Fillers(addLeft);
    padRight := right + Fillers(addRight);
    EntriesAppend(left, Fillers(addLeft));
    EntriesAppend(right, Fillers(addRight));
    FillersHoldNoEntries(addLeft);
    FillersHoldNoEntries(addRight);
  }

  /** Every row holds at least one entry, so the layout is never taller than the diff is long. */
  lemma {:induction false} AlignedLenAtMost(d: seq<DiffElement>, removals: nat, additions: nat)
    ensures AlignedLen(d, removals, additions) <= |d| + Max(removals, additions)
    decreases |d|
  {
    if |d| > 0 {
      match d[0]
      case Unchanged(_, _, _, _) => AlignedLenAtMost(d[1..], 0, 0);
      case Removal(_, _, _, _, _, _, _, _) => AlignedLenAtMost(d[1..], removals + 1, additions);
      case Addition(_, _, _, _, _, _) => AlignedLenAtMost(d[1..], removals, additions + 1);
    }
  }

  /**
    The layout is also never shorter than either file's side, and for a diff with no
    changes it is the diff itself, one Unchanged line per row.
   */
  lemma {:induction false} AlignedLenAtLeast(d: seq<DiffElement>, removals: nat, additions: nat)
    ensures AlignedLen(d, removals, additions) >= removals + CountOf(d, REMOVAL) + CountOf(d, UNCHANGED)
    ensures AlignedLen(d, removals, additions) >= additions + CountOf(d, ADDITION) + CountOf(d, UNCHANGED)
    ensures CountOf(d, REMOVAL) == 0 && CountOf(d, ADDITION) == 0 ==> AlignedLen(d, 0, 0) == |d|
    decreases |d|
  {
    if |d| > 0 {
      CountFirst(d);
      match d[0]
      case Unchanged(_, _, _, _) => AlignedLenAtLeast(d[1..], 0, 0);
      case Removal(_, _, _, _, _, _, _, _) => AlignedLenAtLeast(d[1..], removals + 1, additions);
      case Addition(_, _, _, _, _, _) => AlignedLenAtLeast(d[1..], removals, additions + 1);
    }
  }

  lemma CountFirst(d: seq<DiffElement>)
    requires |d| > 0
    ensures forall t :: CountOf(d, t) == (if d[0].GetType() == t then 1 else 0) + CountOf(d[1..], t)
  {
    ViewsAppend([d[0]], d[1..]);
    assert [d[0]] + d[1..] == d;
    assert [d[0]][..0] == [];
  }
}
