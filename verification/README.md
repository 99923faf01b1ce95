# Diff engine: a verified Dafny model

This project models the diff engine of a line and CSV diff tool that exists in two ports:
Python (`differ.py`, `visualization.py`) and Java (`Differ.java`, `Lcs.java` and the
`Addition`/`Removal`/`Unchanged` model classes). The ports implement one algorithm. It is
modelled once, and each place where they differ is modelled twice and proved equal, or
marked with a `Port` parameter.

- `wrappers.dfy`: `Option`, standing for Java's `Optional` and Python's `None`.
- `elements.dfy`: the diff entries, as one closed datatype with three cases. It holds the
  Java constructors and accessors. It also holds the two "views" of a diff: the lines of
  file 1 (Removals and Unchanged) and the lines of file 2 (Additions and Unchanged).
- `lcs.dfy`: the longest-common-subsequence table.
  - A recurrence gives the reference definition.
  - An imperative row-by-row method builds the table.
  - Lemmas prove the table's bounds, monotonicity and symmetry, and that it is optimal.
- `traceback.dfy`: the traceback from (n, m) to (0, 0) that both ports use. It is generic
  over what is compared (lines or parsed rows) and what is emitted (the original text).
  It also proves that the traceback reconstructs both inputs.
- `differ.dfy`:
  - the CSV-or-plain dispatch;
  - the plain line diff;
  - the CSV row diff as written, with its identical-header special case, plus a corrected
    version of it.
- `similarity.dfy`: the row similarity score and the field-difference finders. Python's
  finder stops at the shorter row; Java's runs to the longer row.
- `modifications.dfy`: the CSV post-pass that links an adjacent Removal→Addition pair into
  a modification.
  - It is modelled as a pure forward scan, parameterised by a `Pairing`: the test that
    links two lines and the field indices it records. `PortPairing` is the ports' test
    (row similarity) and finder. The structural properties hold for every pairing.
  - The Java loop, with its `processed` flags and `finalIndexCounter`, is modelled as a
    method that is proved to compute that scan.
- `side_by_side.dfy`: the side-by-side column layout with blank filler rows.

CSV field parsing is done by foreign libraries (Python's `csv`, OpenCSV). Here it is a
function parameter `parse: string -> seq<string>`, applied one line at a time. Only one
property of it is ever assumed, and only where a lemma says so: Python parses the empty
line to no fields.

Scores and the 80% dispatch ratio are exact rationals (`real`). The similarity scores are
only compared against well-separated constants, so exact arithmetic decides them the same
way. The dispatch ratio can come arbitrarily close to 0.8. The floating-point line under
"## Left out" covers that.

Greedy matching-based row alignment, moved-row annotation and comma-segment marking do not
appear in differ.py or Differ.java and are not modelled. The code computes the LCS over
parsed rows, followed by the adjacent-pair post-pass, and the model follows it.

## Model

| member | source | states |
|---|---|---|
| `Lcs.ComputeLcsTable` | diff-tool-java/src/main/java/com/diffutil/core/Lcs.java:20-39 | Returns an (n+1)×(m+1) table. Row 0 and column 0 are zero. Every cell equals the LCS recurrence of the two prefixes. The Python `_compute_longest_common_subsequence` (differ.py:36-57) fills the same table. |
| `Lcs.ComputeLcsRow` | differ.py:48-55 | One row of the table, filled left to right from the previous row. Every cell equals the recurrence. |
| `Lcs.LcsSteps` | differ.py:45-55 | T[i][j] ≤ min(i, j). Moving one step up or left lowers the value by 0 or 1, and never raises it. |
| `Lcs.LcsMonotone` | diff-tool-java/src/main/java/com/diffutil/core/Lcs.java:29-34 | The table never decreases toward the bottom-right corner. |
| `Lcs.LcsTranspose` | diff-tool-java/src/main/java/com/diffutil/core/Lcs.java:20-39 | The table for (b, a) is the transpose of the table for (a, b). |
| `Lcs.LcsUpperBound` | diff-tool-java/src/main/java/com/diffutil/core/Lcs.java:11-19 | No common subsequence of the two prefixes is longer than T[i][j]. |
| `Lcs.LcsWitness` | diff-tool-java/src/main/java/com/diffutil/core/Lcs.java:11-19 | Builds a common subsequence of the two prefixes whose length is exactly T[i][j]. |
| `Lcs.LcsIsLongest` | diff-tool-java/src/main/java/com/diffutil/core/Lcs.java:11-19 | T[n][m] is the length of a longest common subsequence: one of that length exists, and none is longer. |
| `Traceback.PlainMove` | differ.py:84-107 | The branch the Python loop takes. A matching step only happens on equal keys, a step left only when j > 0, and a step up only when i > 0. |
| `Traceback.MovesAgree` | diff-tool-java/src/main/java/com/diffutil/core/Differ.java:45-59 | While i + j > 0, one of the Java chain's three branches always fires, so the error `break` is unreachable. The chain picks the same move as the Python loop, including the tie-break toward an Addition. |
| `Traceback.ChainMove` | diff-tool-java/src/main/java/com/diffutil/core/Differ.java:45-60 | The Java branch chain, whose error branch (`None`) fires only at (0, 0). `Traceback.MovesAgree` shows it picks the same move as the Python order everywhere else. |
| `Traceback.ChainEmit` | diff-tool-java/src/main/java/com/diffutil/core/Differ.java:45-60 | The Java `diffTraditional` loop's list, stopping when the error branch fires. Every entry is a plain element. `Traceback.ChainEmitIsEmit` shows it is the Python loop's list. |
| `Traceback.ChainEmitIsEmit` | diff-tool-java/src/main/java/com/diffutil/core/Differ.java:45-60 | The Java loop emits exactly the list the Python loop emits, from every cell. |
| `Traceback.Emit` | differ.py:84-107 | Every emitted entry is a plain one, with no annotation. |
| `Traceback.TracebackReconstructs` | differ.py:76-109 | The reversed traceback of the prefixes (i, j) reconstructs both of them. Its Removal and Unchanged texts are file 1's first i lines. Its Addition and Unchanged texts, read through the key function, are file 2's first j keys. Its Unchanged count is T[i][j]. |
| `Traceback.TracebackCounts` | differ.py:84-107 | Exactly T[n][m] Unchanged entries, n − T[n][m] Removals and m − T[n][m] Additions. |
| `Traceback.TracebackIdentity` | differ.py:96-99 | A sequence traced against itself gives only Unchanged entries, in order. |
| `Traceback.TracebackAllRemovals` | differ.py:90-92 | Against an empty second input, the traceback gives only Removals of the first input, in order. |
| `Traceback.TracebackAllAdditions` | differ.py:87-89 | From an empty first input, the traceback gives only Additions of the second input, in order. |
| `Differ.CommaLines` | differ.py:66-67 | The count of lines containing a comma. It is at most the number of lines, and equals it exactly when every line has a comma. |
| `Differ.LikelyCsv` | diff-tool-java/src/main/java/com/diffutil/core/Differ.java:22-27 | The CSV test of each port as written: Python's `comma_lines > len * 0.8` (differ.py:66-70) and Java's non-empty-then-ratio test. It never holds for an empty input. `Differ.DispatchRule` shows both ports' tests equal `5c > 4n`. |
| `Differ.DispatchRule` | differ.py:66-74 | Both ports' tests mean 5·commaLines > 4·length for both inputs. An empty input never takes the CSV path. The Python test (`c > n*0.8`) and the Java test (`n > 0 && c/n > 0.8`) agree. |
| `Differ.Diff` | diff-tool-java/src/main/java/com/diffutil/core/Differ.java:19-33 | Routes to the CSV diff exactly when 5·commaLines > 4·length holds for both inputs, and to the plain diff otherwise. An empty input always takes the plain path. |
| `Differ.DiffTraditional` | differ.py:76-109 | The Removals and Unchanged lines spell out `text1`, and the Additions and Unchanged lines spell out `text2`. The Unchanged count is the LCS length. Every entry is plain. |
| `Differ.DiffTraditionalJava` | diff-tool-java/src/main/java/com/diffutil/core/Differ.java:38-63 | The Java `diffTraditional`, error branch included, returns the same list as the Python `diff_traditional`. |
| `Differ.DiffTraditionalCounts` | differ.py:84-107 | T[n][m] Unchanged, n − T[n][m] Removals and m − T[n][m] Additions. |
| `Differ.DiffTraditionalDegenerate` | differ.py:87-99 | diff(a, a) is all Unchanged lines of `a`. diff(a, []) is all Removals of `a` in order. diff([], b) is all Additions of `b` in order. |
| `Differ.Rows` | differ.py:111-124 | Parsing gives one row per line, each the parse of its own line. |
| `Differ.CsvEmit` | differ.py:192-221 | The CSV traceback loop as written, including the silent step from (1, 1) to (0, 0) when the headers are identical (Differ.java:81-106 is the same loop). Every entry it emits is a plain element. `Differ.CsvEmitWithoutHeader`, `Differ.CsvEmitWithHeader` and `Differ.CsvEmitProvenance` relate it to the plain traceback and to the lines it copies. |
| `Differ.CsvInitialResults` | differ.py:223-228 | The loop's list, with the header appended as Unchanged whenever the headers are identical, then reversed (Differ.java:108-113). Every entry is a plain element. `Differ.CsvInitialIsPlainTraceback` shows it is the plain row-level traceback when the header row occurs only first, and `Differ.HeaderDuplicated` shows it is not otherwise. |
| `Differ.DiffCsv` | differ.py:178-291 | `diff_csv` / `diffCsv` as written (Differ.java:68-167). The post-pass keeps the traceback list's length, and each entry's tag and content. `Differ.DiffCsvReconstructs`, `Differ.DiffCsvSourced`, `Differ.DiffCsvLinksConsistent` and `Differ.HeaderDuplicated` state what the result means. |
| `Differ.CsvEmitWithoutHeader` | diff-tool-java/src/main/java/com/diffutil/core/Differ.java:81-106 | Without identical headers, the CSV traceback is the plain traceback over parsed rows. |
| `Differ.CsvEmitWithHeader` | diff-tool-java/src/main/java/com/diffutil/core/Differ.java:79-111 | Suppose the headers are identical and the header row occurs nowhere else. Then every path from a cell with i, j ≥ 1 passes (1, 1). Skipping the header there and appending it afterwards gives exactly the plain traceback. |
| `Differ.CsvInitialIsPlainTraceback` | diff-tool-java/src/main/java/com/diffutil/core/Differ.java:79-113 | The headers either differ, or are identical and never repeated. In both cases the reversed initial list equals the plain row-level traceback. |
| `Differ.CsvRowTracebackReconstructs` | differ.py:185-228 | The row-level traceback reproduces `lines1` exactly. It reproduces `lines2` only at the parsed-row level, because an Unchanged entry carries file 1's text. |
| `Differ.DiffCsvReconstructs` | differ.py:178-291 | Under the unique-header condition, the CSV diff's Removal and Unchanged contents reproduce `lines1`. Its Addition and Unchanged contents, parsed, reproduce the parsed `lines2`. #Unchanged + #Addition = \|lines2\|. |
| `Differ.CsvEmitProvenance` | diff-tool-java/src/main/java/com/diffutil/core/Differ.java:92-101 | For every input, an Unchanged entry carries file-1 text of a row that equals some row of file 2. An Addition carries a line of file 2, and a Removal a line of file 1. |
| `Differ.DiffCsvSourced` | differ.py:204-225 | The same provenance holds for the final CSV diff, the appended header included. |
| `Differ.DiffCsvLinksConsistent` | diff-tool-java/src/main/java/com/diffutil/core/Differ.java:116-166 | For every input, a linked Removal at p points to p + 1. That position holds an Addition pointing back to p, and conversely. |
| `Differ.HeaderDuplicated` | differ.py:192-225 | With ["a,b", "a,b"] against ["a,b"] the CSV path is taken, and the result is [Unchanged, Removal, Unchanged]. File 1's view then has three lines instead of two (see Findings). |
| `Differ.DiffCsvCorrected` | differ.py:178-291 | With the header handled as evidently intended, the CSV diff reproduces `lines1`, and the parsed `lines2`, for every input. Its Unchanged count is the row-level LCS length. |
| `Differ.DiffCsvCorrectedAgrees` | diff-tool-java/src/main/java/com/diffutil/core/Differ.java:68-167 | Under the unique-header condition, the corrected CSV diff is the one the code computes. |
| `Differ.DiffCorrected` | differ.py:59-74 | The dispatch with the corrected CSV diff reconstructs file 1, and file 2 up to parsing, for every input. It reconstructs file 2 exactly on the plain path. |
| `Differ.EmptyLineNeverLinked` | differ.py:121-129 | If the empty line parses to no fields, an empty line is never linked as half of a modification. |
| `Differ.LinkWithoutPairs` | differ.py:242-289 | A list with no Removal directly followed by an Addition passes through the post-pass unchanged. |
| `Similarity.ZipDifferences` | differ.py:169-176 | Returns strictly ascending indices. An index is in the result exactly when it is below the shorter length and the two fields there differ. |
| `Similarity.PaddedDifferences` | diff-tool-java/src/main/java/com/diffutil/core/Differ.java:219-230 | Returns strictly ascending indices. An index is in the result exactly when it is below the longer length and either it is past the shorter row or the fields differ. |
| `Similarity.PaddedIsZipPlusTail` | diff-tool-java/src/main/java/com/diffutil/core/Differ.java:221-228 | Java's list is Python's list followed by every index in [min, max). |
| `Similarity.FieldDifferencesSymmetric` | differ.py:169-176 | Both ports' finders are symmetric in their two rows. |
| `Similarity.MatchingPlusDifferent` | differ.py:141-153 | Matching fields plus differing fields below the shorter length is the shorter length. |
| `Similarity.DifferenceCountIsPadded` | diff-tool-java/src/main/java/com/diffutil/core/Differ.java:189-202 | The scorer's difference count, which includes the length gap, equals the length of Java's padded index list. |
| `Similarity.RowSimilarity` | differ.py:126-167 | The score is always in [0, 1]. |
| `Similarity.RowSimilarityRules` | differ.py:126-167 | The score is 0 for an empty row, and 1.0 exactly when the rows are non-empty and equal. Equal first fields give 0.95. Differing first fields imply at least one difference: 1, 2 or 3 differences give 0.90, 0.85 and 0.80, and 4 or more give 0.7·(max − D)/max ≤ 0.7. So the `max_len == 0` guard can never fire, because both rows are non-empty by then. |
| `Similarity.ModificationPairThreshold` | differ.py:256-261 | The `is_id_match` disjunct is redundant: a pair links exactly when the score is ≥ 0.8. Equivalently, both rows are non-empty and they are equal, share the first field, or differ in at most 3 places. |
| `Similarity.RowSimilaritySymmetric` | diff-tool-java/src/main/java/com/diffutil/core/Differ.java:173-214 | The score does not depend on the order of the rows. |
| `Modifications.PortPairing` | differ.py:253-262 | The link test both ports use: parse both lines, link on an ID match or a score of at least 0.8, and record the port's field finder. It has no contract of its own. `Modifications.ScorePair` and `Similarity.ModificationPairThreshold` state when it links. |
| `Modifications.LinkFrom` | differ.py:235-289 | For any pairing test, the post-pass keeps the length, and keeps each entry's tag and content. |
| `Modifications.LinkModifications` | differ.py:230-291 | The post-pass over a whole traceback list. It keeps the length, and each entry's tag and content. `Modifications.LinkFromEntry`, `Modifications.LinksConsistent` and `Modifications.LinkedExactlyWhenSimilar` state which entries it links and how. |
| `Modifications.ScorePair` | diff-tool-java/src/main/java/com/diffutil/core/Differ.java:135-144 | The Java test (parse both lines, score them, link on an id match or a score ≥ 0.8) decides exactly what the ports' pairing decides: both rows are non-empty and they are equal, share the first field, or differ in at most 3 places. For a link it records that pairing's field indices. |
| `Modifications.LinkModificationsLoop` | diff-tool-java/src/main/java/com/diffutil/core/Differ.java:116-166 | The Java loop, with its `processed` flags and `finalIndexCounter`, computes the forward scan. The counter ends at the list's length. A loop invariant keeps it equal to `idx` at every step. |
| `Modifications.LinkFromEntry` | differ.py:242-289 | For any pairing test, entry p of the result is the linked Removal or Addition when p is half of a linked pair, and the original entry otherwise. |
| `Modifications.LinksConsistent` | differ.py:264-278 | For any pairing test and plain input, a linked Removal at p points at p + 1, which is an Addition pointing back at p. The two share the same diff indices, and conversely. |
| `Modifications.LinkedExactlyWhenSimilar` | diff-tool-java/src/main/java/com/diffutil/core/Differ.java:127-157 | A Removal at p followed by an Addition is linked exactly when the two parsed rows score ≥ 0.8. |
| `Modifications.LinkKeepsViews` | differ.py:286-289 | The post-pass leaves both files' views and all tag counts unchanged. |
| `Elements.NewAddition` | diff-tool-java/src/main/java/com/diffutil/model/Addition.java:29-31 | Tag ADDITION. No diff indices, matched index, original index or new index. Not moved and not combined. |
| `Elements.AdditionWithIndices` | diff-tool-java/src/main/java/com/diffutil/model/Addition.java:34-36 | Stores exactly the given diff indices, and nothing else. |
| `Elements.ModifiedAddition` | diff-tool-java/src/main/java/com/diffutil/model/Addition.java:39-41 | Stores exactly the given diff indices and matched index, and nothing else. `isMoved` and `isCombinedModification` read false. |
| `Elements.NewRemoval` | diff-tool-java/src/main/java/com/diffutil/model/Removal.java:35-37 | Tag REMOVAL. All annotations are empty, and `isMoved` and `isCombinedModification` read false. |
| `Elements.ModifiedRemoval` | diff-tool-java/src/main/java/com/diffutil/model/Removal.java:40-42 | Stores the diff indices and matched index. The combined flag reads false, and the original and new indices are empty. |
| `Elements.CombinedRemoval` | diff-tool-java/src/main/java/com/diffutil/model/Removal.java:45-47 | Stores the combined flag and the combined new index as given. |
| `Elements.NewUnchanged` | diff-tool-java/src/main/java/com/diffutil/model/Unchanged.java:25-27 | Tag UNCHANGED. Not moved, with empty original and new indices. Diff indices and matched index are always empty. |
| `Elements.MovedUnchanged` | diff-tool-java/src/main/java/com/diffutil/model/Unchanged.java:30-32 | Stores `isMoved`, the original index and the new index as given. It is never combined and carries no diff indices. |
| `Elements.DiffElement.GetType` | diff-tool-java/src/main/java/com/diffutil/model/Addition.java:48-51 | Each case reports its own tag, and the tag determines the case. |
| `Elements.DiffElement.IsCombinedModification` | diff-tool-java/src/main/java/com/diffutil/model/Removal.java:74-77 | True only for a Removal whose combined flag is set. Additions and Unchanged entries always report false. |
| `Elements.DiffElement.GetDiffIndices` | diff-tool-java/src/main/java/com/diffutil/model/Unchanged.java:45-47 | An Unchanged entry never has diff indices. Addition and Removal return their stored indices (Addition.java:54-56, Removal.java:60-62). |
| `Elements.DiffElement.GetMatchedIndex` | diff-tool-java/src/main/java/com/diffutil/model/Unchanged.java:50-52 | An Unchanged entry is never matched. Addition and Removal return their stored index (Addition.java:59-61, Removal.java:65-67). |
| `Elements.DiffElement.IsMoved` | diff-tool-java/src/main/java/com/diffutil/model/Removal.java:70-72 | True exactly when the flag is present and set. An absent flag reads as false, in all three classes. |
| `Elements.DiffElement.GetCombinedNewIndex` | diff-tool-java/src/main/java/com/diffutil/model/Removal.java:80-82 | Only a Removal carries a combined new index. Addition and Unchanged always return empty (Addition.java:75-77, Unchanged.java:66-68). |
| `Elements.DiffElement.GetOriginalIndex` | diff-tool-java/src/main/java/com/diffutil/model/Unchanged.java:71-73 | Returns the stored original index. It has no contract of its own. The constructors' contracts say it is set only by `Elements.MovedUnchanged`. |
| `Elements.DiffElement.GetNewIndex` | diff-tool-java/src/main/java/com/diffutil/model/Unchanged.java:76-78 | Returns the stored new index. It has no contract of its own. The constructors' contracts say it is set only by `Elements.MovedUnchanged`. |
| `SideBySide.SideBySide` | visualization.py:72-104 | The columns are equally tall, which is the source's own assertion. Every row is one Unchanged on both sides, a Removal beside an Addition, or a change beside a filler. With fillers removed, the left column is file 1's side of the diff in order and the right column is file 2's side. The height is #Unchanged plus the larger of #Removal and #Addition for each change run, and never more than the diff's length. An empty diff gives two empty columns. |
| `SideBySide.Place` | visualization.py:80-98 | One loop step keeps the finished rows aligned, puts the entry in its file's column(s), and preserves the total height. |
| `SideBySide.PadColumns` | visualization.py:87-93 | Padding makes both columns as tall as the longer one, keeps the rows above, adds no entry, and gives aligned rows. |
| `SideBySide.AlignedLenAtMost` | visualization.py:87-98 | Every row holds at least one entry, so the layout is never taller than the diff. |
| `SideBySide.AlignedLenAtLeast` | visualization.py:80-98 | The layout is at least as tall as each file's side of the diff. A diff with no changes lays out at exactly its own length, one Unchanged line per row. |

## Left out

- CSV field parsing (Python's `csv` module, OpenCSV in `CsvUtil.java`). It is the parameter `parse`, and quoting and escaping are not modelled. The Java rule that a blank line parses to no fields is not used by any lemma.
- Floating point. The dispatch ratio and the similarity scores are exact rationals. Java's `double` division and Python's `len * 0.8` could round differently from exact arithmetic for very long inputs, and that is not modelled.
- Java `null` handling. The constructors take present values; `Optional.ofNullable(null)` becoming empty is not modelled. The null-row guard of `calculateRowSimilarity` is not modelled. `int` overflow of list sizes is not modelled.
- The post-pass's `try`/`except` fallback (Python) and the `System.err`/`print` diagnostics. `parse` is total, so the fallback cannot fire. The traceback's error branch is modelled as ending the loop, and it is proved unreachable.
- Python's `processed_indices` set is represented by the Java `processed` flags. Both are written at `idx`, and also at `idx + 1` when a pair is linked. Both are read only at `idx`, and by then `idx` has always moved past every entry written. So the skip branch (differ.py:236-238, Differ.java:121-123) never fires. `Modifications.LinkModificationsLoop` keeps the branch, and its loop invariant shows it is dead.
- The side-by-side filler. The source pads with one shared `Unchanged("")` object, which is told apart from real entries only by identity (visualization.py:10, 87-93). The model uses a separate `Cell.Filler` case instead. So "the left column holds no Addition" is stated over the `Entry` cells, and an empty Unchanged line in the diff is never taken for a filler.
- Move detection and combined modifications. The `moved`, original/new index and combined fields exist in the datatype and its constructors, but no modelled code sets them, so no behaviour is invented for them.
- The renderers (`_format_diff_lines`, `visualize_*`, the Java console and HTML visualizers), the CLI and file I/O.
- Greedy matching-based row alignment, moved-row annotation and comma-segment marking: no code in either port implements them.

## Findings

| source | as written | input that shows it | evidently intended | confidence | as-written member | corrected member |
|---|---|---|---|---|---|---|
| differ.py:192-225 | The CSV traceback skips the header only when it reaches exactly (1, 1), yet appends the header as Unchanged whenever the two first rows are equal. The Java port does the same (Differ.java:79-111). | lines1 = ["a,b", "a,b"], lines2 = ["a,b"]: the traceback matches the second line, reaches (1, 0), emits the first line as a Removal, and then the header is appended too. The result is [Unchanged, Removal, Unchanged], and file 1's view has three lines. | The header is emitted once, so that the diff reproduces file 1. The plain row-level traceback does this for every input, and coincides with the code whenever the header row is not repeated. | high; not executed | `Differ.HeaderDuplicated` | `Differ.DiffCsvCorrected` |
