# LIS step-by-step visualiser: a verified model

The application shows how the quadratic dynamic program for the longest
strictly increasing subsequence (LIS) works, one step at a time. From the
sequence on screen, `findLIS` builds a trace of snapshot records:
- one `Init` record with every length 1 and every back-pointer -1;
- one `Improve` record each time a comparison strictly improves the table;
- one `Final` record carrying the reported subsequence.

A cursor walks that trace with "Previous Step" / "Next Step". Any change
to the sequence (appending a number, removing one) rebuilds the trace and
puts the cursor back on the first record.

The model has five modules.
- `LisSpec` (`lis_spec.dfy`) has the problem and the dynamic program as
  functions:
  - `LisEnd` is the final length entry.
  - `Relaxed` is the entry after some of the candidates have been tried.
  - `PrevAfter` is the matching back-pointer.
  - `Chain` is the back-pointer walk.
  - `FirstMaxIndex` is `indexOf(Math.max(...))`.
  - `LisResult` is the reported subsequence.

  It also has the lemmas that this is an optimal strictly increasing
  subsequence.
- `LisTrace` (`lis_trace.dfy`) has the record type, the reference trace
  `Trace(arr)` and the lemmas about its shape. They cover the numbering,
  the count law, the loop order, table consistency, monotone lengths, and
  the final tables.
- `FindLis` (`find_lis.dfy`) is the imperative program. `FillTables` runs
  the nested loops on two arrays and pushes records. `Reconstruct` is the
  `while` loop that prepends values along the back-pointers. `FindLIS`
  puts them together and is proved to return exactly `Trace(arr)` and
  `LisResult(arr)`.
- `Visualizer` (`visualizer.dfy`) has the clamped cursor arithmetic, the
  removal filter, and the class `App` holding `sequence`, `steps`,
  `lisResult` and `currentStep`. The reactive effect becomes
  `App.SetSequence`: rebuild the trace, then reset the cursor.
- `Scenarios` (`scenarios.dfy`) has the trace on particular inputs:
  - the empty sequence;
  - one element;
  - every strictly ascending sequence;
  - the starting sequence `[5, 2, 8, 6, 3, 6, 9, 7]`.

Numbers are unbounded integers. Every number that reaches the sequence
in the source is an integer, and `int` holds each of them exactly; the
only places where JavaScript numbers behave differently lie in parsing
the typed text, which is not modelled (see below).

On a strictly ascending input, every pair `j < i` strictly improves the
table: `d[j] + 1 = j + 2 > j + 1 = d[i]`. So `[1, 2, 3, 4, 5]` produces
10 `Improve` records and 12 records in all, not one record per adjacent
pair. `Scenarios.AscendingSequence` proves the general count
`2 + n(n-1)/2`, following the code.

## Model

| member | source | states |
|---|---|---|
| LisSpec.LisEnd | src/App.jsx:32-48 | every final length entry is at least 1 |
| LisSpec.Relaxed | src/App.jsx:44-48 | the entry for `i` after the candidates `0..j-1` is at least 1 |
| LisSpec.PrevAfter | src/App.jsx:44-48 | a back-pointer is -1 or an earlier position `r < j`; -1 goes with length 1; otherwise `arr[r] < arr[i]` and the entry is `d[r] + 1` |
| LisSpec.Improves | src/App.jsx:46 | no contract of its own: the strict test that a smaller earlier value extends to a strictly longer entry; `LisSpec.ImprovesExactly` states what it means |
| LisSpec.FinalPrevs | src/App.jsx:33-48 | the final back-pointer table has one entry per element, and each points strictly backwards or is -1 |
| LisSpec.Chain | src/App.jsx:66-69 | the walk from `k` visits strictly increasing positions in `[0, k]`, ends at `k`, and is empty exactly for -1 |
| LisSpec.ChainLength | src/App.jsx:66-69 | the walk from `k` visits at most `k + 1` positions |
| LisSpec.WalkStep | src/App.jsx:66-69 | one step of the walk: the values along the walk from `k` are the values along the walk from its back-pointer followed by the value at `k` |
| LisSpec.Max | src/App.jsx:63 | `Math.max` over a non-empty table is an element of the table and bounds every entry |
| LisSpec.IndexOf | src/App.jsx:63 | `indexOf` gives the first position holding the value, or -1 exactly when the value is absent |
| LisSpec.FirstMaxIndex | src/App.jsx:63 | the walk starts at -1 exactly for an empty table; otherwise it starts at a maximal entry with every earlier entry strictly smaller |
| LisSpec.LisResult | src/App.jsx:63-69 | the reported subsequence is empty exactly for an empty input, and is never longer than the input; `LisSpec.LisResultIsIncreasing` and `LisSpec.LisResultIsLongest` state that it is a longest strictly increasing subsequence |
| LisSpec.RelaxedMonotone | src/App.jsx:44-48 | trying more candidates never lowers the entry for `i` |
| LisSpec.ImprovesExactly | src/App.jsx:46 | candidate `j` improves the entry for `i` exactly when `arr[j] < arr[i]` and `d[j]` is strictly greater than `d[p]` for every earlier `p` with `arr[p] < arr[i]`: equal values and equal lengths never update |
| LisSpec.RelaxedIsFirstBest | src/App.jsx:46-48 | the entry bounds every earlier smaller candidate's length plus one; every candidate before the back-pointer is strictly worse, so an equal-length later candidate never displaces it; the back-pointer is -1 exactly when no earlier element is smaller |
| LisSpec.ChainIsWitness | src/App.jsx:44-69 | following the final back-pointers from `k` yields an increasing subsequence ending at `k` whose length is `d[k]` |
| LisSpec.LisEndIsMaximal | src/App.jsx:44-48 | no increasing subsequence ending at `k` is longer than `d[k]` |
| LisSpec.LisEndIsLongestEndingAt | src/App.jsx:44-48 | `d[k]` is exactly the length of the longest strictly increasing subsequence ending at `k` |
| LisSpec.LisResultIsIncreasing | src/App.jsx:63-69 | the result is strictly increasing, is taken from the input at strictly increasing positions, and is empty for an empty input |
| LisSpec.LisResultIsLongest | src/App.jsx:63-69 | the result's length is the largest table entry, and no increasing subsequence of the input is longer |
| LisTrace.InitStep | src/App.jsx:32-42 | the first record is an `Init` record numbered 0 carrying the input, and its tables are the ones the loops start from: every length 1, every back-pointer -1 |
| LisTrace.ImproveStep | src/App.jsx:50-58 | an improvement record names `i` and `j`, carries full-length tables, and, for an improving pair, shows the post-update state: `d[i] = d[j] + 1`, `prev[i] = j`, and `d[i]` strictly larger than before the comparison |
| LisTrace.Improvements | src/App.jsx:44-58 | the records pushed before the loops reach `(i, j)` number at most `i(i-1)/2 + j`, one per comparison made at most; `LisTrace.ImprovementsRecords` states what each record holds |
| LisTrace.Trace | src/App.jsx:30-79 | the returned trace has at least two records; the first is the `Init` record and the last is the `Final` record, numbered by its position and carrying the reported subsequence |
| LisTrace.ImprovementsRecords | src/App.jsx:44-58 | every record produced by the loops before a point is an `Improve` record numbered by its position, for an improving pair before that point, holding the tables just after the update |
| LisTrace.ImprovementsOrdered | src/App.jsx:44-50 | the records appear in the order the loops visit their pairs |
| LisTrace.ImprovementsNext | src/App.jsx:45-58 | trying candidate `j` for `i` appends exactly one record when the pair improves and none otherwise |
| LisTrace.ImprovementsCount | src/App.jsx:44-50 | the loops produce exactly one record per improving pair before a point |
| LisTrace.TablesConsistent | src/App.jsx:32-48 | at every point of the loops the tables agree: lengths at least 1, and each back-pointer is -1 with length 1, or strictly backwards to a smaller element whose length is one less |
| LisTrace.TablesAdvance | src/App.jsx:45-48 | trying candidate `j` for `i` changes only the entries at `i` |
| LisTrace.TablesNextRow | src/App.jsx:44-45 | finishing row `i` leaves the tables and records as they are at the start of row `i + 1` |
| LisTrace.LengthsMonotone | src/App.jsx:46-47 | no length entry decreases as the loops advance |
| LisTrace.TablesStable | src/App.jsx:44-48 | once no later comparison improves, the tables are the final ones |
| LisTrace.TraceNumbering | src/App.jsx:36-76 | each record's `step` is its position and every record carries the input; the first is the `Init` record, the last the `Final` record, and the ones between are `Improve` records |
| LisTrace.TraceMiddle | src/App.jsx:36-76 | the records between `Init` and `Final` are exactly the records the loops push, in order |
| LisTrace.TraceOrder | src/App.jsx:44-51 | the `Improve` records of the trace appear in the order the loops visit their pairs |
| LisTrace.TracePairSet | src/App.jsx:44-51 | the trace has `2 +` (number of improving pairs) records, and its `Improve` records name exactly the improving pairs |
| LisTrace.TracePairs | src/App.jsx:44-51 | the trace has `2 +` (number of improving pairs) records, one per improving pair, in loop order |
| LisTrace.TraceShape | src/App.jsx:36-78 | the trace has `2 +` (number of improving pairs) records, each `step` equal to its position, all carrying the input; the first is `Init` with all lengths 1 and all back-pointers -1; the last is `Final` with the result; the ones between are `Improve` records, one per improving pair, in loop order |
| LisTrace.TraceImproveRecords | src/App.jsx:46-58 | each `Improve` record has `j < i` and `arr[j] < arr[i]`, names both in its description, and shows `d[i] = d[j] + 1` and `prev[i] = j` |
| LisTrace.TraceSnapshots | src/App.jsx:36-58 | every record before `Final` holds the length and back-pointer tables as they stand at its point of the loops |
| LisTrace.TraceRecords | src/App.jsx:46-58 | each `Improve` record has `j < i` and `arr[j] < arr[i]`, names both in its description, and shows the tables after the update (`d[i] = d[j] + 1`, `prev[i] = j`) |
| LisTrace.PointsInOrder | src/App.jsx:44-50 | the points of the loops at which records are taken never go backwards along the trace |
| LisTrace.TraceConsistent | src/App.jsx:46-55 | every snapshot before `Final` holds consistent tables |
| LisTrace.TraceLengthsMonotone | src/App.jsx:46-54 | no length entry decreases from one record to a later one |
| LisTrace.NoImprovementAfterLast | src/App.jsx:44-50 | no comparison after the last `Improve` record improves the table |
| LisTrace.TraceLastTables | src/App.jsx:54-69 | the record before `Final` shows the final tables, and the result is as long as the largest length there |
| FindLis.FindLIS | src/App.jsx:30-79 | the program returns exactly the reference trace and result; the last record is `Final` with the result; the result is a strictly increasing subsequence of the input and no increasing subsequence is longer |
| FindLis.FillTables | src/App.jsx:31-61 | the nested loops leave the final tables in `d` and `prev` and push `Init` followed by one `Improve` record per improving pair |
| FindLis.ScanCandidates | src/App.jsx:45-60 | the inner loop for `i` takes the tables from the start of row `i` to its end and pushes one `Improve` record per improving pair of the row |
| FindLis.Reconstruct | src/App.jsx:63-69 | the `while` loop prepends the values along the back-pointer walk from the first maximal entry |
| Visualizer.NextPosition | src/App.jsx:88-90 | `min(pos + 1, count - 1)`: stays in `[0, count - 1]` and stands still exactly on the last record |
| Visualizer.PrevPosition | src/App.jsx:92-94 | `max(pos - 1, 0)`: stays in `[0, pos]` and stands still exactly on the first record |
| Visualizer.AdvanceRepeatedly | src/App.jsx:88-90 | `k` forward steps move `k` records but never past the last |
| Visualizer.RetreatRepeatedly | src/App.jsx:92-94 | `k` backward steps move `k` records but never before the first |
| Visualizer.RemoveAt | src/App.jsx:106-108 | the filter drops exactly the element at the index and keeps the rest in order; an index outside the sequence drops nothing |
| Visualizer.App.constructor | src/App.jsx:21-24 | the page starts with `[5, 2, 8, 6, 3, 6, 9, 7]`, its trace and result, and the cursor on the first record |
| Visualizer.App.SetSequence | src/App.jsx:81-86 | a new sequence rebuilds the trace and the result for it and resets the cursor to 0 |
| Visualizer.App.AddNumber | src/App.jsx:100 | appending a number rebuilds for the extended sequence and resets the cursor |
| Visualizer.App.RemoveNumber | src/App.jsx:106-108 | removing an index rebuilds for the filtered sequence and resets the cursor |
| Visualizer.App.AtStart | src/App.jsx:415 | "Previous Step" is disabled exactly when a step back would leave the cursor where it is |
| Visualizer.App.AtEnd | src/App.jsx:423 | "Next Step" is disabled exactly when a step forward would leave the cursor where it is |
| Visualizer.App.NextStep | src/App.jsx:88-90 | the cursor moves to `min(pos + 1, steps.length - 1)`, stays on a record, and stands still exactly when at the end |
| Visualizer.App.PrevStep | src/App.jsx:92-94 | the cursor moves to `max(pos - 1, 0)`, stays on a record, and stands still exactly when at the start |
| Scenarios.EmptySequence | src/App.jsx:30-79 | the empty sequence gives two records, an `Init` with empty tables and a `Final` with an empty result |
| Scenarios.SingleElement | src/App.jsx:44-78 | one element gives two records and is its own result |
| Scenarios.AscendingTables | src/App.jsx:44-48 | on a strictly ascending input every candidate improves, so after `j` candidates the entry is `j + 1` and the back-pointer `j - 1` |
| Scenarios.AscendingImprovements | src/App.jsx:44-58 | on a strictly ascending input the loops produce `i(i-1)/2 + j` records before the point `(i, j)` |
| Scenarios.AscendingChain | src/App.jsx:66-69 | on a strictly ascending input the walk from `k` visits every position `0..k` |
| Scenarios.AscendingSequence | src/App.jsx:30-79 | a strictly ascending input is its own result, and its trace has `2 + n(n-1)/2` records |
| Scenarios.DefaultTables | src/App.jsx:44-48 | on the starting sequence the final lengths are `[1,1,2,2,2,3,4,4]` and the back-pointers `[-1,-1,0,0,1,4,5,5]` |
| Scenarios.DefaultStart | src/App.jsx:63 | on those lengths the walk starts at position 6 |
| Scenarios.DefaultWalk | src/App.jsx:66-69 | on those back-pointers the walk from 6 visits 1, 4, 5, 6 |
| Scenarios.DefaultResult | src/App.jsx:63-69 | the starting sequence's result is `[2, 3, 6, 9]` |

## Left out

- Rendering, highlighting and the explanatory text (src/App.jsx:134-453) are presentation only. The conditions that disable the two buttons are modelled (`App.AtStart`, `App.AtEnd` in the table above); the rest of the page is not.
- The named-example store (`loadExample`, `saveCurrentAsExample`, `deleteExample`, src/App.jsx:110-132) is a dictionary of presets with no algorithmic content. Loading an example amounts to `App.SetSequence`.
- Parsing the typed number (`trim`, `parseInt`, `isNaN`, src/App.jsx:96-104) depends on JavaScript library semantics. `App.AddNumber` takes the already parsed integer, and the text field is not modelled.
- React's state hooks and effect scheduling are replaced by the explicit transaction `App.SetSequence`. The transient state before the first effect, with an empty trace, is not modelled. The constructor stands for the page after its first effect.
- Description strings are a datatype. `Comparing(j, i, arr[j], arr[i])` stands for the template text and `InitialSequence` / `FinalSubsequence` stand for the fixed texts. Number-to-text formatting is not modelled.
- `Math.max` over an empty table is minus infinity, and `indexOf` of it is -1. `FirstMaxIndex` returns -1 for the empty table directly, with no floating-point values.
- Snapshots are copies in the source. In the model they are immutable sequences, so aliasing between records cannot arise and is not modelled.
- Parsing the typed text loses what `int` keeps: `parseInt` rounds a digit string beyond 2^53 to the nearest representable number, and turns one of more than about 309 digits into `Infinity`, which `isNaN` lets through to the append at src/App.jsx:100. Both belong to the parsing left out above; `App.AddNumber` receives the integer as parsed.
- The trace count on the starting sequence (13 records) is not stated as a lemma. The general law is `LisTrace.TraceShape` and `LisTrace.ImprovementsCount`.
