# BedFusion interval merger, modelled in Dafny

BedFusion rewrites BED files. After sorting the interval lines into canonical
order, `(*Bedfile).MergeLines` coalesces lines that share a grouping key and
whose intervals overlap or lie within the gap tolerance `Overlap`. The grouping
key is the chromosome, strand and feature. This project models that pass. It
covers its accumulator, the rewrite of the stop column, the set-union of the
optional columns, and the `stringInSlice` membership test. It then proves what
the merged lines are.

Files:

- `wrappers.dfy`: `Option`.
- `text.dfy`, module `Text`: stand-ins for the Go library calls the merger uses.
  - `Split` is `strings.Split(s, ",")`.
  - `Join` is its inverse.
  - `Itoa` is `strconv.Itoa`, with a decimal reader `Atoi` as its inverse.
  - `fmt.Sprintf("%s,%s", a, b)` is the concatenation `a + "," + b`.
- `merging.dfy`, module `Merging`: the model of `internal/bed/merging.go`.
  - The `Line` datatype.
  - `StringInSlice`.
  - The merge condition `Mergeable`.
  - One absorbing step, `Absorb` (the function) and `AbsorbLine` (the method with the column loop).
  - The specification of the pass, `Step` / `SweepLines` / `Merge`.
  - The class `Bedfile`, whose method `MergeLines` runs the loop over a `lines` field and replaces it.
- `merge_runs.dfy`, module `MergeRuns`: what the pass computes, run by run.
  - `Coalesce` folds one run into a line.
  - `Starts` gives the positions where runs begin.
  - The main theorem `SweepRuns`: the output is the coalesced maximal runs, in input order.
  - Lemmas derived from it: stop, columns, size and order, no mergeable neighbours, idempotence.
- `merge_examples.dfy`, module `MergeExamples`: the seven lines of `testMergeChrOnly` and of `testMergeChrStrand`, in sorted order, merged with the tolerances of the Go tests.

Modelling choices:

- **Input order.** The input of the pass is the sequence that `mergeSort` returns: `Merge` and `MergeLines` take the lines in the order given.
- **Panics.** A Go index panic is modelled as failure: `None` in the specification functions, `panicked` in the methods. Go panics when the stop is raised on an accumulator with fewer than three columns (merging.go:24), and when a joining line has more than three columns and more columns than the accumulator (merging.go:27-31). The predicate `Fits` states both conditions. On a panic `MergeLines` leaves `lines` unchanged, since Go never reaches the assignment at merging.go:49. In Go, only the slice `bf.Lines` is certainly unchanged then: see the aliasing line under "## Left out". `UniformColumnsNoPanic` shows that lines which all have the same number of columns, at least three, never panic.
- **Stop column.** The stop column `full[2]` is rewritten only when a strictly larger stop arrives (merging.go:22-25). If no line of a run raises the stop, the first line's own text stays in that column.
- **Empty input.** An empty input gives one zero-valued `Line`, because of the unconditional append at merging.go:49.
- **No column check.** The pass does not check the column count, so a joining line can panic under the two conditions above (`Fits`). The sort at merging.go:13 is left out (see "## Left out").

## Model

| member | source | states |
|---|---|---|
| `Merging.StringInSlice` | internal/bed/merging.go:54-61 | the left-to-right search returns true exactly when `item` is an element of `slice` |
| `Text.JoinSplit` | internal/bed/merging.go:30 | joining the pieces of `strings.Split(s, ",")` with commas gives back `s` |
| `Text.SplitJoin` | internal/bed/merging.go:30 | splitting the comma-join of comma-free pieces gives back the pieces |
| `Text.SplitAppend` | internal/bed/merging.go:31 | the entries of `a + "," + b` are the entries of `a` followed by those of `b` |
| `Text.ItoaRoundTrip` | internal/bed/merging.go:24 | the text written into the stop column reads back as exactly the new stop |
| `Text.ItoaInjective` | internal/bed/merging.go:24 | different stops are written as different texts |
| `Merging.UnionColumn` | internal/bed/merging.go:30-32 | a value already among the comma-split entries is not appended; otherwise its entries are appended at the end; a comma-free value is always among the result's entries |
| `Merging.Absorb` | internal/bed/merging.go:20-34 | absorbing a line keeps chromosome, start, strand, feature, column count and the columns before the stop; the stop is the larger of the two; the stop column is the new stop's text if the stop was raised, and is unchanged otherwise |
| `Merging.AbsorbLine` | internal/bed/merging.go:20-34 | the branch with its column loop panics exactly when the absorb does not fit the columns, and otherwise yields `Absorb` |
| `Merging.Mergeable` | internal/bed/merging.go:15-19 | (definition) a line joins the accumulator when chromosome, strand and feature agree and `merged.Stop + Overlap >= l.Start - 1` |
| `Merging.Fits` | internal/bed/merging.go:24-31 | (definition) the absorb stays in bounds: the stop column exists when the stop is raised, and a line with optional columns has no more columns than the accumulator |
| `Merging.UnionColumns` | internal/bed/merging.go:27-34 | the column count is kept; the first three columns and those beyond the joining line's are unchanged; in every other column the old entries stay in front, and the joining value's entries are appended unless the value is already present, so a comma-free value is always among the entries |
| `Text.Split` | internal/bed/merging.go:30 | `strings.Split(s, ",")` always gives at least one piece |
| `Text.Itoa` | internal/bed/merging.go:24 | the stop text is never empty and contains no comma |
| `Merging.Step` | internal/bed/merging.go:15-46 | an iteration panics only on a joining line (not the first, mergeable) that does not fit; otherwise the accumulator afterwards has the key of the line read and a stop at least its stop; the emitted lines only grow, by at most one line, and that line is the previous accumulator; a joining line emits nothing, keeps the run's start and takes the larger stop; any other line starts the accumulator at its own start and stop |
| `Merging.SweepLines` | internal/bed/merging.go:13-47 | a pass over a non-empty input emits fewer lines than it reads; over an empty input it leaves the zero line in the accumulator |
| `Merging.Merge` | internal/bed/merging.go:36-49 | the output has at least one line and no more lines than a non-empty input; an empty input gives exactly one zero-valued line |
| `Merging.PanicPersists` | internal/bed/merging.go:13-49 | a panic on a prefix of the input is a panic of the whole call |
| `Merging.Bedfile.MergeLines` | internal/bed/merging.go:10-50 | replaces `lines` with the result of the pass exactly when it does not panic, and leaves them unchanged when it panics; `overlap` stays the same |
| `MergeRuns.MaxStop` | internal/bed/merging.go:22-23 | the maximum stop of a run is at least every stop of the run and is one of them |
| `MergeRuns.Coalesce` | internal/bed/merging.go:41-45 | a coalesced run has the chromosome, start, strand, feature, column count and leading columns of its first line |
| `MergeRuns.CoalesceStop` | internal/bed/merging.go:22-25 | the coalesced stop is the maximum stop of the run; the stop column holds its text when a later line raised it, else the first line's text |
| `MergeRuns.NewValuesSpec` | internal/bed/merging.go:30-31 | the values added to a column are exactly those of the run that were absent; none is added twice; a duplicate-free column stays duplicate-free |
| `MergeRuns.CoalesceColumn` | internal/bed/merging.go:27-34 | each optional column of a coalesced run splits into the first line's entries followed by the later lines' new comma-free values, in first-seen order |
| `MergeRuns.RunColumnUnion` | internal/bed/merging.go:27-34 | every comma-free value of the run is among the entries; the first line's entries are a prefix; duplicate-freedom is kept |
| `MergeRuns.Starts` | internal/bed/merging.go:35-39 | the run starts begin at 0, increase strictly and lie inside the input |
| `MergeRuns.AccumulatorKey` | internal/bed/merging.go:16-18 | the accumulator always has the grouping key of the last line read |
| `MergeRuns.SweepRuns` | internal/bed/merging.go:13-49 | the output is the input cut into runs at `Starts`, each run coalesced; each line of a run is mergeable with the coalesced lines before it; the first line of each next run is not mergeable with the coalesced previous run |
| `MergeRuns.StartsExactly` | internal/bed/merging.go:15-19 | position `i` starts a new run if and only if it is the first line or is not mergeable with the accumulator built from the lines before it |
| `MergeRuns.KeyChangeStartsRun` | internal/bed/merging.go:16-18 | a line whose chromosome, strand or feature differs from the previous line always starts a new run |
| `MergeRuns.OutputRun` | internal/bed/merging.go:36-45 | output line `k` is the coalesced run `k`, whose first line is the input line where the run starts |
| `MergeRuns.OutputHeads` | internal/bed/merging.go:38-49 | there is one output line per run start, between 1 and the input size; output `k` has the key, start and leading columns of its run's first line; the first lines are in input order |
| `MergeRuns.OutputStop` | internal/bed/merging.go:22-25 | each output stop is the maximum stop of its run, and the stop column's text follows it as in `CoalesceStop` |
| `MergeRuns.OutputColumn` | internal/bed/merging.go:27-34 | there is one output line per run; each optional output column splits into its run's first-line entries followed by the comma-free values the later lines bring, in first-seen order; every such value is among the entries; the column is duplicate-free when the first line's entries are |
| `MergeRuns.OutputsApart` | internal/bed/merging.go:15-19 | consecutive output lines differ in key or satisfy `earlier.stop + overlap < later.start - 1` |
| `MergeRuns.SweepApart` | internal/bed/merging.go:35-46 | a pass over lines no neighbours of which are mergeable copies them unchanged |
| `MergeRuns.MergeIdempotent` | internal/bed/merging.go:10-50 | merging the merged lines again with the same tolerance gives the same lines |
| `MergeRuns.UniformColumnsNoPanic` | internal/bed/merging.go:24-31 | when all lines have the same number of columns, at least three, the pass never panics |
| `MergeExamples.ChrOnlyUpToTen` | internal/bed/merging_test.go:165-239 | for every tolerance from 0 to 10, the seven lines merge into (1,8) with columns "1,-1" and "A,B", then (20,30), then chromosome "2" (6,8) |
| `MergeExamples.ChrOnlyDefault` | internal/bed/merging_test.go:165-186 | with tolerance 0 the result is (1,8) "1,-1" "A,B", (20,30), and "2" (6,8) |
| `MergeExamples.ChrOnlyOverlapMinusOne` | internal/bed/merging_test.go:187-215 | with tolerance -1, (1,4) stays alone, the (5,8) and (6,8) lines merge into (5,8) "1,-1" "A,B", then (20,30), and "2" (6,8) |
| `MergeExamples.ChrOnlyOverlapTen` | internal/bed/merging_test.go:216-239 | with tolerance 10 the result is the same as with 0: (20,30) stays apart from (1,8) |
| `MergeExamples.ChrOnlyOverlapEleven` | internal/bed/merging_test.go:240-259 | with tolerance 11, (20,30) joins and the result is (1,30) with stop column "30", "1,-1", "A,B", then "2" (6,8) |
| `MergeExamples.ChrStrandDefault` | internal/bed/merging_test.go:259-290 | the seven `testMergeChrStrand` lines give the strand "-1" line (5,8) unchanged, then (1,8) on strand "1" with column 3 still "1" and column 4 "A,B", then (20,30), then chromosome "2" (6,8) |

## Left out

- `mergeSort` (called at merging.go:13): its comparator is not part of this model. The pass takes its input in the given order. No lemma depends on the input being sorted.
- Padding (`PadLines` and the functions it calls) and the `MergeAndPadLines` pipeline: their source is not part of this model.
- Configuration and path handling (column checks, fasta-index and fission checks, sorting options, `chrOrderToMap`, `cleanPaths`): their source is not part of this model. So are the parser that fills `Strand` and `Feat` from the configured columns and the other fields of `Bedfile`.
- Slice aliasing: `merged.Full = l.Full` (merging.go:44) shares the backing array. Copying a `[]Line` copies only the slice headers of each `Full`, so the writes at merging.go:24 and :31 can reach the `Full` arrays of the lines of `bf.Lines` itself. On a panic, only the slice `bf.Lines` is certainly unchanged in Go, not the contents of its lines' columns. `full` is a value sequence here, so these writes are not modelled.
- `Line` fields other than the six the tests show (`Chr`, `Start`, `Stop`, `Strand`, `Feat`, `Full`) are not known and are not modelled. With exactly these six, the new-run literal at merging.go:41-45 equals the line itself.
- Go's 64-bit `int`: the model uses unbounded integers. An overflow of `merged.Stop + bf.Overlap` or of `l.Start - 1` is not modelled.
- `Text.Atoi`: only a partner for `Itoa`. It accepts an optional sign and at least one digit, and leaves out the 64-bit range error of `strconv.Atoi`.
- `MergeRuns.OutputColumn`: states the union only for values that contain no comma. The test at merging.go:30 compares a value with the comma-split entries, so a value such as `"A,B"` is never found and is appended again each time it is seen. `Merging.UnionColumn` states what happens to the comma-split entries in that case too.
- `MergeRuns.RunColumnUnion`: same restriction to comma-free values, for the same reason.
- `MergeRuns.CoalesceColumn`: same restriction to comma-free values, for the same reason.
- Test concurrency (`t.Parallel`): not relevant to the pass.
