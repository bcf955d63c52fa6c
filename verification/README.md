# A verified model of the `ndiff` edit-script engine

`ndiff` is a small Rust program that diffs two sequences of lines. Its
distinctive feature is that it tries to treat numbers as noise. Lines the
line equality accepts are identical once their numeric characters are
removed; the converse fails, because the equality is itself a tie-breaking
diff ("1a2" and "2a1" are not equal). A line made only of numeric characters
(`char::is_numeric`), the empty line included, is never shown as an
insertion or a deletion.

The heart of the program is the generic engine `diff_ops`. It takes two
sequences `a` and `b`, a matching predicate `eq` and an editability
predicate `filter_edit`. It works in two phases:

- It fills an (|a|+1) × (|b|+1) grid of costs and directions. Deleting or
  inserting an element costs 1. A diagonal step is free and is allowed only
  between related elements. There is no substitution. `opsel_min` breaks
  ties in the order Del, Ins, Nop.
- It walks back from the far corner to the origin. On the way it builds a
  list of `Op`s in which consecutive unchanged steps are merged into one
  `Nop(n)`. A deletion or insertion of a non-editable element becomes a
  `Nop` step instead. It then reverses the list.

The line diff `diff` runs this engine twice over. It runs it over lines
with a line equality that is itself the engine run over characters.
Character equality is exact, and numeric characters are not editable. Two
lines are equal when that inner script shows no Del or Ins. At line level, a
line is editable unless all of its characters are numeric.

The project has six modules:

- `Grid` (grid.dfy): `opsel_min` and the grid as a recursive function
  `Cell`. This module also shows that every cell's cost is the cheapest path
  cost.
- `Ops` (ops.dfy): edit scripts. `Join` appends two scripts and merges a run
  at the seam. The module also defines what a script deletes, inserts and
  walks over, and what it rebuilds when it is replayed.
- `Backtrace` (backtrace.dfy): the script the engine returns, `Script` and
  `DiffOps`, given as a pure function of the grid, with its properties.
- `Engine` (engine.dfy): the engine as the program runs it, with two
  `array2` grids and a loop that walks back building a reversed list. It is
  proved to return exactly `Backtrace.DiffOps`.
- `Lines` (lines.dfy): the numeric-tolerant line equality, line
  editability and the line diff.
- `Examples` (examples.dfy): the program's own demonstration inputs,
  together with inputs that show where the line equality departs from
  "compare with digits removed".

The model follows the code in one place where a reader might expect more:

- A deletion or insertion that `filter_edit` hides is recorded as `Nop(1)`.
  A `Nop(n)` otherwise means "n elements of both sides are unchanged", so
  such a run walks over one element too many on the other side.
- The model keeps this behaviour rather than a "consumes each side exactly
  once" reading. `Examples.HiddenDeletionIsRun` exhibits it.
- The exact consumption properties are proved for the walk itself
  (`Grid.PathConsumes`). For the script, they are proved when every element
  is editable (`Backtrace.ScriptCoversInputs`).

## Model

| member | source | states |
|---|---|---|
| Grid.OpselMin | src/main.rs:19-28 | the result is no more than any candidate; the tag names the candidate whose value it returns; Ins wins only when strictly cheaper than Del, and Nop only when strictly cheaper than both |
| Grid.Cell | src/main.rs:36-75 | a cell's direction is Del only off the top row, Ins only off the left column, and Nop only at the origin or on a diagonal between `eq`-related elements, because the `usize::MAX` sentinel never wins |
| Grid.CellNeighbours | src/main.rs:62-73 | a cell costs at most one more than the cell above, at most one more than the cell to the left, and at most the diagonal cell's cost when the diagonal is allowed |
| Grid.CellStep | src/main.rs:62-73 | a cell's cost equals the cost of the candidate its direction names |
| Grid.CostLowerBound | src/main.rs:36-75 | turning i elements into j elements costs at least the difference of i and j |
| Grid.PathConsumes | src/main.rs:77-110 | any walk from the origin to (i, j) consumes i elements of `a` and j elements of `b`: each by exactly one Del or diagonal step, or one Ins or diagonal step |
| Grid.CellIsOptimal | src/main.rs:36-75 | no walk from the origin to (i, j) has fewer deletions plus insertions than the cell's cost |
| Grid.TracePath | src/main.rs:86-110 | the walk the backtrace follows is a valid walk whose cost is the cell's cost, so the grid holds the cheapest cost |
| Ops.JoinMeasures | src/main.rs:79-85 | merging a run at the seam loses no deleted or inserted element and walks over as many elements as the two parts together |
| Ops.JoinCoalesced | src/main.rs:79-85 | joining two coalesced scripts gives a coalesced script: every run is at least 1 long and no two runs are adjacent |
| Ops.JoinAllNop | src/main.rs:79-85 | a join shows no edit exactly when neither part shows one |
| Ops.JoinAssoc | src/main.rs:79-110 | joining is associative around a single entry |
| Ops.PushNop | src/main.rs:79-85 | extending the last run or starting a run of 1 is the same as joining a run of 1 |
| Ops.Reverse | src/main.rs:111 | the reversed list has the same length, with the element at position k taken from position length-1-k |
| Ops.ReverseJoin | src/main.rs:79-111 | pushing an entry onto the backwards list and then reversing it is the same as joining the entry in front of the reversed list |
| Ops.ReplayExtend | src/main.rs:86-112 | appending an entry, even one that merges into the last run, replays the old script on the first part of `a` followed by what the entry emits on the rest |
| Backtrace.Prev | src/main.rs:86-110 | each backtrace step moves to a cell no further right or down and strictly lowers i+j, so the walk ends at the origin |
| Backtrace.Script | src/main.rs:77-112 | the script the engine returns is coalesced: every `Nop` count is at least 1 and no two `Nop`s are adjacent |
| Backtrace.EntryWalks | src/main.rs:86-108 | one step walks over at most one element of each input; a Del carries the element of `a` it walks over and an Ins the element of `b`, and that element is editable |
| Backtrace.DeletionsComeFromA | src/main.rs:101-108 | every deleted element passes `filter_edit`, and the deleted elements appear in `a` in the same order |
| Backtrace.InsertionsComeFromB | src/main.rs:93-100 | every inserted element passes `filter_edit`, and the inserted elements appear in `b` in the same order |
| Backtrace.EditCountAtMostCost | src/main.rs:58-110 | the script never shows more deletions plus insertions than the grid's cost |
| Backtrace.EditCountIsCost | src/main.rs:58-110 | when every element is editable, the number of Del plus Ins entries equals the grid's cost |
| Backtrace.ScriptCoversInputs | src/main.rs:86-110 | when every element is editable, the script walks over exactly as many elements as `a` and `b` hold |
| Backtrace.ReplayRebuildsTarget | src/main.rs:58-112 | with exact matching and everything editable, replaying the script for (i, j) over the first i elements of `a` yields the first j elements of `b` |
| Backtrace.ReplayRebuildsB | src/main.rs:201-206 | with `eq` implying equality and `filter_edit` always true, replaying the whole script over `a` rebuilds `b`: `Nop(n)` copies n elements, Del skips one and Ins emits one |
| Backtrace.EqualPrefixes | src/main.rs:58-112 | prefixes of length k related element by element by `eq` give the script `[Nop(k)]`, or `[]` when k is 0 |
| Backtrace.IdenticalInputs | src/main.rs:58-112 | diffing a sequence against itself gives one run as long as the sequence, or `[]` when it is empty |
| Backtrace.FromEmpty | src/main.rs:36-47 | from an empty `a`, when every element of `b` is editable, every element of `b` is inserted, in order |
| Backtrace.RowAfterPrefix | src/main.rs:58-75 | past a prefix related element by element by `eq`, of length k, the cells along row k are insertions, each costing one more than the last |
| Backtrace.ColumnAfterPrefix | src/main.rs:58-75 | past a prefix related element by element by `eq`, of length k, the cells along column k are deletions, each costing one more than the last |
| Backtrace.SharedPrefixInvisibleTails | src/main.rs:93-108 | inputs that share a prefix and differ only in non-editable tails produce a script with no Del or Ins |
| Backtrace.UnchangedKeepsEditable | src/main.rs:86-110 | with `eq` implying equality, a script with no Del or Ins means the two inputs agree once their non-editable elements are removed |
| Engine.NextCell | src/main.rs:62-73 | the choice computed from the three neighbouring array entries is the cell the recurrence defines |
| Engine.FillBorders | src/main.rs:36-57 | row 0 holds cost j with direction Ins, column 0 holds cost i with direction Del, and the origin keeps Nop, as the recursive cell defines them |
| Engine.FillGrid | src/main.rs:36-75 | after filling, both arrays have one row more than `a` has elements and one column more than `b`, and every entry holds the cost and direction of the recursive cell |
| Engine.FillRow | src/main.rs:59-74 | filling row i from left to right makes every entry of rows 0 to i agree with the recursive cells |
| Engine.WalkStep | src/main.rs:87-109 | one loop iteration moves to the cell the direction names and pushes the step's entry with merging: a hidden deletion or insertion extends the run |
| Engine.BacktraceStep | src/main.rs:86-110 | the loop invariant holds: the script still to come, joined with the reversed list built so far, is the whole script |
| Engine.WalkBack | src/main.rs:77-112 | the walk back over a correctly filled direction grid, with the final reversal, returns exactly the pure script |
| Engine.ComputeDiffOps | src/main.rs:30-113 | the engine returns the pure script, which is coalesced |
| Lines.Diff | src/main.rs:123-138 | the line diff is the engine run with the line equality and line editability, and its result is coalesced |
| Lines.LinesEqualReflexive | src/main.rs:127-136 | every line equals itself, the empty line included |
| Lines.LinesEqualSound | src/main.rs:127-136 | lines the equality accepts are identical once their numeric characters are removed |
| Lines.NumericTailsEqual | src/main.rs:127-136 | lines that share a prefix and differ only in all-numeric tails are equal |
| Lines.LineEditableIff | src/main.rs:137 | a line is editable exactly when it has a non-numeric character, so empty and all-numeric lines are not editable |
| Lines.VisibleLinesHaveText | src/main.rs:124-138 | every line the line diff deletes or inserts has a non-numeric character, so empty and all-numeric lines never show as edits |
| Lines.VisibleLinesInOrder | src/main.rs:124-138 | the deleted lines appear in `a`, and the inserted lines in `b`, in the same order |
| Examples.FirstDemo | src/main.rs:201-206 | the first demonstration gives `[Nop(2), Ins("baz"), Del("goh"), Nop(1)]` |
| Examples.OneReplacedLine | src/main.rs:201-206 | any four lines in which only the third line is replaced give a run of 2, the insertion, the deletion, and a run of 1 |
| Examples.NumericVariantsEqual | src/main.rs:219-222 | "bar2224" and "bar234423" are equal lines |
| Examples.DifferentWordsUnequal | src/main.rs:219-222 | "baz5" and "qux3" are not equal lines |
| Examples.StrippedEqualIsNotEnough | src/main.rs:127-136 | "1x" and "x1" agree once digits are removed, yet the character script is `[Ins('x'), Nop(1), Del('x')]` and the lines are not equal |
| Examples.SwappedDigitsUnequal | src/main.rs:127-136 | "1a2" and "2a1" agree once digits are removed and keep their letter in place, yet the character script is `[Nop(1), Ins('a'), Nop(1), Del('a'), Nop(1)]` and the lines are not equal |
| Examples.HiddenDeletionIsRun | src/main.rs:101-107 | deleting a hidden "1" against an empty line gives `[Nop(1)]`, a run that walks over one element of an empty second input |

## Left out

- `main`'s printing (src/main.rs:207, 209-217) is not modelled. The second
  demonstration, "a132544x" against "b1024x", is not worked as a lemma,
  and no member states its result.
- The `Hunk` struct and the hunk loop in `diff` (src/main.rs:115-121,
  140-197) are left out. The loop body is commented out and `diff` always
  returns an empty vector. The `debug_assert` at line 195 depends on
  iterators the loop never advances. `Lines.Diff` stops at the script.
- Unicode `char::is_numeric` is a parameter `numeric: char -> bool`.
  `Examples.AsciiDigit` is one instance of it, used by the worked examples.
- Costs are unbounded naturals. `usize` overflow of `cost + 1` cannot
  happen for inputs that fit in memory.
- The `usize::MAX` sentinel is `Grid.Bound.Max`, which is above every real
  cost.
- The `NonZeroUsize::new(..).unwrap()` calls are not modelled as failures.
  Every run count is at least 1 (`Ops.Coalesced`).
- `ndarray` and `itertools` are replaced by Dafny `array2` and sequences.
- Running time, including the nested cost of calling the character diff
  inside the line diff, is out of scope.
- Engine.FillGrid, Engine.FillBorders, Engine.FillRow: these contracts are
  about arrays the method allocates or modifies. The same facts are stated without arrays by
  `Grid.Cell` and `Engine.NextCell`.
