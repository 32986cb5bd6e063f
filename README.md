# DLX Sudoku solver in Dafny

This project models `SudokuDLX`, the solver engine of the DLX Sudoku solver (`src/dlx.js`). The
engine is Knuth's Algorithm X with Dancing Links, specialised to 9x9 Sudoku. It has four parts:

- **Toroidal matrix.** Every node has `left`, `right`, `up`, `down` and `column` pointers.
  Every column header also has a `size`. The operations are the splice helpers `linkRight` and
  `linkDown`, and the `cover` and `uncover` primitives.
- **Matrix builder.** `initialize` creates 324 constraint columns in four 81-wide bands:
  cell filled, row has digit, column has digit, box has digit. It then adds one four-node row
  for each candidate `{r, c, num}` of the grid.
- **Search.** `search` is recursive Algorithm X. It picks the active column of least size
  (the first one on ties), covers it, and tries each row under it.
- **Solution mapper.** `solve` writes the chosen candidates into the copy of the puzzle.

The matrix is an arena, and the class `Solver.SudokuDLX` holds it. The arena consists of integer
arrays `left`, `right`, `up`, `down` and `column`, indexed by node id, plus a `size` array for
the headers and a `data` array for the payloads. Node 0 is the root header. Nodes 1..324 are
the column headers, and column name `i` is node `i + 1`. Each candidate row takes four
consecutive ids from 325 on. The methods update these arrays in place, statement by statement
as the source does.

Each method is proved against a pure specification in module `Dancing`. That module works on a
value snapshot `Links` of the arrays, with one function per statement group of the source:
`SpliceOut`, `SpliceIn`, `HeaderOut`, `HeaderIn`, `CoverLinks` and `UncoverLinks`. A ghost
view `Lists` names the lists the links encode: the active headers on the root's list, and the
row nodes under each header. `Wf(m, a)` says the links `m` encode exactly the lists `a`. It
also says every header's `size` equals the length of its list, and every row is a circular
list of four nodes in four distinct columns.

Module layout:

- `lists.dfy` (`CircularLists`): circular doubly linked lists encoded in `next`/`prev`
  arrays, and splicing a member out of them.
- `sudoku.dfy` (`Sudoku`): grids, candidates, the constraint-index arithmetic, exact covers
  and Sudoku solutions.
- `dancing.dfy` (`Dancing`): the arena, well-formedness, cover and uncover as functions, and
  the proof that uncover undoes cover.
- `building.dfy` (`Building`): what `linkRight`, `linkDown` and `addMatrixRow` do to the
  lists, and the invariant of `initialize`.
- `solutions.dfy` (`Solutions`): what it means for the chosen candidates to meet every
  active column exactly once, and the stages of covering a chosen row.
- `solver.dfy` (`Solver`): the class `SudokuDLX` with its methods.
- `backtrack.dfy` (`Backtrack`): the backtracking step as the source writes it (see
  Findings).

The source's comment on the trail differs from its code. The code pushes the payload
`r.data` onto `solution`, not the node. The model does the same: `solution` is a sequence of
candidates, and the search keeps the row node in a local variable for the uncover walk.

## Model

| member | source | states |
|---|---|---|
| `Sudoku.Box` | src/dlx.js:62 | the box index is in 0..8; its row of boxes is `r / 3` and its column of boxes is `c / 3` |
| `Sudoku.Constraints` | src/dlx.js:62-67 | a candidate in range yields four indices, one per band: [0,81), [81,162), [162,243), [243,324) |
| `Sudoku.DecodeConstraints` | src/dlx.js:64-65 | the cell index and the row-digit index determine the candidate, so distinct candidates have distinct rows |
| `Sudoku.SharedConstraint` | src/dlx.js:62-67 | two candidates share a column only in the same band; they then agree on the cell, the row and digit, the column and digit, or the box and digit |
| `Sudoku.CellCandidatesSpec` | src/dlx.js:53-60 | a cell holding `v != 0` yields exactly the one candidate `num = v`; an empty cell yields exactly nine, `num = 1..9` in order |
| `Sudoku.CandidatesSpec` | src/dlx.js:51-73 | the rows built for a grid are exactly its allowed candidates (in range, agreeing with a filled cell), at most 729 |
| `Sudoku.Place` | src/dlx.js:187 | writing a candidate sets its cell to its digit and leaves every other cell unchanged |
| `Sudoku.FillAt` | src/dlx.js:186-188 | after writing a list of candidates, a cell none of them names keeps its value, and otherwise holds the digit of the last one naming it |
| `Sudoku.CellWriter` | src/dlx.js:186-188 | in an exact cover every cell is named by exactly one candidate, and the filled grid holds its digit |
| `Sudoku.ExactCoverSolves` | src/dlx.js:183-189 | allowed candidates forming an exact cover, written into the puzzle, give a completed grid with no repeated digit in any row, column or box, and every given digit kept |
| `Sudoku.SolutionCovers` | src/dlx.js:49-73 | the converse: a completed grid that keeps the given digits and repeats none picks one allowed candidate per cell. Those 81 candidates cover every constraint exactly once, and writing them into the puzzle gives the grid back |
| `Building.LinkRightAppends` | src/dlx.js:77-82 | `linkRight` after the last member of a circular list appends the node to that list and changes no vertical link or size |
| `Building.LinkDownAppends` | src/dlx.js:85-91 | `linkDown` below a column's last node appends the node to that column, adds exactly 1 to that column's size, changes no other size and no horizontal link |
| `Building.HeaderStep` | src/dlx.js:43-46 | one pass of the header loop appends header `k + 1` to the root's list, leaving it alone in its column with size 0 |
| `Building.HeadersDone` | src/dlx.js:42-47 | after the header loop, the root's list holds the 324 headers for names 0..323 in ascending order, each with an empty column and size 0 |
| `Building.ConstraintColumns` | src/dlx.js:64-70 | the header nodes `columns[idx]` of a candidate's row are the four columns of its constraints, in band order |
| `Building.AddRowReady` | src/dlx.js:93-113 | adding a candidate's row keeps the matrix well formed: the row is a circular list of 4 nodes, each at the bottom of its own column, each pointing to that column's header and carrying the payload |
| `Building.BuiltStep` | src/dlx.js:60-70 | adding the row of one more allowed candidate keeps the invariant of `initialize`, with row k carrying the k-th candidate |
| `Building.CountedStep` | src/dlx.js:60-70 | after the row of one more candidate, every column list still holds one node per candidate whose row meets that column |
| `Building.HangsWhole` | src/dlx.js:93-113 | while every column is active and every node hangs in its column, every row is whole |
| `Dancing.RowLinks` | src/dlx.js:93-113 | in well-formed links a row node's `right` and `left` are the next and the previous node of its four-node row |
| `Dancing.HeaderListEmpty` | src/dlx.js:148-149 | `header.right === header` exactly when no column is active |
| `Dancing.HeaderOutStep` | src/dlx.js:120-121 | taking a header out of the root's list leaves that list without it and every column list as it was |
| `Dancing.CoverWf` | src/dlx.js:119-130 | `cover(c)` leaves the links well formed: c is gone from the root's list, and every other node of every row of c is gone from its column. Each column's size still equals its new length, so each affected size went down by one per node removed |
| `Dancing.CoverRowsWhole` | src/dlx.js:119-130 | after `cover(c)`, every row still hanging in an active column hangs there whole |
| `Dancing.KeptRow` | src/dlx.js:123-129 | a row that still hangs after `cover(c)` hangs there with all four of its nodes |
| `Dancing.CoverKeepsColumn` | src/dlx.js:123-129 | `cover(c)` leaves the vertical list of c itself intact |
| `Dancing.CoverUncover` | src/dlx.js:119-143 | `uncover(c)` right after `cover(c)` restores every `left`, `right`, `up`, `down` link and every `size` |
| `Dancing.CoverWalk` | src/dlx.js:123-128 | the nested walk of `cover` (rows top to bottom, nodes left to right) unlinks exactly the nodes of `CoverLinks`, in that order |
| `Dancing.UncoverWalk` | src/dlx.js:134-142 | the nested walk of `uncover` (rows bottom to top, nodes right to left), then the header relink, yields the links before the cover |
| `Dancing.RowOthers` | src/dlx.js:163-165 | the other three nodes of a row under active column c lie in three distinct columns, all active and none of them c |
| `Solutions.SolvesAll` | src/dlx.js:148-149 | candidates meeting all 324 columns exactly once are an exact cover of the Sudoku constraints |
| `Solutions.ExtendsPush` | src/dlx.js:161-167 | pushing a row's candidate, then candidates that meet exactly the rest of the active columns, meets exactly the active columns |
| `Solutions.RowColumns` | src/dlx.js:93-113 | the columns met walking any row are the four columns of the candidate it carries |
| `Solutions.RowStages` | src/dlx.js:158-165 | covering c and then the other columns of a chosen row keeps the links well formed and deactivates exactly those four columns |
| `Solutions.RowPlan` | src/dlx.js:158-165 | choosing a row under c deactivates exactly the four columns of its candidate, all of which were active, and strictly shrinks the root's list |
| `Backtrack.Get` | src/dlx.js:170-175 | reading a property of `undefined` throws; a record has no `left` or `column`; a node reads its neighbour or its header |
| `Backtrack.BacktrackThrows` | src/dlx.js:170-176 | the backtrack step as written throws a TypeError for every matrix and every non-empty trail |
| `Backtrack.BacktrackIntendedReads` | src/dlx.js:172-175 | keeping the row node, `r.left` is a node of the row and its column is read without error |
| `Solver.SudokuDLX.constructor` | src/dlx.js:27-32 | the arena holds just the root header, alone in its lists; the solution and result grid are empty |
| `Solver.SudokuDLX.NewColumnNode` | src/dlx.js:17-24 | a fresh header pointing to itself four ways, its own column, with size 0 |
| `Solver.SudokuDLX.NewRowNode` | src/dlx.js:6-14 | a fresh node pointing to itself four ways, in the given column; no payload changes |
| `Solver.SudokuDLX.LinkRightNode` | src/dlx.js:77-82 | the arrays after the four statements of `linkRight` are `LinkRight` of the arrays before |
| `Solver.SudokuDLX.LinkDownNode` | src/dlx.js:85-91 | the arrays after the five statements of `linkDown` are `LinkDown` of the arrays before |
| `Solver.SudokuDLX.AddMatrixRow` | src/dlx.js:93-114 | one node per index, each hung below its column and linked right of the previous one; every new node carries the payload, and old payloads are kept |
| `Solver.SudokuDLX.AddRowPass` | src/dlx.js:97-112 | pass i of the row loop extends the row built so far by one node in column `indices[i]`, carrying the payload, after the previous node |
| `Solver.SudokuDLX.AddRowNode` | src/dlx.js:97-113 | one pass of the row loop: a new node carrying the payload, linked down into its column and right of the previous node when there is one |
| `Solver.SudokuDLX.AddCandidate` | src/dlx.js:62-70 | the four constraint indices computed by the source are the candidate's `Constraints`, and the row added meets exactly their columns |
| `Solver.SudokuDLX.AddDigit` | src/dlx.js:60-70 | adding the row of one allowed digit keeps the builder's invariant |
| `Solver.SudokuDLX.AddCell` | src/dlx.js:53-71 | the rows of cell (r, c) are added: the given digit only, or 1..9 when the cell is empty |
| `Solver.SudokuDLX.AddCells` | src/dlx.js:51-73 | after the cell loops the matrix holds one row per allowed candidate, in row-major order |
| `Solver.SudokuDLX.AddHeaders` | src/dlx.js:42-47 | after the header loop, the root's list holds headers 1..324 in order, each alone with size 0 |
| `Solver.SudokuDLX.Initialize` | src/dlx.js:35-74 | the result is well formed, with all 324 columns active. Every row node hangs in its column, and row k carries the k-th candidate. The size of header h is the number of candidates whose row meets column h. The solution is empty and the result grid is the puzzle |
| `Solver.SudokuDLX.SpliceOutNode` | src/dlx.js:125-127 | the arrays after `j.down.up = j.up; j.up.down = j.down; j.column.size--` are `SpliceOut` of those before |
| `Solver.SudokuDLX.SpliceInNode` | src/dlx.js:136-138 | the arrays after `size++` and the two relinks are `SpliceIn` of those before |
| `Solver.SudokuDLX.HeaderOutNode` | src/dlx.js:120-121 | the arrays after taking c out of the header list are `HeaderOut` of those before |
| `Solver.SudokuDLX.HeaderInNode` | src/dlx.js:141-142 | the arrays after putting c back are `HeaderIn` of those before |
| `Solver.SudokuDLX.Cover` | src/dlx.js:119-130 | the arrays after `cover(c)` are `CoverLinks` of those before, which `Dancing.CoverWf` shows to be well formed |
| `Solver.SudokuDLX.CoverRows` | src/dlx.js:123-129 | the outer loop of `cover` unlinks the rows of c, top to bottom |
| `Solver.SudokuDLX.CoverRowOf` | src/dlx.js:123-128 | one pass of that loop unlinks one row and moves to `i.down` |
| `Solver.SudokuDLX.CoverRow` | src/dlx.js:124-128 | the inner loop of `cover` unlinks the three other nodes of row i, left to right |
| `Solver.SudokuDLX.Uncover` | src/dlx.js:133-143 | `uncover(c)` right after `cover(c)` restores the arrays exactly as they were |
| `Solver.SudokuDLX.UncoverRows` | src/dlx.js:134-140 | the outer loop of `uncover` relinks the rows of c, bottom to top |
| `Solver.SudokuDLX.UncoverRowOf` | src/dlx.js:134-139 | one pass of that loop relinks one row and moves to `i.up` |
| `Solver.SudokuDLX.UncoverRow` | src/dlx.js:135-139 | the inner loop of `uncover` relinks the three other nodes of row i, right to left |
| `Solver.SudokuDLX.ChooseColumn` | src/dlx.js:153-156 | the chosen column is active, its size is at most that of every active column, and strictly less than that of every column before it in list order |
| `Solver.SudokuDLX.RowStep` | src/dlx.js:163 | `r.right` and `r.left` stay in the row of r |
| `Solver.SudokuDLX.CoverOthers` | src/dlx.js:163-165 | covering the other columns of row r, left to right, takes the links through the stages planned by `Solutions.RowStages` |
| `Solver.SudokuDLX.CoverOther` | src/dlx.js:164 | one `cover(j.column)` takes the links one stage on |
| `Solver.SudokuDLX.UncoverOthers` | src/dlx.js:174-176 | uncovering those columns right to left takes the links back to where `CoverOthers` started |
| `Solver.SudokuDLX.UncoverOther` | src/dlx.js:175 | one `uncover(j.column)` takes the links one stage back |
| `Solver.SudokuDLX.Search` | src/dlx.js:146-181 | on success, the candidates pushed meet every active column exactly once and are allowed in the puzzle. On failure, the links and the trail are as they were. When no column is active (the root's list is empty), it returns true and leaves the links and the trail as they were. The recursion terminates because each level shrinks the root's list |
| `Solver.SudokuDLX.TryColumn` | src/dlx.js:158-180 | covers c, tries its rows, and uncovers c when none succeeds, restoring the links |
| `Solver.SudokuDLX.TryRows` | src/dlx.js:160-177 | tries the rows under c top to bottom and stops at the first success; otherwise the links and the trail are unchanged |
| `Solver.SudokuDLX.TryRow` | src/dlx.js:160-177 | a success through row r meets every active column exactly once, r's candidate included |
| `Solver.SudokuDLX.Descend` | src/dlx.js:161-176 | pushes the candidate, covers the row's other columns and recurses. On failure it pops the candidate and uncovers right to left from the kept row node, restoring links and trail |
| `Solver.SudokuDLX.Solve` | src/dlx.js:183-191 | on success, the result is the puzzle with each trail entry's digit written at its cell; the trail is an exact cover, and the result is a solution keeping every given digit. On failure, nothing is returned and the links, trail and result grid are unchanged |
| `Solver.SudokuDLX.WriteTrail` | src/dlx.js:186-188 | the result grid becomes the old one with the digit of every trail entry written at its cell, first to last |

## Left out

- `src/main.js` and `tailwind.config.js`: rendering, event wiring, input filtering, timing and styling. They are view code around the solver.
- The deep copy `JSON.parse(JSON.stringify(initialGrid))` is a value copy of the 9x9 sequence; serialisation is not modelled.
- The unused `nodes` array, the `rowIndex` field and the header `name` field are not modelled. A header's name is implicit: name `i` is node `i + 1`.
- Object identity is replaced by arena ids. Nodes live in fixed arrays of 3241 entries (root, 324 headers, 4 x 729 row nodes), so aliasing between separate objects is not modelled.
- `Solver.SudokuDLX.Solve`: requires the state `initialize` leaves (all columns active, empty trail). Calling `solve` on any other state, e.g. without `initialize`, is not modelled.
- `Solver.SudokuDLX.Initialize`: requires a 9x9 grid of values 0..9. The source leaves other input undefined and does not check it.
- `Solver.SudokuDLX.Search`: on failure it states only that links and trail are restored, not that no exact cover exists. The search is not proved complete, and the solution is not proved unique.
- The backtracking step follows the intent of the source comments, not the code as written; see Findings.
- JavaScript numbers are doubles; every value here is a small integer, so the model uses unbounded `int`.

## Findings

| source | as written | input that shows it | evidently intended | confidence | as-written member | corrected member |
|---|---|---|---|---|---|---|
| src/dlx.js:170-176 | `r = this.solution.pop()` rebinds the row iterator to the popped `{r, c, num}` record. `r.left` is then `undefined`, and `undefined.column` throws a TypeError on the first backtrack | any puzzle whose search backtracks, e.g. `grid[0][0] = 5`, `grid[0][1] = 5`, all other cells 0 | pop the trail entry but keep the row node, then uncover its other columns right to left and go on to `r.down` | high; not executed | `Backtrack.BacktrackThrows` | `Solver.SudokuDLX.Descend` |
