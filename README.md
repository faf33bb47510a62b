# Classic 9x9 Sudoku solver, modelled in Dafny

This project models `ClassicSudokuSolver`, the solver class of a small Java Sudoku program,
and proves what it promises. The class owns a 9x9 integer board in which 0 means an empty cell
and 1..9 a filled one. It offers:

- cell access with range checks (`setNumber`, `getNumber`, `clearNumber`);
- bulk load, copy-out and reset (`setMatrix`, `getMatrix`, `clear`);
- block geometry (`getThreeByThreeIndex`, `getRange`, `getThreeByThreeAsArray`);
- row and column copies (`getRow`, `getCol`);
- a duplicate detector (`checkForDuplicates`);
- a placement check (`isValid`) and a whole-board check (`isAllValid`);
- a depth-first backtracking search (`solve`, `solve(r, c)`, `isEmpty`).

The project has four modules:

- `Geometry` (geometry.dfy) holds the block arithmetic and the fixed table of block bounds.
- `SudokuGrid` (grid.dfy) states the rules over the board as a value (`seq<seq<int>>`):
  - rows, columns and blocks, and repeats within them;
  - what a placement check answers;
  - what it means for a board to obey the rules, to be completed, and to be completable.

  It also proves the facts the search rests on.
- `Sudoku` (solver.dfy) is the class itself. The board is an `array2<int>` changed in place. `Cells()` gives
  its value, and every method is proved against the `SudokuGrid` definitions. Each Java
  `IllegalArgumentException` becomes an `Err`/`Fail` result that names the refused
  argument. The checks run in the same order as in the Java.
- `SudokuScenarios` (scenarios.dfy) calls the solver on the boards of the unit tests and proves
  what each call returns: the answers those tests expect. One helper is a full board that obeys
  the rules, built by rotating 1..9. It is the witness that a completion exists, so the search
  must succeed; it is not the completion the search finds.

Where the code does something a reader might not expect, the model follows the code:

- `setNumber` refuses 0, as its documentation states, so it cannot empty a cell. `clearNumber`, `clear`, `setMatrix` (with
  a 0 entry) and `isValid` can.
- `isValid` is not read-only. It writes the number, reads the row, column and block, then
  empties the cell, whatever the cell held before.
- `isValid` answers false when the row, column or block through the cell already repeats a
  number among its cells other than (r, c), even a number other than the one tried. A repeat
  that involves the cell's old value does not count, since the number tried overwrites it.
- `setMatrix` is not atomic. After the dimension check it copies cells in row-major order. When
  it meets a value outside 0..9, or a later row that is too short, it stops with every earlier
  cell already copied.
- `solve` on a board that is already full answers true without looking at it, even when that
  board breaks the rules.

## Model

| member | source | states |
|---|---|---|
| Geometry.ThreeByThreeIndex | src/sudoku/ClassicSudokuSolver.java:280-282 | the block index of a cell on the board is in 0..8 and that block's rows and columns contain the cell |
| Geometry.BlocksTile | src/sudoku/ClassicSudokuSolver.java:280-282 | a cell lies in block k exactly when k is its block index, so the nine blocks tile the board |
| Geometry.BlockCell | src/sudoku/ClassicSudokuSolver.java:338-349 | the t-th cell, row-major, of block k is on the board and has block index k |
| Geometry.OffsetInBlock | src/sudoku/ClassicSudokuSolver.java:338-349 | the position of a cell inside its block is in 0..8 and leads back to the cell's row and column |
| Geometry.Range | src/sudoku/ClassicSudokuSolver.java:210-271 | for an index in 0..8 the table gives rows 3*(i/3)..3*(i/3)+2 and columns 3*(i%3)..3*(i%3)+2; any other index gives four zeros |
| SudokuGrid.EmptyGrid | src/sudoku/ClassicSudokuSolver.java:16-18 | the starting board is 9x9 with every cell 0 |
| SudokuGrid.Place | src/sudoku/ClassicSudokuSolver.java:35 | writing v into (r, c) changes that cell to v and no other cell |
| SudokuGrid.PlaceUndo | src/sudoku/ClassicSudokuSolver.java:85-89 | writing into an empty cell and then emptying it restores the board |
| SudokuGrid.BlockRowByRow | src/sudoku/ClassicSudokuSolver.java:338-349 | nine values laid down three per block row, row-major, are exactly block k |
| SudokuGrid.NoDupBelow | src/sudoku/ClassicSudokuSolver.java:290-304 | emptying some entries of a unit cannot create a repeat |
| SudokuGrid.DupAfterWrite | src/sudoku/ClassicSudokuSolver.java:85-90 | writing a non-zero v into a unit creates a repeat exactly when the unit without that position already repeats, or v occurs at another position |
| SudokuGrid.DistinctBound | src/sudoku/ClassicSudokuSolver.java:290-304 | distinct values drawn from a set are no more than the set has members |
| SudokuGrid.FullUnitHasAll | src/sudoku/ClassicSudokuSolverTest.java:95-113 | a full unit without repeats holds every number 1..9 |
| SudokuGrid.EmptyConsistent | src/sudoku/ClassicSudokuSolverTest.java:159-163 | the empty board obeys the rules |
| SudokuGrid.ConsistentGroups | src/sudoku/ClassicSudokuSolver.java:99-110 | on a board that obeys the rules the row, column and block through every cell are clean |
| SudokuGrid.BelowKeepsGroups | src/sudoku/ClassicSudokuSolver.java:187 | emptying cells never spoils a clean row, column or block |
| SudokuGrid.SolvableIsConsistent | src/sudoku/ClassicSudokuSolver.java:168-190 | a board that some board obeying the rules completes obeys the rules itself |
| SudokuGrid.PlaceInUnits | src/sudoku/ClassicSudokuSolver.java:85-88 | after a write to (r, c) the row, column and block read back differ from the old ones only at the cell's position |
| SudokuGrid.CheckedRow | src/sudoku/ClassicSudokuSolver.java:181-186 | a clean row stays clean when every changed cell has a clean row |
| SudokuGrid.CheckedCol | src/sudoku/ClassicSudokuSolver.java:181-186 | a clean column stays clean when every changed cell has a clean column |
| SudokuGrid.CheckedBlock | src/sudoku/ClassicSudokuSolver.java:181-186 | a clean block stays clean when every changed cell has a clean block |
| SudokuGrid.CheckedChangesKeepGroups | src/sudoku/ClassicSudokuSolver.java:181-186 | the row, column and block through a cell stay clean across checked changes |
| SudokuGrid.CheckedChangesKeepConsistency | src/sudoku/ClassicSudokuSolver.java:181-186 | a board that obeys the rules still does after checked changes |
| SudokuGrid.PlacementKeepsConsistency | src/sudoku/ClassicSudokuSolver.java:182-183 | a placement that passes the check keeps a board obeying the rules |
| SudokuGrid.ConflictShowsInUnit | src/sudoku/ClassicSudokuSolver.java:86-88 | another cell sharing a unit with (r, c) and holding v shows as v elsewhere in the row, column or block read back |
| SudokuGrid.BlockShowsConflict | src/sudoku/ClassicSudokuSolver.java:88 | v elsewhere in the block read back is another cell of that block holding v |
| SudokuGrid.ConflictInUnits | src/sudoku/ClassicSudokuSolver.java:86-88 | both directions: a cell sharing a unit with (r, c) holds v exactly when v occurs elsewhere in the row, column or block read back |
| SudokuGrid.PlacementOkIff | src/sudoku/ClassicSudokuSolver.java:79-92 | both directions: the check passes exactly when no other cell sharing a unit holds v and those units, with (r, c) emptied, already repeat nothing; on a board that obeys the rules it passes exactly when no cell clashes |
| SudokuGrid.OverwriteBreaksSolution | src/sudoku/ClassicSudokuSolverTest.java:95-113 | on a full board that obeys the rules, writing any other number into a cell clashes and breaks the rules |
| SudokuGrid.StuckNeverChecked | src/sudoku/ClassicSudokuSolver.java:168-190 | a board with an empty cell whose unit already repeats can never be filled with checked changes |
| SudokuGrid.CandidateFromSolution | src/sudoku/ClassicSudokuSolver.java:181-185 | a solution extending the board puts into the empty cell a number that passes the check, and still extends the board after that placement |
| SudokuGrid.NothingRuledOut | src/sudoku/ClassicSudokuSolver.java:181 | before candidate 1 no solution is excluded: every solution puts 1..9 in the empty cell |
| SudokuGrid.RejectedCandidate | src/sudoku/ClassicSudokuSolver.java:181-188 | a candidate that fails the check, or after which the rest cannot be completed, is not the number any solution puts there |
| SudokuGrid.PlacementStep | src/sudoku/ClassicSudokuSolver.java:182-185 | a checked placement followed by a checked filling of the rest is a checked filling from the cell |
| SudokuGrid.FilledStep | src/sudoku/ClassicSudokuSolver.java:178-179 | skipping a filled cell changes neither what filling the board means nor whether it can be completed |
| SudokuGrid.SearchEnd | src/sudoku/ClassicSudokuSolver.java:169-171 | past the last cell the search succeeds with the board unchanged |
| SudokuGrid.SearchRowEnd | src/sudoku/ClassicSudokuSolver.java:173-176 | column 9 of row r and column 0 of row r + 1 promise the same |
| SudokuGrid.SearchFilled | src/sudoku/ClassicSudokuSolver.java:178-179 | a search skipping a filled cell keeps the promise of the search from that cell |
| SudokuGrid.SearchPlaced | src/sudoku/ClassicSudokuSolver.java:182-185 | a checked placement followed by a successful search is a successful search from the cell |
| SudokuGrid.SearchExhausted | src/sudoku/ClassicSudokuSolver.java:189 | when all nine candidates are ruled out the search fails with the board restored, and no solution exists |
| Sudoku.FirstBadFrom | src/sudoku/ClassicSudokuSolver.java:150-156 | the first cell, row-major, that is missing or outside 0..9, with every earlier cell loadable; or past the end when there is none |
| Sudoku.Loaded | src/sudoku/ClassicSudokuSolver.java:150-156 | the board after a row-major copy that stops at a given cell: earlier cells come from the input and later ones are untouched |
| Sudoku.LoadRoundTrip | src/sudoku/ClassicSudokuSolver.java:146-159 | a 9x9 input of values in 0..9 is loaded whole and becomes the board |
| Sudoku.LoadedAt | src/sudoku/ClassicSudokuSolver.java:150-156 | the copy stops exactly at the first refused cell |
| Sudoku.ClassicSudokuSolver.constructor | src/sudoku/ClassicSudokuSolver.java:16-18 | a new solver has a 9x9 board with every cell empty |
| Sudoku.ClassicSudokuSolver.SetNumber | src/sudoku/ClassicSudokuSolver.java:29-37 | a number outside 1..9 is refused first, then a cell off the board, each with the board unchanged; otherwise only (r, c) changes, to nbr |
| Sudoku.ClassicSudokuSolver.GetNumber | src/sudoku/ClassicSudokuSolver.java:47-53 | a cell on the board reads as its value in 0..9; a cell off the board is refused |
| Sudoku.ClassicSudokuSolver.ClearNumber | src/sudoku/ClassicSudokuSolver.java:62-68 | only (r, c) becomes 0; a cell off the board is refused with the board unchanged |
| Sudoku.ClassicSudokuSolver.IsValid | src/sudoku/ClassicSudokuSolver.java:79-92 | refusals in the Java order with the board unchanged; otherwise the answer is the placement check for nbr at (r, c) and the board afterwards has (r, c) emptied |
| Sudoku.ClassicSudokuSolver.IsAllValid | src/sudoku/ClassicSudokuSolver.java:99-110 | true exactly when no row, column or block repeats a non-zero number |
| Sudoku.ClassicSudokuSolver.Solve | src/sudoku/ClassicSudokuSolver.java:117-119 | failure leaves the board as it was; success fills every empty cell, keeps filled cells and keeps a valid board valid; a full board is accepted unchanged; on a valid board it succeeds exactly when the board can be completed; it fails when an empty cell's unit already repeats |
| Sudoku.ClassicSudokuSolver.Clear | src/sudoku/ClassicSudokuSolver.java:124-128 | every cell becomes 0 |
| Sudoku.ClassicSudokuSolver.GetMatrix | src/sudoku/ClassicSudokuSolver.java:136-138 | a freshly allocated 9x9 copy equal to the board cell by cell |
| Sudoku.ClassicSudokuSolver.SetMatrix | src/sudoku/ClassicSudokuSolver.java:146-159 | a wrong outer or first-row length is refused before any write; otherwise cells before the first bad one are copied and the rest untouched; the error says whether the bad cell is out of range or missing |
| Sudoku.ClassicSudokuSolver.SolveFrom | src/sudoku/ClassicSudokuSolver.java:168-180 | the search from (r, c): on failure the board is restored; on success it fills every cell from (r, c) on, keeps the rest and every change passes the check; it succeeds when nothing is left to fill or some solution fills the board from there |
| Sudoku.ClassicSudokuSolver.TryCandidates | src/sudoku/ClassicSudokuSolver.java:181-189 | the candidate loop at an empty cell keeps the same promise as the search from that cell |
| Sudoku.ClassicSudokuSolver.IsEmpty | src/sudoku/ClassicSudokuSolver.java:199-201 | true exactly when cell (r, c) of the board holds 0 |
| Sudoku.ClassicSudokuSolver.CheckForDuplicates | src/sudoku/ClassicSudokuSolver.java:290-304 | true exactly when some non-zero value occurs at two distinct positions; zeros never count |
| Sudoku.ClassicSudokuSolver.GetRow | src/sudoku/ClassicSudokuSolver.java:312-316 | a fresh array holding row r left to right |
| Sudoku.ClassicSudokuSolver.GetCol | src/sudoku/ClassicSudokuSolver.java:324-330 | a fresh array holding column c top to bottom |
| Sudoku.ClassicSudokuSolver.GetThreeByThreeAsArray | src/sudoku/ClassicSudokuSolver.java:338-349 | a fresh array holding the nine cells of block index, row-major, read through the bounds table |
| SudokuScenarios.RotationIsSolution | src/sudoku/ClassicSudokuSolverTest.java:159-163 | the rotation board is full and obeys the rules |
| SudokuScenarios.RotationCompletes | src/sudoku/ClassicSudokuSolverTest.java:236-238 | every board agreeing with the rotation board on its filled cells can be completed |
| SudokuScenarios.RotationBlockIsRow | src/sudoku/ClassicSudokuSolverTest.java:159-163 | block k of the rotation board holds what its row k holds |
| SudokuScenarios.RotationColumn | src/sudoku/ClassicSudokuSolverTest.java:159-163 | no column of the rotation board repeats a number |
| SudokuScenarios.ShiftInjective | src/sudoku/ClassicSudokuSolverTest.java:159-163 | different rows of the rotation board are rotated by different amounts |
| SudokuScenarios.ShiftInBlock | src/sudoku/ClassicSudokuSolverTest.java:159-163 | the t-th cell of block k of the rotation board holds what the t-th cell of row k holds |
| SudokuScenarios.MiddleBlockInOrder | src/sudoku/ClassicSudokuSolverTest.java:75-88 | the middle block of the test board, read row-major, is 1..9 |
| SudokuScenarios.SparseBoardRejectsOne | src/sudoku/ClassicSudokuSolverTest.java:57-63 | a 1 fails the check beside, below and diagonally from the 1 in the corner |
| SudokuScenarios.SparseBoardAcceptsFive | src/sudoku/ClassicSudokuSolverTest.java:65-70 | a 5 passes the check in the same three cells |
| SudokuScenarios.SparseRowsClean | src/sudoku/ClassicSudokuSolverTest.java:46-56 | the top two rows of the test board repeat nothing |
| SudokuScenarios.SparseColsClean | src/sudoku/ClassicSudokuSolverTest.java:46-56 | the first two columns of the test board repeat nothing |
| SudokuScenarios.SparseBlockClean | src/sudoku/ClassicSudokuSolverTest.java:46-56 | the top left block of the test board repeats nothing |
| SudokuScenarios.RowClashStuck | src/sudoku/ClassicSudokuSolverTest.java:166-177 | the board with two 5s in a row has an empty cell whose row repeats |
| SudokuScenarios.ColClashStuck | src/sudoku/ClassicSudokuSolverTest.java:184-195 | the board with two 3s in a column has an empty cell whose column repeats |
| SudokuScenarios.BlockClashStuck | src/sudoku/ClassicSudokuSolverTest.java:202-213 | the board with two 1s in a block has an empty cell whose block repeats |
| SudokuScenarios.AdjacentClashStuck | src/sudoku/ClassicSudokuSolverTest.java:242-253 | the board with two adjacent 5s has an empty cell whose row repeats |
| SudokuScenarios.NoRoomInBlock | src/sudoku/ClassicSudokuSolverTest.java:221-231 | with 1..6 in the block's top rows and a 7 beside it, the block's third row cannot be filled with its row and block clean |
| SudokuScenarios.BlockedRowNoRoom | src/sudoku/ClassicSudokuSolverTest.java:232-234 | no filling of the blocked board is made of checked changes only |
| SudokuScenarios.BlockedRowCleared | src/sudoku/ClassicSudokuSolverTest.java:236-238 | with the 7 emptied the blocked board agrees with the rotation board on every filled cell |
| SudokuScenarios.SetGetClear | src/sudoku/ClassicSudokuSolverTest.java:22-42 | a number written is read back; after clearing, the cell reads 0 |
| SudokuScenarios.LoadThenCopy | src/sudoku/ClassicSudokuSolverTest.java:138-157 | the copy of a loaded board equals the input cell by cell |
| SudokuScenarios.LoadThenClear | src/sudoku/ClassicSudokuSolverTest.java:115-135 | after loading and clearing, every cell reads 0 |
| SudokuScenarios.CopyMiddleBlock | src/sudoku/ClassicSudokuSolverTest.java:73-92 | the middle block of the loaded test board is copied out as 1..9 |
| SudokuScenarios.SolveEmptyBoard | src/sudoku/ClassicSudokuSolverTest.java:159-163 | solving the empty board succeeds and the result passes the whole-board check |
| SudokuScenarios.BreakFullBoard | src/sudoku/ClassicSudokuSolverTest.java:95-113 | a loaded full valid board passes the whole-board check, and fails it after any other number is written into a cell |
| SudokuScenarios.ProbeCorner | src/sudoku/ClassicSudokuSolverTest.java:58-67 | with (0, 1), (1, 0) and (1, 1) empty, each check answers the placement check and leaves the board as it was |
| SudokuScenarios.LoadAndProbe | src/sudoku/ClassicSudokuSolverTest.java:57-67 | loading a board and checking two numbers at the three cells answers the placement check each time |
| SudokuScenarios.CheckSparseBoard | src/sudoku/ClassicSudokuSolverTest.java:44-71 | on the sparse board 1 is refused and 5 accepted at (0, 1), (1, 0) and (1, 1) |
| SudokuScenarios.SolveStuckBoard | src/sudoku/ClassicSudokuSolverTest.java:178-180 | solving a loaded board with an empty cell whose unit repeats fails |
| SudokuScenarios.SolveClashBoards | src/sudoku/ClassicSudokuSolverTest.java:165-217 | the row, column and block clash boards are all unsolvable |
| SudokuScenarios.SolveBlockedThenCleared | src/sudoku/ClassicSudokuSolverTest.java:219-239 | the blocked board is unsolvable, and becomes solvable once the 7 is cleared |
| SudokuScenarios.SolveClashThenClear | src/sudoku/ClassicSudokuSolverTest.java:241-261 | the adjacent-clash board is unsolvable, and the cleared board is solvable |

## Left out

- The Swing user interface (`SudokuSolverView`, `SudokuTextField`) is presentation and input handling only, so it is not part of this model.
- The superseded stub `SudokuSolverModel` is not part of this model. It has unchecked cell access, `clear`, `getMatrix` and a cloning `setMatrix`, while its `isValid`, `isAllValid` and `solve` always answer false.
- The interface `SudokuSolver` only fixes the board size at 9, which the model builds in.
- Sudoku.ClassicSudokuSolver.Solve: the contract does not state which completion is found (the first in row-major order with candidates tried in ascending order). It states, for every board, that a successful search returns a filling whose changes pass the check, and a completion obeying the rules when the board does. For the same reason the solved grids the tests expect for specific puzzles (src/sudoku/ClassicSudokuSolverTest.java:263-325) are not stated; proving them would mean running the search on each puzzle.
- Null arrays and null rows passed to `setMatrix` are not modelled; the input is a sequence of sequences.
- Java's 32-bit `int` is not modelled, because every value the class computes lies within 0..81.
- Sudoku.ClassicSudokuSolver.GetRow, GetCol, GetThreeByThreeAsArray: these require an index in 0..8. The Java helpers are private and only ever called that way. `Geometry.Range` keeps the table's default case for other indices.
- Sudoku.ClassicSudokuSolver.IsEmpty and Geometry.ThreeByThreeIndex: these require a cell on the board, for the same reason.
- Sudoku.ClassicSudokuSolver.TryCandidates: this is the candidate loop of `solve(r, c)`, split into its own method; its behaviour is unchanged.
- `getMatrix` in the Java copies each row separately. The model's copy is one fresh 9x9 array, so the model does not capture rows being separate objects.
- The exception types are merged into error values. A short later row in `setMatrix` raises `ArrayIndexOutOfBoundsException` in the Java, not `IllegalArgumentException`. The model reports it as a separate error, `IndexOutOfBounds`.
