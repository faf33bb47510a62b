/** Calls of the solver on the boards its unit tests use, and what each call is proved to return.
    A full board that obeys the rules, built by rotating 1..9, is the witness that the
    boards agreeing with it can be completed, so the search must succeed on them; it is not
    the completion the search finds. */
module SudokuScenarios {
  import opened Geometry
  import opened SudokuGrid
  import opened Sudoku

  // ---------------------------------------------------------------------------
  // A full board that obeys the rules

  /** x reduced modulo 9, for x in 0..17. */
  function Wrap(x: int): (w: int)
    requires 0 <= x < 18
    ensures 0 <= w < 9
    ensures w == x % 9
  {
    if x < 9 then x else x - 9
  }

  /** How far row i of the rotation board is rotated: rows 0, 1, 2 by 0, 3, 6, and each
      band of three rows one more than the band above. */
  function Shift(i: int): (s: int)
    requires 0 <= i < 9
    ensures 0 <= s < 9
  {
    3 * (i % 3) + i / 3
  }

  /** Different rows are rotated by different amounts. */
  lemma ShiftInjective(i: int, i': int)
    requires 0 <= i < 9 && 0 <= i' < 9 && Shift(i) == Shift(i')
    ensures i == i'
  {
    assert Shift(i) % 3 == i / 3 && Shift(i) / 3 == i % 3;
    assert Shift(i') % 3 == i' / 3 && Shift(i') / 3 == i' % 3;
  }

  /** Row t / 3 of block k is rotated so that the t-th cell of block k lands where the
      t-th cell of row k does. */
  lemma ShiftInBlock(k: int, t: int)
    requires 0 <= k < 9 && 0 <= t < 9
    ensures Shift(BlockTop(k) + t / 3) + BlockLeft(k) + t % 3 == t + Shift(k)
  {
    var i := BlockTop(k) + t / 3;
    assert i % 3 == t / 3 && i / 3 == k / 3;
  }

  /** Cell (i, j) of the rotation board: 1..9 rotated left by Shift(i), at position j. */
  function RotationCell(i: int, j: int): (v: int)
    requires InGrid(i, j)
    ensures 1 <= v <= 9
  {
    Wrap(Shift(i) + j) + 1
  }

  /** The board whose row i is 1..9 rotated left by Shift(i). */
  function Rotation(): (g: Grid)
    ensures IsGrid(g)
    ensures forall i, j :: InGrid(i, j) ==> g[i][j] == RotationCell(i, j)
  {
    seq(9, i requires 0 <= i < 9 => seq(9, j requires 0 <= j < 9 => RotationCell(i, j)))
  }

  /** Block k of the rotation board holds exactly what its row k holds. */
  lemma RotationBlockIsRow(k: int)
    requires 0 <= k < 9
    ensures Block(Rotation(), k) == Row(Rotation(), k)
  {
    var g := Rotation();
    forall t | 0 <= t < 9
      ensures Block(g, k)[t] == g[k][t]
    {
      ShiftInBlock(k, t);
      BlockCell(k, t);
    }
  }

  /** No column of the rotation board repeats a number: its rows are rotated by different
      amounts. */
  lemma RotationColumn(k: int)
    requires 0 <= k < 9
    ensures !HasDup(Col(Rotation(), k))
  {
    var g := Rotation();
    if HasDup(Col(g, k)) {
      var i, i' :| 0 <= i < i' < 9 && Col(g, k)[i] != 0 && Col(g, k)[i] == Col(g, k)[i'];
      ShiftInjective(i, i');
    }
  }

  /** The rotation board is full and obeys the rules. */
  lemma RotationIsSolution()
    ensures Complete(Rotation()) && Consistent(Rotation())
  {
    var g := Rotation();
    forall k | 0 <= k < 9
      ensures UnitsOk(g, k)
    {
      RotationColumn(k);
      RotationBlockIsRow(k);
    }
  }

  /** Every board that agrees with the rotation board on its filled cells can be completed. */
  lemma RotationCompletes(b: Grid)
    requires IsGrid(b) && Below(b, Rotation())
    ensures Solvable(b, 0, 0)
  {
    RotationIsSolution();
    assert Extends(Rotation(), b, 0, 0);
  }

  // ---------------------------------------------------------------------------
  // The boards of the unit tests

  /** 1..9 laid out in the middle block and nothing else. */
  const MiddleBlock: Grid := [
    [0, 0, 0, 0, 0, 0, 0, 0, 0],
    [0, 0, 0, 0, 0, 0, 0, 0, 0],
    [0, 0, 0, 0, 0, 0, 0, 0, 0],
    [0, 0, 0, 1, 2, 3, 0, 0, 0],
    [0, 0, 0, 4, 5, 6, 0, 0, 0],
    [0, 0, 0, 7, 8, 9, 0, 0, 0],
    [0, 0, 0, 0, 0, 0, 0, 0, 0],
    [0, 0, 0, 0, 0, 0, 0, 0, 0],
    [0, 0, 0, 0, 0, 0, 0, 0, 0]]

  /** The middle block of that board, read row-major, is 1..9. */
  lemma MiddleBlockInOrder()
    ensures IsGrid(MiddleBlock)
    ensures Block(MiddleBlock, 4) == [1, 2, 3, 4, 5, 6, 7, 8, 9]
  {
    assert IsGrid(MiddleBlock);
    assert BlockTop(4) == 3 && BlockLeft(4) == 3;
  }

  /** Two 5s in the top row. */
  const RowClash: Grid := [
    [0, 0, 5, 0, 0, 5, 0, 0, 0],
    [0, 0, 0, 0, 0, 0, 0, 0, 0],
    [0, 0, 0, 0, 0, 0, 0, 0, 0],
    [0, 0, 0, 0, 0, 0, 0, 0, 0],
    [0, 0, 0, 0, 0, 0, 0, 0, 0],
    [0, 0, 0, 0, 0, 0, 0, 0, 0],
    [0, 0, 0, 0, 0, 0, 0, 0, 0],
    [0, 0, 0, 0, 0, 0, 0, 0, 0],
    [0, 0, 0, 0, 0, 0, 0, 0, 0]]

  /** Two 3s in column 5. */
  const ColClash: Grid := [
    [0, 0, 0, 0, 0, 0, 0, 0, 0],
    [0, 0, 0, 0, 0, 0, 0, 0, 0],
    [0, 0, 0, 0, 0, 3, 0, 0, 0],
    [0, 0, 0, 0, 0, 0, 0, 0, 0],
    [0, 0, 0, 0, 0, 0, 0, 0, 0],
    [0, 0, 0, 0, 0, 0, 0, 0, 0],
    [0, 0, 0, 0, 0, 0, 0, 0, 0],
    [0, 0, 0, 0, 0, 0, 0, 0, 0],
    [0, 0, 0, 0, 0, 3, 0, 0, 0]]

  /** Two 1s in the top left block. */
  const BlockClash: Grid := [
    [1, 0, 0, 0, 0, 0, 0, 0, 0],
    [0, 1, 0, 0, 0, 0, 0, 0, 0],
    [0, 0, 0, 0, 0, 0, 0, 0, 0],
    [0, 0, 0, 0, 0, 0, 0, 0, 0],
    [0, 0, 0, 0, 0, 0, 0, 0, 0],
    [0, 0, 0, 0, 0, 0, 0, 0, 0],
    [0, 0, 0, 0, 0, 0, 0, 0, 0],
    [0, 0, 0, 0, 0, 0, 0, 0, 0],
    [0, 0, 0, 0, 0, 0, 0, 0, 0]]

  /** Two 5s side by side in the top row. */
  const AdjacentClash: Grid := [
    [0, 0, 5, 5, 0, 0, 0, 0, 0],
    [0, 0, 0, 0, 0, 0, 0, 0, 0],
    [0, 0, 0, 0, 0, 0, 0, 0, 0],
    [0, 0, 0, 0, 0, 0, 0, 0, 0],
    [0, 0, 0, 0, 0, 0, 0, 0, 0],
    [0, 0, 0, 0, 0, 0, 0, 0, 0],
    [0, 0, 0, 0, 0, 0, 0, 0, 0],
    [0, 0, 0, 0, 0, 0, 0, 0, 0],
    [0, 0, 0, 0, 0, 0, 0, 0, 0]]

  /** No number repeats, but the three empty cells of row 2 inside the top left block
      can only take 8 and 9: 1..6 are in the block and 7 is in the row. */
  const BlockedRow: Grid := [
    [1, 2, 3, 0, 0, 0, 0, 0, 0],
    [4, 5, 6, 0, 0, 0, 0, 0, 0],
    [0, 0, 0, 7, 0, 0, 0, 0, 0],
    [0, 0, 0, 0, 0, 0, 0, 0, 0],
    [0, 0, 0, 0, 0, 0, 0, 0, 0],
    [0, 0, 0, 0, 0, 0, 0, 0, 0],
    [0, 0, 0, 0, 0, 0, 0, 0, 0],
    [0, 0, 0, 0, 0, 0, 0, 0, 0],
    [0, 0, 0, 0, 0, 0, 0, 0, 0]]

  /** 1..4 along the top row, 6..8 down the first column, and no 5 anywhere. */
  const SparseBoard: Grid := [
    [1, 0, 2, 3, 4, 0, 0, 0, 0],
    [0, 0, 0, 0, 0, 0, 0, 0, 0],
    [6, 0, 0, 0, 0, 0, 0, 0, 0],
    [7, 0, 0, 0, 0, 0, 0, 0, 0],
    [8, 0, 0, 0, 0, 0, 0, 0, 0],
    [0, 0, 0, 0, 0, 0, 0, 0, 0],
    [0, 0, 0, 0, 0, 0, 0, 0, 0],
    [0, 0, 0, 0, 0, 0, 0, 0, 0],
    [0, 0, 0, 0, 0, 0, 0, 0, 0]]

  /** A 1 at (0, 1), (1, 0) or (1, 1) of the sparse board repeats the 1 at (0, 0) in the
      row, the column or the block. */
  lemma SparseBoardRejectsOne()
    ensures IsGrid(SparseBoard)
    ensures !PlacementOk(SparseBoard, 0, 1, 1)
    ensures !PlacementOk(SparseBoard, 1, 0, 1)
    ensures !PlacementOk(SparseBoard, 1, 1, 1)
  {
    assert IsGrid(SparseBoard);
    var inRow, inCol, inBlock := Place(SparseBoard, 0, 1, 1), Place(SparseBoard, 1, 0, 1), Place(SparseBoard, 1, 1, 1);
    assert Row(inRow, 0)[0] == Row(inRow, 0)[1] == 1;
    assert Col(inCol, 0)[0] == Col(inCol, 0)[1] == 1;
    assert BlockTop(0) == 0 && BlockLeft(0) == 0 && ThreeByThreeIndex(1, 1) == 0;
    assert Block(inBlock, 0)[0] == Block(inBlock, 0)[4] == 1;
  }

  /** The first two columns and the top left block of a board, listed cell by cell. */
  lemma CornerUnits(b: Grid)
    requires IsGrid(b)
    ensures Col(b, 0) == [b[0][0], b[1][0], b[2][0], b[3][0], b[4][0], b[5][0], b[6][0], b[7][0], b[8][0]]
    ensures Col(b, 1) == [b[0][1], b[1][1], b[2][1], b[3][1], b[4][1], b[5][1], b[6][1], b[7][1], b[8][1]]
    ensures Block(b, 0) == [b[0][0], b[0][1], b[0][2], b[1][0], b[1][1], b[1][2], b[2][0], b[2][1], b[2][2]]
  {
    assert BlockTop(0) == 0 && BlockLeft(0) == 0;
  }

  /** The units of the sparse board through its top left corner, as plain lists, repeat
      nothing. */
  lemma SparseUnitsClean()
    ensures !HasDup([1, 0, 2, 3, 4, 0, 0, 0, 0]) && !HasDup([0, 0, 0, 0, 0, 0, 0, 0, 0])
    ensures !HasDup([1, 0, 6, 7, 8, 0, 0, 0, 0]) && !HasDup([1, 0, 2, 0, 0, 0, 6, 0, 0])
  {
  }

  /** The top two rows of the sparse board repeat nothing. */
  lemma SparseRowsClean()
    ensures IsGrid(SparseBoard)
    ensures !HasDup(Row(SparseBoard, 0)) && !HasDup(Row(SparseBoard, 1))
  {
    assert IsGrid(SparseBoard);
    assert Row(SparseBoard, 0) == [1, 0, 2, 3, 4, 0, 0, 0, 0];
    assert Row(SparseBoard, 1) == [0, 0, 0, 0, 0, 0, 0, 0, 0];
    SparseUnitsClean();
  }

  /** The first two columns of the sparse board repeat nothing. */
  lemma SparseColsClean()
    ensures IsGrid(SparseBoard)
    ensures !HasDup(Col(SparseBoard, 0)) && !HasDup(Col(SparseBoard, 1))
  {
    assert IsGrid(SparseBoard);
    CornerUnits(SparseBoard);
    assert Col(SparseBoard, 0) == [1, 0, 6, 7, 8, 0, 0, 0, 0];
    assert Col(SparseBoard, 1) == [0, 0, 0, 0, 0, 0, 0, 0, 0];
    SparseUnitsClean();
  }

  /** The top left block of the sparse board repeats nothing. */
  lemma SparseBlockClean()
    ensures IsGrid(SparseBoard)
    ensures !HasDup(Block(SparseBoard, 0))
  {
    assert IsGrid(SparseBoard);
    CornerUnits(SparseBoard);
    assert Block(SparseBoard, 0) == [1, 0, 2, 0, 0, 0, 6, 0, 0];
    SparseUnitsClean();
  }

  /** A cell in the top left block passes the unit checks when its row, its column and
      that block repeat nothing. */
  lemma CornerGroups(b: Grid, r: int, c: int)
    requires IsGrid(b) && 0 <= r < 3 && 0 <= c < 3
    requires !HasDup(Row(b, r)) && !HasDup(Col(b, c)) && !HasDup(Block(b, 0))
    ensures GroupsOk(b, r, c)
  {
    assert ThreeByThreeIndex(r, c) == 0;
  }

  /** A 5 passes the check at (0, 1), (1, 0) and (1, 1) of the sparse board: there is no 5
      on the board and the units through those cells repeat nothing. */
  lemma SparseBoardAcceptsFive()
    ensures IsGrid(SparseBoard)
    ensures PlacementOk(SparseBoard, 0, 1, 5)
    ensures PlacementOk(SparseBoard, 1, 0, 5)
    ensures PlacementOk(SparseBoard, 1, 1, 5)
  {
    var b := SparseBoard;
    SparseRowsClean();
    SparseColsClean();
    SparseBlockClean();
    CornerGroups(b, 0, 1);
    CornerGroups(b, 1, 0);
    CornerGroups(b, 1, 1);
    assert forall i, j :: InGrid(i, j) ==> b[i][j] != 5;
    PlaceUndo(b, 0, 1, 5);
    PlaceUndo(b, 1, 0, 5);
    PlaceUndo(b, 1, 1, 5);
    PlacementOkIff(b, 0, 1, 5);
    PlacementOkIff(b, 1, 0, 5);
    PlacementOkIff(b, 1, 1, 5);
  }

  /** The board with two 5s in its top row is stuck at (0, 0). */
  lemma RowClashStuck()
    ensures IsGrid(RowClash) && Stuck(RowClash)
  {
    assert RowClash[0][0] == 0 && Row(RowClash, 0)[2] == Row(RowClash, 0)[5] == 5;
  }

  /** The board with two 3s in column 5 is stuck at (0, 5). */
  lemma ColClashStuck()
    ensures IsGrid(ColClash) && Stuck(ColClash)
  {
    assert ColClash[0][5] == 0 && Col(ColClash, 5)[2] == Col(ColClash, 5)[8] == 3;
  }

  /** The board with two 1s in its top left block is stuck at (0, 1). */
  lemma BlockClashStuck()
    ensures IsGrid(BlockClash) && Stuck(BlockClash)
  {
    assert BlockTop(0) == 0 && BlockLeft(0) == 0 && ThreeByThreeIndex(0, 1) == 0;
    assert BlockClash[0][1] == 0 && Block(BlockClash, 0)[0] == Block(BlockClash, 0)[4] == 1;
  }

  /** The board with two adjacent 5s is stuck at (0, 0). */
  lemma AdjacentClashStuck()
    ensures IsGrid(AdjacentClash) && Stuck(AdjacentClash)
  {
    assert AdjacentClash[0][0] == 0 && Row(AdjacentClash, 0)[2] == Row(AdjacentClash, 0)[3] == 5;
  }

  /** A board with 1..6 in the top two rows of the top left block and a 7 at (2, 3) cannot
      have (2, 0), (2, 1) and (2, 2) filled with its row and block through (2, 0) clean:
      they would need three different numbers outside 1..7. */
  lemma NoRoomInBlock(f: Grid)
    requires IsGrid(f)
    requires f[0][0] == 1 && f[0][1] == 2 && f[0][2] == 3
    requires f[1][0] == 4 && f[1][1] == 5 && f[1][2] == 6
    requires f[2][3] == 7
    requires f[2][0] != 0 && f[2][1] != 0 && f[2][2] != 0
    ensures !GroupsOk(f, 2, 0)
  {
    var x, y, z := f[2][0], f[2][1], f[2][2];
    var block := Block(f, 0);
    assert BlockTop(0) == 0 && BlockLeft(0) == 0;
    assert block[0] == 1 && block[1] == 2 && block[2] == 3;
    assert block[3] == 4 && block[4] == 5 && block[5] == 6;
    assert block[6] == x && block[7] == y && block[8] == z;
    if !HasDup(block) {
      assert 7 <= x && 7 <= y && 7 <= z;
      assert x != y && x != z && y != z;
      var t := if x == 7 then 0 else if y == 7 then 1 else 2;
      assert Row(f, 2)[t] != 0 && Row(f, 2)[t] == Row(f, 2)[3];
    }
  }

  /** No filling of the blocked board keeps cell (2, 0) clean, so none is made of checked
      changes only. */
  lemma BlockedRowNoRoom(f: Grid)
    requires IsGrid(f)
    ensures IsGrid(BlockedRow)
    ensures Extends(f, BlockedRow, 0, 0) ==> !GroupsOk(f, 2, 0) && !ChangesChecked(BlockedRow, f)
  {
    assert IsGrid(BlockedRow);
    if Extends(f, BlockedRow, 0, 0) {
      assert BlockedRow[0][0] == 1 && BlockedRow[0][1] == 2 && BlockedRow[0][2] == 3;
      assert BlockedRow[1][0] == 4 && BlockedRow[1][1] == 5 && BlockedRow[1][2] == 6;
      assert BlockedRow[2][3] == 7;
      assert BlockedRow[2][0] == 0 && BlockedRow[2][1] == 0 && BlockedRow[2][2] == 0;
      assert InGrid(2, 0) && InGrid(2, 1) && InGrid(2, 2);
      NoRoomInBlock(f);
      assert f[2][0] != BlockedRow[2][0];
    }
  }

  /** With the 7 beside its top left block emptied, the blocked board agrees with the
      rotation board on every filled cell. */
  lemma BlockedRowCleared()
    ensures IsGrid(BlockedRow)
    ensures Below(Place(BlockedRow, 2, 3, 0), Rotation())
  {
    assert IsGrid(BlockedRow);
    var cleared, g := Place(BlockedRow, 2, 3, 0), Rotation();
    forall i, j | InGrid(i, j)
      ensures cleared[i][j] == 0 || cleared[i][j] == g[i][j]
    {
      if i < 2 && j < 3 {
        assert Shift(i) == 3 * i;
      }
    }
  }

  // ---------------------------------------------------------------------------
  // Calls on the test boards

  /** Solving a new, empty board succeeds, and the board then obeys the rules. */
  method SolveEmptyBoard() returns (solved: bool, valid: bool)
    ensures solved && valid
  {
    var solver := new ClassicSudokuSolver();
    EmptyConsistent();
    RotationCompletes(EmptyGrid());
    solved := solver.Solve();
    valid := solver.IsAllValid();
  }

  /** A number written into a cell is read back from it; after the cell is cleared it
      reads as empty. */
  method SetGetClear(r: int, c: int, v: int) returns (got: Result<int>, cleared: Result<int>)
    requires InGrid(r, c) && 1 <= v <= 9
    ensures got == Ok(v) && cleared == Ok(0)
  {
    var solver := new ClassicSudokuSolver();
    var _ := solver.SetNumber(r, c, v);
    got := solver.GetNumber(r, c);
    var _ := solver.ClearNumber(r, c);
    cleared := solver.GetNumber(r, c);
  }

  /** The copy of a loaded 9x9 board of values in 0..9 holds exactly that board. */
  method LoadThenCopy(m: Grid) returns (copy: array2<int>)
    requires IsGrid(m)
    ensures copy.Length0 == 9 && copy.Length1 == 9
    ensures forall i, j :: InGrid(i, j) ==> copy[i, j] == m[i][j]
  {
    var solver := new ClassicSudokuSolver();
    LoadRoundTrip(solver.Cells(), m);
    var _ := solver.SetMatrix(m);
    copy := solver.GetMatrix();
  }

  /** After a board is loaded and cleared, every cell reads as empty. */
  method LoadThenClear(m: Grid, r: int, c: int) returns (got: Result<int>)
    requires IsGrid(m) && InGrid(r, c)
    ensures got == Ok(0)
  {
    var solver := new ClassicSudokuSolver();
    LoadRoundTrip(solver.Cells(), m);
    var _ := solver.SetMatrix(m);
    solver.Clear();
    got := solver.GetNumber(r, c);
  }

  /** The middle block of the loaded board is copied out as 1..9. */
  method CopyMiddleBlock() returns (block: array<int>)
    ensures block[..] == [1, 2, 3, 4, 5, 6, 7, 8, 9]
  {
    var solver := new ClassicSudokuSolver();
    MiddleBlockInOrder();
    LoadRoundTrip(solver.Cells(), MiddleBlock);
    var _ := solver.SetMatrix(MiddleBlock);
    block := solver.GetThreeByThreeAsArray(4);
  }

  /** A full board that obeys the rules passes the whole-board check after it is loaded;
      writing any other number into one of its cells makes the check fail. */
  method BreakFullBoard(m: Grid, r: int, c: int, v: int) returns (before: bool, after: bool)
    requires IsGrid(m) && Consistent(m) && Complete(m)
    requires InGrid(r, c) && 1 <= v <= 9 && v != m[r][c]
    ensures before && !after
  {
    var solver := new ClassicSudokuSolver();
    LoadRoundTrip(solver.Cells(), m);
    var _ := solver.SetMatrix(m);
    before := solver.IsAllValid();
    var _ := solver.SetNumber(r, c, v);
    OverwriteBreaksSolution(m, r, c, v);
    after := solver.IsAllValid();
  }

  /** Checks v at (0, 1), (1, 0) and (1, 1) in turn. When those cells are empty each
      check answers whether v may go there and leaves the board as it was. */
  method ProbeCorner(solver: ClassicSudokuSolver, v: int) returns (row: Result<bool>, col: Result<bool>, block: Result<bool>)
    requires solver.Valid() && 1 <= v <= 9
    requires solver.matrix[0, 1] == 0 && solver.matrix[1, 0] == 0 && solver.matrix[1, 1] == 0
    modifies solver.matrix
    ensures solver.Valid() && solver.Cells() == old(solver.Cells())
    ensures row == Ok(PlacementOk(old(solver.Cells()), 0, 1, v))
    ensures col == Ok(PlacementOk(old(solver.Cells()), 1, 0, v))
    ensures block == Ok(PlacementOk(old(solver.Cells()), 1, 1, v))
  {
    ghost var b := solver.Cells();
    PlaceUndo(b, 0, 1, 0);
    PlaceUndo(b, 1, 0, 0);
    PlaceUndo(b, 1, 1, 0);
    row := solver.IsValid(0, 1, v);
    col := solver.IsValid(1, 0, v);
    block := solver.IsValid(1, 1, v);
  }

  /** Loads a board whose cells (0, 1), (1, 0) and (1, 1) are empty, then checks v there
      and then w, all on the same solver. */
  method LoadAndProbe(m: Grid, v: int, w: int) returns (row: Result<bool>, col: Result<bool>, block: Result<bool>,
                                                      row2: Result<bool>, col2: Result<bool>, block2: Result<bool>)
    requires IsGrid(m) && m[0][1] == 0 && m[1][0] == 0 && m[1][1] == 0
    requires 1 <= v <= 9 && 1 <= w <= 9
    ensures row == Ok(PlacementOk(m, 0, 1, v)) && row2 == Ok(PlacementOk(m, 0, 1, w))
    ensures col == Ok(PlacementOk(m, 1, 0, v)) && col2 == Ok(PlacementOk(m, 1, 0, w))
    ensures block == Ok(PlacementOk(m, 1, 1, v)) && block2 == Ok(PlacementOk(m, 1, 1, w))
  {
    var solver := new ClassicSudokuSolver();
    LoadRoundTrip(solver.Cells(), m);
    var _ := solver.SetMatrix(m);
    row, col, block := ProbeCorner(solver, v);
    row2, col2, block2 := ProbeCorner(solver, w);
  }

  /** On the sparse board a 1 is refused next to, below and diagonally from the 1 in the
      corner, and a 5 is accepted in the same three cells. */
  method CheckSparseBoard() returns (row: Result<bool>, col: Result<bool>, block: Result<bool>,
                                     row5: Result<bool>, col5: Result<bool>, block5: Result<bool>)
    ensures row == Ok(false) && col == Ok(false) && block == Ok(false)
    ensures row5 == Ok(true) && col5 == Ok(true) && block5 == Ok(true)
  {
    SparseBoardRejectsOne();
    SparseBoardAcceptsFive();
    row, col, block, row5, col5, block5 := LoadAndProbe(SparseBoard, 1, 5);
  }

  /** Loading a stuck board and solving it fails. */
  method SolveStuckBoard(m: Grid) returns (solved: bool)
    requires IsGrid(m) && Stuck(m)
    ensures !solved
  {
    var solver := new ClassicSudokuSolver();
    LoadRoundTrip(solver.Cells(), m);
    var _ := solver.SetMatrix(m);
    solved := solver.Solve();
  }

  /** The three unsolvable boards: a repeat in a row, in a column and in a block. */
  method SolveClashBoards() returns (row: bool, col: bool, block: bool)
    ensures !row && !col && !block
  {
    RowClashStuck();
    ColClashStuck();
    BlockClashStuck();
    row := SolveStuckBoard(RowClash);
    col := SolveStuckBoard(ColClash);
    block := SolveStuckBoard(BlockClash);
  }

  /** The blocked board cannot be solved; once the 7 beside the block is emptied it can. */
  method SolveBlockedThenCleared() returns (first: bool, second: bool)
    ensures !first && second
  {
    var solver := new ClassicSudokuSolver();
    BlockedRowCleared();
    LoadRoundTrip(solver.Cells(), BlockedRow);
    var _ := solver.SetMatrix(BlockedRow);
    first := solver.Solve();
    BlockedRowNoRoom(solver.Cells());
    var _ := solver.ClearNumber(2, 3);
    RotationCompletes(Place(BlockedRow, 2, 3, 0));
    second := solver.Solve();
  }

  /** The board with two adjacent 5s cannot be solved; after clearing the whole board the
      search succeeds. */
  method SolveClashThenClear() returns (first: bool, second: bool)
    ensures !first && second
  {
    var solver := new ClassicSudokuSolver();
    AdjacentClashStuck();
    LoadRoundTrip(solver.Cells(), AdjacentClash);
    var _ := solver.SetMatrix(AdjacentClash);
    first := solver.Solve();
    solver.Clear();
    RotationCompletes(EmptyGrid());
    second := solver.Solve();
  }
}
