/** The classic 9x9 solver: a board held in a two-dimensional array, cell access with
    range checks, rule checks, bulk load and copy-out, and a depth-first search. */
module Sudoku {
  import opened Geometry
  import opened SudokuGrid

  /** Why an operation refused its arguments. */
  datatype Error =
    | NumberOutOfRange   // a number to place is outside 1..9
    | CellOutOfBounds    // a row or column is outside 0..8
    | WrongDimension     // a matrix to load has not 9 rows, or its first row has not 9 entries
    | ValueOutOfRange    // a matrix to load holds a value outside 0..9
    | IndexOutOfBounds   // a row after the first of a matrix to load has fewer than 9 entries

  /** The outcome of an operation that returns a value. */
  datatype Result<T> = Ok(value: T) | Err(error: Error)

  /** The outcome of an operation that returns nothing. */
  datatype Status = Done | Fail(error: Error)

  /** Cell (i, j) of a matrix to load is present and holds a value in 0..9. */
  predicate Loadable(nbrs: seq<seq<int>>, i: int, j: int) {
    0 <= i < |nbrs| && 0 <= j < |nbrs[i]| && 0 <= nbrs[i][j] <= 9
  }

  /** The first cell, in row-major order from (i, j) on, of the 9-row matrix nbrs that is
      missing or outside 0..9; (9, 0), just past the last cell, when there is none. */
  function FirstBadFrom(nbrs: seq<seq<int>>, i: int, j: int): (cell: (int, int))
    requires |nbrs| == 9 && 0 <= i <= 9 && 0 <= j < 9 && (i == 9 ==> j == 0)
    decreases 9 - i, 9 - j
    ensures 0 <= cell.0 <= 9 && 0 <= cell.1 < 9 && (cell.0 == 9 ==> cell.1 == 0)
    ensures !Precedes(cell.0, cell.1, i, j)
    ensures forall p, q :: InGrid(p, q) && !Precedes(p, q, i, j) && Precedes(p, q, cell.0, cell.1) ==>
      Loadable(nbrs, p, q)
    ensures cell.0 < 9 ==> !Loadable(nbrs, cell.0, cell.1)
  {
    if i == 9 then (9, 0)
    else if !Loadable(nbrs, i, j) then (i, j)
    else if j == 8 then FirstBadFrom(nbrs, i + 1, 0)
    else FirstBadFrom(nbrs, i, j + 1)
  }

  /** Board b with the cells before (ci, cj) in row-major order taken from nbrs. */
  ghost function Loaded(b: Grid, nbrs: seq<seq<int>>, ci: int, cj: int): (g: Grid)
    requires IsGrid(b) && |nbrs| == 9
    requires forall p, q :: InGrid(p, q) && Precedes(p, q, ci, cj) ==> Loadable(nbrs, p, q)
    ensures IsGrid(g)
    ensures forall i, j :: InGrid(i, j) && Precedes(i, j, ci, cj) ==> Loadable(nbrs, i, j) && g[i][j] == nbrs[i][j]
    ensures forall i, j :: InGrid(i, j) && !Precedes(i, j, ci, cj) ==> g[i][j] == b[i][j]
  {
    var g := seq(9, i requires 0 <= i < 9 =>
      seq(9, j requires 0 <= j < 9 =>
        if Precedes(i, j, ci, cj) then assert InGrid(i, j) && Loadable(nbrs, i, j); nbrs[i][j] else b[i][j]));
    assert forall i, j :: InGrid(i, j) ==> 0 <= g[i][j] <= 9 by {
      forall i, j | InGrid(i, j)
        ensures 0 <= g[i][j] <= 9
      {
        if Precedes(i, j, ci, cj) {
          assert Loadable(nbrs, i, j);
        }
      }
    }
    g
  }

  /** A 9x9 matrix of values in 0..9 is loaded whole: no cell is refused and the board
      becomes the matrix, whatever it held before. */
  lemma LoadRoundTrip(b: Grid, m: Grid)
    requires IsGrid(b) && IsGrid(m)
    ensures FirstBadFrom(m, 0, 0) == (9, 0)
    ensures Loaded(b, m, 9, 0) == m
  {
    forall i, j | InGrid(i, j)
      ensures Loadable(m, i, j)
    {
    }
    SameCells(Loaded(b, m, 9, 0), m);
  }

  /** The first refused cell is the one the row-major copy stops at: when every cell from
      (a, b) up to (i, j) can be loaded and (i, j) cannot (or is past the end), the search
      from (a, b) finds (i, j). */
  lemma {:induction false} LoadedAt(nbrs: seq<seq<int>>, a: int, b: int, i: int, j: int)
    requires |nbrs| == 9 && 0 <= a <= 9 && 0 <= b < 9 && (a == 9 ==> b == 0)
    requires 0 <= i <= 9 && 0 <= j < 9 && (i == 9 ==> j == 0) && !Precedes(i, j, a, b)
    requires forall p, q :: InGrid(p, q) && !Precedes(p, q, a, b) && Precedes(p, q, i, j) ==> Loadable(nbrs, p, q)
    requires i < 9 ==> !Loadable(nbrs, i, j)
    decreases 9 - a, 9 - b
    ensures FirstBadFrom(nbrs, a, b) == (i, j)
  {
    if a != i || b != j {
      assert InGrid(a, b) && Precedes(a, b, i, j);
      if b == 8 {
        LoadedAt(nbrs, a + 1, 0, i, j);
      } else {
        LoadedAt(nbrs, a, b + 1, i, j);
      }
    }
  }

  class ClassicSudokuSolver {
    /** The board; 0 is an empty cell. The array itself is never replaced. */
    const matrix: array2<int>

    /** The board is 9x9 and every cell holds 0..9. */
    ghost predicate Valid()
      reads matrix
    {
      matrix.Length0 == 9 && matrix.Length1 == 9 &&
      forall i, j :: InGrid(i, j) ==> 0 <= matrix[i, j] <= 9
    }

    /** The board as a value. */
    ghost function Cells(): (b: Grid)
      requires Valid()
      reads matrix
      ensures IsGrid(b)
      ensures forall i, j :: InGrid(i, j) ==> b[i][j] == matrix[i, j]
    {
      seq(9, i requires 0 <= i < 9 reads matrix =>
        seq(9, j requires 0 <= j < 9 reads matrix => matrix[i, j]))
    }

    /** A new solver starts with an empty board. */
    constructor ()
      ensures Valid() && fresh(matrix)
      ensures Cells() == EmptyGrid()
    {
      matrix := new int[9, 9]((i, j) => 0);
      new;
      SameCells(Cells(), EmptyGrid());
    }

    /** Writes nbr into (r, c). A number outside 1..9 is refused first, then a cell off the
        board; on refusal the board is unchanged. */
    method SetNumber(r: int, c: int, nbr: int) returns (status: Status)
      requires Valid()
      modifies matrix
      ensures Valid()
      ensures status == if nbr < 1 || 9 < nbr then Fail(NumberOutOfRange)
                        else if !InGrid(r, c) then Fail(CellOutOfBounds)
                        else Done
      ensures Cells() == if status.Done? then Place(old(Cells()), r, c, nbr) else old(Cells())
    {
      if nbr > 9 || nbr < 1 {
        return Fail(NumberOutOfRange);
      } else if r < 0 || r > 8 || c < 0 || c > 8 {
        return Fail(CellOutOfBounds);
      }
      ghost var before := Cells();
      matrix[r, c] := nbr;
      SameCells(Cells(), Place(before, r, c, nbr));
      return Done;
    }

    /** Reads cell (r, c): 0 when it is empty. A cell off the board is refused. */
    method GetNumber(r: int, c: int) returns (res: Result<int>)
      requires Valid()
      ensures res.Ok? <==> InGrid(r, c)
      ensures res.Ok? ==> res.value == Cells()[r][c] && 0 <= res.value <= 9
      ensures res.Err? ==> res.error == CellOutOfBounds
    {
      if r < 0 || r > 8 || c < 0 || c > 8 {
        return Err(CellOutOfBounds);
      }
      return Ok(matrix[r, c]);
    }

    /** Empties cell (r, c). A cell off the board is refused and the board is unchanged. */
    method ClearNumber(r: int, c: int) returns (status: Status)
      requires Valid()
      modifies matrix
      ensures Valid()
      ensures status == if InGrid(r, c) then Done else Fail(CellOutOfBounds)
      ensures Cells() == if status.Done? then Place(old(Cells()), r, c, 0) else old(Cells())
    {
      if r < 0 || r > 8 || c < 0 || c > 8 {
        return Fail(CellOutOfBounds);
      }
      ghost var before := Cells();
      matrix[r, c] := 0;
      SameCells(Cells(), Place(before, r, c, 0));
      return Done;
    }

    /** Whether nbr may stand in (r, c): it is written there, the row, column and block
        through (r, c) are checked for repeats, and the cell is then emptied, whatever it
        held before. A number outside 1..9 is refused first, then a cell off the board;
        on refusal the board is unchanged. */
    method IsValid(r: int, c: int, nbr: int) returns (res: Result<bool>)
      requires Valid()
      modifies matrix
      ensures Valid()
      ensures nbr < 1 || 9 < nbr ==> res == Err(NumberOutOfRange) && Cells() == old(Cells())
      ensures 1 <= nbr <= 9 && !InGrid(r, c) ==> res == Err(CellOutOfBounds) && Cells() == old(Cells())
      ensures 1 <= nbr <= 9 && InGrid(r, c) ==>
        res == Ok(PlacementOk(old(Cells()), r, c, nbr)) && Cells() == Place(old(Cells()), r, c, 0)
    {
      if nbr > 9 || nbr < 1 {
        return Err(NumberOutOfRange);
      } else if r < 0 || r > 8 || c < 0 || c > 8 {
        return Err(CellOutOfBounds);
      }
      ghost var before := Cells();
      var _ := SetNumber(r, c, nbr);
      var row := GetRow(r);
      var col := GetCol(c);
      var threeByThree := GetThreeByThreeAsArray(ThreeByThreeIndex(r, c));
      var _ := ClearNumber(r, c);
      SameCells(Cells(), Place(before, r, c, 0));
      var rowDup := CheckForDuplicates(row);
      var colDup := CheckForDuplicates(col);
      var blockDup := CheckForDuplicates(threeByThree);
      return Ok(!rowDup && !colDup && !blockDup);
    }

    /** Whether the whole board obeys the rules: no row, column or block repeats a non-zero
        value. */
    method IsAllValid() returns (valid: bool)
      requires Valid()
      ensures valid == Consistent(Cells())
    {
      for index := 0 to 9
        invariant forall k :: 0 <= k < index ==> UnitsOk(Cells(), k)
      {
        var row := GetRow(index);
        var rowDup := CheckForDuplicates(row);
        if rowDup {
          assert !UnitsOk(Cells(), index);
          return false;
        }
        var col := GetCol(index);
        var colDup := CheckForDuplicates(col);
        if colDup {
          assert !UnitsOk(Cells(), index);
          return false;
        }
        var threeByThree := GetThreeByThreeAsArray(index);
        var blockDup := CheckForDuplicates(threeByThree);
        if blockDup {
          assert !UnitsOk(Cells(), index);
          return false;
        }
      }
      return true;
    }

    /** Searches for a completion of the board. On success every empty cell is filled, the
        filled cells are untouched, and every cell the search filled has a clean row, column
        and block. On failure the board is as it was. A board that is already full is
        accepted unchanged; whenever some completion obeys the rules the search finds one,
        so on a board that obeys the rules it succeeds exactly when the board can be
        completed; and it fails on a board where an empty cell's row, column or block
        already repeats a number. */
    method Solve() returns (solved: bool)
      requires Valid()
      modifies matrix
      ensures Valid()
      ensures !solved ==> Cells() == old(Cells())
      ensures solved ==> Extends(Cells(), old(Cells()), 0, 0) && Complete(Cells())
      ensures solved ==> ChangesChecked(old(Cells()), Cells())
      ensures solved && Consistent(old(Cells())) ==> Consistent(Cells())
      ensures Complete(old(Cells())) ==> solved && Cells() == old(Cells())
      ensures Solvable(old(Cells()), 0, 0) ==> solved
      ensures Consistent(old(Cells())) ==> (solved <==> Solvable(old(Cells()), 0, 0))
      ensures Stuck(old(Cells())) ==> !solved
    {
      solved := SolveFrom(0, 0);
      if solved {
        if Consistent(old(Cells())) {
          CheckedChangesKeepConsistency(old(Cells()), Cells());
          assert IsGrid(Cells()) && Extends(Cells(), old(Cells()), 0, 0) && Consistent(Cells());
        }
        if Complete(old(Cells())) {
          SameCells(Cells(), old(Cells()));
        }
        StuckNeverChecked(old(Cells()), Cells());
      }
    }

    /** Empties every cell. */
    method Clear()
      requires Valid()
      modifies matrix
      ensures Valid()
      ensures Cells() == EmptyGrid()
    {
      for i := 0 to 9
        invariant Valid()
        invariant forall p, q :: InGrid(p, q) && p < i ==> matrix[p, q] == 0
      {
        for j := 0 to 9
          invariant Valid()
          invariant forall p, q :: InGrid(p, q) && (p < i || (p == i && q < j)) ==> matrix[p, q] == 0
        {
          matrix[i, j] := 0;
        }
      }
      SameCells(Cells(), EmptyGrid());
    }

    /** A fresh copy of the board; changing it never affects the solver. */
    method GetMatrix() returns (m: array2<int>)
      requires Valid()
      ensures fresh(m) && m.Length0 == 9 && m.Length1 == 9
      ensures forall i, j :: InGrid(i, j) ==> m[i, j] == Cells()[i][j]
    {
      m := new int[9, 9]((i, j) requires InGrid(i, j) reads matrix => matrix[i, j]);
    }

    /** Loads nbrs into the board cell by cell, row-major. Wrong outer length or first-row
        length is refused before any write. Otherwise cells are copied until the first one
        that is missing (a short later row) or outside 0..9; that one is refused, with every
        earlier cell already copied and every later one untouched. */
    method SetMatrix(nbrs: seq<seq<int>>) returns (status: Status)
      requires Valid()
      modifies matrix
      ensures Valid()
      ensures |nbrs| != 9 || |nbrs[0]| != 9 ==> status == Fail(WrongDimension) && Cells() == old(Cells())
      ensures |nbrs| == 9 && |nbrs[0]| == 9 ==>
        var bad := FirstBadFrom(nbrs, 0, 0);
        && status == (if bad.0 == 9 then Done
                      else if bad.1 < |nbrs[bad.0]| then Fail(ValueOutOfRange)
                      else Fail(IndexOutOfBounds))
        && Cells() == Loaded(old(Cells()), nbrs, bad.0, bad.1)
    {
      if |nbrs| != 9 || |nbrs[0]| != 9 {
        return Fail(WrongDimension);
      }
      ghost var before := Cells();
      for i := 0 to 9
        invariant Valid()
        invariant forall p, q :: InGrid(p, q) && p < i ==> Loadable(nbrs, p, q) && matrix[p, q] == nbrs[p][q]
        invariant forall p, q :: InGrid(p, q) && i <= p ==> matrix[p, q] == before[p][q]
      {
        for j := 0 to 9
          invariant Valid()
          invariant forall p, q :: InGrid(p, q) && Precedes(p, q, i, j) ==>
            Loadable(nbrs, p, q) && matrix[p, q] == nbrs[p][q]
          invariant forall p, q :: InGrid(p, q) && !Precedes(p, q, i, j) ==> matrix[p, q] == before[p][q]
        {
          if j >= |nbrs[i]| {
            status := Fail(IndexOutOfBounds);
            LoadedAt(nbrs, 0, 0, i, j);
            SameCells(Cells(), Loaded(before, nbrs, i, j));
            return;
          }
          if nbrs[i][j] > 9 || nbrs[i][j] < 0 {
            status := Fail(ValueOutOfRange);
            LoadedAt(nbrs, 0, 0, i, j);
            SameCells(Cells(), Loaded(before, nbrs, i, j));
            return;
          }
          matrix[i, j] := nbrs[i][j];
        }
      }
      LoadedAt(nbrs, 0, 0, 9, 0);
      SameCells(Cells(), Loaded(before, nbrs, 9, 0));
      return Done;
    }

    /** Depth-first search from cell (r, c) on; c == 9 stands for the start of the next
        row, and (8, 9) is past the last cell, where the search succeeds. Filled cells are
        skipped; at an empty cell the candidates are tried by TryCandidates. */
    method SolveFrom(r: int, c: int) returns (solved: bool)
      requires Valid()
      requires 0 <= r <= 8 && 0 <= c <= 9
      modifies matrix
      decreases 9 - r, 10 - c, 1
      ensures Valid()
      ensures Searched(old(Cells()), Cells(), r, c, solved)
    {
      ghost var before := Cells();
      if r == 8 && c == 9 {
        SearchEnd(before);
        return true;
      }
      var row, col := r, c;
      if col == 9 {
        row, col := row + 1, 0;
      }
      if !IsEmpty(row, col) {
        solved := SolveFrom(row, col + 1);
        SearchFilled(before, Cells(), row, col, solved);
      } else {
        solved := TryCandidates(row, col);
      }
      if c == 9 {
        SearchRowEnd(before, Cells(), r, solved);
      }
    }

    /** The loop of the search at the empty cell (row, col): the numbers 1..9 are tried in
        ascending order; each that passes IsValid is written and the search goes on from the
        next cell; the first success ends the search, and when every number fails the cell
        is emptied again and the search fails. */
    method TryCandidates(row: int, col: int) returns (solved: bool)
      requires Valid() && InGrid(row, col) && Cells()[row][col] == 0
      modifies matrix
      decreases 9 - row, 10 - col, 0
      ensures Valid()
      ensures Searched(old(Cells()), Cells(), row, col, solved)
    {
      ghost var before := Cells();
      NothingRuledOut(before, row, col);
      for nbr := 1 to 10
        invariant Valid() && Cells() == before
        invariant RuledOutBelow(before, row, col, nbr)
      {
        PlaceUndo(before, row, col, nbr);
        var valid := IsValid(row, col, nbr);
        if valid == Ok(true) {
          var _ := SetNumber(row, col, nbr);
          solved := SolveFrom(row, col + 1);
          if solved {
            SearchPlaced(before, Cells(), row, col, nbr);
            return;
          }
        }
        var _ := ClearNumber(row, col);
        RejectedCandidate(before, row, col, nbr);
      }
      SearchExhausted(before, row, col);
      return false;
    }

    /** Cell (r, c) is empty. */
    predicate IsEmpty(r: int, c: int)
      requires Valid() && InGrid(r, c)
      reads matrix
      ensures IsEmpty(r, c) <==> Cells()[r][c] == 0
    {
      matrix[r, c] == 0
    }

    /** Whether a non-zero value occurs at two distinct positions of a. */
    method CheckForDuplicates(a: array<int>) returns (dup: bool)
      ensures dup == HasDup(a[..])
    {
      var seen: set<int> := {};
      for k := 0 to a.Length
        invariant seen == set i | 0 <= i < k && a[i] != 0 :: a[i]
        invariant !HasDup(a[..k])
      {
        var nbr := a[k];
        if nbr != 0 && nbr in seen {
          var i :| 0 <= i < k && a[i] != 0 && a[i] == nbr;
          assert a[..][i] != 0 && a[..][i] == a[..][k];
          return true;
        }
        if nbr != 0 {
          seen := seen + {nbr};
        }
        assert a[..k + 1] == a[..k] + [nbr];
      }
      assert a[..] == a[..a.Length];
      return false;
    }

    /** A fresh copy of row r. */
    method GetRow(r: int) returns (row: array<int>)
      requires Valid() && 0 <= r < 9
      ensures fresh(row) && row[..] == Row(Cells(), r)
    {
      row := new int[9](j requires 0 <= j < 9 reads matrix => matrix[r, j]);
    }

    /** A fresh copy of column c, top to bottom. */
    method GetCol(c: int) returns (col: array<int>)
      requires Valid() && 0 <= c < 9
      ensures fresh(col) && col[..] == Col(Cells(), c)
    {
      col := new int[9];
      for i := 0 to 9
        invariant forall p :: 0 <= p < i ==> col[p] == matrix[p, c]
      {
        col[i] := matrix[i, c];
      }
    }

    /** A fresh copy of block index, row-major, walking the bounds that Range gives. */
    method GetThreeByThreeAsArray(index: int) returns (threeByThree: array<int>)
      requires Valid() && 0 <= index < 9
      ensures fresh(threeByThree) && threeByThree[..] == Block(Cells(), index)
    {
      threeByThree := new int[9];
      ghost var cells := Cells();
      var ranges := Range(index);
      ghost var r0, c0 := BlockTop(index), BlockLeft(index);
      assert ranges[0] == r0 && ranges[1] == r0 + 2 && ranges[2] == c0 && ranges[3] == c0 + 2;
      var i := 0;
      var r := ranges[0];
      while r <= ranges[1]
        invariant r0 <= r <= r0 + 3 && i == 3 * (r - r0)
        invariant forall p, q :: r0 <= p < r && c0 <= q < c0 + 3 ==> threeByThree[3 * (p - r0) + (q - c0)] == cells[p][q]
      {
        var c := ranges[2];
        while c <= ranges[3]
          invariant c0 <= c <= c0 + 3 && i == 3 * (r - r0) + (c - c0)
          invariant forall p, q :: r0 <= p <= r && c0 <= q < c0 + 3 && Precedes(p, q, r, c) ==>
            threeByThree[3 * (p - r0) + (q - c0)] == cells[p][q]
        {
          threeByThree[i] := matrix[r, c];
          i := i + 1;
          c := c + 1;
        }
        r := r + 1;
      }
      BlockRowByRow(cells, index, threeByThree[..]);
    }
  }
}
