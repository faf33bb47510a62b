/** The board as a value, and the rules of the puzzle stated over it.
    A cell holds 0 when it is empty and 1..9 when it is filled. */
module SudokuGrid {
  import opened Geometry

  /** A board: nine rows of nine cells. */
  type Grid = seq<seq<int>>

  /** A well-formed board: 9x9, every cell in 0..9. */
  ghost predicate IsGrid(b: Grid) {
    |b| == 9 && forall i :: 0 <= i < 9 ==> |b[i]| == 9 && forall j :: 0 <= j < 9 ==> 0 <= b[i][j] <= 9
  }

  /** The board with every cell empty. */
  function EmptyGrid(): (b: Grid)
    ensures IsGrid(b)
    ensures forall i, j :: InGrid(i, j) ==> b[i][j] == 0
  {
    seq(9, i => seq(9, j => 0))
  }

  /** Two boards holding the same value in every cell are equal. */
  lemma SameCells(a: Grid, b: Grid)
    requires IsGrid(a) && IsGrid(b)
    requires forall i, j :: InGrid(i, j) ==> a[i][j] == b[i][j]
    ensures a == b
  {
    forall i | 0 <= i < 9
      ensures a[i] == b[i]
    {
      assert forall j :: 0 <= j < 9 ==> a[i][j] == b[i][j];
    }
  }

  /** The board with cell (r, c) set to v and every other cell as in b. */
  function Place(b: Grid, r: int, c: int, v: int): (p: Grid)
    requires IsGrid(b) && InGrid(r, c) && 0 <= v <= 9
    ensures IsGrid(p)
    ensures forall i, j :: InGrid(i, j) ==> p[i][j] == if i == r && j == c then v else b[i][j]
  {
    b[r := b[r][c := v]]
  }

  /** Emptying a cell that was empty before a placement restores the board. */
  lemma PlaceUndo(b: Grid, r: int, c: int, v: int)
    requires IsGrid(b) && InGrid(r, c) && b[r][c] == 0 && 0 <= v <= 9
    ensures Place(b, r, c, 0) == b
    ensures Place(Place(b, r, c, v), r, c, 0) == b
  {
    SameCells(Place(b, r, c, 0), b);
    SameCells(Place(Place(b, r, c, v), r, c, 0), b);
  }

  /** Row r, left to right. */
  function Row(b: Grid, r: int): seq<int>
    requires IsGrid(b) && 0 <= r < 9
  {
    b[r]
  }

  /** Column c, top to bottom. */
  function Col(b: Grid, c: int): (s: seq<int>)
    requires IsGrid(b) && 0 <= c < 9
    ensures |s| == 9
  {
    seq(9, i requires 0 <= i < 9 => b[i][c])
  }

  /** The nine cells of block k, row-major. */
  function Block(b: Grid, k: int): (s: seq<int>)
    requires IsGrid(b) && 0 <= k < 9
    ensures |s| == 9
  {
    seq(9, t requires 0 <= t < 9 => b[BlockTop(k) + t / 3][BlockLeft(k) + t % 3])
  }

  /** A sequence holding the cells of block k row by row, three per row, is the block. */
  lemma BlockRowByRow(b: Grid, k: int, s: seq<int>)
    requires IsGrid(b) && 0 <= k < 9 && |s| == 9
    requires forall p, q :: BlockTop(k) <= p < BlockTop(k) + 3 && BlockLeft(k) <= q < BlockLeft(k) + 3 ==>
      s[3 * (p - BlockTop(k)) + (q - BlockLeft(k))] == b[p][q]
    ensures s == Block(b, k)
  {
    var r0, c0 := BlockTop(k), BlockLeft(k);
    forall t | 0 <= t < 9
      ensures s[t] == Block(b, k)[t]
    {
      var a, d := t / 3, t % 3;
      assert t == 3 * a + d && 0 <= a < 3 && 0 <= d < 3;
      assert s[3 * ((r0 + a) - r0) + ((c0 + d) - c0)] == b[r0 + a][c0 + d];
    }
  }

  /** Some non-zero value occurs at two distinct positions of s; zeros never count. */
  ghost predicate HasDup(s: seq<int>) {
    exists i, j :: 0 <= i < j < |s| && s[i] != 0 && s[i] == s[j]
  }

  /** Row k, column k and block k each hold no repeated non-zero value. */
  ghost predicate UnitsOk(b: Grid, k: int)
    requires IsGrid(b) && 0 <= k < 9
  {
    !HasDup(Row(b, k)) && !HasDup(Col(b, k)) && !HasDup(Block(b, k))
  }

  /** The whole board obeys the rules: no row, column or block repeats a non-zero value. */
  ghost predicate Consistent(b: Grid)
    requires IsGrid(b)
  {
    forall k :: 0 <= k < 9 ==> UnitsOk(b, k)
  }

  /** The row, the column and the block through cell (r, c) repeat no non-zero value. */
  ghost predicate GroupsOk(b: Grid, r: int, c: int)
    requires IsGrid(b) && InGrid(r, c)
  {
    !HasDup(Row(b, r)) && !HasDup(Col(b, c)) && !HasDup(Block(b, ThreeByThreeIndex(r, c)))
  }

  /** With v written into (r, c), the row, column and block through (r, c) repeat no
      non-zero value. Whatever (r, c) held before is overwritten and plays no part. */
  ghost predicate PlacementOk(b: Grid, r: int, c: int, v: int)
    requires IsGrid(b) && InGrid(r, c) && 0 <= v <= 9
  {
    GroupsOk(Place(b, r, c, v), r, c)
  }

  /** Cells (r, c) and (i, j) share a row, a column or a block. */
  predicate SharesUnit(r: int, c: int, i: int, j: int)
    requires InGrid(r, c) && InGrid(i, j)
  {
    i == r || j == c || ThreeByThreeIndex(i, j) == ThreeByThreeIndex(r, c)
  }

  /** Some cell other than (r, c) that shares a row, column or block with it holds v. */
  ghost predicate Conflicts(b: Grid, r: int, c: int, v: int)
    requires IsGrid(b) && InGrid(r, c)
  {
    exists i, j :: InGrid(i, j) && (i != r || j != c) && SharesUnit(r, c, i, j) && b[i][j] == v
  }

  /** No cell is empty. */
  ghost predicate Complete(b: Grid)
    requires IsGrid(b)
  {
    forall i, j :: InGrid(i, j) ==> b[i][j] != 0
  }

  /** g fills b from cell (r, c) on, in row-major order: g keeps every filled cell of b and
      every cell before (r, c), and has no empty cell at or after (r, c). A column of 9
      stands for the start of the next row. */
  ghost predicate Extends(g: Grid, b: Grid, r: int, c: int)
    requires IsGrid(g) && IsGrid(b)
  {
    forall i, j :: InGrid(i, j) ==>
      if b[i][j] != 0 || Precedes(i, j, r, c) then g[i][j] == b[i][j] else g[i][j] != 0
  }

  /** Some board that obeys the rules fills b from cell (r, c) on. */
  ghost predicate Solvable(b: Grid, r: int, c: int)
    requires IsGrid(b)
  {
    exists g :: IsGrid(g) && Extends(g, b, r, c) && Consistent(g)
  }

  /** Every cell of a is empty or agrees with g. */
  ghost predicate Below(a: Grid, g: Grid)
    requires IsGrid(a) && IsGrid(g)
  {
    forall i, j :: InGrid(i, j) ==> a[i][j] == 0 || a[i][j] == g[i][j]
  }

  /** Every cell where f differs from b has a clean row, column and block in f. */
  ghost predicate ChangesChecked(b: Grid, f: Grid)
    requires IsGrid(b) && IsGrid(f)
  {
    forall i, j :: InGrid(i, j) ==> f[i][j] == b[i][j] || GroupsOk(f, i, j)
  }

  // ---------------------------------------------------------------------------
  // Duplicates in a single unit

  /** Emptying some cells of a unit cannot create a duplicate. */
  lemma NoDupBelow(s: seq<int>, t: seq<int>)
    requires |s| == |t|
    requires forall i :: 0 <= i < |s| ==> s[i] == 0 || s[i] == t[i]
    requires !HasDup(t)
    ensures !HasDup(s)
  {
  }

  /** v occurs in s at some position other than t. */
  ghost predicate OccursElsewhere(s: seq<int>, t: int, v: int) {
    exists u :: 0 <= u < |s| && u != t && s[u] == v
  }

  /** Writing a non-zero v into position t of a unit repeats a value exactly when the unit
      with position t emptied already repeats one, or v occurs at another position. */
  lemma DupAfterWrite(s: seq<int>, t: int, v: int)
    requires 0 <= t < |s| && v != 0
    ensures HasDup(s[t := v]) <==> HasDup(s[t := 0]) || OccursElsewhere(s, t, v)
  {
    var w, z := s[t := v], s[t := 0];
    if HasDup(w) {
      var i, j :| 0 <= i < j < |w| && w[i] != 0 && w[i] == w[j];
      if i == t {
        assert s[j] == v;
      } else if j == t {
        assert s[i] == v;
      } else {
        assert z[i] != 0 && z[i] == z[j];
      }
    }
    if HasDup(z) {
      var i, j :| 0 <= i < j < |z| && z[i] != 0 && z[i] == z[j];
      assert w[i] != 0 && w[i] == w[j];
    }
    if OccursElsewhere(s, t, v) {
      var u :| 0 <= u < |s| && u != t && s[u] == v;
      if u < t {
        assert w[u] != 0 && w[u] == w[t];
      } else {
        assert w[t] != 0 && w[t] == w[u];
      }
    }
  }

  /** A sequence of distinct values drawn from vals is no longer than vals has members. */
  lemma {:induction false} DistinctBound(s: seq<int>, vals: set<int>)
    requires forall i :: 0 <= i < |s| ==> s[i] in vals
    requires forall i, j :: 0 <= i < j < |s| ==> s[i] != s[j]
    ensures |s| <= |vals|
  {
    if |s| > 0 {
      var rest := vals - {s[0]};
      forall i | 0 <= i < |s| - 1
        ensures s[1..][i] in rest
      {
        assert s[1..][i] == s[i + 1] != s[0];
      }
      DistinctBound(s[1..], rest);
    }
  }

  /** A unit holding nine values of 1..9 without repeats holds every value of 1..9. */
  lemma FullUnitHasAll(s: seq<int>, v: int)
    requires |s| == 9 && forall i :: 0 <= i < 9 ==> 1 <= s[i] <= 9
    requires !HasDup(s)
    requires 1 <= v <= 9
    ensures exists u :: 0 <= u < 9 && s[u] == v
  {
    if forall u :: 0 <= u < 9 ==> s[u] != v {
      var digits := {1, 2, 3, 4, 5, 6, 7, 8, 9};
      assert |digits| == 9;
      var longer := s + [v];
      forall i, j | 0 <= i < j < |longer|
        ensures longer[i] != longer[j]
      {
        if j < 9 {
          assert !(s[i] != 0 && s[i] == s[j]);
        }
      }
      DistinctBound(longer, digits);
    }
  }

  // ---------------------------------------------------------------------------
  // Whole-board facts

  /** The empty board obeys the rules. */
  lemma EmptyConsistent()
    ensures Consistent(EmptyGrid())
  {
    var e := EmptyGrid();
    forall k | 0 <= k < 9
      ensures UnitsOk(e, k)
    {
      assert forall i :: 0 <= i < 9 ==> Row(e, k)[i] == 0;
      assert forall i :: 0 <= i < 9 ==> Col(e, k)[i] == 0;
      forall t | 0 <= t < 9
        ensures Block(e, k)[t] == 0
      {
        BlockCell(k, t);
      }
    }
  }

  /** A board that obeys the rules has a clean row, column and block through every cell. */
  lemma ConsistentGroups(g: Grid, r: int, c: int)
    requires IsGrid(g) && InGrid(r, c) && Consistent(g)
    ensures GroupsOk(g, r, c)
  {
    assert UnitsOk(g, r) && UnitsOk(g, c) && UnitsOk(g, ThreeByThreeIndex(r, c));
  }

  /** Emptying cells cannot spoil a clean row, column or block: a board below g is clean
      through (r, c) wherever g is. */
  lemma BelowKeepsGroups(a: Grid, g: Grid, r: int, c: int)
    requires IsGrid(a) && IsGrid(g) && InGrid(r, c)
    requires Below(a, g) && GroupsOk(g, r, c)
    ensures GroupsOk(a, r, c)
  {
    var k := ThreeByThreeIndex(r, c);
    NoDupBelow(Row(a, r), Row(g, r));
    NoDupBelow(Col(a, c), Col(g, c));
    forall t | 0 <= t < 9
      ensures Block(a, k)[t] == 0 || Block(a, k)[t] == Block(g, k)[t]
    {
      BlockCell(k, t);
    }
    NoDupBelow(Block(a, k), Block(g, k));
  }

  /** A board that some board obeying the rules fills from (r, c) on obeys the rules itself:
      a completion keeps every filled cell. */
  lemma SolvableIsConsistent(b: Grid, r: int, c: int)
    requires IsGrid(b) && Solvable(b, r, c)
    ensures Consistent(b)
  {
    var g :| IsGrid(g) && Extends(g, b, r, c) && Consistent(g);
    assert Below(b, g);
    forall k | 0 <= k < 9
      ensures UnitsOk(b, k)
    {
      BlockCell(k, 0);
      assert InGrid(k, k) && InGrid(BlockTop(k), BlockLeft(k));
      ConsistentGroups(g, k, k);
      BelowKeepsGroups(b, g, k, k);
      ConsistentGroups(g, BlockTop(k), BlockLeft(k));
      BelowKeepsGroups(b, g, BlockTop(k), BlockLeft(k));
    }
  }

  /** Writing v into (r, c) changes the row, the column and the block through (r, c) at the
      position of (r, c) in each, and nowhere else. */
  lemma PlaceInUnits(b: Grid, r: int, c: int, v: int)
    requires IsGrid(b) && InGrid(r, c) && 0 <= v <= 9
    ensures Row(Place(b, r, c, v), r) == Row(b, r)[c := v]
    ensures Col(Place(b, r, c, v), c) == Col(b, c)[r := v]
    ensures Block(Place(b, r, c, v), ThreeByThreeIndex(r, c))
         == Block(b, ThreeByThreeIndex(r, c))[OffsetInBlock(r, c) := v]
  {
    var p, k, off := Place(b, r, c, v), ThreeByThreeIndex(r, c), OffsetInBlock(r, c);
    assert Row(p, r) == Row(b, r)[c := v];
    assert Col(p, c) == Col(b, c)[r := v];
    forall t | 0 <= t < 9
      ensures Block(p, k)[t] == Block(b, k)[off := v][t]
    {
      BlockCell(k, t);
      assert t == 3 * (t / 3) + t % 3 && off == 3 * (off / 3) + off % 3;
    }
  }

  /** Row k keeps its clean state when every changed cell has a clean row. */
  lemma CheckedRow(b: Grid, f: Grid, k: int)
    requires IsGrid(b) && IsGrid(f) && 0 <= k < 9
    requires ChangesChecked(b, f) && !HasDup(Row(b, k))
    ensures !HasDup(Row(f, k))
  {
    if exists j :: 0 <= j < 9 && f[k][j] != b[k][j] {
      var j :| 0 <= j < 9 && f[k][j] != b[k][j];
      assert GroupsOk(f, k, j);
    } else {
      assert Row(f, k) == Row(b, k);
    }
  }

  /** Column k keeps its clean state when every changed cell has a clean column. */
  lemma CheckedCol(b: Grid, f: Grid, k: int)
    requires IsGrid(b) && IsGrid(f) && 0 <= k < 9
    requires ChangesChecked(b, f) && !HasDup(Col(b, k))
    ensures !HasDup(Col(f, k))
  {
    if exists i :: 0 <= i < 9 && f[i][k] != b[i][k] {
      var i :| 0 <= i < 9 && f[i][k] != b[i][k];
      assert GroupsOk(f, i, k);
    } else {
      assert Col(f, k) == Col(b, k);
    }
  }

  /** Block k keeps its clean state when every changed cell has a clean block. */
  lemma CheckedBlock(b: Grid, f: Grid, k: int)
    requires IsGrid(b) && IsGrid(f) && 0 <= k < 9
    requires ChangesChecked(b, f) && !HasDup(Block(b, k))
    ensures !HasDup(Block(f, k))
  {
    if exists t :: 0 <= t < 9 && Block(f, k)[t] != Block(b, k)[t] {
      var t :| 0 <= t < 9 && Block(f, k)[t] != Block(b, k)[t];
      BlockCell(k, t);
      assert GroupsOk(f, BlockTop(k) + t / 3, BlockLeft(k) + t % 3);
    } else {
      assert Block(f, k) == Block(b, k);
    }
  }

  /** A clean row, column and block through (r, c) stay clean across checked changes. */
  lemma CheckedChangesKeepGroups(b: Grid, f: Grid, r: int, c: int)
    requires IsGrid(b) && IsGrid(f) && InGrid(r, c)
    requires ChangesChecked(b, f) && GroupsOk(b, r, c)
    ensures GroupsOk(f, r, c)
  {
    CheckedRow(b, f, r);
    CheckedCol(b, f, c);
    CheckedBlock(b, f, ThreeByThreeIndex(r, c));
  }

  /** A board that obeys the rules still obeys them after checked changes. */
  lemma CheckedChangesKeepConsistency(b: Grid, f: Grid)
    requires IsGrid(b) && IsGrid(f)
    requires ChangesChecked(b, f) && Consistent(b)
    ensures Consistent(f)
  {
    forall k | 0 <= k < 9
      ensures UnitsOk(f, k)
    {
      assert UnitsOk(b, k);
      CheckedRow(b, f, k);
      CheckedCol(b, f, k);
      CheckedBlock(b, f, k);
    }
  }

  /** A placement that passes the check keeps a board that obeys the rules obeying them. */
  lemma PlacementKeepsConsistency(b: Grid, r: int, c: int, v: int)
    requires IsGrid(b) && InGrid(r, c) && 0 <= v <= 9
    requires Consistent(b) && PlacementOk(b, r, c, v)
    ensures Consistent(Place(b, r, c, v))
  {
    CheckedChangesKeepConsistency(b, Place(b, r, c, v));
  }

  /** A cell other than (r, c) that shares a unit with it and holds v shows up as v at
      another position of the row, column or block through (r, c). */
  lemma ConflictShowsInUnit(b: Grid, r: int, c: int, v: int)
    requires IsGrid(b) && InGrid(r, c) && Conflicts(b, r, c, v)
    ensures OccursElsewhere(Row(b, r), c, v) || OccursElsewhere(Col(b, c), r, v) ||
      OccursElsewhere(Block(b, ThreeByThreeIndex(r, c)), OffsetInBlock(r, c), v)
  {
    var k := ThreeByThreeIndex(r, c);
    var i, j :| InGrid(i, j) && (i != r || j != c) && SharesUnit(r, c, i, j) && b[i][j] == v;
    if i == r {
      assert Row(b, r)[j] == v;
    } else if j == c {
      assert Col(b, c)[i] == v;
    } else {
      var u := OffsetInBlock(i, j);
      assert Block(b, k)[u] == v;
    }
  }

  /** v at another position of the block through (r, c) is a cell other than (r, c), in
      its block, holding v. */
  lemma BlockShowsConflict(b: Grid, r: int, c: int, v: int)
    requires IsGrid(b) && InGrid(r, c)
    requires OccursElsewhere(Block(b, ThreeByThreeIndex(r, c)), OffsetInBlock(r, c), v)
    ensures Conflicts(b, r, c, v)
  {
    var k, off := ThreeByThreeIndex(r, c), OffsetInBlock(r, c);
    var u :| 0 <= u < 9 && u != off && Block(b, k)[u] == v;
    BlockCell(k, u);
    var i, j := BlockTop(k) + u / 3, BlockLeft(k) + u % 3;
    assert u == 3 * (u / 3) + u % 3 && off == 3 * (off / 3) + off % 3;
    assert (i != r || j != c) && SharesUnit(r, c, i, j) && b[i][j] == v;
  }

  /** A cell other than (r, c) holds v in the row, column or block through (r, c) exactly
      when v occurs at another position of that row, column or block. */
  lemma ConflictInUnits(b: Grid, r: int, c: int, v: int)
    requires IsGrid(b) && InGrid(r, c)
    ensures Conflicts(b, r, c, v) <==>
      OccursElsewhere(Row(b, r), c, v) || OccursElsewhere(Col(b, c), r, v) ||
      OccursElsewhere(Block(b, ThreeByThreeIndex(r, c)), OffsetInBlock(r, c), v)
  {
    if Conflicts(b, r, c, v) {
      ConflictShowsInUnit(b, r, c, v);
    }
    if OccursElsewhere(Block(b, ThreeByThreeIndex(r, c)), OffsetInBlock(r, c), v) {
      BlockShowsConflict(b, r, c, v);
    }
    if OccursElsewhere(Row(b, r), c, v) {
      var u :| 0 <= u < 9 && u != c && Row(b, r)[u] == v;
      assert InGrid(r, u) && SharesUnit(r, c, r, u);
    }
    if OccursElsewhere(Col(b, c), r, v) {
      var u :| 0 <= u < 9 && u != r && Col(b, c)[u] == v;
      assert InGrid(u, c) && SharesUnit(r, c, u, c);
    }
  }

  /** The placement check, cell by cell: v passes at (r, c) exactly when no other cell of
      the row, column or block through (r, c) holds v, and those units, with (r, c)
      emptied, repeat nothing already. On a board that obeys the rules the second half
      always holds, so there v passes exactly when it clashes with no cell. */
  lemma PlacementOkIff(b: Grid, r: int, c: int, v: int)
    requires IsGrid(b) && InGrid(r, c) && 1 <= v <= 9
    ensures PlacementOk(b, r, c, v) <==> GroupsOk(Place(b, r, c, 0), r, c) && !Conflicts(b, r, c, v)
    ensures Consistent(b) ==> (PlacementOk(b, r, c, v) <==> !Conflicts(b, r, c, v))
  {
    var k, off := ThreeByThreeIndex(r, c), OffsetInBlock(r, c);
    PlaceInUnits(b, r, c, v);
    PlaceInUnits(b, r, c, 0);
    DupAfterWrite(Row(b, r), c, v);
    DupAfterWrite(Col(b, c), r, v);
    DupAfterWrite(Block(b, k), off, v);
    ConflictInUnits(b, r, c, v);
    if Consistent(b) {
      ConsistentGroups(b, r, c);
      BelowKeepsGroups(Place(b, r, c, 0), b, r, c);
    }
  }

  /** On a full board that obeys the rules, writing any other number into a cell breaks
      the rules: its row already holds that number elsewhere. */
  lemma OverwriteBreaksSolution(b: Grid, r: int, c: int, v: int)
    requires IsGrid(b) && InGrid(r, c) && 1 <= v <= 9
    requires Consistent(b) && Complete(b) && v != b[r][c]
    ensures Conflicts(b, r, c, v)
    ensures !Consistent(Place(b, r, c, v))
  {
    assert UnitsOk(b, r);
    FullUnitHasAll(Row(b, r), v);
    var u :| 0 <= u < 9 && Row(b, r)[u] == v;
    assert InGrid(r, u) && u != c && SharesUnit(r, c, r, u);
    var p := Place(b, r, c, v);
    if u < c {
      assert Row(p, r)[u] != 0 && Row(p, r)[u] == Row(p, r)[c];
    } else {
      assert Row(p, r)[c] != 0 && Row(p, r)[c] == Row(p, r)[u];
    }
    assert !UnitsOk(p, r);
  }

  /** Some empty cell has a row, column or block that already repeats a number. */
  ghost predicate Stuck(b: Grid)
    requires IsGrid(b)
  {
    exists r, c :: InGrid(r, c) && b[r][c] == 0 && !GroupsOk(b, r, c)
  }

  /** A stuck board can never be filled with checked changes: the stuck cell must change,
      and its repeat survives every filling. */
  lemma StuckNeverChecked(b: Grid, f: Grid)
    requires IsGrid(b) && IsGrid(f)
    ensures Stuck(b) && Extends(f, b, 0, 0) ==> !ChangesChecked(b, f)
  {
    if Stuck(b) && Extends(f, b, 0, 0) {
      var r, c :| InGrid(r, c) && b[r][c] == 0 && !GroupsOk(b, r, c);
      assert Below(b, f);
      if GroupsOk(f, r, c) {
        BelowKeepsGroups(b, f, r, c);
      }
      assert f[r][c] != b[r][c];
    }
  }

  // ---------------------------------------------------------------------------
  // Facts the backtracking search rests on

  /** A board that obeys the rules and fills b from the empty cell (r, c) on shows a
      candidate for (r, c) that passes the placement check, and after that placement it
      still fills the board from the next position on. */
  lemma CandidateFromSolution(b: Grid, g: Grid, r: int, c: int)
    requires IsGrid(b) && IsGrid(g) && InGrid(r, c) && b[r][c] == 0
    requires Extends(g, b, r, c) && Consistent(g)
    ensures 1 <= g[r][c] <= 9
    ensures PlacementOk(b, r, c, g[r][c])
    ensures Extends(g, Place(b, r, c, g[r][c]), r, c + 1)
  {
    var placed := Place(b, r, c, g[r][c]);
    ConsistentGroups(g, r, c);
    BelowKeepsGroups(placed, g, r, c);
  }

  /** Every solution that extends b from the empty cell (r, c) puts a number no smaller
      than n in (r, c): the candidates below n have been ruled out. */
  ghost predicate RuledOutBelow(b: Grid, r: int, c: int, n: int)
    requires IsGrid(b) && InGrid(r, c)
  {
    forall g :: IsGrid(g) && Extends(g, b, r, c) && Consistent(g) ==> n <= g[r][c]
  }

  /** Before any candidate is tried nothing is ruled out: a solution fills the empty cell. */
  lemma NothingRuledOut(b: Grid, r: int, c: int)
    requires IsGrid(b) && InGrid(r, c) && b[r][c] == 0
    ensures RuledOutBelow(b, r, c, 1)
  {
  }

  /** A candidate v for the empty cell (r, c) that fails the check, or after which the rest
      of the board cannot be filled, is not the value any solution puts in (r, c). */
  lemma RejectedCandidate(b: Grid, r: int, c: int, v: int)
    requires IsGrid(b) && InGrid(r, c) && b[r][c] == 0 && 1 <= v <= 9
    requires RuledOutBelow(b, r, c, v)
    requires !PlacementOk(b, r, c, v) || !Solvable(Place(b, r, c, v), r, c + 1)
    ensures RuledOutBelow(b, r, c, v + 1)
  {
    forall g | IsGrid(g) && Extends(g, b, r, c) && Consistent(g)
      ensures v + 1 <= g[r][c]
    {
      CandidateFromSolution(b, g, r, c);
    }
  }

  /** A placement that passed the check, followed by a search that filled the rest of the
      board with checked changes, fills the board from (r, c) on with checked changes. */
  lemma PlacementStep(b: Grid, r: int, c: int, v: int, f: Grid)
    requires IsGrid(b) && IsGrid(f) && InGrid(r, c) && b[r][c] == 0 && 1 <= v <= 9
    requires PlacementOk(b, r, c, v)
    requires Extends(f, Place(b, r, c, v), r, c + 1)
    requires ChangesChecked(Place(b, r, c, v), f)
    ensures Extends(f, b, r, c)
    ensures ChangesChecked(b, f)
  {
    var mid := Place(b, r, c, v);
    CheckedChangesKeepGroups(mid, f, r, c);
  }

  /** A filled cell (r, c) changes nothing about the search from it: filling the board from
      the next cell on is filling it from (r, c) on, and the same boards complete it. */
  lemma FilledStep(b: Grid, r: int, c: int, f: Grid)
    requires IsGrid(b) && IsGrid(f) && InGrid(r, c) && b[r][c] != 0
    ensures Extends(f, b, r, c + 1) <==> Extends(f, b, r, c)
    ensures Solvable(b, r, c) ==> Solvable(b, r, c + 1)
  {
    if Solvable(b, r, c) {
      var g :| IsGrid(g) && Extends(g, b, r, c) && Consistent(g);
      assert Extends(g, b, r, c + 1);
    }
  }

  /** Every cell of b from (r, c) on is filled. */
  ghost predicate FilledFrom(b: Grid, r: int, c: int)
    requires IsGrid(b)
  {
    forall i, j :: InGrid(i, j) && !Precedes(i, j, r, c) ==> b[i][j] != 0
  }

  /** What a search of b from cell (r, c) on promises, given the board f it leaves and its
      answer: on failure the board is as it was; on success f fills b from (r, c) on and
      every cell that changed passes the rule check; the search succeeds whenever nothing
      is left to fill, and whenever some board that obeys the rules fills b from (r, c). */
  ghost predicate Searched(b: Grid, f: Grid, r: int, c: int, solved: bool)
    requires IsGrid(b) && IsGrid(f)
  {
    && (!solved ==> f == b)
    && (solved ==> Extends(f, b, r, c) && ChangesChecked(b, f))
    && (FilledFrom(b, r, c) ==> solved)
    && (Solvable(b, r, c) ==> solved)
  }

  /** Past the last cell there is nothing left to fill: success, with the board unchanged. */
  lemma SearchEnd(b: Grid)
    requires IsGrid(b)
    ensures Searched(b, b, 8, 9, true)
  {
  }

  /** Column 9 of row r is the start of row r + 1. */
  lemma SearchRowEnd(b: Grid, f: Grid, r: int, solved: bool)
    requires IsGrid(b) && IsGrid(f)
    ensures Searched(b, f, r + 1, 0, solved) <==> Searched(b, f, r, 9, solved)
  {
    assert forall i, j :: InGrid(i, j) ==> (Precedes(i, j, r + 1, 0) <==> Precedes(i, j, r, 9));
    assert Extends(f, b, r + 1, 0) <==> Extends(f, b, r, 9);
    assert FilledFrom(b, r + 1, 0) <==> FilledFrom(b, r, 9);
    if Solvable(b, r + 1, 0) {
      var g :| IsGrid(g) && Extends(g, b, r + 1, 0) && Consistent(g);
      assert Extends(g, b, r, 9);
    }
    if Solvable(b, r, 9) {
      var g :| IsGrid(g) && Extends(g, b, r, 9) && Consistent(g);
      assert Extends(g, b, r + 1, 0);
    }
  }

  /** A filled cell is skipped: the search from the next cell promises what a search from
      (r, c) does. */
  lemma SearchFilled(b: Grid, f: Grid, r: int, c: int, solved: bool)
    requires IsGrid(b) && IsGrid(f) && InGrid(r, c) && b[r][c] != 0
    requires Searched(b, f, r, c + 1, solved)
    ensures Searched(b, f, r, c, solved)
  {
    FilledStep(b, r, c, f);
    assert FilledFrom(b, r, c) ==> FilledFrom(b, r, c + 1);
  }

  /** A checked placement of v in the empty cell (r, c), followed by a successful search
      from the next cell, is a successful search from (r, c). */
  lemma SearchPlaced(b: Grid, f: Grid, r: int, c: int, v: int)
    requires IsGrid(b) && IsGrid(f) && InGrid(r, c) && b[r][c] == 0 && 1 <= v <= 9
    requires PlacementOk(b, r, c, v)
    requires Searched(Place(b, r, c, v), f, r, c + 1, true)
    ensures Searched(b, f, r, c, true)
  {
    PlacementStep(b, r, c, v, f);
  }

  /** When every number 1..9 has been ruled out for the empty cell (r, c), the search from
      (r, c) fails without changing the board, as it must: no board that obeys the rules
      fills b from there, and the board is not full. */
  lemma SearchExhausted(b: Grid, r: int, c: int)
    requires IsGrid(b) && InGrid(r, c) && b[r][c] == 0
    requires RuledOutBelow(b, r, c, 10)
    ensures Searched(b, b, r, c, false)
  {
    assert !FilledFrom(b, r, c) by {
      assert InGrid(r, c) && !Precedes(r, c, r, c) && b[r][c] == 0;
    }
  }
}
