/**
 * The checks the generator runs on the grid of cells: a number may go at
 * a 1-indexed position when no filled cell of its row, its column or its
 * box already holds it. Each check is a loop over the grid, proved
 * against a declarative predicate on the grid's board.
 */
module GridVerifier {
  import opened Dimensions
  import opened Cells
  import opened GridUtils
  import opened Grids

  /** A cell conflicts with `number` when it is filled and holds it. */
  predicate VerifyCellNumber(s: CellState, number: int) {
    s.filled && s.number == number
  }

  /** No cell of 1-indexed `row` conflicts with `number`. */
  predicate RowFree(b: Board, number: int, row: int)
    requires IsBoard(b) && InRange(row)
  {
    var line := b[row - 1];
    forall j :: 0 <= j < TOTAL_BLOCK_NUMBER ==> !VerifyCellNumber(line[j], number)
  }

  /** No cell of 1-indexed `column` conflicts with `number`. */
  predicate ColumnFree(b: Board, number: int, column: int)
    requires IsBoard(b) && InRange(column)
  {
    forall i :: 0 <= i < TOTAL_BLOCK_NUMBER ==> !VerifyCellNumber(b[i][column - 1], number)
  }

  /** Coordinates from which a whole box of `BLOCK_NUMBER` fits inside the grid. */
  predicate BoxOrigin(n: int) {
    FIRST <= n && n + BLOCK_NUMBER - 1 <= TOTAL_BLOCK_NUMBER
  }

  /** No cell of the box whose top-left corner is 1-indexed (row, column) conflicts with `number`. */
  predicate BoxFreeAt(b: Board, number: int, row: int, column: int)
    requires IsBoard(b) && BoxOrigin(row) && BoxOrigin(column)
  {
    forall i, j :: row - 1 <= i < row - 1 + BLOCK_NUMBER && column - 1 <= j < column - 1 + BLOCK_NUMBER ==>
      !VerifyCellNumber(b[i][j], number)
  }

  /** The box start of a coordinate leaves room for a whole box. */
  lemma BoxStartIsOrigin(n: int)
    requires InRange(n)
    ensures BoxOrigin(Calc(BLOCK_NUMBER, n))
  {
    CalcWithBlockSizeThree(n);
  }

  /** No cell of the box holding 1-indexed (row, column) conflicts with `number`. */
  predicate BoxFree(b: Board, number: int, row: int, column: int)
    requires IsBoard(b) && InRange(row) && InRange(column)
  {
    BoxStartIsOrigin(row);
    BoxStartIsOrigin(column);
    BoxFreeAt(b, number, Calc(BLOCK_NUMBER, row), Calc(BLOCK_NUMBER, column))
  }

  /** `number` may be placed at 1-indexed (row, column). */
  predicate CanPlace(b: Board, number: int, row: int, column: int)
    requires IsBoard(b) && InRange(row) && InRange(column)
  {
    BoxFree(b, number, row, column) && RowFree(b, number, row) && ColumnFree(b, number, column)
  }

  /** Two 0-indexed positions share a row, a column or a box. */
  predicate SameUnit(i1: int, j1: int, i2: int, j2: int) {
    || i1 == i2
    || j1 == j2
    || (Calc(BLOCK_NUMBER, i1 + 1) == Calc(BLOCK_NUMBER, i2 + 1) && Calc(BLOCK_NUMBER, j1 + 1) == Calc(BLOCK_NUMBER, j2 + 1))
  }

  /** No two distinct filled cells that share a row, a column or a box hold the same number. */
  predicate Consistent(b: Board)
    requires IsBoard(b)
  {
    forall i1, j1, i2, j2 ::
      0 <= i1 < TOTAL_BLOCK_NUMBER && 0 <= j1 < TOTAL_BLOCK_NUMBER &&
      0 <= i2 < TOTAL_BLOCK_NUMBER && 0 <= j2 < TOTAL_BLOCK_NUMBER &&
      (i1 != i2 || j1 != j2) && SameUnit(i1, j1, i2, j2) && b[i1][j1].filled && b[i2][j2].filled ==>
      b[i1][j1].number != b[i2][j2].number
  }

  /** Whether the cell at 0-indexed (i, j) of the grid conflicts with `number`. */
  function CellConflicts(grid: Grid, number: int, i: int, j: int): (r: bool)
    requires grid.Valid() && 0 <= i < TOTAL_BLOCK_NUMBER && 0 <= j < TOTAL_BLOCK_NUMBER
    reads grid, grid.cells, grid.CellSet()
    ensures r <==> VerifyCellNumber(grid.board[i][j], number)
  {
    var cell := grid.cells[i, j];
    cell.isFilled && cell.number == number
  }

  /** Scans 1-indexed `row`: true exactly when no cell of it conflicts with `number`. */
  method VerifyRowNumber(grid: Grid, number: int, row: int) returns (r: bool)
    requires grid.Valid() && InRange(row)
    ensures r <==> RowFree(grid.board, number, row)
  {
    ghost var line := grid.board[row - 1];
    for j := 0 to grid.gridSize
      invariant forall k :: 0 <= k < j ==> !VerifyCellNumber(line[k], number)
    {
      if CellConflicts(grid, number, ToExact(row), j) {
        return false;
      }
    }
    return true;
  }

  /** Scans 1-indexed `column`: true exactly when no cell of it conflicts with `number`. */
  method VerifyColumnNumber(grid: Grid, number: int, column: int) returns (r: bool)
    requires grid.Valid() && InRange(column)
    ensures r <==> ColumnFree(grid.board, number, column)
  {
    for i := 0 to grid.gridSize
      invariant forall k :: 0 <= k < i ==> !VerifyCellNumber(grid.board[k][column - 1], number)
    {
      if CellConflicts(grid, number, i, ToExact(column)) {
        return false;
      }
    }
    return true;
  }

  /**
   * Scans the `blockSize` x `blockSize` box whose top-left corner is
   * 1-indexed (row, column): true exactly when no cell of it conflicts.
   */
  method VerifyCellsNumber(grid: Grid, number: int, row: int, column: int) returns (r: bool)
    requires grid.Valid() && BoxOrigin(row) && BoxOrigin(column)
    ensures r <==> BoxFreeAt(grid.board, number, row, column)
  {
    var blockSize := grid.blockSize;
    for i := row to row + blockSize
      invariant forall k, l :: row - 1 <= k < i - 1 && column - 1 <= l < column - 1 + BLOCK_NUMBER ==>
        !VerifyCellNumber(grid.board[k][l], number)
    {
      ghost var line := grid.board[i - 1];
      for j := column to column + blockSize
        invariant forall k, l :: row - 1 <= k < i - 1 && column - 1 <= l < column - 1 + BLOCK_NUMBER ==>
          !VerifyCellNumber(grid.board[k][l], number)
        invariant forall l :: column - 1 <= l < j - 1 ==> !VerifyCellNumber(line[l], number)
      {
        if CellConflicts(grid, number, ToExact(i), ToExact(j)) {
          return false;
        }
      }
    }
    return true;
  }

  /** Scans the box that holds 1-indexed (row, column). */
  method VerifyNumber(grid: Grid, number: int, row: int, column: int) returns (r: bool)
    requires grid.Valid() && InRange(row) && InRange(column)
    ensures r <==> BoxFree(grid.board, number, row, column)
  {
    BoxStartIsOrigin(row);
    BoxStartIsOrigin(column);
    r := VerifyCellsNumber(grid, number, Calc(grid.blockSize, row), Calc(grid.blockSize, column));
  }

  /** True exactly when `number` may be placed at 1-indexed (row, column): box, then row, then column. */
  method VerifyGridNumber(grid: Grid, number: int, row: int, column: int) returns (r: bool)
    requires grid.Valid() && InRange(row) && InRange(column)
    ensures r <==> CanPlace(grid.board, number, row, column)
  {
    r := VerifyNumber(grid, number, row, column);
    if r {
      r := VerifyRowNumber(grid, number, row);
    }
    if r {
      r := VerifyColumnNumber(grid, number, column);
    }
  }

  /** A position that shares a unit with (row, column) is among the cells `CanPlace` inspects. */
  lemma CanPlaceCoversUnit(b: Board, number: int, row: int, column: int, i: int, j: int)
    requires IsBoard(b) && InRange(row) && InRange(column)
    requires 0 <= i < TOTAL_BLOCK_NUMBER && 0 <= j < TOTAL_BLOCK_NUMBER
    requires SameUnit(row - 1, column - 1, i, j)
    requires CanPlace(b, number, row, column)
    ensures !VerifyCellNumber(b[i][j], number)
  {
    if i != row - 1 && j != column - 1 {
      CalcBounds(BLOCK_NUMBER, i + 1);
      CalcBounds(BLOCK_NUMBER, j + 1);
      BoxStartIsOrigin(row);
      BoxStartIsOrigin(column);
    }
  }

  /**
   * Every cell the check inspects shares a unit with (row, column): a
   * conflict it reports is a conflict in the row, the column or the box.
   */
  lemma ConflictInUnit(b: Board, number: int, row: int, column: int)
    requires IsBoard(b) && InRange(row) && InRange(column)
    requires !CanPlace(b, number, row, column)
    ensures exists i, j ::
      (0 <= i < TOTAL_BLOCK_NUMBER && 0 <= j < TOTAL_BLOCK_NUMBER &&
       SameUnit(row - 1, column - 1, i, j) && VerifyCellNumber(b[i][j], number))
  {
    BoxStartIsOrigin(row);
    BoxStartIsOrigin(column);
    var r0, c0 := Calc(BLOCK_NUMBER, row), Calc(BLOCK_NUMBER, column);
    if !BoxFreeAt(b, number, r0, c0) {
      var i, j :| r0 - 1 <= i < r0 - 1 + BLOCK_NUMBER && c0 - 1 <= j < c0 - 1 + BLOCK_NUMBER &&
        VerifyCellNumber(b[i][j], number);
      CalcOfBoxMember(BLOCK_NUMBER, row, i + 1);
      CalcOfBoxMember(BLOCK_NUMBER, column, j + 1);
      assert SameUnit(row - 1, column - 1, i, j);
    } else if !RowFree(b, number, row) {
      var j :| 0 <= j < TOTAL_BLOCK_NUMBER && VerifyCellNumber(b[row - 1][j], number);
      assert SameUnit(row - 1, column - 1, row - 1, j);
    } else {
      var i :| 0 <= i < TOTAL_BLOCK_NUMBER && VerifyCellNumber(b[i][column - 1], number);
      assert SameUnit(row - 1, column - 1, i, column - 1);
    }
  }

  /**
   * On a consistent board, placing `number` at (row, column) keeps the
   * board consistent when the check allows it; when the check refuses and
   * the cell itself does not already hold `number`, the placement would
   * break consistency. The check is therefore exactly the condition for a
   * consistent placement.
   */
  lemma {:induction false} PlacingKeepsConsistent(b: Board, number: int, row: int, column: int)
    requires IsBoard(b) && InRange(row) && InRange(column)
    requires Consistent(b)
    ensures CanPlace(b, number, row, column) ==>
      Consistent(UpdateCell(b, row - 1, column - 1, Placed(b[row - 1][column - 1], number)))
    ensures !CanPlace(b, number, row, column) && !VerifyCellNumber(b[row - 1][column - 1], number) ==>
      !Consistent(UpdateCell(b, row - 1, column - 1, Placed(b[row - 1][column - 1], number)))
  {
    var b': Board := UpdateCell(b, row - 1, column - 1, Placed(b[row - 1][column - 1], number));
    if CanPlace(b, number, row, column) {
      forall i1, j1, i2, j2 |
        0 <= i1 < TOTAL_BLOCK_NUMBER && 0 <= j1 < TOTAL_BLOCK_NUMBER &&
        0 <= i2 < TOTAL_BLOCK_NUMBER && 0 <= j2 < TOTAL_BLOCK_NUMBER &&
        (i1 != i2 || j1 != j2) && SameUnit(i1, j1, i2, j2) && b'[i1][j1].filled && b'[i2][j2].filled
        ensures b'[i1][j1].number != b'[i2][j2].number
      {
        if i1 == row - 1 && j1 == column - 1 {
          CanPlaceCoversUnit(b, number, row, column, i2, j2);
        } else if i2 == row - 1 && j2 == column - 1 {
          assert SameUnit(i2, j2, i1, j1);
          CanPlaceCoversUnit(b, number, row, column, i1, j1);
        }
      }
    } else if !VerifyCellNumber(b[row - 1][column - 1], number) {
      ConflictInUnit(b, number, row, column);
      var i, j :| 0 <= i < TOTAL_BLOCK_NUMBER && 0 <= j < TOTAL_BLOCK_NUMBER &&
        SameUnit(row - 1, column - 1, i, j) && VerifyCellNumber(b[i][j], number);
      assert b'[i][j] == b[i][j];
      assert b'[row - 1][column - 1].filled && b'[row - 1][column - 1].number == number;
    }
  }
}
