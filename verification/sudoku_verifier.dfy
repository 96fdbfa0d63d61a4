/**
 * The check a player's placement goes through: a number may go at a
 * 1-indexed position when its row, its column and its box do not already
 * hold it. Unlike the generator's check, it looks at cell numbers only.
 * Each check is a loop over the grid, proved against a declarative
 * predicate on the grid's numbers.
 */
module SudokuVerifier {
  import opened Dimensions
  import opened Cells
  import opened GridUtils
  import opened Grids
  import opened GridVerifier

  /** No number of 1-indexed `row` equals `number`. */
  predicate RowLacks(m: Matrix, row: int, number: int)
    requires IsMatrix(m) && InRange(row)
  {
    var line := m[row - 1];
    forall j :: 0 <= j < TOTAL_BLOCK_NUMBER ==> line[j] != number
  }

  /** No number of 1-indexed `column` equals `number`. */
  predicate ColumnLacks(m: Matrix, column: int, number: int)
    requires IsMatrix(m) && InRange(column)
  {
    forall i :: 0 <= i < TOTAL_BLOCK_NUMBER ==> m[i][column - 1] != number
  }

  /** The first 1-indexed coordinate of the box that holds coordinate `p`. */
  function BoxStart(p: int): int {
    FIRST + BLOCK_NUMBER * ((p - 1) / BLOCK_NUMBER)
  }

  /** For a coordinate inside the grid, a whole box starting at `BoxStart` fits inside the grid. */
  lemma BoxStartInGrid(p: int)
    requires InRange(p)
    ensures BoxOrigin(BoxStart(p))
    ensures BoxStart(p) <= p < BoxStart(p) + BLOCK_NUMBER
  {
  }

  /** No number of the box that holds 1-indexed (row, column) equals `number`. */
  predicate BoxLacks(m: Matrix, row: int, column: int, number: int)
    requires IsMatrix(m) && InRange(row) && InRange(column)
  {
    BoxStartInGrid(row);
    BoxStartInGrid(column);
    var r0, c0 := BoxStart(row), BoxStart(column);
    forall i, j :: r0 - 1 <= i < r0 - 1 + BLOCK_NUMBER && c0 - 1 <= j < c0 - 1 + BLOCK_NUMBER ==> m[i][j] != number
  }

  /** `number` may be placed at 1-indexed (row, column): its row, column and box lack it. */
  predicate PositionFree(m: Matrix, row: int, column: int, number: int)
    requires IsMatrix(m) && InRange(row) && InRange(column)
  {
    RowLacks(m, row, number) && ColumnLacks(m, column, number) && BoxLacks(m, row, column, number)
  }

  /**
   * Steps through the boxes [1, 3], [4, 6], ... until one holds
   * `position`, and returns its first coordinate. Between 1 and
   * 2^31 - 2 the Java `int` counters `bottom` and `top` never wrap, so
   * unbounded integers give the same steps.
   */
  method GetStartingPosition(position: int) returns (r: int)
    requires FIRST <= position < 0x7fff_ffff
    ensures r == BoxStart(position)
    ensures r <= position < r + BLOCK_NUMBER
    ensures r + BLOCK_NUMBER - 1 < 0x8000_0000
  {
    var bottom := FIRST;
    var top := BLOCK_NUMBER;
    ghost var k := 0;
    while true
      invariant top == bottom + BLOCK_NUMBER - 1
      invariant bottom == FIRST + BLOCK_NUMBER * k && k >= 0
      invariant bottom <= position
      invariant top < 0x8000_0000
      decreases position - bottom
    {
      if position >= bottom && position <= top {
        DivModUnique(position - 1, BLOCK_NUMBER, k, position - bottom);
        return bottom;
      }
      bottom := bottom + BLOCK_NUMBER;
      top := top + BLOCK_NUMBER;
      k := k + 1;
    }
  }

  /** The starting position agrees with the generator's box start `Calc`. */
  lemma BoxStartIsCalc(p: int)
    requires p >= FIRST
    ensures BoxStart(p) == Calc(BLOCK_NUMBER, p)
  {
    CalcClosedForm(BLOCK_NUMBER, p);
  }

  /** Scans 1-indexed `row`: true exactly when no number of it equals `number`. */
  method VerifyRow(grid: Grid, row: int, number: int) returns (r: bool)
    requires grid.Valid() && InRange(row)
    ensures r <==> RowLacks(grid.Matrix(), row, number)
  {
    ghost var line := grid.Matrix()[row - 1];
    for i := FIRST to TOTAL_BLOCK_NUMBER + 1
      invariant forall j :: 0 <= j < i - 1 ==> line[j] != number
    {
      if grid.GetCellNumber(row, i) == number {
        return false;
      }
    }
    return true;
  }

  /** Scans 1-indexed `column`: true exactly when no number of it equals `number`. */
  method VerifyColumn(grid: Grid, column: int, number: int) returns (r: bool)
    requires grid.Valid() && InRange(column)
    ensures r <==> ColumnLacks(grid.Matrix(), column, number)
  {
    for i := FIRST to TOTAL_BLOCK_NUMBER + 1
      invariant forall k :: 0 <= k < i - 1 ==> grid.Matrix()[k][column - 1] != number
    {
      if grid.GetCellNumber(i, column) == number {
        return false;
      }
    }
    return true;
  }

  /** Scans the box that holds 1-indexed (row, column): true exactly when no number of it equals `number`. */
  method VerifyGrid(grid: Grid, row: int, column: int, number: int) returns (r: bool)
    requires grid.Valid() && InRange(row) && InRange(column)
    ensures r <==> BoxLacks(grid.Matrix(), row, column, number)
  {
    var rw := GetStartingPosition(row);
    var col := GetStartingPosition(column);
    BoxStartInGrid(row);
    BoxStartInGrid(column);
    for i := rw to rw + BLOCK_NUMBER
      invariant forall k, l :: rw - 1 <= k < i - 1 && col - 1 <= l < col - 1 + BLOCK_NUMBER ==>
        grid.Matrix()[k][l] != number
    {
      ghost var line := grid.Matrix()[i - 1];
      for j := col to col + BLOCK_NUMBER
        invariant forall k, l :: rw - 1 <= k < i - 1 && col - 1 <= l < col - 1 + BLOCK_NUMBER ==>
          grid.Matrix()[k][l] != number
        invariant forall l :: col - 1 <= l < j - 1 ==> line[l] != number
      {
        if grid.GetCellNumber(i, j) == number {
          return false;
        }
      }
    }
    return true;
  }

  /** True exactly when `number` may be placed at 1-indexed (row, column): row, then column, then box. */
  method VerifyPosition(grid: Grid, row: int, column: int, number: int) returns (r: bool)
    requires grid.Valid() && InRange(row) && InRange(column)
    ensures r <==> PositionFree(grid.Matrix(), row, column, number)
  {
    r := VerifyRow(grid, row, number);
    if r {
      r := VerifyColumn(grid, column, number);
    }
    if r {
      r := VerifyGrid(grid, row, column, number);
    }
  }

  /**
   * The two checks agree on a nonzero number whenever every cell that is
   * not filled holds the empty value: the player's check on numbers
   * accepts exactly what the generator's check on filled cells accepts.
   */
  lemma VerifiersAgree(b: Board, number: int, row: int, column: int)
    requires IsBoard(b) && InRange(row) && InRange(column)
    requires number != EMPTY_CELL
    requires forall i, j :: 0 <= i < TOTAL_BLOCK_NUMBER && 0 <= j < TOTAL_BLOCK_NUMBER ==> UnfilledIsEmpty(b[i][j])
    ensures CanPlace(b, number, row, column) <==> PositionFree(Numbers(b), row, column, number)
  {
    BoxStartIsCalc(row);
    BoxStartIsCalc(column);
    var m := Numbers(b);
    assert forall i, j :: 0 <= i < TOTAL_BLOCK_NUMBER && 0 <= j < TOTAL_BLOCK_NUMBER ==>
      (VerifyCellNumber(b[i][j], number) <==> m[i][j] == number);
    assert RowFree(b, number, row) <==> RowLacks(m, row, number);
    assert ColumnFree(b, number, column) <==> ColumnLacks(m, column, number);
  }
}
