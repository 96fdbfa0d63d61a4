/** Positions in the grid and the row-major order the generator fills them in. */
module Positions {
  import opened Dimensions

  datatype Position = Position(row: int, column: int)

  /** The row-major index of a position in a grid with `gridSize` columns. */
  function RowMajor(gridSize: int, p: Position): int {
    (p.row - 1) * gridSize + (p.column - 1)
  }

  /** The next position in row-major order: the next column, or the first column of the next row. */
  function NextCellPosition(gridSize: int, row: int, column: int): (p: Position)
    ensures column < gridSize ==> p.row == row && p.column == column + 1
    ensures column >= gridSize ==> p.row == row + 1 && p.column == FIRST
  {
    var r, col := row, column;
    if col < gridSize then Position(r, col + 1) else Position(r + 1, FIRST)
  }

  /** On a column inside the grid, the successor's row-major index is one more. */
  lemma {:induction false} NextIsRowMajorSuccessor(gridSize: int, row: int, column: int)
    requires 1 <= column <= gridSize
    ensures RowMajor(gridSize, NextCellPosition(gridSize, row, column)) == RowMajor(gridSize, Position(row, column)) + 1
  {
    if column == gridSize {
      assert row * gridSize == (row - 1) * gridSize + gridSize;
    }
  }

  /** The successor of a position inside the 9x9 grid stays inside unless the position is (9, 9), whose successor is (10, 1). */
  lemma NextStaysInGrid(row: int, column: int)
    requires InRange(row) && InRange(column)
    ensures var p := NextCellPosition(TOTAL_BLOCK_NUMBER, row, column);
      (InRange(p.row) && InRange(p.column)) <==> (row, column) != (TOTAL_BLOCK_NUMBER, TOTAL_BLOCK_NUMBER)
    ensures (row, column) == (TOTAL_BLOCK_NUMBER, TOTAL_BLOCK_NUMBER) ==>
      NextCellPosition(TOTAL_BLOCK_NUMBER, row, column) == Position(TOTAL_BLOCK_NUMBER + 1, FIRST)
  {
  }
}
