/** The grid dimensions declared as constants of the grid class. */
module Dimensions {
  /** Side of a 3x3 box. */
  const BLOCK_NUMBER: int := 3
  /** Side of the whole grid. */
  const TOTAL_BLOCK_NUMBER: int := 9
  /** Index of the first row and column: the public API is 1-indexed. */
  const FIRST: int := 1
  /** Number of cells in the grid, TOTAL_BLOCK_NUMBER squared. */
  const CELL_COUNT: int := 81

  /** A 1-indexed coordinate that lies inside the grid. */
  predicate InRange(n: int) {
    FIRST <= n <= TOTAL_BLOCK_NUMBER
  }
}
