/** The 9x9 grid of cells, addressed with 1-indexed coordinates. */
module Grids {
  import opened Dimensions
  import opened Cells
  import opened GridUtils

  /** Cell numbers row by row, the shape the grid is exported and stored in. */
  type Matrix = seq<seq<int>>

  /** Cell states row by row: the value the grid object holds. */
  type Board = seq<seq<CellState>>

  /** A matrix of exactly 9 rows of 9 numbers. */
  predicate IsMatrix(m: Matrix) {
    |m| == TOTAL_BLOCK_NUMBER && forall i :: 0 <= i < TOTAL_BLOCK_NUMBER ==> |m[i]| == TOTAL_BLOCK_NUMBER
  }

  /** A matrix the grid can be built from: at least 9 rows of at least 9 numbers. */
  predicate CoversGrid(m: Matrix) {
    |m| >= TOTAL_BLOCK_NUMBER && forall i :: 0 <= i < TOTAL_BLOCK_NUMBER ==> |m[i]| >= TOTAL_BLOCK_NUMBER
  }

  /** A board of exactly 9 rows of 9 cells. */
  predicate IsBoard(b: Board) {
    |b| == TOTAL_BLOCK_NUMBER && forall i :: 0 <= i < TOTAL_BLOCK_NUMBER ==> |b[i]| == TOTAL_BLOCK_NUMBER
  }

  /** The numbers a board holds. */
  function Numbers(b: Board): (m: Matrix)
    requires IsBoard(b)
    ensures IsMatrix(m)
    ensures forall i, j :: 0 <= i < TOTAL_BLOCK_NUMBER && 0 <= j < TOTAL_BLOCK_NUMBER ==> m[i][j] == b[i][j].number
  {
    seq(TOTAL_BLOCK_NUMBER, i requires 0 <= i < TOTAL_BLOCK_NUMBER =>
      seq(TOTAL_BLOCK_NUMBER, j requires 0 <= j < TOTAL_BLOCK_NUMBER => b[i][j].number))
  }

  /** The 9x9 top-left part of a matrix that covers the grid. */
  function Crop(m: Matrix): (c: Matrix)
    requires CoversGrid(m)
    ensures IsMatrix(c)
    ensures forall i, j :: 0 <= i < TOTAL_BLOCK_NUMBER && 0 <= j < TOTAL_BLOCK_NUMBER ==> c[i][j] == m[i][j]
    ensures IsMatrix(m) ==> c == m
  {
    var c := seq(TOTAL_BLOCK_NUMBER, i requires 0 <= i < TOTAL_BLOCK_NUMBER =>
      seq(TOTAL_BLOCK_NUMBER, j requires 0 <= j < TOTAL_BLOCK_NUMBER => m[i][j]));
    assert IsMatrix(m) ==> forall i :: 0 <= i < TOTAL_BLOCK_NUMBER ==> c[i] == m[i];
    c
  }

  /** The board of a fresh grid: every cell empty. */
  function EmptyBoard(): (b: Board)
    ensures IsBoard(b)
    ensures forall i, j :: 0 <= i < TOTAL_BLOCK_NUMBER && 0 <= j < TOTAL_BLOCK_NUMBER ==> b[i][j] == EmptyState
  {
    seq(TOTAL_BLOCK_NUMBER, i => seq(TOTAL_BLOCK_NUMBER, j => EmptyState))
  }

  /** The board of a grid built from a matrix: every cell holds its number and is filled. */
  function BoardOf(m: Matrix): (b: Board)
    requires CoversGrid(m)
    ensures IsBoard(b)
    ensures forall i, j :: 0 <= i < TOTAL_BLOCK_NUMBER && 0 <= j < TOTAL_BLOCK_NUMBER ==>
      b[i][j] == CellState(m[i][j], true, {})
  {
    seq(TOTAL_BLOCK_NUMBER, i requires 0 <= i < TOTAL_BLOCK_NUMBER =>
      seq(TOTAL_BLOCK_NUMBER, j requires 0 <= j < TOTAL_BLOCK_NUMBER => CellState(m[i][j], true, {})))
  }

  /** Building a grid from a 9x9 matrix and exporting its numbers gives the matrix back. */
  lemma MatrixRoundTrip(m: Matrix)
    requires IsMatrix(m)
    ensures Numbers(BoardOf(m)) == m
  {
    assert forall i :: 0 <= i < TOTAL_BLOCK_NUMBER ==> Numbers(BoardOf(m))[i] == m[i];
  }

  /** Two boards whose cells agree are the same board. */
  lemma SameCells(b: Board, b': Board)
    requires IsBoard(b) && IsBoard(b')
    requires forall i, j :: 0 <= i < TOTAL_BLOCK_NUMBER && 0 <= j < TOTAL_BLOCK_NUMBER ==> b[i][j] == b'[i][j]
    ensures b == b'
  {
    assert forall i :: 0 <= i < TOTAL_BLOCK_NUMBER ==> b[i] == b'[i];
  }

  /** The board with the cell at 0-indexed (i, j) replaced by `s`. */
  function UpdateCell(b: Board, i: int, j: int, s: CellState): (b': Board)
    requires IsBoard(b) && 0 <= i < TOTAL_BLOCK_NUMBER && 0 <= j < TOTAL_BLOCK_NUMBER
    ensures IsBoard(b')
    ensures b'[i][j] == s
    ensures forall k, l :: 0 <= k < TOTAL_BLOCK_NUMBER && 0 <= l < TOTAL_BLOCK_NUMBER && (k != i || l != j) ==>
      b'[k][l] == b[k][l]
  {
    b[i := b[i][j := s]]
  }

  /** The row-major index of a 1-indexed coordinate pair. */
  function Index(row: int, column: int): int {
    (row - 1) * TOTAL_BLOCK_NUMBER + (column - 1)
  }

  /** The objects stored in a two-dimensional array. */
  ghost function ElementsOf(a: array2<Cell>): set<Cell>
    reads a
  {
    set i, j | 0 <= i < a.Length0 && 0 <= j < a.Length1 :: a[i, j]
  }

  class Grid {
    var blockSize: int
    var gridSize: int
    var cellsSize: int
    var cells: array2<Cell>
    /** The state of every cell, row by row. */
    ghost var board: Board

    /** The cell objects of the grid. */
    ghost function CellSet(): set<Cell>
      reads this, cells
    {
      ElementsOf(cells)
    }

    /**
     * The grid is 9x9 with block size 3, no cell object appears twice and
     * `board` holds the state of every cell.
     */
    ghost predicate Valid()
      reads this, cells, CellSet()
    {
      && blockSize == BLOCK_NUMBER
      && gridSize == TOTAL_BLOCK_NUMBER
      && cellsSize == CELL_COUNT
      && cells.Length0 == TOTAL_BLOCK_NUMBER && cells.Length1 == TOTAL_BLOCK_NUMBER
      && (forall i, j, k, l ::
            0 <= i < TOTAL_BLOCK_NUMBER && 0 <= j < TOTAL_BLOCK_NUMBER &&
            0 <= k < TOTAL_BLOCK_NUMBER && 0 <= l < TOTAL_BLOCK_NUMBER && (i != k || j != l) ==>
            cells[i, j] != cells[k, l])
      && IsBoard(board)
      && forall i, j :: 0 <= i < TOTAL_BLOCK_NUMBER && 0 <= j < TOTAL_BLOCK_NUMBER ==> board[i][j] == cells[i, j].State()
    }

    /** The numbers of the grid, row by row. */
    ghost function Matrix(): Matrix
      requires IsBoard(board)
      reads this
    {
      Numbers(board)
    }

    /** `Grid(blockSize)`: a 9x9 grid whose cells are all empty. */
    constructor (blockSize: int)
      requires blockSize == BLOCK_NUMBER
      ensures Valid() && fresh(cells) && fresh(CellSet())
      ensures this.blockSize == blockSize && gridSize == blockSize * blockSize == TOTAL_BLOCK_NUMBER
      ensures board == EmptyBoard()
    {
      this.blockSize := blockSize;
      gridSize := blockSize * blockSize;
      cells := new Cell[0, 0];
      new;
      InitCells();
    }

    /** `Grid(blockSize, cells)`: every cell holds the matching number of `m` and is filled. */
    constructor WithCells(blockSize: int, m: Matrix)
      requires blockSize == BLOCK_NUMBER
      requires CoversGrid(m)
      ensures Valid() && fresh(cells) && fresh(CellSet())
      ensures this.blockSize == blockSize && gridSize == blockSize * blockSize == TOTAL_BLOCK_NUMBER
      ensures board == BoardOf(m)
      ensures Matrix() == Crop(m)
    {
      this.blockSize := blockSize;
      gridSize := blockSize * blockSize;
      cells := new Cell[0, 0];
      new;
      InitCellsWithGivenCells(m);
      assert forall i :: 0 <= i < TOTAL_BLOCK_NUMBER ==> Matrix()[i] == Crop(m)[i];
    }

    /** Fills the grid with fresh empty cells. */
    method InitCells()
      requires blockSize == BLOCK_NUMBER && gridSize == blockSize * blockSize
      modifies this
      ensures blockSize == old(blockSize) && gridSize == old(gridSize)
      ensures Valid() && fresh(cells) && fresh(CellSet())
      ensures board == EmptyBoard()
    {
      cellsSize := gridSize * gridSize;
      var placeholder := new Cell();
      var n := gridSize;
      var a := new Cell[n, n]((i, j) => placeholder);
      for i := 0 to n
        modifies a
        invariant a.Length0 == n == TOTAL_BLOCK_NUMBER && a.Length1 == n
        invariant forall r, c :: 0 <= r < i && 0 <= c < n ==>
          fresh(a[r, c]) && a[r, c] != placeholder && a[r, c].State() == EmptyState
        invariant forall r, c, r', c' ::
          (0 <= r < i && 0 <= c < n && 0 <= r' < i && 0 <= c' < n && (r != r' || c != c')) ==>
          a[r, c] != a[r', c']
      {
        for j := 0 to n
          modifies a
          invariant forall r, c :: (0 <= r < i && 0 <= c < n) || (r == i && 0 <= c < j) ==>
            fresh(a[r, c]) && a[r, c] != placeholder && a[r, c].State() == EmptyState
          invariant forall r, c, r', c' ::
            (((0 <= r < i && 0 <= c < n) || (r == i && 0 <= c < j)) &&
             ((0 <= r' < i && 0 <= c' < n) || (r' == i && 0 <= c' < j)) &&
             (r != r' || c != c')) ==>
            a[r, c] != a[r', c']
        {
          a[i, j] := new Cell();
        }
      }
      cells := a;
      board := EmptyBoard();
    }

    /** Fills the grid with fresh cells built from the numbers of `m`. */
    method InitCellsWithGivenCells(m: Matrix)
      requires blockSize == BLOCK_NUMBER && gridSize == blockSize * blockSize
      requires CoversGrid(m)
      modifies this
      ensures blockSize == old(blockSize) && gridSize == old(gridSize)
      ensures Valid() && fresh(cells) && fresh(CellSet())
      ensures board == BoardOf(m)
    {
      cellsSize := gridSize * gridSize;
      var placeholder := new Cell();
      var n := gridSize;
      var a := new Cell[n, n]((i, j) => placeholder);
      for i := 0 to n
        modifies a
        invariant a.Length0 == n == TOTAL_BLOCK_NUMBER && a.Length1 == n
        invariant forall r, c :: 0 <= r < i && 0 <= c < n ==>
          fresh(a[r, c]) && a[r, c] != placeholder && a[r, c].State() == CellState(m[r][c], true, {})
        invariant forall r, c, r', c' ::
          (0 <= r < i && 0 <= c < n && 0 <= r' < i && 0 <= c' < n && (r != r' || c != c')) ==>
          a[r, c] != a[r', c']
      {
        for j := 0 to n
          modifies a
          invariant forall r, c :: (0 <= r < i && 0 <= c < n) || (r == i && 0 <= c < j) ==>
            fresh(a[r, c]) && a[r, c] != placeholder && a[r, c].State() == CellState(m[r][c], true, {})
          invariant forall r, c, r', c' ::
            (((0 <= r < i && 0 <= c < n) || (r == i && 0 <= c < j)) &&
             ((0 <= r' < i && 0 <= c' < n) || (r' == i && 0 <= c' < j)) &&
             (r != r' || c != c')) ==>
            a[r, c] != a[r', c']
        {
          a[i, j] := new Cell.WithNumber(m[i][j]);
        }
      }
      cells := a;
      board := BoardOf(m);
    }

    /** Number at 1-indexed (row, column), read from `cells[row - 1][column - 1]`. */
    function GetCellNumber(row: int, column: int): (n: int)
      requires Valid() && InRange(row) && InRange(column)
      reads this, cells, CellSet()
      ensures n == board[ToExact(row)][ToExact(column)].number
    {
      cells[ToExact(row), ToExact(column)].number
    }

    /** Whether the cell at 1-indexed (row, column) is not filled. */
    function IsCellNotFilled(row: int, column: int): (r: bool)
      requires Valid() && InRange(row) && InRange(column)
      reads this, cells, CellSet()
      ensures r <==> !board[ToExact(row)][ToExact(column)].filled
    {
      !cells[ToExact(row), ToExact(column)].isFilled
    }

    /** Whether `number` is excluded at 1-indexed (row, column). */
    function IsNumberExcluded(number: int, row: int, column: int): (r: bool)
      requires Valid() && InRange(row) && InRange(column)
      reads this, cells, CellSet()
      ensures r <==> number in board[ToExact(row)][ToExact(column)].excluded
    {
      cells[ToExact(row), ToExact(column)].IsExcluded(number)
    }

    /** How many distinct numbers are excluded at 1-indexed (row, column). */
    function GetCellExcludedNumbers(row: int, column: int): (r: nat)
      requires Valid() && InRange(row) && InRange(column)
      reads this, cells, CellSet()
      ensures r == |board[ToExact(row)][ToExact(column)].excluded|
    {
      cells[ToExact(row), ToExact(column)].GetExcludedSize()
    }

    /**
     * Places `number` at 1-indexed (row, column): that cell holds it, is
     * filled and excludes it; every other cell keeps its state.
     */
    method SetCellNumber(number: int, row: int, column: int)
      requires Valid() && InRange(row) && InRange(column)
      modifies this, cells[ToExact(row), ToExact(column)]
      ensures Valid() && cells == old(cells)
      ensures board == UpdateCell(old(board), row - 1, column - 1, Placed(old(board)[row - 1][column - 1], number))
      ensures GetCellNumber(row, column) == number && !IsCellNotFilled(row, column)
    {
      cells[ToExact(row), ToExact(column)].SetNumber(number);
      board := UpdateCell(board, row - 1, column - 1, Placed(board[row - 1][column - 1], number));
    }

    /** Empties the cell at 1-indexed (row, column); every other cell keeps its state. */
    method ClearCell(row: int, column: int)
      requires Valid() && InRange(row) && InRange(column)
      modifies this, cells[ToExact(row), ToExact(column)]
      ensures Valid() && cells == old(cells)
      ensures board == UpdateCell(old(board), row - 1, column - 1, EmptyState)
      ensures GetCellNumber(row, column) == EMPTY_CELL && IsCellNotFilled(row, column)
      ensures GetCellExcludedNumbers(row, column) == 0
    {
      cells[ToExact(row), ToExact(column)].Clear();
      board := UpdateCell(board, row - 1, column - 1, EmptyState);
    }

    /** Excludes `number` at 1-indexed (row, column); numbers and filled flags do not change. */
    method AddNumberAsExcluded(number: int, row: int, column: int)
      requires Valid() && InRange(row) && InRange(column)
      modifies this, cells[ToExact(row), ToExact(column)]
      ensures Valid() && cells == old(cells)
      ensures board == UpdateCell(old(board), row - 1, column - 1, Excluding(old(board)[row - 1][column - 1], number))
      ensures Numbers(board) == Numbers(old(board))
      ensures IsNumberExcluded(number, row, column)
    {
      cells[ToExact(row), ToExact(column)].AddNumberAsExcluded(number);
      board := UpdateCell(board, row - 1, column - 1, Excluding(board[row - 1][column - 1], number));
      assert forall i :: 0 <= i < TOTAL_BLOCK_NUMBER ==> Numbers(board)[i] == Numbers(old(board))[i];
    }

    /**
     * A new 9x9 matrix whose entry [i][j] is the number at 1-indexed
     * (i + 1, j + 1); the grid does not change.
     */
    method GetCellsNumbersAsMatrix() returns (m: Matrix)
      requires Valid()
      ensures IsMatrix(m)
      ensures forall i, j :: 0 <= i < TOTAL_BLOCK_NUMBER && 0 <= j < TOTAL_BLOCK_NUMBER ==>
        m[i][j] == GetCellNumber(i + 1, j + 1)
      ensures m == Matrix()
    {
      m := [];
      for row := 0 to TOTAL_BLOCK_NUMBER
        invariant |m| == row
        invariant forall i :: 0 <= i < row ==> m[i] == Matrix()[i]
      {
        var line: seq<int> := [];
        for column := 0 to TOTAL_BLOCK_NUMBER
          invariant |line| == column
          invariant forall j :: 0 <= j < column ==> line[j] == GetCellNumber(row + 1, j + 1)
        {
          line := line + [GetCellNumber(row + 1, column + 1)];
        }
        m := m + [line];
      }
    }
  }
}
