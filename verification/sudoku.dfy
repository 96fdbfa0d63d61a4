/**
 * A Sudoku game: its name and its grid. The grid is generated by a
 * randomised backtracking search that fills the cells in row-major order
 * and then empties a few of them; players place numbers into empty cells.
 */
module Sudokus {
  import opened Dimensions
  import opened Cells
  import opened GridUtils
  import opened Grids
  import opened Positions
  import opened GridVerifier
  import opened SudokuVerifier
  import opened Scores

  /** How many cells a generated game empties for the players. */
  const CELL_TO_CLEAN: int := 6

  /** The numbers a filled cell may hold. */
  const Digits: set<int> := {1, 2, 3, 4, 5, 6, 7, 8, 9}

  /** Every number of the matrix is the empty value or a digit. */
  predicate HoldsDigits(m: Matrix)
    requires IsMatrix(m)
  {
    forall i, j :: 0 <= i < TOTAL_BLOCK_NUMBER && 0 <= j < TOTAL_BLOCK_NUMBER ==>
      m[i][j] == EMPTY_CELL || m[i][j] in Digits
  }

  /** No two distinct positions that share a row, a column or a box hold the same nonzero number. */
  predicate NoRepeats(m: Matrix)
    requires IsMatrix(m)
  {
    forall i1, j1, i2, j2 ::
      0 <= i1 < TOTAL_BLOCK_NUMBER && 0 <= j1 < TOTAL_BLOCK_NUMBER &&
      0 <= i2 < TOTAL_BLOCK_NUMBER && 0 <= j2 < TOTAL_BLOCK_NUMBER &&
      (i1 != i2 || j1 != j2) && SameUnit(i1, j1, i2, j2) && m[i1][j1] != EMPTY_CELL ==>
      m[i1][j1] != m[i2][j2]
  }

  /** No cell of the matrix is empty. */
  predicate Completed(m: Matrix)
    requires IsMatrix(m)
  {
    forall i, j :: 0 <= i < TOTAL_BLOCK_NUMBER && 0 <= j < TOTAL_BLOCK_NUMBER ==> m[i][j] != EMPTY_CELL
  }

  /** The 0-indexed positions of the empty cells. */
  function EmptyPositions(m: Matrix): (s: set<(int, int)>)
    requires IsMatrix(m)
    ensures forall i, j :: (i, j) in s <==>
      (0 <= i < TOTAL_BLOCK_NUMBER && 0 <= j < TOTAL_BLOCK_NUMBER && m[i][j] == EMPTY_CELL)
  {
    set i, j | 0 <= i < TOTAL_BLOCK_NUMBER && 0 <= j < TOTAL_BLOCK_NUMBER && m[i][j] == EMPTY_CELL :: (i, j)
  }

  /** The matrix with 0-indexed (i, j) set to `n`. */
  function WithNumber(m: Matrix, i: int, j: int, n: int): (m': Matrix)
    requires IsMatrix(m) && 0 <= i < TOTAL_BLOCK_NUMBER && 0 <= j < TOTAL_BLOCK_NUMBER
    ensures IsMatrix(m') && m'[i][j] == n
    ensures forall k, l :: 0 <= k < TOTAL_BLOCK_NUMBER && 0 <= l < TOTAL_BLOCK_NUMBER && (k != i || l != j) ==>
      m'[k][l] == m[k][l]
  {
    m[i := m[i][j := n]]
  }

  /**
   * A player's attempt to put `number` at 1-indexed (row, column): the
   * score it earns and the numbers afterwards.
   */
  function Place(m: Matrix, row: int, column: int, number: int): (r: (int, Matrix))
    requires IsMatrix(m) && InRange(row) && InRange(column)
    ensures IsScore(r.0) && IsMatrix(r.1)
  {
    if m[row - 1][column - 1] != EMPTY_CELL then (NUMBER_ALREADY_PLACED, m)
    else if PositionFree(m, row, column, number) then (CORRECT_NUMBER, WithNumber(m, row - 1, column - 1, number))
    else (INCORRECT_NUMBER, m)
  }

  /** A position that shares a unit with (row, column) is among the numbers `PositionFree` inspects. */
  lemma PositionFreeCoversUnit(m: Matrix, row: int, column: int, number: int, i: int, j: int)
    requires IsMatrix(m) && InRange(row) && InRange(column)
    requires 0 <= i < TOTAL_BLOCK_NUMBER && 0 <= j < TOTAL_BLOCK_NUMBER
    requires SameUnit(row - 1, column - 1, i, j)
    requires PositionFree(m, row, column, number)
    ensures m[i][j] != number
  {
    if i != row - 1 && j != column - 1 {
      CalcBounds(BLOCK_NUMBER, i + 1);
      CalcBounds(BLOCK_NUMBER, j + 1);
      BoxStartIsCalc(row);
      BoxStartIsCalc(column);
      BoxStartInGrid(row);
      BoxStartInGrid(column);
    }
  }

  /** When `PositionFree` fails, some position sharing a unit with (row, column) holds `number`. */
  lemma RepeatInUnit(m: Matrix, row: int, column: int, number: int)
    requires IsMatrix(m) && InRange(row) && InRange(column)
    requires !PositionFree(m, row, column, number)
    ensures exists i, j ::
      (0 <= i < TOTAL_BLOCK_NUMBER && 0 <= j < TOTAL_BLOCK_NUMBER &&
       SameUnit(row - 1, column - 1, i, j) && m[i][j] == number)
  {
    if !RowLacks(m, row, number) {
      var j :| 0 <= j < TOTAL_BLOCK_NUMBER && m[row - 1][j] == number;
      assert SameUnit(row - 1, column - 1, row - 1, j);
    } else if !ColumnLacks(m, column, number) {
      var i :| 0 <= i < TOTAL_BLOCK_NUMBER && m[i][column - 1] == number;
      assert SameUnit(row - 1, column - 1, i, column - 1);
    } else {
      BoxStartInGrid(row);
      BoxStartInGrid(column);
      BoxStartIsCalc(row);
      BoxStartIsCalc(column);
      var r0, c0 := BoxStart(row), BoxStart(column);
      var i, j :| r0 - 1 <= i < r0 - 1 + BLOCK_NUMBER && c0 - 1 <= j < c0 - 1 + BLOCK_NUMBER && m[i][j] == number;
      CalcOfBoxMember(BLOCK_NUMBER, row, i + 1);
      CalcOfBoxMember(BLOCK_NUMBER, column, j + 1);
      assert SameUnit(row - 1, column - 1, i, j);
    }
  }

  /**
   * On numbers without repeats, the player's check accepts a nonzero
   * number for an empty cell exactly when writing it there keeps the
   * numbers without repeats.
   */
  lemma {:induction false} PositionFreeIffNoRepeats(m: Matrix, row: int, column: int, number: int)
    requires IsMatrix(m) && InRange(row) && InRange(column)
    requires NoRepeats(m) && m[row - 1][column - 1] == EMPTY_CELL && number != EMPTY_CELL
    ensures PositionFree(m, row, column, number) <==> NoRepeats(WithNumber(m, row - 1, column - 1, number))
  {
    var m' := WithNumber(m, row - 1, column - 1, number);
    if PositionFree(m, row, column, number) {
      forall i1, j1, i2, j2 |
        0 <= i1 < TOTAL_BLOCK_NUMBER && 0 <= j1 < TOTAL_BLOCK_NUMBER &&
        0 <= i2 < TOTAL_BLOCK_NUMBER && 0 <= j2 < TOTAL_BLOCK_NUMBER &&
        (i1 != i2 || j1 != j2) && SameUnit(i1, j1, i2, j2) && m'[i1][j1] != EMPTY_CELL
        ensures m'[i1][j1] != m'[i2][j2]
      {
        if i1 == row - 1 && j1 == column - 1 {
          PositionFreeCoversUnit(m, row, column, number, i2, j2);
        } else if i2 == row - 1 && j2 == column - 1 {
          assert SameUnit(i2, j2, i1, j1);
          PositionFreeCoversUnit(m, row, column, number, i1, j1);
        }
      }
    } else {
      RepeatInUnit(m, row, column, number);
      var i, j :| 0 <= i < TOTAL_BLOCK_NUMBER && 0 <= j < TOTAL_BLOCK_NUMBER &&
        SameUnit(row - 1, column - 1, i, j) && m[i][j] == number;
      assert m'[i][j] == number;
      assert m'[row - 1][column - 1] == number;
    }
  }

  /**
   * The outcome of a placement: an occupied cell earns 0 and changes
   * nothing; an accepted number earns 1 and is written into the empty
   * cell and nowhere else; a refused number earns -1 and changes nothing.
   * No placement ever alters a nonzero cell, and on numbers without
   * repeats a nonzero number is accepted exactly when it keeps them so.
   */
  lemma PlaceOutcome(m: Matrix, row: int, column: int, number: int)
    requires IsMatrix(m) && InRange(row) && InRange(column)
    ensures var (score, m') := Place(m, row, column, number);
      && (score == NUMBER_ALREADY_PLACED <==> m[row - 1][column - 1] != EMPTY_CELL)
      && (score == CORRECT_NUMBER ==> m' == WithNumber(m, row - 1, column - 1, number))
      && (score != CORRECT_NUMBER ==> m' == m)
      && (forall i, j :: 0 <= i < TOTAL_BLOCK_NUMBER && 0 <= j < TOTAL_BLOCK_NUMBER && m[i][j] != EMPTY_CELL ==>
            m'[i][j] == m[i][j])
    ensures NoRepeats(m) && m[row - 1][column - 1] == EMPTY_CELL && number != EMPTY_CELL ==>
      (Place(m, row, column, number).0 == CORRECT_NUMBER <==> NoRepeats(WithNumber(m, row - 1, column - 1, number)))
  {
    if NoRepeats(m) && m[row - 1][column - 1] == EMPTY_CELL && number != EMPTY_CELL {
      PositionFreeIffNoRepeats(m, row, column, number);
    }
  }

  /** Placing never introduces a repeat, whatever the number. */
  lemma PlaceKeepsNoRepeats(m: Matrix, row: int, column: int, number: int)
    requires IsMatrix(m) && InRange(row) && InRange(column)
    requires NoRepeats(m)
    ensures NoRepeats(Place(m, row, column, number).1)
  {
    if m[row - 1][column - 1] == EMPTY_CELL && PositionFree(m, row, column, number) {
      assert number != EMPTY_CELL by {
        assert m[row - 1][column - 1] == EMPTY_CELL;
        assert !RowLacks(m, row, EMPTY_CELL);
      }
      PositionFreeIffNoRepeats(m, row, column, number);
    }
  }

  /** A number accepted at a cell cannot be placed there again: the next attempt earns 0. */
  lemma PlaceTwice(m: Matrix, row: int, column: int, number: int, other: int)
    requires IsMatrix(m) && InRange(row) && InRange(column)
    requires Place(m, row, column, number).0 == CORRECT_NUMBER
    ensures Place(Place(m, row, column, number).1, row, column, other) ==
      (NUMBER_ALREADY_PLACED, Place(m, row, column, number).1)
  {
    assert number != EMPTY_CELL by {
      assert !RowLacks(m, row, EMPTY_CELL);
    }
  }

  /** On a completed grid every attempt earns 0 and changes nothing. */
  lemma PlaceOnCompleted(m: Matrix, row: int, column: int, number: int)
    requires IsMatrix(m) && InRange(row) && InRange(column)
    requires Completed(m)
    ensures Place(m, row, column, number) == (NUMBER_ALREADY_PLACED, m)
  {
  }

  /** Replacing numbers by the empty value keeps the numbers free of repeats and made of digits. */
  lemma ZeroingKeepsNoRepeats(m: Matrix, m': Matrix)
    requires IsMatrix(m) && IsMatrix(m')
    requires forall i, j :: 0 <= i < TOTAL_BLOCK_NUMBER && 0 <= j < TOTAL_BLOCK_NUMBER ==>
      m'[i][j] == m[i][j] || m'[i][j] == EMPTY_CELL
    requires NoRepeats(m) && HoldsDigits(m)
    ensures NoRepeats(m') && HoldsDigits(m')
  {
  }

  /** A subset is no larger than its superset. */
  lemma SubsetCard<T>(a: set<T>, b: set<T>)
    requires a <= b
    ensures |a| <= |b|
  {
    assert b == a + (b - a);
    assert a * (b - a) == {};
  }

  /** The numbers of the grid after writing `n` into one cell. */
  lemma NumbersOfUpdate(b: Board, i: int, j: int, s: CellState)
    requires IsBoard(b) && 0 <= i < TOTAL_BLOCK_NUMBER && 0 <= j < TOTAL_BLOCK_NUMBER
    ensures Numbers(UpdateCell(b, i, j, s)) == WithNumber(Numbers(b), i, j, s.number)
  {
    assert forall k :: 0 <= k < TOTAL_BLOCK_NUMBER ==>
      Numbers(UpdateCell(b, i, j, s))[k] == WithNumber(Numbers(b), i, j, s.number)[k];
  }

  /** A set of digits with fewer than nine members misses some digit. */
  lemma MissingDigit(s: set<int>)
    requires s <= Digits && |s| < TOTAL_BLOCK_NUMBER
    ensures exists c :: c in Digits && c !in s
  {
    assert |Digits| == TOTAL_BLOCK_NUMBER;
    assert Digits == s + (Digits - s);
    assert s * (Digits - s) == {};
    assert |Digits - s| > 0;
    var c :| c in Digits - s;
  }

  /** A cell during generation: empty when not filled, a digit when filled, only digits excluded. */
  predicate CellInvariant(s: CellState) {
    UnfilledIsEmpty(s) && (s.filled ==> s.number in Digits) && s.excluded <= Digits
  }

  /** What generation keeps true of the grid: every cell is well formed and the board is consistent. */
  predicate GenInvariant(b: Board)
    requires IsBoard(b)
  {
    (forall i, j :: 0 <= i < TOTAL_BLOCK_NUMBER && 0 <= j < TOTAL_BLOCK_NUMBER ==> CellInvariant(b[i][j]))
    && Consistent(b)
  }

  /** Every cell before row-major index `p` is filled. */
  predicate FilledBefore(b: Board, p: int)
    requires IsBoard(b)
  {
    forall i, j :: 0 <= i < TOTAL_BLOCK_NUMBER && 0 <= j < TOTAL_BLOCK_NUMBER && Index(i + 1, j + 1) < p ==>
      b[i][j].filled
  }

  /** Every cell at row-major index `p` or later is in the empty state. */
  predicate EmptyFrom(b: Board, p: int)
    requires IsBoard(b)
  {
    forall i, j :: 0 <= i < TOTAL_BLOCK_NUMBER && 0 <= j < TOTAL_BLOCK_NUMBER && p <= Index(i + 1, j + 1) ==>
      b[i][j] == EmptyState
  }

  /** Every cell is filled. */
  predicate AllFilled(b: Board)
    requires IsBoard(b)
  {
    forall i, j :: 0 <= i < TOTAL_BLOCK_NUMBER && 0 <= j < TOTAL_BLOCK_NUMBER ==> b[i][j].filled
  }

  /** The cells before row-major index `p` are the same in both boards. */
  predicate SamePrefix(b: Board, b': Board, p: int)
    requires IsBoard(b) && IsBoard(b')
  {
    forall i, j :: 0 <= i < TOTAL_BLOCK_NUMBER && 0 <= j < TOTAL_BLOCK_NUMBER && Index(i + 1, j + 1) < p ==>
      b'[i][j] == b[i][j]
  }

  /** The last cell, the one generation checks to know it has finished, is filled. */
  predicate LastFilled(b: Board)
    requires IsBoard(b)
  {
    b[TOTAL_BLOCK_NUMBER - 1][TOTAL_BLOCK_NUMBER - 1].filled
  }

  /** A fresh grid satisfies the generation invariant. */
  lemma EmptyBoardInvariant()
    ensures GenInvariant(EmptyBoard())
    ensures !LastFilled(EmptyBoard()) && EmptyFrom(EmptyBoard(), 0) && FilledBefore(EmptyBoard(), 0)
  {
  }

  /** Placing a digit the generator's check accepts keeps the generation invariant. */
  lemma PlaceStep(b: Board, n: int, row: int, column: int)
    requires IsBoard(b) && InRange(row) && InRange(column)
    requires GenInvariant(b) && n in Digits && CanPlace(b, n, row, column)
    ensures GenInvariant(UpdateCell(b, row - 1, column - 1, Placed(b[row - 1][column - 1], n)))
  {
    PlacingKeepsConsistent(b, n, row, column);
  }

  /** Excluding a digit changes no number and no filled flag, so it keeps the generation invariant. */
  lemma ExcludeStep(b: Board, n: int, row: int, column: int)
    requires IsBoard(b) && InRange(row) && InRange(column)
    requires GenInvariant(b) && n in Digits
    ensures GenInvariant(UpdateCell(b, row - 1, column - 1, Excluding(b[row - 1][column - 1], n)))
  {
    var b': Board := UpdateCell(b, row - 1, column - 1, Excluding(b[row - 1][column - 1], n));
    assert forall i, j :: 0 <= i < TOTAL_BLOCK_NUMBER && 0 <= j < TOTAL_BLOCK_NUMBER ==>
      b'[i][j].filled == b[i][j].filled && b'[i][j].number == b[i][j].number;
  }

  /** Emptying a cell keeps the generation invariant. */
  lemma ClearStep(b: Board, row: int, column: int)
    requires IsBoard(b) && InRange(row) && InRange(column)
    requires GenInvariant(b)
    ensures GenInvariant(UpdateCell(b, row - 1, column - 1, EmptyState))
  {
  }

  /**
   * The numbers of a board that satisfies the generation invariant are
   * digits or empty and have no repeats.
   */
  lemma GenInvariantNumbers(b: Board)
    requires IsBoard(b) && GenInvariant(b)
    ensures NoRepeats(Numbers(b)) && HoldsDigits(Numbers(b))
    ensures AllFilled(b) ==> Completed(Numbers(b))
  {
    var m := Numbers(b);
    forall i1, j1, i2, j2 |
      0 <= i1 < TOTAL_BLOCK_NUMBER && 0 <= j1 < TOTAL_BLOCK_NUMBER &&
      0 <= i2 < TOTAL_BLOCK_NUMBER && 0 <= j2 < TOTAL_BLOCK_NUMBER &&
      (i1 != i2 || j1 != j2) && SameUnit(i1, j1, i2, j2) && m[i1][j1] != EMPTY_CELL
      ensures m[i1][j1] != m[i2][j2]
    {
      assert CellInvariant(b[i1][j1]) && CellInvariant(b[i2][j2]);
    }
    assert forall i, j :: 0 <= i < TOTAL_BLOCK_NUMBER && 0 <= j < TOTAL_BLOCK_NUMBER ==> CellInvariant(b[i][j]);
  }

  /**
   * The board after the empty value has been written into the 0-indexed
   * positions of `cleared`: those cells hold 0 and count as filled, the
   * others are unchanged.
   */
  function Cleaned(b: Board, cleared: seq<(int, int)>): (b': Board)
    requires IsBoard(b)
    ensures IsBoard(b')
  {
    seq(TOTAL_BLOCK_NUMBER, i requires 0 <= i < TOTAL_BLOCK_NUMBER =>
      seq(TOTAL_BLOCK_NUMBER, j requires 0 <= j < TOTAL_BLOCK_NUMBER =>
        if (i, j) in cleared then Placed(b[i][j], EMPTY_CELL) else b[i][j]))
  }

  /** Emptying one more cell of a cleaned board, possibly one already emptied, cleans one more position. */
  lemma CleanedStep(b: Board, cleared: seq<(int, int)>, i: int, j: int)
    requires IsBoard(b) && 0 <= i < TOTAL_BLOCK_NUMBER && 0 <= j < TOTAL_BLOCK_NUMBER
    ensures var c := Cleaned(b, cleared);
      UpdateCell(c, i, j, Placed(c[i][j], EMPTY_CELL)) == Cleaned(b, cleared + [(i, j)])
  {
    var c := Cleaned(b, cleared);
    SameCells(UpdateCell(c, i, j, Placed(c[i][j], EMPTY_CELL)), Cleaned(b, cleared + [(i, j)]));
  }

  /** The distinct positions of a list of draws: never more than the draws. */
  function Drawn(draws: seq<(int, int)>): (s: set<(int, int)>)
    ensures forall p :: p in s <==> p in draws
    ensures |s| <= |draws|
  {
    if draws == [] then {}
    else
      var rest := Drawn(draws[..|draws| - 1]);
      assert |rest + {draws[|draws| - 1]}| <= |rest| + 1;
      rest + {draws[|draws| - 1]}
  }

  /** Cleaning only empties numbers: the numbers stay free of repeats and made of digits. */
  lemma CleanedNumbers(b: Board, cleared: seq<(int, int)>)
    requires IsBoard(b) && NoRepeats(Numbers(b)) && HoldsDigits(Numbers(b))
    ensures NoRepeats(Numbers(Cleaned(b, cleared))) && HoldsDigits(Numbers(Cleaned(b, cleared)))
  {
    ZeroingKeepsNoRepeats(Numbers(b), Numbers(Cleaned(b, cleared)));
  }

  /** Cleaning a completed grid leaves at most as many empty cells as draws. */
  lemma CleanedCompleted(b: Board, cleared: seq<(int, int)>)
    requires IsBoard(b) && Completed(Numbers(b))
    ensures |EmptyPositions(Numbers(Cleaned(b, cleared)))| <= |cleared|
  {
    var m := Numbers(Cleaned(b, cleared));
    assert EmptyPositions(m) <= Drawn(cleared);
    SubsetCard(EmptyPositions(m), Drawn(cleared));
  }

  /** Every draw is a 0-indexed position inside the grid. */
  predicate DrawsInGrid(draws: seq<(int, int)>) {
    forall k :: 0 <= k < |draws| ==> 0 <= draws[k].0 < TOTAL_BLOCK_NUMBER && 0 <= draws[k].1 < TOTAL_BLOCK_NUMBER
  }

  /** One more draw inside the grid keeps every draw inside the grid. */
  lemma DrawsInGridAppend(draws: seq<(int, int)>, i: int, j: int)
    requires DrawsInGrid(draws) && 0 <= i < TOTAL_BLOCK_NUMBER && 0 <= j < TOTAL_BLOCK_NUMBER
    ensures DrawsInGrid(draws + [(i, j)])
  {
  }

  /**
   * Cleaning a completed grid at positions inside the grid empties exactly
   * the distinct drawn positions: 81 - k cells stay filled, for k of them.
   */
  lemma CleanedCompletedExact(b: Board, cleared: seq<(int, int)>)
    requires IsBoard(b) && Completed(Numbers(b)) && DrawsInGrid(cleared)
    ensures EmptyPositions(Numbers(Cleaned(b, cleared))) == Drawn(cleared)
  {
    var m := Numbers(Cleaned(b, cleared));
    assert EmptyPositions(m) <= Drawn(cleared);
    forall p | p in Drawn(cleared)
      ensures p in EmptyPositions(m)
    {
      var k :| 0 <= k < |cleared| && cleared[k] == p;
      assert m[p.0][p.1] == Cleaned(b, cleared)[p.0][p.1].number;
    }
  }

  /** Cleaning a grid with every cell empty leaves no number. */
  lemma CleanedEmpty(b: Board, cleared: seq<(int, int)>)
    requires IsBoard(b) && EmptyFrom(b, 0)
    ensures Numbers(Cleaned(b, cleared)) == Numbers(EmptyBoard())
  {
    var m := Numbers(Cleaned(b, cleared));
    assert forall i :: 0 <= i < TOTAL_BLOCK_NUMBER ==> m[i] == Numbers(EmptyBoard())[i];
  }

  /**
   * What a finished generation followed by cleaning leaves: numbers free of
   * repeats and made of digits; if generation filled the last cell, at most
   * as many empty cells as draws, exactly the distinct drawn positions when
   * the draws lie inside the grid, and otherwise no number at all.
   */
  lemma GeneratedNumbers(b: Board, cleared: seq<(int, int)>)
    requires IsBoard(b) && GenInvariant(b)
    requires LastFilled(b) ==> AllFilled(b)
    requires !LastFilled(b) ==> EmptyFrom(b, 0)
    ensures var m := Numbers(Cleaned(b, cleared));
      && NoRepeats(m) && HoldsDigits(m)
      && (LastFilled(b) ==> |EmptyPositions(m)| <= |cleared|)
      && (LastFilled(b) && DrawsInGrid(cleared) ==> EmptyPositions(m) == Drawn(cleared))
      && (!LastFilled(b) ==> m == Numbers(EmptyBoard()))
  {
    GenInvariantNumbers(b);
    CleanedNumbers(b, cleared);
    if LastFilled(b) {
      CleanedCompleted(b, cleared);
      if DrawsInGrid(cleared) {
        CleanedCompletedExact(b, cleared);
      }
    } else {
      CleanedEmpty(b, cleared);
    }
  }

  /**
   * The state of generation while it works on 1-indexed (row, column),
   * relative to the board `b0` it started from: the invariant holds, the
   * cells before the position are those of `b0` and are filled, and the
   * cells after the position are empty unless the last cell is filled, in
   * which case every cell is.
   */
  predicate Generating(b0: Board, b: Board, row: int, column: int)
    requires IsBoard(b0) && IsBoard(b) && InRange(row) && InRange(column)
  {
    && GenInvariant(b)
    && FilledBefore(b0, Index(row, column))
    && SamePrefix(b0, b, Index(row, column))
    && (LastFilled(b) ==> AllFilled(b))
    && (!LastFilled(b) ==> EmptyFrom(b, Index(row, column) + 1))
  }

  /** Generation at a position starts from a board whose last cell is not filled. */
  lemma GeneratingStart(b0: Board, row: int, column: int)
    requires IsBoard(b0) && InRange(row) && InRange(column)
    requires GenInvariant(b0) && FilledBefore(b0, Index(row, column)) && !LastFilled(b0)
    requires EmptyFrom(b0, Index(row, column))
    ensures Generating(b0, b0, row, column)
  {
  }

  /**
   * After an accepted digit is placed at the position, generation is still
   * in progress there, every cell up to the position is filled, and when
   * the position is the last cell the whole grid is filled.
   */
  lemma GeneratingPlace(b0: Board, b: Board, row: int, column: int, n: int)
    requires IsBoard(b0) && IsBoard(b) && InRange(row) && InRange(column)
    requires Generating(b0, b, row, column) && n in Digits && CanPlace(b, n, row, column)
    ensures var b1 := UpdateCell(b, row - 1, column - 1, Placed(b[row - 1][column - 1], n));
      && Generating(b0, b1, row, column)
      && FilledBefore(b1, Index(row, column) + 1)
      && (row == TOTAL_BLOCK_NUMBER && column == TOTAL_BLOCK_NUMBER ==> AllFilled(b1))
      && |b1[row - 1][column - 1].excluded| == |b[row - 1][column - 1].excluded + {n}|
  {
    PlaceStep(b, n, row, column);
  }

  /**
   * After the generation of the following cells returns, generation is
   * still in progress at the position and the cell at the position has
   * kept its state.
   */
  lemma GeneratingAfterNext(b0: Board, b1: Board, b2: Board, row: int, column: int)
    requires IsBoard(b0) && IsBoard(b1) && IsBoard(b2) && InRange(row) && InRange(column)
    requires Generating(b0, b1, row, column)
    requires GenInvariant(b2) && SamePrefix(b1, b2, Index(row, column) + 1)
    requires LastFilled(b2) ==> AllFilled(b2)
    requires !LastFilled(b2) ==> EmptyFrom(b2, Index(row, column) + 1)
    ensures Generating(b0, b2, row, column)
    ensures b2[row - 1][column - 1] == b1[row - 1][column - 1]
  {
  }

  /** After a refused digit is excluded at the position, generation is still in progress there. */
  lemma GeneratingExclude(b0: Board, b: Board, row: int, column: int, n: int)
    requires IsBoard(b0) && IsBoard(b) && InRange(row) && InRange(column)
    requires Generating(b0, b, row, column) && n in Digits
    ensures Generating(b0, UpdateCell(b, row - 1, column - 1, Excluding(b[row - 1][column - 1], n)), row, column)
  {
    ExcludeStep(b, n, row, column);
  }

  /**
   * When the position has run out of digits: if the last cell is filled
   * the whole grid is; otherwise emptying the position leaves every cell
   * from it onwards empty.
   */
  lemma GeneratingFinish(b0: Board, b: Board, row: int, column: int)
    requires IsBoard(b0) && IsBoard(b) && InRange(row) && InRange(column)
    requires Generating(b0, b, row, column)
    ensures LastFilled(b) ==> AllFilled(b)
    ensures !LastFilled(b) ==>
      var b' := UpdateCell(b, row - 1, column - 1, EmptyState);
      && GenInvariant(b') && SamePrefix(b0, b', Index(row, column))
      && !LastFilled(b') && EmptyFrom(b', Index(row, column))
  {
    if !LastFilled(b) {
      ClearStep(b, row, column);
    }
  }

  class Sudoku {
    var name: string
    var grid: Grid
    /** Kept by the game but never read or updated after construction. */
    var players: seq<string>
    /** Kept by the game but never read or updated after construction. */
    var scores: seq<int>
    /** Whether generation filled the whole grid before cells were emptied. */
    ghost var generated: bool
    /** The 0-indexed positions drawn for emptying, in drawing order. */
    ghost var draws: seq<(int, int)>

    ghost predicate Valid()
      reads this, grid, grid.cells, grid.CellSet()
    {
      grid.Valid()
    }

    /**
     * `Sudoku(name, cells)`: a game over a grid whose cells hold the numbers
     * of `cells`, every one of them marked filled.
     */
    constructor WithCells(name: string, cells: Matrix)
      requires CoversGrid(cells)
      ensures Valid() && fresh(grid) && fresh(grid.cells) && fresh(grid.CellSet())
      ensures this.name == name && players == [] && scores == []
      ensures grid.board == BoardOf(cells)
      ensures grid.Matrix() == Crop(cells)
    {
      this.name := name;
      players := [];
      scores := [];
      grid := new Grid.WithCells(BLOCK_NUMBER, cells);
    }

    /**
     * `Sudoku(name)`: a game over a generated grid. Generation fills the
     * grid row by row with digits that never repeat in a row, a column or
     * a box, then empties CELL_TO_CLEAN drawn cells. When generation ends
     * with the last cell filled, every cell was filled, so the empty cells
     * are exactly the distinct drawn positions, at most CELL_TO_CLEAN of
     * them; otherwise every cell is empty.
     */
    constructor (name: string)
      ensures Valid() && fresh(grid) && fresh(grid.cells) && fresh(grid.CellSet())
      ensures this.name == name && players == [] && scores == []
      ensures NoRepeats(grid.Matrix()) && HoldsDigits(grid.Matrix())
      ensures |draws| == CELL_TO_CLEAN && DrawsInGrid(draws)
      ensures generated ==> forall i, j :: 0 <= i < TOTAL_BLOCK_NUMBER && 0 <= j < TOTAL_BLOCK_NUMBER ==>
        (grid.Matrix()[i][j] == EMPTY_CELL <==> (i, j) in draws)
      ensures generated ==> |EmptyPositions(grid.Matrix())| <= CELL_TO_CLEAN
      ensures !generated ==> grid.Matrix() == Numbers(EmptyBoard())
    {
      var g, full, drawn := InitGrid(CELL_TO_CLEAN);
      this.name := name;
      players := [];
      scores := [];
      grid := g;
      generated := full;
      draws := drawn;
    }

    /**
     * The score of placing `number` at 1-indexed (row, column), and the new
     * numbers of the grid, are those `Place` gives; only that cell may change.
     */
    method PlaceNumber(row: int, column: int, number: int) returns (score: int)
      requires Valid() && InRange(row) && InRange(column)
      modifies grid, grid.cells[ToExact(row), ToExact(column)]
      ensures Valid() && grid.cells == old(grid.cells)
      ensures (score, grid.Matrix()) == Place(old(grid.Matrix()), row, column, number)
      ensures score != CORRECT_NUMBER ==> grid.board == old(grid.board)
    {
      ghost var m := grid.Matrix();
      if grid.GetCellNumber(row, column) != EMPTY_CELL {
        return NUMBER_ALREADY_PLACED;
      }
      ghost var b0 := grid.board;
      var ok := VerifyPosition(grid, row, column, number);
      if ok {
        grid.SetCellNumber(number, row, column);
        NumbersOfUpdate(b0, row - 1, column - 1, Placed(b0[row - 1][column - 1], number));
        assert grid.Matrix() == WithNumber(m, row - 1, column - 1, number);
        return CORRECT_NUMBER;
      }
      assert Place(m, row, column, number) == (INCORRECT_NUMBER, m);
      return INCORRECT_NUMBER;
    }

    /** True exactly when no cell of the grid holds the empty value. */
    method IsCompleted() returns (r: bool)
      requires Valid()
      ensures r <==> Completed(grid.Matrix())
    {
      ghost var m := grid.Matrix();
      for i := FIRST to TOTAL_BLOCK_NUMBER + 1
        invariant forall k, l :: 0 <= k < i - 1 && 0 <= l < TOTAL_BLOCK_NUMBER ==> m[k][l] != EMPTY_CELL
      {
        ghost var line := m[i - 1];
        for j := FIRST to TOTAL_BLOCK_NUMBER + 1
          invariant forall l :: 0 <= l < j - 1 ==> line[l] != EMPTY_CELL
        {
          if grid.GetCellNumber(i, j) == EMPTY_CELL {
            return false;
          }
        }
      }
      return true;
    }

  }

  /**
   * A new grid filled by generation from the first cell, then with
   * `cellsToClean` drawn cells emptied. `generated` tells whether
   * generation filled the last cell; it then filled every cell, and the
   * empty cells are exactly the distinct positions of `draws`.
   */
  method InitGrid(cellsToClean: int) returns (grid: Grid, ghost generated: bool, ghost draws: seq<(int, int)>)
    ensures grid.Valid() && fresh(grid) && fresh(grid.cells) && fresh(grid.CellSet())
    ensures NoRepeats(grid.Matrix()) && HoldsDigits(grid.Matrix())
    ensures |draws| == (if cellsToClean <= 0 then 0 else cellsToClean) && DrawsInGrid(draws)
    ensures generated ==> EmptyPositions(grid.Matrix()) == Drawn(draws)
    ensures generated ==> |EmptyPositions(grid.Matrix())| <= if cellsToClean <= 0 then 0 else cellsToClean
    ensures !generated ==> grid.Matrix() == Numbers(EmptyBoard())
  {
    grid := new Grid(BLOCK_NUMBER);
    EmptyBoardInvariant();
    PopulateGrid(grid, FIRST, FIRST);
    ghost var b: Board := grid.board;
    generated := LastFilled(b);
    draws := CleanCells(grid, cellsToClean);
    GeneratedNumbers(b, draws);
  }

  /**
   * Fills the cells from 1-indexed (row, column) onwards, in row-major
   * order, by backtracking. Cells before the position do not change and
   * the generation invariant is kept. Afterwards either the last cell is
   * filled and then every cell is, or it is not and then every cell from
   * the position onwards is empty again. When the last cell is already
   * filled on entry, nothing changes.
   */
  method PopulateGrid(grid: Grid, row: int, column: int)
    requires grid.Valid() && InRange(row) && InRange(column)
    requires GenInvariant(grid.board)
    requires FilledBefore(grid.board, Index(row, column))
    requires LastFilled(grid.board) ==> AllFilled(grid.board)
    requires !LastFilled(grid.board) ==> EmptyFrom(grid.board, Index(row, column))
    modifies grid, grid.CellSet()
    ensures grid.Valid() && grid.cells == old(grid.cells) && GenInvariant(grid.board)
    ensures SamePrefix(old(grid.board), grid.board, Index(row, column))
    ensures LastFilled(grid.board) ==> AllFilled(grid.board)
    ensures !LastFilled(grid.board) ==> EmptyFrom(grid.board, Index(row, column))
    ensures old(LastFilled(grid.board)) ==> grid.board == old(grid.board)
    decreases CELL_COUNT - Index(row, column), 2
  {
    var gridSize := grid.gridSize;
    if grid.IsCellNotFilled(gridSize, gridSize) {
      ghost var b0: Board := grid.board;
      GeneratingStart(b0, row, column);
      while grid.GetCellExcludedNumbers(row, column) < gridSize
        invariant grid.Valid() && grid.cells == old(grid.cells) && Generating(b0, grid.board, row, column)
        decreases TOTAL_BLOCK_NUMBER - |grid.board[row - 1][column - 1].excluded|
      {
        TryCandidate(grid, b0, row, column);
      }
      GeneratingFinish(b0, grid.board, row, column);
      if grid.IsCellNotFilled(gridSize, gridSize) {
        grid.ClearCell(row, column);
      }
    }
  }

  /**
   * Empties a randomly drawn cell `cellsToClean` times; a cell drawn twice
   * is emptied once, so the drawn positions number at most `cellsToClean`.
   */
  method CleanCells(grid: Grid, cellsToClean: int) returns (ghost cleared: seq<(int, int)>)
    requires grid.Valid()
    modifies grid, grid.CellSet()
    ensures grid.Valid() && grid.cells == old(grid.cells)
    ensures |cleared| == (if cellsToClean <= 0 then 0 else cellsToClean) && DrawsInGrid(cleared)
    ensures grid.board == Cleaned(old(grid.board), cleared)
  {
    ghost var b0: Board := grid.board;
    cleared := [];
    SameCells(Cleaned(b0, cleared), b0);
    var round := TOTAL_BLOCK_NUMBER + 1;
    var cell := 0;
    while cell < cellsToClean
      invariant grid.Valid() && grid.cells == old(grid.cells) && 0 <= cell && |cleared| == cell
      invariant cell <= if cellsToClean <= 0 then 0 else cellsToClean
      invariant grid.board == Cleaned(b0, cleared) && DrawsInGrid(cleared)
      invariant grid.CellSet() == old(grid.CellSet())
    {
      var rowDraw :| 0 <= rowDraw < round;
      var columnDraw :| 0 <= columnDraw < round;
      var row := GetRandomCellIndex(rowDraw);
      var column := GetRandomCellIndex(columnDraw);
      EmptyDrawnCell(grid, b0, cleared, row + 1, column + 1);
      DrawsInGridAppend(cleared, row, column);
      cleared := cleared + [(row, column)];
      cell := cell + 1;
    }
  }

  /** Writes the empty value into the drawn cell at 1-indexed (row, column) of a board being cleaned. */
  method EmptyDrawnCell(grid: Grid, ghost b0: Board, ghost cleared: seq<(int, int)>, row: int, column: int)
    requires grid.Valid() && IsBoard(b0) && InRange(row) && InRange(column)
    requires grid.board == Cleaned(b0, cleared)
    modifies grid, grid.CellSet()
    ensures grid.Valid() && grid.cells == old(grid.cells) && grid.board == Cleaned(b0, cleared + [(row - 1, column - 1)])
    ensures grid.CellSet() == old(grid.CellSet())
  {
    ghost var c: Board := grid.board;
    CleanedStep(b0, cleared, row - 1, column - 1);
    ghost var next: Board := UpdateCell(c, row - 1, column - 1, Placed(c[row - 1][column - 1], EMPTY_CELL));
    assert next == Cleaned(b0, cleared + [(row - 1, column - 1)]);
    grid.SetCellNumber(EMPTY_CELL, row, column);
    assert grid.board == next;
  }

  /**
   * One round of the backtracking loop at 1-indexed (row, column): draws
   * a digit the cell does not exclude yet; if the generator's check
   * accepts it, places it and fills the following cells, otherwise
   * excludes it. Either way the cell excludes one more digit.
   */
  method TryCandidate(grid: Grid, ghost b0: Board, row: int, column: int)
    requires grid.Valid() && InRange(row) && InRange(column) && IsBoard(b0)
    requires Generating(b0, grid.board, row, column)
    requires |grid.board[row - 1][column - 1].excluded| < TOTAL_BLOCK_NUMBER
    modifies grid, grid.CellSet()
    ensures grid.Valid() && grid.cells == old(grid.cells) && Generating(b0, grid.board, row, column)
    ensures |grid.board[row - 1][column - 1].excluded| > old(|grid.board[row - 1][column - 1].excluded|)
    decreases CELL_COUNT - Index(row, column), 1
  {
    ghost var b: Board := grid.board;
    ghost var excluded := b[row - 1][column - 1].excluded;
    assert CellInvariant(b[row - 1][column - 1]);
    var candidate := DrawCandidate(grid, row, column);
    ghost var size := |excluded|;
    assert |excluded + {candidate}| == size + 1;
    var ok := VerifyGridNumber(grid, candidate, row, column);
    if ok {
      PlaceAndContinue(grid, b0, row, column, candidate);
    } else {
      GeneratingExclude(b0, b, row, column, candidate);
      grid.AddNumberAsExcluded(candidate, row, column);
    }
    assert grid.board[row - 1][column - 1].excluded == excluded + {candidate};
  }

  /**
   * Draws digits until one is not yet excluded at (row, column); the
   * redrawing is one choice among the draws that succeed.
   */
  method DrawCandidate(grid: Grid, row: int, column: int) returns (candidate: int)
    requires grid.Valid() && InRange(row) && InRange(column)
    requires grid.board[row - 1][column - 1].excluded <= Digits
    requires |grid.board[row - 1][column - 1].excluded| < TOTAL_BLOCK_NUMBER
    ensures candidate in Digits && candidate !in grid.board[row - 1][column - 1].excluded
  {
    ghost var excluded := grid.board[row - 1][column - 1].excluded;
    MissingDigit(excluded);
    ghost var c :| c in Digits && c !in excluded;
    RandomCellNumberCoversRange(c);
    assert grid.gridSize == TOTAL_BLOCK_NUMBER;
    assert !grid.IsNumberExcluded(GetRandomCellNumber(grid.gridSize, c - 1), row, column);
    var draw :| 0 <= draw <= TOTAL_BLOCK_NUMBER && !grid.IsNumberExcluded(GetRandomCellNumber(grid.gridSize, draw), row, column);
    candidate := GetRandomCellNumber(grid.gridSize, draw);
    assert !grid.IsNumberExcluded(candidate, row, column);
    assert candidate !in excluded;
    assert InRange(candidate);
  }

  /** Places an accepted candidate and, unless this is the last cell, fills the cells after it. */
  method PlaceAndContinue(grid: Grid, ghost b0: Board, row: int, column: int, candidate: int)
    requires grid.Valid() && InRange(row) && InRange(column) && IsBoard(b0)
    requires Generating(b0, grid.board, row, column)
    requires candidate in Digits && CanPlace(grid.board, candidate, row, column)
    modifies grid, grid.CellSet()
    ensures grid.Valid() && grid.cells == old(grid.cells) && Generating(b0, grid.board, row, column)
    ensures grid.board[row - 1][column - 1].excluded == old(grid.board[row - 1][column - 1].excluded) + {candidate}
    decreases CELL_COUNT - Index(row, column), 0
  {
    ghost var b: Board := grid.board;
    var gridSize := grid.gridSize;
    GeneratingPlace(b0, b, row, column, candidate);
    grid.SetCellNumber(candidate, row, column);
    ghost var b1: Board := grid.board;
    assert b1 == UpdateCell(b, row - 1, column - 1, Placed(b[row - 1][column - 1], candidate));
    var next := NextCellPosition(gridSize, row, column);
    if next.row <= gridSize && next.column <= gridSize {
      NextIsRowMajorSuccessor(gridSize, row, column);
      assert Index(next.row, next.column) == Index(row, column) + 1;
      PopulateGrid(grid, next.row, next.column);
      GeneratingAfterNext(b0, b1, grid.board, row, column);
    }
  }
}
