# sudoku-p2p, modelled in Dafny

A model of the core of sudoku-p2p, a peer-to-peer Sudoku game. Each peer
generates a game under a name, or joins one under a nickname. It places
numbers and earns one point for a correct placement and loses one for a wrong
one. When a game is completed, every player of it is told the scores. Peers
share one distributed key-value store. For a game named `g` the store holds:
- the game's grid of numbers under `g`;
- the addresses of its players under `g_players`;
- the players' nicknames under `g_nicknames`;
- their scores, in the same order, under `g_scores`.

Each peer also keeps three local lists of equal length: the games it joined,
their names and its nickname in each.

The model follows the Java code module by module:

- `GridUtils`, `Dimensions`, `Positions`: grid arithmetic. This covers the
  random draws, the 1-indexed to 0-indexed conversion, the start of a 3x3 box
  (`calc`) and the row-major walk over the cells.
- `Cells` and `Grids`: the mutable `Cell` and `Grid` objects. Each is a
  class over an `array2` of cells and carries a ghost abstract board, and
  every mutator is proved against that board.
- `GridVerifier` and `SudokuVerifier`: the two placement checks, the
  generation-time check on filled cells and the play-time check on numbers.
  Their loops are proved against unit predicates, and the two checks are
  proved to agree.
- `Sudokus`: the recursive backtracking generator with its invariant, the
  cleaning of drawn cells, and `placeNumber`'s scoring with the guarantee
  that a placement never creates a repeated number.
- `GameUtils`, `SudokuUtils`, `Texts`: input validation, the store keys and
  the decimal text of scores.
- `Coordinator`: every peer operation (generate, join, place a number, leave,
  leave the network) as a function over the store and the local session.
  This is where the join, placement and leave properties are proved.
- `SudokuGame`: the peer object (`SudokuGameImpl`), whose methods update a
  `Store` object and the peer's own fields and are proved equal to the
  `Coordinator` functions.

## Model

| member | source | states |
|---|---|---|
| GridUtils.JavaDiv | src/main/java/it/unisa/studenti/citro/tiziano/sudoku/utils/GridUtils.java:43 | Java's `/` on `int` truncates toward zero: the remainder `n - d*q` lies in [0, d) for n >= 0 and in (-d, 0] for n < 0, whereas a floored quotient would always leave a non-negative remainder |
| GridUtils.GetRandomCellNumber | src/main/java/it/unisa/studenti/citro/tiziano/sudoku/utils/GridUtils.java:17-20 | whatever `(int) (Math.random() * 10)` draws, the value lies in 1..gridSize |
| GridUtils.RandomCellNumberCoversRange | src/main/java/it/unisa/studenti/citro/tiziano/sudoku/utils/GridUtils.java:17-20 | every value 1..9 is produced by some draw, so the choice can reach any digit |
| GridUtils.GetRandomCellIndex | src/main/java/it/unisa/studenti/citro/tiziano/sudoku/model/Sudoku.java:132-133 | a drawn coordinate lies in 0..8; the draw 9 wraps round to 0 |
| GridUtils.ToExact | src/main/java/it/unisa/studenti/citro/tiziano/sudoku/utils/GridUtils.java:27-29 | a 1-indexed coordinate and its 0-indexed form differ by exactly one |
| GridUtils.CalcClosedForm | src/main/java/it/unisa/studenti/citro/tiziano/sudoku/utils/GridUtils.java:37-46 | for n >= 1, `Calc`, the source's box-start computation with a divisibility test and a truncating division, equals 1 + blockSize * ((n - 1) / blockSize) |
| GridUtils.CalcBounds | src/main/java/it/unisa/studenti/citro/tiziano/sudoku/utils/GridUtils.java:37-46 | for n >= 1: 1 <= calc(n) <= n <= calc(n) + blockSize - 1, and calc(n) - 1 is a multiple of blockSize |
| GridUtils.CalcSameBox | src/main/java/it/unisa/studenti/citro/tiziano/sudoku/utils/GridUtils.java:37-46 | two coordinates get the same box start exactly when they lie in the same block |
| GridUtils.CalcOfBoxMember | src/main/java/it/unisa/studenti/citro/tiziano/sudoku/utils/GridUtils.java:37-46 | every coordinate of the box that starts at calc(n) has that same box start |
| GridUtils.CalcWithBlockSizeThree | src/main/java/it/unisa/studenti/citro/tiziano/sudoku/utils/GridUtils.java:37-46 | with block size 3, coordinates 1-3 start at 1, 4-6 at 4 and 7-9 at 7 |
| Cells.Placed | src/main/java/it/unisa/studenti/citro/tiziano/sudoku/model/Cell.java:31-35 | after placing n the cell holds n, is filled, excludes n, and keeps every other exclusion |
| Cells.Excluding | src/main/java/it/unisa/studenti/citro/tiziano/sudoku/model/Cell.java:59-61 | excluding n changes neither the number nor the filled flag and adds exactly n to the exclusions |
| Cells.Cell.constructor | src/main/java/it/unisa/studenti/citro/tiziano/sudoku/model/Cell.java:13-15 | a new cell holds 0, is not filled and excludes nothing |
| Cells.Cell.WithNumber | src/main/java/it/unisa/studenti/citro/tiziano/sudoku/model/Cell.java:21-25 | a cell built from n holds n and is filled, even when n is 0, and excludes nothing |
| Cells.Cell.SetNumber | src/main/java/it/unisa/studenti/citro/tiziano/sudoku/model/Cell.java:31-35 | the cell holds n, is filled and excludes n; an unfilled cell still holds 0 |
| Cells.Cell.Clear | src/main/java/it/unisa/studenti/citro/tiziano/sudoku/model/Cell.java:40-44 | the cell holds 0, is not filled and has no exclusions |
| Cells.Cell.IsExcluded | src/main/java/it/unisa/studenti/citro/tiziano/sudoku/model/Cell.java:51-53 | true exactly when n is among the cell's exclusions |
| Cells.Cell.AddNumberAsExcluded | src/main/java/it/unisa/studenti/citro/tiziano/sudoku/model/Cell.java:59-61 | n becomes excluded, number and filled flag are kept, and the count grows by one exactly when n was not excluded already |
| Cells.Cell.GetExcludedSize | src/main/java/it/unisa/studenti/citro/tiziano/sudoku/model/Cell.java:67-69 | the number of distinct excluded numbers |
| Grids.Numbers | src/main/java/it/unisa/studenti/citro/tiziano/sudoku/model/Grid.java:57-65 | the exported matrix of a board is 9x9 and entry [i][j] is the number of cell [i][j] |
| Grids.Crop | src/main/java/it/unisa/studenti/citro/tiziano/sudoku/model/Grid.java:135-143 | building a grid reads only the top-left 9x9 part of the given matrix; a 9x9 matrix is read whole |
| Grids.EmptyBoard | src/main/java/it/unisa/studenti/citro/tiziano/sudoku/model/Grid.java:121-129 | every cell of a new grid is empty, unfilled and excludes nothing |
| Grids.BoardOf | src/main/java/it/unisa/studenti/citro/tiziano/sudoku/model/Grid.java:135-143 | every cell of a grid built from a matrix holds the matrix's number, is filled and excludes nothing |
| Grids.MatrixRoundTrip | src/main/java/it/unisa/studenti/citro/tiziano/sudoku/model/Grid.java:57-65 | exporting the numbers of a grid built from a 9x9 matrix gives back that matrix |
| Grids.Grid.constructor | src/main/java/it/unisa/studenti/citro/tiziano/sudoku/model/Grid.java:17-21 | gridSize is blockSize * blockSize = 9 and all 81 cells are distinct, new and empty |
| Grids.Grid.WithCells | src/main/java/it/unisa/studenti/citro/tiziano/sudoku/model/Grid.java:28-32 | all 81 cells are distinct and new, each holds its matrix number and is filled; the exported numbers are the matrix's 9x9 part |
| Grids.Grid.InitCells | src/main/java/it/unisa/studenti/citro/tiziano/sudoku/model/Grid.java:121-129 | the cell array is 9x9 and holds 81 distinct new empty cells |
| Grids.Grid.InitCellsWithGivenCells | src/main/java/it/unisa/studenti/citro/tiziano/sudoku/model/Grid.java:135-143 | the cell array is 9x9 and cell [i][j] is a new filled cell holding m[i][j] |
| Grids.Grid.GetCellNumber | src/main/java/it/unisa/studenti/citro/tiziano/sudoku/model/Grid.java:73-75 | 1-indexed (row, column) reads the number of cell [row - 1][column - 1] |
| Grids.Grid.IsCellNotFilled | src/main/java/it/unisa/studenti/citro/tiziano/sudoku/model/Grid.java:49-51 | true exactly when that cell is not filled |
| Grids.Grid.IsNumberExcluded | src/main/java/it/unisa/studenti/citro/tiziano/sudoku/model/Grid.java:104-106 | true exactly when the number is excluded at that cell |
| Grids.Grid.GetCellExcludedNumbers | src/main/java/it/unisa/studenti/citro/tiziano/sudoku/model/Grid.java:114-116 | the count of distinct numbers excluded at that cell |
| Grids.Grid.SetCellNumber | src/main/java/it/unisa/studenti/citro/tiziano/sudoku/model/Grid.java:83-85 | that cell then reads back the number and is filled; every other cell keeps its state |
| Grids.Grid.ClearCell | src/main/java/it/unisa/studenti/citro/tiziano/sudoku/model/Grid.java:39-41 | that cell then holds 0, is unfilled and excludes nothing; every other cell keeps its state |
| Grids.Grid.AddNumberAsExcluded | src/main/java/it/unisa/studenti/citro/tiziano/sudoku/model/Grid.java:93-95 | that cell excludes the number; no number of the grid changes and every other cell keeps its state |
| Grids.Grid.GetCellsNumbersAsMatrix | src/main/java/it/unisa/studenti/citro/tiziano/sudoku/model/Grid.java:57-65 | a 9x9 matrix whose entry [i][j] is getCellNumber(i + 1, j + 1), i.e. the grid's numbers |
| Positions.NextCellPosition | src/main/java/it/unisa/studenti/citro/tiziano/sudoku/model/Position.java:22-32 | below the last column the successor is (row, column + 1); otherwise it is (row + 1, 1) |
| Positions.NextIsRowMajorSuccessor | src/main/java/it/unisa/studenti/citro/tiziano/sudoku/model/Position.java:22-32 | the successor's row-major index is exactly one more than the position's |
| Positions.NextStaysInGrid | src/main/java/it/unisa/studenti/citro/tiziano/sudoku/model/Position.java:22-32 | the successor of a grid position is inside the grid unless the position is (9, 9), whose successor is (10, 1) |
| GridVerifier.BoxStartIsOrigin | src/main/java/it/unisa/studenti/citro/tiziano/sudoku/verifier/GridVerifier.java:39-41 | the box start of a coordinate in 1..9 leaves room for a whole 3-cell box inside the grid |
| GridVerifier.CellConflicts | src/main/java/it/unisa/studenti/citro/tiziano/sudoku/verifier/GridVerifier.java:104-106 | a cell conflicts exactly when it is filled and holds the number; an unfilled cell never conflicts |
| GridVerifier.VerifyRowNumber | src/main/java/it/unisa/studenti/citro/tiziano/sudoku/verifier/GridVerifier.java:50-58 | true exactly when no filled cell of the row, the target cell included, holds the number |
| GridVerifier.VerifyColumnNumber | src/main/java/it/unisa/studenti/citro/tiziano/sudoku/verifier/GridVerifier.java:67-75 | true exactly when no filled cell of the column, the target cell included, holds the number |
| GridVerifier.VerifyCellsNumber | src/main/java/it/unisa/studenti/citro/tiziano/sudoku/verifier/GridVerifier.java:85-96 | true exactly when no filled cell of the 3x3 box with that top-left corner holds the number |
| GridVerifier.VerifyNumber | src/main/java/it/unisa/studenti/citro/tiziano/sudoku/verifier/GridVerifier.java:39-41 | scans rows calc(row)..calc(row)+2 by columns calc(column)..calc(column)+2: true exactly when no filled cell there holds the number |
| GridVerifier.VerifyGridNumber | src/main/java/it/unisa/studenti/citro/tiziano/sudoku/verifier/GridVerifier.java:25-29 | true exactly when the box, the row and the column checks all pass; the grid is not modified |
| GridVerifier.CanPlaceCoversUnit | src/main/java/it/unisa/studenti/citro/tiziano/sudoku/verifier/GridVerifier.java:25-29 | when the check passes, no filled cell sharing a row, column or box with the position holds the number |
| GridVerifier.ConflictInUnit | src/main/java/it/unisa/studenti/citro/tiziano/sudoku/verifier/GridVerifier.java:25-29 | when the check fails, some filled cell sharing a row, column or box with the position holds the number |
| GridVerifier.PlacingKeepsConsistent | src/main/java/it/unisa/studenti/citro/tiziano/sudoku/verifier/GridVerifier.java:25-29 | on a board without repeats among filled cells, placing a number the check accepts keeps it so; placing one it refuses (target not already holding it) would create a repeat |
| SudokuVerifier.BoxStartInGrid | src/main/java/it/unisa/studenti/citro/tiziano/sudoku/verifier/SudokuVerifier.java:85-95 | the box start of a coordinate in 1..9 is at most 2 below it and leaves room for a whole box |
| SudokuVerifier.GetStartingPosition | src/main/java/it/unisa/studenti/citro/tiziano/sudoku/verifier/SudokuVerifier.java:85-95 | for a position p with 1 <= p < 2^31 - 1 the stepping loop returns the start r of p's box, with r <= p < r + 3, and its `int` counters stay below 2^31 so none of them wraps |
| SudokuVerifier.BoxStartIsCalc | src/main/java/it/unisa/studenti/citro/tiziano/sudoku/verifier/SudokuVerifier.java:85-95 | the stepping loop's box start equals the arithmetic box start of calc with block size 3 |
| SudokuVerifier.VerifyRow | src/main/java/it/unisa/studenti/citro/tiziano/sudoku/verifier/SudokuVerifier.java:34-41 | true exactly when no number of the row equals the number; the filled flag is not consulted |
| SudokuVerifier.VerifyColumn | src/main/java/it/unisa/studenti/citro/tiziano/sudoku/verifier/SudokuVerifier.java:50-57 | true exactly when no number of the column equals the number; the filled flag is not consulted |
| SudokuVerifier.VerifyGrid | src/main/java/it/unisa/studenti/citro/tiziano/sudoku/verifier/SudokuVerifier.java:67-78 | true exactly when no number of the 3x3 box holding (row, column) equals the number |
| SudokuVerifier.VerifyPosition | src/main/java/it/unisa/studenti/citro/tiziano/sudoku/verifier/SudokuVerifier.java:21-25 | true exactly when the row, the column and the box all lack the number |
| SudokuVerifier.VerifiersAgree | src/main/java/it/unisa/studenti/citro/tiziano/sudoku/verifier/SudokuVerifier.java:21-25 | for a nonzero number on a grid where every unfilled cell holds 0, the play-time check accepts exactly what the generation-time check accepts |
| Sudokus.Place | src/main/java/it/unisa/studenti/citro/tiziano/sudoku/model/Sudoku.java:54-68 | an attempt scores -1, 0 or 1 and leaves a 9x9 grid |
| Sudokus.PlaceOutcome | src/main/java/it/unisa/studenti/citro/tiziano/sudoku/model/Sudoku.java:54-68 | 0 exactly when the cell is nonzero; on 1 the number is written at (row, column) and nowhere else; otherwise nothing changes; no nonzero cell ever changes; on a grid without repeats a nonzero number scores 1 exactly when writing it keeps the grid without repeats |
| Sudokus.PositionFreeCoversUnit | src/main/java/it/unisa/studenti/citro/tiziano/sudoku/verifier/SudokuVerifier.java:21-25 | when the play-time check passes, no cell sharing a row, column or box with the position holds the number |
| Sudokus.RepeatInUnit | src/main/java/it/unisa/studenti/citro/tiziano/sudoku/verifier/SudokuVerifier.java:21-25 | when the play-time check fails, some cell sharing a row, column or box with the position holds the number |
| Sudokus.PositionFreeIffNoRepeats | src/main/java/it/unisa/studenti/citro/tiziano/sudoku/model/Sudoku.java:61-64 | on a grid without repeats, for an empty target and a nonzero number, the check passes exactly when writing the number keeps the grid without repeats |
| Sudokus.PlaceKeepsNoRepeats | src/main/java/it/unisa/studenti/citro/tiziano/sudoku/model/Sudoku.java:54-68 | a placement never introduces a repeated number in a row, column or box |
| Sudokus.PlaceTwice | src/main/java/it/unisa/studenti/citro/tiziano/sudoku/model/Sudoku.java:54-68 | after a number is accepted at a cell, any later attempt at that cell scores 0 and changes nothing |
| Sudokus.PlaceOnCompleted | src/main/java/it/unisa/studenti/citro/tiziano/sudoku/model/Sudoku.java:54-68 | on a completed grid every attempt scores 0 and changes nothing |
| Sudokus.ZeroingKeepsNoRepeats | src/main/java/it/unisa/studenti/citro/tiziano/sudoku/model/Sudoku.java:129-136 | replacing numbers by 0 keeps a grid without repeats and made of digits |
| Sudokus.MissingDigit | src/main/java/it/unisa/studenti/citro/tiziano/sudoku/model/Sudoku.java:102-106 | while fewer than nine digits are excluded a digit is left to draw, so the redrawing can end |
| Sudokus.EmptyBoardInvariant | src/main/java/it/unisa/studenti/citro/tiziano/sudoku/model/Sudoku.java:88-90 | a new grid satisfies the generation invariant and its last cell is not filled |
| Sudokus.PlaceStep | src/main/java/it/unisa/studenti/citro/tiziano/sudoku/model/Sudoku.java:107-108 | placing a digit that verifyGridNumber accepts keeps the generation invariant: every cell well formed and no repeated number among filled cells |
| Sudokus.ExcludeStep | src/main/java/it/unisa/studenti/citro/tiziano/sudoku/model/Sudoku.java:115-116 | excluding a digit keeps the generation invariant |
| Sudokus.ClearStep | src/main/java/it/unisa/studenti/citro/tiziano/sudoku/model/Sudoku.java:119-121 | clearing a cell keeps the generation invariant |
| Sudokus.GenInvariantNumbers | src/main/java/it/unisa/studenti/citro/tiziano/sudoku/model/Sudoku.java:99-123 | the numbers of a grid under the generation invariant are 0 or digits without repeats, and none is 0 when every cell is filled |
| Sudokus.CleanedStep | src/main/java/it/unisa/studenti/citro/tiziano/sudoku/model/Sudoku.java:132-134 | writing 0 into one more drawn cell, possibly one drawn before, cleans one more draw |
| Sudokus.Drawn | src/main/java/it/unisa/studenti/citro/tiziano/sudoku/model/Sudoku.java:129-136 | the distinct drawn positions are exactly those drawn and are never more than the draws |
| Sudokus.CleanedNumbers | src/main/java/it/unisa/studenti/citro/tiziano/sudoku/model/Sudoku.java:129-136 | cleaning keeps the numbers without repeats and made of digits |
| Sudokus.CleanedCompleted | src/main/java/it/unisa/studenti/citro/tiziano/sudoku/model/Sudoku.java:129-136 | cleaning a completed grid leaves at most as many empty cells as draws |
| Sudokus.CleanedCompletedExact | src/main/java/it/unisa/studenti/citro/tiziano/sudoku/model/Sudoku.java:129-136 | cleaning a completed grid at positions inside the grid empties exactly the distinct drawn positions, so 81 - k cells stay filled for k distinct positions |
| Sudokus.CleanedEmpty | src/main/java/it/unisa/studenti/citro/tiziano/sudoku/model/Sudoku.java:129-136 | cleaning a grid whose cells are all empty leaves every number 0 |
| Sudokus.GeneratedNumbers | src/main/java/it/unisa/studenti/citro/tiziano/sudoku/model/Sudoku.java:88-92 | after generation and cleaning the numbers have no repeats and are digits or 0; if the last cell was filled, at most as many cells as draws are 0, and with draws inside the grid the 0 cells are exactly the distinct drawn positions; otherwise all are 0 |
| Sudokus.GeneratingStart | src/main/java/it/unisa/studenti/citro/tiziano/sudoku/model/Sudoku.java:99-101 | generation at a position starts with the cells before it filled and those after it empty |
| Sudokus.GeneratingPlace | src/main/java/it/unisa/studenti/citro/tiziano/sudoku/model/Sudoku.java:107-114 | after placing an accepted digit, every cell up to the position is filled, and the whole grid is when the position is (9, 9) |
| Sudokus.GeneratingAfterNext | src/main/java/it/unisa/studenti/citro/tiziano/sudoku/model/Sudoku.java:112-114 | the recursive call on the following cells leaves the cells up to the position as they were |
| Sudokus.GeneratingExclude | src/main/java/it/unisa/studenti/citro/tiziano/sudoku/model/Sudoku.java:115-117 | after excluding a refused digit, generation is still in progress at the position |
| Sudokus.GeneratingFinish | src/main/java/it/unisa/studenti/citro/tiziano/sudoku/model/Sudoku.java:119-121 | when the cell runs out of digits: if the last cell is filled every cell is; otherwise clearing the cell leaves every cell from it onwards empty |
| Sudokus.Sudoku.WithCells | src/main/java/it/unisa/studenti/citro/tiziano/sudoku/model/Sudoku.java:40-45 | a game named `name` over a new grid built from `cells`, with no players and no scores |
| Sudokus.Sudoku.constructor | src/main/java/it/unisa/studenti/citro/tiziano/sudoku/model/Sudoku.java:27-32 | a game named `name` whose new grid has no repeated number in a row, column or box and holds only digits or 0; CELL_TO_CLEAN = 6 positions inside the grid are drawn, and if generation filled the grid a cell is 0 exactly when it was drawn, so at most 6 cells are 0 |
| Sudokus.Sudoku.PlaceNumber | src/main/java/it/unisa/studenti/citro/tiziano/sudoku/model/Sudoku.java:54-68 | the score and the new numbers are those `Place` gives on the old numbers; only the target cell may change, and only on score 1 |
| Sudokus.Sudoku.IsCompleted | src/main/java/it/unisa/studenti/citro/tiziano/sudoku/model/Sudoku.java:74-82 | true exactly when no cell holds 0 |
| Sudokus.InitGrid | src/main/java/it/unisa/studenti/citro/tiziano/sudoku/model/Sudoku.java:88-92 | a new grid without repeats, made of digits or 0; cellsToClean positions inside the grid are drawn, and when generation filled the grid the 0 cells are exactly the distinct drawn positions |
| Sudokus.PopulateGrid | src/main/java/it/unisa/studenti/citro/tiziano/sudoku/model/Sudoku.java:99-123 | keeps the cells before the position and the invariant; afterwards either every cell is filled or every cell from the position onwards is empty |
| Sudokus.CleanCells | src/main/java/it/unisa/studenti/citro/tiziano/sudoku/model/Sudoku.java:129-136 | the grid becomes the old grid with 0 written, as a filled cell, at each of cellsToClean drawn positions, all inside the grid; nothing else changes |
| Sudokus.EmptyDrawnCell | src/main/java/it/unisa/studenti/citro/tiziano/sudoku/model/Sudoku.java:132-134 | writes 0 through setCellNumber at one drawn position, extending the cleaned grid by that draw |
| Sudokus.TryCandidate | src/main/java/it/unisa/studenti/citro/tiziano/sudoku/model/Sudoku.java:103-117 | one round of the backtracking loop keeps generation in progress and excludes one more digit at the cell |
| Sudokus.DrawCandidate | src/main/java/it/unisa/studenti/citro/tiziano/sudoku/model/Sudoku.java:104-106 | the redrawn candidate is a digit not yet excluded at the cell |
| Sudokus.PlaceAndContinue | src/main/java/it/unisa/studenti/citro/tiziano/sudoku/model/Sudoku.java:107-114 | places the accepted candidate, fills the following cells, and leaves the candidate excluded at the cell |
| GameUtils.IsNotBlankIffVisible | src/main/java/it/unisa/studenti/citro/tiziano/utils/GameUtils.java:45-47 | `IsNotBlank`, the character scan of isNotBlank over `IsWhitespace` (Java's whitespace test), is true exactly when the string holds a non-whitespace character |
| GameUtils.IsGameValid | src/main/java/it/unisa/studenti/citro/tiziano/utils/GameUtils.java:21-35 | true exactly when row, column and number lie in 1..9 and the game has been joined |
| GameUtils.IsGameValidToJoin | src/main/java/it/unisa/studenti/citro/tiziano/utils/GameUtils.java:44-48 | true exactly when name and nickname each hold a non-whitespace character and the game is not joined yet |
| GameUtils.IsGameNameValid | src/main/java/it/unisa/studenti/citro/tiziano/utils/GameUtils.java:55-57 | true exactly when the name holds a non-whitespace character; the empty name is invalid |
| SudokuUtils.WithPlayers | src/main/java/it/unisa/studenti/citro/tiziano/sudoku/utils/SudokuUtils.java:13-15 | the key is the game name followed by "_players" |
| SudokuUtils.WithNicknames | src/main/java/it/unisa/studenti/citro/tiziano/sudoku/utils/SudokuUtils.java:22-24 | the key is the game name followed by "_nicknames" |
| SudokuUtils.WithScores | src/main/java/it/unisa/studenti/citro/tiziano/sudoku/utils/SudokuUtils.java:31-33 | the key is the game name followed by "_scores" |
| SudokuUtils.ErrorIsNotAScore | src/main/java/it/unisa/studenti/citro/tiziano/sudoku/utils/SudokuUtils.java:58-63 | the starting score is 0 and the error value -2 is none of the scores -1, 0, 1 |
| SudokuUtils.KeysDistinct | src/main/java/it/unisa/studenti/citro/tiziano/sudoku/utils/SudokuUtils.java:13-33 | for one game the grid key and the three derived keys are pairwise distinct |
| SudokuUtils.KeysInjective | src/main/java/it/unisa/studenti/citro/tiziano/sudoku/utils/SudokuUtils.java:13-33 | each key builder gives different keys for different game names |
| SudokuUtils.KeysOfDifferentKinds | src/main/java/it/unisa/studenti/citro/tiziano/sudoku/utils/SudokuUtils.java:36-48 | a players key, a nicknames key and a scores key never coincide, whatever the game names |
| Texts.NatToStringDigits | src/main/java/it/unisa/studenti/citro/tiziano/sudoku/SudokuGameImpl.java:281 | `NatToString`, the decimal text of a natural number, is a non-empty run of digits without a leading zero |
| Texts.IntToStringDecimal | src/main/java/it/unisa/studenti/citro/tiziano/sudoku/SudokuGameImpl.java:281 | `IntToString`, the text of a score, is an optional minus sign then digits, and ends with a digit |
| Texts.NatRoundTrip | src/main/java/it/unisa/studenti/citro/tiziano/sudoku/SudokuGameImpl.java:281 | reading back the text of a natural number gives the number |
| Texts.IntRoundTrip | src/main/java/it/unisa/studenti/citro/tiziano/sudoku/SudokuGameImpl.java:281 | reading back the text of any score gives the score |
| Coordinator.AddInt32 | src/main/java/it/unisa/studenti/citro/tiziano/sudoku/SudokuGameImpl.java:399 | Java `int` addition: the result is always in [-2^31, 2^31) and is the sum when it fits; a positive overflow wraps down by 2^32 and a negative one wraps up by 2^32 |
| Coordinator.IndexOf | src/main/java/it/unisa/studenti/citro/tiziano/sudoku/SudokuGameImpl.java:180 | -1 exactly when the element is absent, otherwise the first index holding it |
| Coordinator.RemoveAt | src/main/java/it/unisa/studenti/citro/tiziano/sudoku/SudokuGameImpl.java:528 | one element shorter: the elements before the index stay, those after it shift down by one |
| Coordinator.RemoveAtMultiset | src/main/java/it/unisa/studenti/citro/tiziano/sudoku/SudokuGameImpl.java:528 | removal at an index takes out exactly one occurrence of the element there |
| Coordinator.GridOf | src/main/java/it/unisa/studenti/citro/tiziano/sudoku/SudokuGameImpl.java:297-306 | a grid is read exactly when a grid is stored under the key |
| Coordinator.PlayersOf | src/main/java/it/unisa/studenti/citro/tiziano/sudoku/SudokuGameImpl.java:256-260 | players are read exactly when a set of players is stored under the key |
| Coordinator.NicknamesOf | src/main/java/it/unisa/studenti/citro/tiziano/sudoku/SudokuGameImpl.java:313-322 | nicknames are read exactly when a nickname list is stored under the key |
| Coordinator.ScoresOf | src/main/java/it/unisa/studenti/citro/tiziano/sudoku/SudokuGameImpl.java:392-398 | scores are read exactly when a score list is stored under the key |
| Coordinator.PutIfAbsent | src/main/java/it/unisa/studenti/citro/tiziano/sudoku/SudokuGameImpl.java:345-353 | the key keeps its value if it has one and gets the initial value otherwise; no other key changes |
| Coordinator.GenerateNewSudoku | src/main/java/it/unisa/studenti/citro/tiziano/sudoku/SudokuGameImpl.java:76-97 | the numbers returned are the generated ones |
| Coordinator.GenerateNewSudokuRejects | src/main/java/it/unisa/studenti/citro/tiziano/sudoku/SudokuGameImpl.java:77-85 | nothing is returned exactly when the name is blank or taken, and then nothing is written |
| Coordinator.GenerateNewSudokuStores | src/main/java/it/unisa/studenti/citro/tiziano/sudoku/SudokuGameImpl.java:86-92 | on success the grid is stored under the name, the players, nicknames and scores are created empty only where absent, and no other key changes |
| Coordinator.AddNickname | src/main/java/it/unisa/studenti/citro/tiziano/sudoku/SudokuGameImpl.java:450-468 | succeeds exactly when the nickname list is stored and lacks the nickname, and then appends it |
| Coordinator.AddSudoku | src/main/java/it/unisa/studenti/citro/tiziano/sudoku/SudokuGameImpl.java:412-422 | succeeds exactly when the grid is stored, and then appends grid, name and nickname to the session |
| Coordinator.AddPlayer | src/main/java/it/unisa/studenti/citro/tiziano/sudoku/SudokuGameImpl.java:429-443 | succeeds exactly when the players are stored, and then adds the peer's address |
| Coordinator.AddScore | src/main/java/it/unisa/studenti/citro/tiziano/sudoku/SudokuGameImpl.java:475-490 | succeeds exactly when the scores are stored, and then appends the starting score 0 |
| Coordinator.Join | src/main/java/it/unisa/studenti/citro/tiziano/sudoku/SudokuGameImpl.java:106-126 | an input that fails the join check gives false and changes nothing; a successful join appends the game's name and the nickname to the local lists; when it succeeds is stated by Coordinator.JoinSucceedsIff |
| Coordinator.JoinRejects | src/main/java/it/unisa/studenti/citro/tiziano/sudoku/SudokuGameImpl.java:107-112 | a join with a blank name or nickname, a game joined already, a missing nickname list or a taken nickname returns false and writes nothing |
| Coordinator.JoinSucceeds | src/main/java/it/unisa/studenti/citro/tiziano/sudoku/SudokuGameImpl.java:111-121 | a successful join appends the nickname and a 0 score, adds the peer to the players, appends the game to the session, and changes nothing else |
| Coordinator.JoinSucceedsIff | src/main/java/it/unisa/studenti/citro/tiziano/sudoku/SudokuGameImpl.java:106-126 | join returns true exactly when the names pass the join check, the shared nicknames are stored without this nickname, and the grid, players and scores are stored |
| Coordinator.GenerateThenJoin | src/test/java/it/unisa/studenti/citro/tiziano/SudokuGameTest.java:37-42 | a game just generated under a fresh name, with no players, nicknames or scores stored before, is joined successfully by any visible nickname of a peer that has not joined it |
| Coordinator.JoinSession | src/main/java/it/unisa/studenti/citro/tiziano/sudoku/SudokuGameImpl.java:114-121 | the session either stays as it was or gains exactly this game; it gains it exactly when the join check passes, the nickname is added and the grid is found, even if adding the player or the score fails afterwards; the three local lists stay of equal length |
| Coordinator.JoinRecordsGameBeforeFailing | src/main/java/it/unisa/studenti/citro/tiziano/sudoku/SudokuGameImpl.java:114-121 | a concrete store with a grid and nicknames but no players entry: the join returns false, yet the game and nickname are already in the session |
| Coordinator.OwnNickname | src/main/java/it/unisa/studenti/citro/tiziano/sudoku/SudokuGameImpl.java:174-175 | the nickname at the game's first index in the local names, the index `indexOf` finds; a local index exists with that name and nickname |
| Coordinator.MoveScore | src/main/java/it/unisa/studenti/citro/tiziano/sudoku/SudokuGameImpl.java:399-400 | only the score at the given index moves, by the delta with `int` wrap-around; no other key changes |
| Coordinator.UpdateScore | src/main/java/it/unisa/studenti/citro/tiziano/sudoku/SudokuGameImpl.java:390-404 | succeeds exactly when the scores are stored and the index is inside them; returns the updated list, which is what is stored |
| Coordinator.ScoreLinesPrefix | src/main/java/it/unisa/studenti/citro/tiziano/sudoku/SudokuGameImpl.java:280-285 | the lines of the first i + 1 players are those of the first i, a newline, then player i's line |
| Coordinator.ScoreLinesEnd | src/main/java/it/unisa/studenti/citro/tiziano/sudoku/SudokuGameImpl.java:280-285 | the score lines end with the last player's score: no newline after the last line |
| Coordinator.ScoreLineRoundTrip | src/main/java/it/unisa/studenti/citro/tiziano/sudoku/SudokuGameImpl.java:281 | a score line starts with "- ", the nickname and ": ", and what follows reads back as the player's score |
| Coordinator.ScoreLines | src/main/java/it/unisa/studenti/citro/tiziano/sudoku/SudokuGameImpl.java:280-285 | the score lines are empty exactly when there are no players |
| Coordinator.BuildNotification | src/main/java/it/unisa/studenti/citro/tiziano/sudoku/SudokuGameImpl.java:276-290 | an incomplete grid gives "<name> - <nick> has scored a point!"; a completed one gives " has completed the sudoku!\nScores:\n" and the score lines, or fails when a listed nickname has no score |
| Coordinator.NotifyPlayers | src/main/java/it/unisa/studenti/citro/tiziano/sudoku/SudokuGameImpl.java:253-266 | a notification goes out exactly when the players are stored and the message can be built, and it goes to every stored player |
| Coordinator.PlaceNumberRejects | src/main/java/it/unisa/studenti/citro/tiziano/sudoku/SudokuGameImpl.java:162-164 | a coordinate or number outside 1..9, or a game not joined, gives -2 and writes nothing |
| Coordinator.PlaceNumberOutcome | src/main/java/it/unisa/studenti/citro/tiziano/sudoku/SudokuGameImpl.java:161-202 | the result is -2 or the score `Place` gives on the stored numbers; the store changes only on 1 or -1, and then only the peer's score at its shared index moves by that score and, on 1, the stored numbers are replaced; a notification is sent exactly on 1, to every stored player of the game, with the message built from the updated scores and the placed numbers |
| Coordinator.PlaceNumber | src/main/java/it/unisa/studenti/citro/tiziano/sudoku/SudokuGameImpl.java:161-202 | the result is -2 or a placement score; invalid input gives -2 with nothing written and nothing sent; a notification is sent exactly when the score is 1; when the placement's score comes back is stated by Coordinator.PlaceNumberScoresIff |
| Coordinator.PlaceNumberScoresIff | src/main/java/it/unisa/studenti/citro/tiziano/sudoku/SudokuGameImpl.java:161-202 | the placement's own score, not -2, comes back exactly when the input is valid and the stored grid covers 9x9; for 1 or -1 the peer's nickname must also be in the shared nicknames with a score at its index; for 1 the players must also be stored and, on a completed grid, every listed nickname must have a score |
| Coordinator.PlaceNumberScoresWhen | src/test/java/it/unisa/studenti/citro/tiziano/SudokuGameTest.java:188-276 | on a joined game whose grid, nicknames (holding the peer's), scores (at least as many) and players are stored, placeNumber returns exactly the 1, -1 or 0 that `Place` gives |
| Coordinator.RecordScore | src/main/java/it/unisa/studenti/citro/tiziano/sudoku/SudokuGameImpl.java:169-197 | the result is -2 or the placement's own score; a notification is sent only when the score is 1, and a returned 1 always comes with one |
| Coordinator.RemovePlayer | src/main/java/it/unisa/studenti/citro/tiziano/sudoku/SudokuGameImpl.java:497-511 | succeeds exactly when the players are stored, and then removes the peer's address |
| Coordinator.RemoveNickname | src/main/java/it/unisa/studenti/citro/tiziano/sudoku/SudokuGameImpl.java:518-534 | removes from the shared nicknames the entry at the nickname's index in the LOCAL list; fails when the shared list is missing or too short |
| Coordinator.RemoveScore | src/main/java/it/unisa/studenti/citro/tiziano/sudoku/SudokuGameImpl.java:541-555 | succeeds exactly when the scores are stored and longer than the index, and then removes that entry |
| Coordinator.ClearSession | src/main/java/it/unisa/studenti/citro/tiziano/sudoku/SudokuGameImpl.java:570-574 | the three local lists lose one entry each and stay of equal length |
| Coordinator.Leave | src/main/java/it/unisa/studenti/citro/tiziano/sudoku/SudokuGameImpl.java:210-231 | whatever the outcome, the three local lists stay of equal length; when it succeeds is stated by Coordinator.LeaveSucceedsIff |
| Coordinator.LeaveRejects | src/main/java/it/unisa/studenti/citro/tiziano/sudoku/SudokuGameImpl.java:211-213 | leaving a game not joined returns false and writes nothing |
| Coordinator.LeaveRemovesOneIndex | src/main/java/it/unisa/studenti/citro/tiziano/sudoku/SudokuGameImpl.java:214-226 | a successful leave removes one and the same index from the shared nicknames, the shared scores and the local lists, and the peer from the players; equal shared lengths stay equal; nothing else changes |
| Coordinator.LeaveSucceedsIff | src/main/java/it/unisa/studenti/citro/tiziano/sudoku/SudokuGameImpl.java:210-231 | leave returns true exactly when the game is joined, its players, nicknames and scores are stored, and both shared lists are longer than the local index of the peer's nickname |
| Coordinator.JoinThenLeave | src/test/java/it/unisa/studenti/citro/tiziano/SudokuGameTest.java:145-156 | a game just joined can be left when the shared nicknames and scores were at least as long as the peer's session before the join, as for a peer that had joined nothing |
| Coordinator.LeaveRemovesAnotherPlayer | src/main/java/it/unisa/studenti/citro/tiziano/sudoku/SudokuGameImpl.java:527-529 | a concrete store where leaving removes another player's nickname and score and keeps the leaver's |
| Coordinator.LeaveCorrected | src/main/java/it/unisa/studenti/citro/tiziano/sudoku/SudokuGameImpl.java:210-231 | the intended leave: whatever the outcome, the local lists stay of equal length |
| Coordinator.LeaveCorrectedRemovesOwnEntry | src/main/java/it/unisa/studenti/citro/tiziano/sudoku/SudokuGameImpl.java:210-231 | with nicknames and joined names free of repeats, the intended leave removes the leaver's own nickname and score, keeps every other nickname, and drops exactly the game left |
| Coordinator.LeaveAll | src/main/java/it/unisa/studenti/citro/tiziano/sudoku/SudokuGameImpl.java:238-244 | leaving every game in turn keeps the local lists of equal length |
| Coordinator.LeaveShrinksSession | src/main/java/it/unisa/studenti/citro/tiziano/sudoku/SudokuGameImpl.java:210-231 | a leave never adds a game to the session, a successful one removes exactly one, and a failed one leaves the session as it was |
| Coordinator.LeaveAllShrinksSession | src/main/java/it/unisa/studenti/citro/tiziano/sudoku/SudokuGameImpl.java:238-244 | after leaving the network the session holds only games joined before |
| Coordinator.LeaveAllLeavesEvery | src/main/java/it/unisa/studenti/citro/tiziano/sudoku/SudokuGameImpl.java:233-244 | leaving the network removes at most one game per name; the session loses exactly as many games as there are names precisely when every leave in turn succeeds |
| Coordinator.LeaveNetworkEmptiesSession | src/main/java/it/unisa/studenti/citro/tiziano/sudoku/SudokuGameImpl.java:233-244 | when every leave succeeds, leaving all joined games empties the session, as the method's documentation promises |
| SudokuGame.Store.Get | src/main/java/it/unisa/studenti/citro/tiziano/sudoku/SudokuGameImpl.java:298-302 | a read finds the value exactly when one is stored under the key |
| SudokuGame.Store.Put | src/main/java/it/unisa/studenti/citro/tiziano/sudoku/SudokuGameImpl.java:334 | a write binds the key and keeps every other key |
| SudokuGame.Store.constructor | src/main/java/it/unisa/studenti/citro/tiziano/sudoku/SudokuGameImpl.java:55-56 | the distributed store a peer starts with holds no key |
| SudokuGame.AppendScores | src/main/java/it/unisa/studenti/citro/tiziano/sudoku/SudokuGameImpl.java:280-285 | the loop builds exactly the score lines, or fails when a nickname has no score |
| SudokuGame.Peer.constructor | src/main/java/it/unisa/studenti/citro/tiziano/sudoku/SudokuGameImpl.java:560-564 | a new peer has joined nothing and has no game |
| SudokuGame.Peer.RetrieveSudoku | src/main/java/it/unisa/studenti/citro/tiziano/sudoku/SudokuGameImpl.java:297-306 | the grid stored under the name, or nothing |
| SudokuGame.Peer.RetrieveNicknames | src/main/java/it/unisa/studenti/citro/tiziano/sudoku/SudokuGameImpl.java:313-322 | the nicknames stored for the game, or nothing |
| SudokuGame.Peer.PutSudoku | src/main/java/it/unisa/studenti/citro/tiziano/sudoku/SudokuGameImpl.java:330-339 | the grid is stored under the name; no other key changes |
| SudokuGame.Peer.PutPlayers | src/main/java/it/unisa/studenti/citro/tiziano/sudoku/SudokuGameImpl.java:345-353 | the players are created empty only if absent |
| SudokuGame.Peer.PutNicknames | src/main/java/it/unisa/studenti/citro/tiziano/sudoku/SudokuGameImpl.java:359-367 | the nicknames are created empty only if absent |
| SudokuGame.Peer.PutScores | src/main/java/it/unisa/studenti/citro/tiziano/sudoku/SudokuGameImpl.java:373-381 | the scores are created empty only if absent |
| SudokuGame.Peer.GenerateNewSudoku | src/main/java/it/unisa/studenti/citro/tiziano/sudoku/SudokuGameImpl.java:76-97 | a blank name changes nothing; otherwise a new game without repeats becomes the peer's game and the store follows Coordinator.GenerateNewSudoku |
| SudokuGame.Peer.StoreNewSudoku | src/main/java/it/unisa/studenti/citro/tiziano/sudoku/SudokuGameImpl.java:82-92 | the result and the store are those of Coordinator.GenerateNewSudoku |
| SudokuGame.Peer.GetSudoku | src/main/java/it/unisa/studenti/citro/tiziano/sudoku/SudokuGameImpl.java:143-150 | the grid stored under the name, or nothing |
| SudokuGame.Peer.Joined | src/main/java/it/unisa/studenti/citro/tiziano/sudoku/SudokuGameImpl.java:133-135 | the names of the joined games, in joining order |
| SudokuGame.Peer.AddNickname | src/main/java/it/unisa/studenti/citro/tiziano/sudoku/SudokuGameImpl.java:450-468 | result and store follow Coordinator.AddNickname; on failure the store is unchanged |
| SudokuGame.Peer.AddSudoku | src/main/java/it/unisa/studenti/citro/tiziano/sudoku/SudokuGameImpl.java:412-422 | the local lists follow Coordinator.AddSudoku |
| SudokuGame.Peer.AddPlayer | src/main/java/it/unisa/studenti/citro/tiziano/sudoku/SudokuGameImpl.java:429-443 | result and store follow Coordinator.AddPlayer |
| SudokuGame.Peer.AddScore | src/main/java/it/unisa/studenti/citro/tiziano/sudoku/SudokuGameImpl.java:475-490 | result and store follow Coordinator.AddScore |
| SudokuGame.Peer.Join | src/main/java/it/unisa/studenti/citro/tiziano/sudoku/SudokuGameImpl.java:106-126 | result, store and local lists are those of Coordinator.Join; the lists stay of equal length |
| SudokuGame.Peer.UpdateScore | src/main/java/it/unisa/studenti/citro/tiziano/sudoku/SudokuGameImpl.java:390-404 | result and store follow Coordinator.UpdateScore |
| SudokuGame.Peer.BuildNotification | src/main/java/it/unisa/studenti/citro/tiziano/sudoku/SudokuGameImpl.java:276-290 | the message is Coordinator.BuildNotification for the peer's game's completion |
| SudokuGame.Peer.NotifyPlayers | src/main/java/it/unisa/studenti/citro/tiziano/sudoku/SudokuGameImpl.java:253-266 | the notification of Coordinator.NotifyPlayers, if any, is appended to what was sent |
| SudokuGame.Peer.PlaceNumber | src/main/java/it/unisa/studenti/citro/tiziano/sudoku/SudokuGameImpl.java:161-202 | score, store and notification sent are those of Coordinator.PlaceNumber; the local lists do not change; when the input is valid and a grid is stored, a new game over the stored numbers with the placement applied becomes the peer's game, and otherwise the peer's game is kept |
| SudokuGame.Peer.PlaceInGame | src/main/java/it/unisa/studenti/citro/tiziano/sudoku/SudokuGameImpl.java:166-168 | a new game over the stored numbers becomes the peer's game, and the score and its numbers are those of `Place` |
| SudokuGame.Peer.RecordScore | src/main/java/it/unisa/studenti/citro/tiziano/sudoku/SudokuGameImpl.java:169-197 | result, store and notification follow Coordinator.RecordScore; the peer's game is kept |
| SudokuGame.Peer.RemovePlayer | src/main/java/it/unisa/studenti/citro/tiziano/sudoku/SudokuGameImpl.java:497-511 | result and store follow Coordinator.RemovePlayer |
| SudokuGame.Peer.RemoveNickname | src/main/java/it/unisa/studenti/citro/tiziano/sudoku/SudokuGameImpl.java:518-534 | the removed local index, or -1, and the store follow Coordinator.RemoveNickname |
| SudokuGame.Peer.RemoveScore | src/main/java/it/unisa/studenti/citro/tiziano/sudoku/SudokuGameImpl.java:541-555 | result and store follow Coordinator.RemoveScore |
| SudokuGame.Peer.Clear | src/main/java/it/unisa/studenti/citro/tiziano/sudoku/SudokuGameImpl.java:570-574 | the local lists become Coordinator.ClearSession of the old ones |
| SudokuGame.Peer.Leave | src/main/java/it/unisa/studenti/citro/tiziano/sudoku/SudokuGameImpl.java:210-231 | result, store and local lists are those of Coordinator.Leave |
| SudokuGame.Peer.LeaveNetwork | src/main/java/it/unisa/studenti/citro/tiziano/sudoku/SudokuGameImpl.java:238-244 | returns true; store and local lists are those of leaving every game joined at the start, in order |

## Left out

- The TomP2P network layer is not modelled: bootstrap, peer discovery, ports, futures, `announceShutdown`. The store is one shared map.
- Failed DHT operations (a future that is not successful) are not modelled. Every get and put succeeds, and a get of an absent key yields no value.
- Concurrency is not modelled. Each peer operation runs atomically against the store.
- Direct messages (`sendDirect`) are recorded in the peer's `sent` list. They are not delivered, and `MessageListenerImpl` is not part of this model.
- A value of the wrong type under a key (a failed cast in Java) makes a read of that key fail, like Java's exception handler returning null or false. The key still counts as taken: `generateNewSudoku` refuses a name bound to any value, and the create-if-absent writes keep any bound value. Exceptions inside an operation are folded into that step's failure result.
- `GridUtils.GetRandomCellNumber`, `Sudokus.DrawCandidate`, `Sudokus.CleanCells`: `Math.random()` is a draw parameter or a nondeterministic choice. The redraw loop is a single choice of a digit not yet excluded.
- `Sudokus.Sudoku.constructor`: it is not proved that generation always completes the grid. The contract covers both outcomes, a completed grid or an all-empty one.
- Only block size 3 (a 9x9 grid) is modelled for grids, as the game only builds grids of that size.
- The `players` and `scores` fields of `Sudoku` exist in the source but nothing writes them. They stay empty in the model.
- The console front end (`Game.java`), `SudokuPrettyPrinter`, the options and choices enums, and the tests are not part of this model.
- `GameUtils.IsNotBlankIffVisible`: Java `null` strings are not modelled.
- The cached grids in the local session are not refreshed after a placement: `placeNumber` (src/main/java/it/unisa/studenti/citro/tiziano/sudoku/SudokuGameImpl.java:161-202) never updates the local `games` list, and placement always reads the grid from the store.
- `Number160.createHash` is taken as injective: the store is keyed directly by the key strings.
- `SudokuVerifier.GetStartingPosition` requires 1 <= position < 2^31 - 1, where Java's `int` counters never wrap; every caller passes a coordinate in 1..9. For a position below 1 or equal to `Integer.MAX_VALUE` the Java loop still ends, but only after `bottom` and `top` wrap around. The results then follow the wrapped arithmetic, not the box arithmetic: -3 for -1, and 2147483645 for 2147483647, whose box would start at 2147483647. That wrapping loop is not modelled.
- `Coordinator.LeaveAll` and `SudokuGame.Peer.LeaveNetwork` use `Leave` as written, not the corrected one from Findings.
- `Coordinator.LeaveAllLeavesEvery`: leaving every joined game is proved only under the condition that each leave succeeds. A leave fails when the game's players, nicknames or scores entry is missing or too short, and `leaveNetwork` ignores such failures, so the session can keep games after it returns.

## Findings

| source | as written | input that shows it | evidently intended | confidence | as-written member | corrected member |
|---|---|---|---|---|---|---|
| src/main/java/it/unisa/studenti/citro/tiziano/sudoku/SudokuGameImpl.java:527-529 | on leave, the shared nickname and score are removed at the index of the peer's nickname in its LOCAL list of joined games. That index is also the one passed to `clear` | peer 2 joined only game "g" as "bob"; shared nicknames ["carl", "bob"], scores [5, 0]: leaving removes "carl" and 5, and keeps "bob" | remove the entry at the index of one's own nickname in the SHARED list, and clear the game's own local index | medium, not executed | Coordinator.LeaveRemovesAnotherPlayer | Coordinator.LeaveCorrectedRemovesOwnEntry |
