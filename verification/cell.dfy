/** A single cell of the grid: its number, whether it is filled, and the numbers excluded for it. */
module Cells {

  /** Value of an empty cell. */
  const EMPTY_CELL: int := 0

  /** The observable state of a cell, used to state what the grid holds. */
  datatype CellState = CellState(number: int, filled: bool, excluded: set<int>)

  /** The cell state every fresh cell and every cleared cell has. */
  const EmptyState: CellState := CellState(EMPTY_CELL, false, {})

  /** The state after placing `n`: the cell holds `n`, is filled, and `n` is excluded. */
  function Placed(s: CellState, n: int): (t: CellState)
    ensures t.number == n && t.filled && n in t.excluded
    ensures t.excluded - {n} == s.excluded - {n}
  {
    CellState(n, true, s.excluded + {n})
  }

  /** The state after excluding `n`: only the excluded numbers grow, by `n`. */
  function Excluding(s: CellState, n: int): (t: CellState)
    ensures t.number == s.number && t.filled == s.filled
    ensures t.excluded == s.excluded + {n}
  {
    s.(excluded := s.excluded + {n})
  }

  /** A cell that is not filled holds the empty value. */
  predicate UnfilledIsEmpty(s: CellState) {
    !s.filled ==> s.number == EMPTY_CELL
  }

  class Cell {
    var number: int
    var isFilled: bool
    var excluded: set<int>

    /** The cell's current state as a value. */
    function State(): CellState
      reads this
    {
      CellState(number, isFilled, excluded)
    }

    /** `Cell()`: the empty cell, not filled, nothing excluded. */
    constructor ()
      ensures State() == EmptyState
      ensures UnfilledIsEmpty(State())
    {
      number := EMPTY_CELL;
      isFilled := false;
      excluded := {};
    }

    /** `Cell(int)`: a cell holding `n` and marked filled, even when `n` is 0; nothing is excluded. */
    constructor WithNumber(n: int)
      ensures State() == CellState(n, true, {})
      ensures UnfilledIsEmpty(State())
    {
      number := n;
      isFilled := true;
      excluded := {};
    }

    /** Places `n`: the cell holds it, is filled, and `n` joins the excluded numbers. */
    method SetNumber(n: int)
      modifies this
      ensures State() == Placed(old(State()), n)
      ensures IsExcluded(n) && UnfilledIsEmpty(State())
    {
      number := n;
      isFilled := true;
      excluded := excluded + {n};
    }

    /** Empties the cell: value 0, not filled, no exclusions. */
    method Clear()
      modifies this
      ensures State() == EmptyState
      ensures UnfilledIsEmpty(State()) && GetExcludedSize() == 0
    {
      number := EMPTY_CELL;
      isFilled := false;
      excluded := {};
    }

    /** Whether `n` has been excluded for this cell. */
    function IsExcluded(n: int): (r: bool)
      reads this
      ensures r <==> n in State().excluded
    {
      n in excluded
    }

    /**
     * Excludes `n` for this cell. The number and the filled flag do not change,
     * and excluding a number twice leaves the count as it was.
     */
    method AddNumberAsExcluded(n: int)
      modifies this
      ensures State() == Excluding(old(State()), n)
      ensures IsExcluded(n)
      ensures old(IsExcluded(n)) ==> GetExcludedSize() == old(GetExcludedSize())
      ensures !old(IsExcluded(n)) ==> GetExcludedSize() == old(GetExcludedSize()) + 1
    {
      if n in excluded {
        assert excluded + {n} == excluded;
      }
      excluded := excluded + {n};
    }

    /** The number of distinct excluded numbers. */
    function GetExcludedSize(): (r: nat)
      reads this
      ensures r == |State().excluded|
    {
      |excluded|
    }
  }
}
