/** The score a player earns for one placement attempt. */
module Scores {
  /** The number breaks the row, column or box rule. */
  const INCORRECT_NUMBER: int := -1
  /** The number was placed. */
  const CORRECT_NUMBER: int := 1
  /** The cell already held a number. */
  const NUMBER_ALREADY_PLACED: int := 0

  /** The scores a placement can earn. */
  predicate IsScore(s: int) {
    s == INCORRECT_NUMBER || s == CORRECT_NUMBER || s == NUMBER_ALREADY_PLACED
  }
}
