/** The constants of the game the page plays: combinations of six numbers
    drawn from 1..45 (app.py:56, 59, 63 and 132). */
module Lotto {

  /** How many numbers a combination holds. */
  const CombinationSize: nat := 6
  const LowestNumber: int := 1
  const HighestNumber: int := 45

  /** `n` is a number of the game: `1 <= n <= 45`. */
  predicate InRange(n: int) {
    LowestNumber <= n <= HighestNumber
  }
}
