/** Scoring, level and drop speed rules. */
module Scoring {

  /** Base points for clearing 0, 1, 2, 3 or 4 rows at once. */
  const LINE_SCORES: seq<int> := [0, 100, 300, 500, 800]

  /** Points for clearing `lines` rows at once at `level`: the table entry
      times the level; a count outside the table pays nothing. */
  function CalculateScore(lines: nat, level: int): (points: int)
    ensures level >= 0 ==> points >= 0
    ensures lines >= |LINE_SCORES| ==> points == 0
    ensures 1 <= lines < |LINE_SCORES| && level >= 1 ==> points >= 100 * level
  {
    (if lines < |LINE_SCORES| then LINE_SCORES[lines] else 0) * level
  }

  /** The level after `total` cleared lines: one more than the number of
      completed tens. */
  function LevelFor(total: int): (level: int)
    ensures 10 * (level - 1) <= total < 10 * level
  {
    total / 10 + 1
  }

  function Max(a: int, b: int): (m: int)
    ensures m >= a && m >= b && (m == a || m == b)
  {
    if a >= b then a else b
  }

  /** Milliseconds per automatic downward step: 1000 at level 1, 100 less per
      level, never below 50. */
  function DropSpeedFor(level: int): (ms: int)
    ensures ms >= 50
    ensures level >= 1 ==> ms <= 1000
  {
    Max(50, 1000 - (level - 1) * 100)
  }

  /** Ten more cleared lines raise the level by one and shorten the drop
      interval by 100 ms, down to the 50 ms floor. */
  lemma TenMoreLines(total: int)
    ensures LevelFor(total + 10) == LevelFor(total) + 1
    ensures DropSpeedFor(LevelFor(total + 10)) == Max(50, DropSpeedFor(LevelFor(total)) - 100)
  {
  }

  /** A higher level never drops more slowly. */
  lemma DropSpeedNonIncreasing(low: int, high: int)
    requires low <= high
    ensures DropSpeedFor(high) <= DropSpeedFor(low)
  {
  }
}
