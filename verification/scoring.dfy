/** The time-decaying score of a correct guess (utils/game.js). Elapsed
    time is the integer number of milliseconds between the round's start
    and the guess; the division by 1000 and by the round length is exact
    real division here. */
module Scoring {

  const MaxScore: int := 100
  const MinScore: int := 10
  /** Round length in seconds. */
  const RoundTime: int := 30

  function MinReal(a: real, b: real): real {
    if a <= b then a else b
  }

  function MaxInt(a: int, b: int): int {
    if a >= b then a else b
  }

  /** `timeTaken / ROUND_TIME` capped at 1. */
  function TimeRatio(elapsedMs: int): (ratio: real)
    ensures ratio <= 1.0
    ensures elapsedMs >= 0 ==> 0.0 <= ratio
    ensures elapsedMs >= RoundTime * 1000 ==> ratio == 1.0
  {
    var timeTaken := elapsedMs as real / 1000.0;
    MinReal(1.0, timeTaken / RoundTime as real)
  }

  /** `max(MIN_SCORE, floor(MAX_SCORE - (MAX_SCORE - MIN_SCORE) * ratio))`:
      never below the minimum, never above the maximum for a guess made
      after the round began, the maximum for an instant guess and the
      minimum once the round time has run out. */
  function Score(elapsedMs: int): (score: int)
    ensures MinScore <= score
    ensures elapsedMs >= 0 ==> score <= MaxScore
    ensures elapsedMs <= 0 ==> score >= MaxScore
    ensures elapsedMs == 0 ==> score == MaxScore
    ensures elapsedMs >= RoundTime * 1000 ==> score == MinScore
  {
    var ratio := TimeRatio(elapsedMs);
    var raw := (MaxScore as real - (MaxScore - MinScore) as real * ratio).Floor;
    MaxInt(MinScore, raw)
  }

  lemma FloorMonotone(x: real, y: real)
    requires x <= y
    ensures x.Floor <= y.Floor
  {
  }

  /** A later guess never scores more than an earlier one. */
  lemma ScoreNonIncreasing(e1: int, e2: int)
    requires e1 <= e2
    ensures Score(e2) <= Score(e1)
  {
    var r1, r2 := TimeRatio(e1), TimeRatio(e2);
    assert e1 as real / 1000.0 / 30.0 <= e2 as real / 1000.0 / 30.0;
    FloorMonotone(100.0 - 90.0 * r2, 100.0 - 90.0 * r1);
  }

  /** Integer reference formula: inside the round a guess loses one point
      for every started third of a second, that is the score is
      `100 - ceil(3 * elapsedMs / 1000)`. */
  lemma ScoreIntegerFormula(elapsedMs: int)
    requires 0 <= elapsedMs < RoundTime * 1000
    ensures Score(elapsedMs) == 100 - (3 * elapsedMs + 999) / 1000
  {
    var ratio := TimeRatio(elapsedMs);
    assert ratio == elapsedMs as real / 30000.0;
    var x := 100.0 - 90.0 * ratio;
    assert x == 100.0 - (3 * elapsedMs) as real / 1000.0;
    var c := 100 - (3 * elapsedMs + 999) / 1000;
    var q := (3 * elapsedMs + 999) / 1000;
    assert 1000 * q <= 3 * elapsedMs + 999 < 1000 * q + 1000;
    assert c as real <= x < c as real + 1.0;
  }
}
