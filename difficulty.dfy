/** Difficulty as a function of the session score (game.cpp getDifficultyLevel and
    calculateSpeed), with the movement interval in whole milliseconds. */
module Difficulty {

  import opened Types

  const BaseIntervalMs: int := 150
  const IntervalStepMs: int := 20
  const SpeedScoreStep: nat := 30
  const MinIntervalMs: int := 50
  const LevelScoreStep: nat := 50

  /** The displayed difficulty level: one more than the number of whole 50-point steps. */
  function Level(score: nat): (level: nat)
    ensures level >= 1
    ensures (level - 1) * LevelScoreStep <= score < level * LevelScoreStep
  {
    score / LevelScoreStep + 1
  }

  /** Time between two ticks: 20 ms faster for every whole 30 points, never below 50 ms. */
  function IntervalMs(score: nat): (ms: int)
    ensures MinIntervalMs <= ms <= BaseIntervalMs
    ensures ms == MinIntervalMs <==> score >= 5 * SpeedScoreStep
    ensures score < SpeedScoreStep ==> ms == BaseIntervalMs
  {
    Max(MinIntervalMs, BaseIntervalMs - (score / SpeedScoreStep) * IntervalStepMs)
  }

  /** A higher score never slows the snake down. */
  lemma IntervalNonIncreasing(a: nat, b: nat)
    requires a <= b
    ensures IntervalMs(b) <= IntervalMs(a)
  {
  }

  lemma IntervalSamples()
    ensures IntervalMs(0) == 150
    ensures IntervalMs(30) == 130
    ensures IntervalMs(59) == 130
    ensures IntervalMs(120) == 70
    ensures IntervalMs(300) == 50
    ensures Level(0) == 1 && Level(49) == 1 && Level(50) == 2
  {
  }
}
