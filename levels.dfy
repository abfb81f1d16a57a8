/** `LEVEL_THRESHOLDS` and `MAX_LEVEL`: the chore counts at which each level starts. */
module Levels {
  import opened Types

  const LEVEL_THRESHOLDS: seq<LevelThreshold> := [
    LevelThreshold(1, 0),
    LevelThreshold(2, 10),
    LevelThreshold(3, 30),
    LevelThreshold(4, 60),
    LevelThreshold(5, 100)
  ]

  const MAX_LEVEL: int := 5

  /**
   * The table lists the levels 1 to `MAX_LEVEL` once each and in order, the
   * thresholds strictly increase, and level 1 needs no chores.
   */
  lemma LevelTableShape()
    ensures |LEVEL_THRESHOLDS| == MAX_LEVEL
    ensures forall i :: 0 <= i < |LEVEL_THRESHOLDS| ==> LEVEL_THRESHOLDS[i].level == i + 1
    ensures LEVEL_THRESHOLDS[|LEVEL_THRESHOLDS| - 1].level == MAX_LEVEL
    ensures LEVEL_THRESHOLDS[0].minChores == 0
    ensures forall i, j :: 0 <= i < j < |LEVEL_THRESHOLDS| ==>
      LEVEL_THRESHOLDS[i].minChores < LEVEL_THRESHOLDS[j].minChores
  {}
}
