/**
 * The level engine: `calculateLevel` scans the threshold table and keeps the level
 * of the last entry the chore count reaches; `choresToNextLevel` says how many
 * more chores the next level needs.
 */
module Level {
  import opened Types
  import opened Levels

  /** The chores level `level` needs, read from the table. */
  function MinChoresFor(level: int): int
    requires 1 <= level <= MAX_LEVEL
  {
    LEVEL_THRESHOLDS[level - 1].minChores
  }

  /**
   * The highest of the levels 1 to `top` whose threshold `n` reaches, and 1
   * when none above 1 is reached.
   */
  function HighestLevelReached(n: int, top: int): (level: int)
    requires 1 <= top <= MAX_LEVEL
    ensures 1 <= level <= top
    ensures level == 1 || MinChoresFor(level) <= n
    ensures forall l :: level < l <= top ==> n < MinChoresFor(l)
  {
    if top == 1 then 1
    else if MinChoresFor(top) <= n then top
    else HighestLevelReached(n, top - 1)
  }

  /** The level `n` chores give. */
  function LevelOf(n: int): (level: int)
    ensures 1 <= level <= MAX_LEVEL
  {
    HighestLevelReached(n, MAX_LEVEL)
  }

  /**
   * `calculateLevel`: starting from level 1, every table entry whose threshold
   * `choreCount` reaches overwrites the level with its own.
   */
  method CalculateLevel(choreCount: int) returns (level: int)
    ensures 1 <= level <= MAX_LEVEL
    ensures level == LevelOf(choreCount)
    ensures level == 1 || LEVEL_THRESHOLDS[level - 1].minChores <= choreCount
    ensures forall i :: level <= i < |LEVEL_THRESHOLDS| ==> choreCount < LEVEL_THRESHOLDS[i].minChores
  {
    level := 1;
    for i := 0 to |LEVEL_THRESHOLDS|
      invariant level == if i == 0 then 1 else HighestLevelReached(choreCount, i)
    {
      if choreCount >= LEVEL_THRESHOLDS[i].minChores {
        level := LEVEL_THRESHOLDS[i].level;
      }
    }
    assert forall i :: 0 <= i < |LEVEL_THRESHOLDS| ==> LEVEL_THRESHOLDS[i].minChores == MinChoresFor(i + 1);
  }

  /** A level is the band between its own threshold and the next one. */
  lemma LevelBand(n: int, level: int)
    requires 1 <= level <= MAX_LEVEL
    ensures LevelOf(n) == level <==>
      (level == 1 || MinChoresFor(level) <= n) && (level == MAX_LEVEL || n < MinChoresFor(level + 1))
  {
    LevelTableShape();
  }

  /** More chores never lower the level. */
  lemma LevelMonotone(n: int, m: int)
    requires n <= m
    ensures LevelOf(n) <= LevelOf(m)
  {}

  /** `LEVEL_THRESHOLDS.find(t => t.level === level)`: the first entry with that level. */
  function FindLevel(table: seq<LevelThreshold>, level: int): (r: Option<LevelThreshold>)
    ensures r.None? <==> forall i :: 0 <= i < |table| ==> table[i].level != level
    ensures r.Some? ==> r.value.level == level && r.value in table
    ensures forall i :: 0 <= i < |table| && table[i].level == level ==>
      (forall j :: 0 <= j < i ==> table[j].level != level) ==> r == Some(table[i])
  {
    if table == [] then None
    else if table[0].level == level then Some(table[0])
    else
      assert forall i :: 1 <= i < |table| ==> table[i] == table[1..][i - 1];
      FindLevel(table[1..], level)
  }

  /** Each level of the table is found, and what is found is that level's own entry. */
  lemma FindLevelSucceeds(level: int)
    requires 1 <= level <= MAX_LEVEL
    ensures FindLevel(LEVEL_THRESHOLDS, level) == Some(LEVEL_THRESHOLDS[level - 1])
  {
    LevelTableShape();
    var r := FindLevel(LEVEL_THRESHOLDS, level);
    assert LEVEL_THRESHOLDS[level - 1].level == level;
    var k :| 0 <= k < |LEVEL_THRESHOLDS| && LEVEL_THRESHOLDS[k] == r.value;
  }

  /**
   * `choresToNextLevel`: `None` at the top level, otherwise the next level's
   * threshold minus the chores done.
   */
  function ChoresToNextLevel(n: int): (r: Option<int>)
    ensures r.None? <==> LevelOf(n) == MAX_LEVEL
    ensures r.Some? ==> r.value == MinChoresFor(LevelOf(n) + 1) - n && r.value > 0
  {
    var current := LevelOf(n);
    if current >= MAX_LEVEL then None
    else
      FindLevelSucceeds(current + 1);
      match FindLevel(LEVEL_THRESHOLDS, current + 1)
      case None => None
      case Some(next) => Some(next.minChores - n)
  }

  /**
   * The count `choresToNextLevel` reports is exactly what the next level needs:
   * that many more chores raise the level by one, and any fewer leave it unchanged.
   */
  lemma ChoresToNextLevelIsExact(n: int, k: int)
    requires ChoresToNextLevel(n).Some?
    ensures LevelOf(n + ChoresToNextLevel(n).value) == LevelOf(n) + 1
    ensures 0 <= k < ChoresToNextLevel(n).value ==> LevelOf(n + k) == LevelOf(n)
  {
    NextLevelStep(n, LevelOf(n), ChoresToNextLevel(n).value, k);
  }

  /** Reaching the next level's threshold from level `level` raises the level by one. */
  lemma NextLevelStep(n: int, level: int, next: int, k: int)
    requires 1 <= level < MAX_LEVEL && LevelOf(n) == level
    requires next == MinChoresFor(level + 1) - n
    ensures LevelOf(n + next) == level + 1
    ensures 0 <= k < next ==> LevelOf(n + k) == level
  {
    LevelBand(n, level);
    LevelBand(n + next, level + 1);
    if 0 <= k < next {
      LevelBand(n + k, level);
    }
  }

  /** The thresholds of the table, as worked examples. */
  lemma LevelExamples()
    ensures LevelOf(0) == 1 && LevelOf(9) == 1 && LevelOf(10) == 2
    ensures LevelOf(29) == 2 && LevelOf(30) == 3 && LevelOf(60) == 4
    ensures LevelOf(99) == 4 && LevelOf(100) == 5 && LevelOf(1000) == 5
    ensures ChoresToNextLevel(0) == Some(10) && ChoresToNextLevel(10) == Some(20)
    ensures ChoresToNextLevel(95) == Some(5) && ChoresToNextLevel(100) == None
  {
    FindLevelSucceeds(2);
    FindLevelSucceeds(3);
    FindLevelSucceeds(5);
  }
}
