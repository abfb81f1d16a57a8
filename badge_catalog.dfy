/** `BADGE_DEFINITIONS`: the seven badges, in the order the Badges page lists them. */
module BadgeCatalog {
  import opened Seqs
  import opened Types

  const FIRST_CHORE: string := "first_chore"
  const CHORE_10: string := "chore_10"
  const CHORE_STREAK_7: string := "chore_streak_7"
  const FIRST_GOAL: string := "first_goal"
  const GOAL_ACHIEVED: string := "goal_achieved"
  const FIRST_EXPENSE: string := "first_expense"
  const SAVER_MONTH: string := "saver_month"

  const BADGE_DEFINITIONS: seq<BadgeDefinition> := [
    BadgeDefinition(FIRST_CHORE, "\U{2B50}", "badge.first_chore.name", "badge.first_chore.description"),
    BadgeDefinition(CHORE_10, "\U{1F3C6}", "badge.chore_10.name", "badge.chore_10.description"),
    BadgeDefinition(CHORE_STREAK_7, "\U{1F525}", "badge.chore_streak_7.name", "badge.chore_streak_7.description"),
    BadgeDefinition(FIRST_GOAL, "\U{1F3AF}", "badge.first_goal.name", "badge.first_goal.description"),
    BadgeDefinition(GOAL_ACHIEVED, "\U{1F389}", "badge.goal_achieved.name", "badge.goal_achieved.description"),
    BadgeDefinition(FIRST_EXPENSE, "\U{1F4B8}", "badge.first_expense.name", "badge.first_expense.description"),
    BadgeDefinition(SAVER_MONTH, "\U{1F437}", "badge.saver_month.name", "badge.saver_month.description")
  ]

  /** The ids of a list of definitions, in order. */
  function Ids(defs: seq<BadgeDefinition>): (ids: seq<string>)
    ensures |ids| == |defs|
    ensures forall i :: 0 <= i < |defs| ==> ids[i] == defs[i].id
  {
    if defs == [] then [] else [defs[0].id] + Ids(defs[1..])
  }

  function CatalogIds(): seq<string> {
    Ids(BADGE_DEFINITIONS)
  }

  /** The catalog holds seven badges, in this order. */
  lemma CatalogOrder()
    ensures |BADGE_DEFINITIONS| == 7
    ensures CatalogIds() ==
      [FIRST_CHORE, CHORE_10, CHORE_STREAK_7, FIRST_GOAL, GOAL_ACHIEVED, FIRST_EXPENSE, SAVER_MONTH]
  {
    var ids := CatalogIds();
    assert ids[0] == FIRST_CHORE && ids[1] == CHORE_10 && ids[2] == CHORE_STREAK_7;
    assert ids[3] == FIRST_GOAL && ids[4] == GOAL_ACHIEVED && ids[5] == FIRST_EXPENSE;
    assert ids[6] == SAVER_MONTH;
  }

  /** No two badges share an id. */
  lemma CatalogIdsDistinct()
    ensures NoDup(CatalogIds())
  {
    CatalogOrder();
    IdsPairwiseDistinct();
    NoDupSeven(FIRST_CHORE, CHORE_10, CHORE_STREAK_7, FIRST_GOAL, GOAL_ACHIEVED, FIRST_EXPENSE, SAVER_MONTH);
  }

  /** The seven ids differ pairwise, by length or else by first letter. */
  lemma IdsPairwiseDistinct()
    ensures FIRST_CHORE != CHORE_10 && FIRST_CHORE != CHORE_STREAK_7 && FIRST_CHORE != FIRST_GOAL
    ensures FIRST_CHORE != GOAL_ACHIEVED && FIRST_CHORE != FIRST_EXPENSE && FIRST_CHORE != SAVER_MONTH
    ensures CHORE_10 != CHORE_STREAK_7 && CHORE_10 != FIRST_GOAL && CHORE_10 != GOAL_ACHIEVED
    ensures CHORE_10 != FIRST_EXPENSE && CHORE_10 != SAVER_MONTH
    ensures CHORE_STREAK_7 != FIRST_GOAL && CHORE_STREAK_7 != GOAL_ACHIEVED
    ensures CHORE_STREAK_7 != FIRST_EXPENSE && CHORE_STREAK_7 != SAVER_MONTH
    ensures FIRST_GOAL != GOAL_ACHIEVED && FIRST_GOAL != FIRST_EXPENSE && FIRST_GOAL != SAVER_MONTH
    ensures GOAL_ACHIEVED != FIRST_EXPENSE && GOAL_ACHIEVED != SAVER_MONTH
    ensures FIRST_EXPENSE != SAVER_MONTH
  {
    assert |FIRST_CHORE| == 11 && |CHORE_10| == 8 && |CHORE_STREAK_7| == 14 && |FIRST_GOAL| == 10;
    assert |GOAL_ACHIEVED| == 13 && |FIRST_EXPENSE| == 13 && |SAVER_MONTH| == 11;
    assert FIRST_CHORE[0] != SAVER_MONTH[0] && GOAL_ACHIEVED[0] != FIRST_EXPENSE[0];
  }

  /** Seven pairwise different values form a list without duplicates. */
  lemma NoDupSeven<T>(a: T, b: T, c: T, d: T, e: T, f: T, g: T)
    requires a != b && a != c && a != d && a != e && a != f && a != g
    requires b != c && b != d && b != e && b != f && b != g
    requires c != d && c != e && c != f && c != g
    requires d != e && d != f && d != g
    requires e != f && e != g
    requires f != g
    ensures NoDup([a, b, c, d, e, f, g])
  {}
}
