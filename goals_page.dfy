/**
 * The Goals page's derived values: whether a goal counts as achieved, its
 * progress percentage, when the "mark achieved" action is offered, and the
 * check that guards creating a goal.
 */
module GoalsPage {
  import opened Types
  import opened BadgeRules

  function MinReal(a: real, b: real): real {
    if a <= b then a else b
  }

  function MaxReal(a: real, b: real): real {
    if a <= b then b else a
  }

  /** `!!goal.achieved_at`: a timestamp is set and it is not the empty string. */
  predicate IsAchieved(g: Goal) {
    g.achievedAt.Some? && g.achievedAt.value != ""
  }

  /** A goal the page shows as achieved earns the `goal_achieved` badge. */
  lemma AchievedGoalEarnsBadge(goals: seq<Goal>, g: Goal)
    requires g in goals && IsAchieved(g)
    ensures HasAchievedGoal(goals)
  {}

  /** `Math.min(100, Math.max(0, (balance / goal.target_amount) * 100))`. */
  function GoalPercent(balance: int, target: int): (percent: real)
    requires target > 0
    ensures 0.0 <= percent <= 100.0
  {
    MinReal(100.0, MaxReal(0.0, (balance as real / target as real) * 100.0))
  }

  /**
   * The percentage is 0 exactly when nothing is saved, 100 exactly when the
   * target is reached, and in between it is the saved share of the target.
   */
  lemma GoalPercentMeaning(balance: int, target: int)
    requires target > 0
    ensures GoalPercent(balance, target) == 0.0 <==> balance <= 0
    ensures GoalPercent(balance, target) == 100.0 <==> balance >= target
    ensures 0 < balance < target ==>
      GoalPercent(balance, target) == (balance as real) * 100.0 / (target as real)
  {
    var b, t := balance as real, target as real;
    var ratio := (b / t) * 100.0;
    assert ratio * t == b * 100.0;
    if balance <= 0 {
      assert ratio <= 0.0;
    } else {
      assert ratio > 0.0;
    }
    if balance >= target {
      assert ratio >= 100.0;
    } else {
      assert ratio < 100.0;
    }
  }

  /** A larger balance never shows less progress. */
  lemma GoalPercentMonotone(b1: int, b2: int, target: int)
    requires target > 0 && b1 <= b2
    ensures GoalPercent(b1, target) <= GoalPercent(b2, target)
  {
    var t := target as real;
    assert (b1 as real / t) <= (b2 as real / t) by {
      assert b1 as real / t * t == b1 as real;
      assert b2 as real / t * t == b2 as real;
    }
  }

  /** `!isAchieved && percent >= 100`: whether the "mark achieved" button is shown. */
  predicate OffersMarkAchieved(g: Goal, balance: int)
    requires g.targetAmount > 0
  {
    !IsAchieved(g) && GoalPercent(balance, g.targetAmount) >= 100.0
  }

  /** The action is offered exactly for a goal not yet achieved whose target the balance reaches. */
  lemma OffersMarkAchievedMeaning(g: Goal, balance: int)
    requires g.targetAmount > 0
    ensures OffersMarkAchieved(g, balance) <==> !IsAchieved(g) && balance >= g.targetAmount
  {
    GoalPercentMeaning(balance, g.targetAmount);
  }

  /**
   * Creating a goal: the new goal for the user, not yet achieved, or `None`
   * when the parsed target is missing or not positive, in which case nothing
   * is created.
   */
  function NewGoal(id: string, userId: string, title: string, parsedTarget: Option<int>, createdAt: string)
    : (r: Option<Goal>)
    ensures r.None? <==> AcceptedAmount(parsedTarget).None?
    ensures r.Some? ==> r.value.targetAmount > 0 && r.value.targetAmount == parsedTarget.value
    ensures r.Some? ==> !IsAchieved(r.value) && r.value.userId == userId && r.value.title == title
  {
    match AcceptedAmount(parsedTarget)
    case None => None
    case Some(amount) => Some(Goal(id, userId, title, amount, createdAt, None))
  }
}
