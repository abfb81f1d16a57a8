/**
 * The Overview page: balance, level, the first goal not yet achieved with its
 * progress, and the most recent transactions, all derived from the loaded
 * transactions and goals.
 */
module OverviewPage {
  import opened Types
  import opened Balance
  import opened Levels
  import opened Level
  import opened GoalsPage

  /** `goals.find(g => g.achieved_at === null) ?? null`. */
  function ActiveGoal(goals: seq<Goal>): (r: Option<Goal>)
    ensures r.None? <==> forall i :: 0 <= i < |goals| ==> goals[i].achievedAt.Some?
    ensures r.Some? ==> r.value.achievedAt.None? && r.value in goals
  {
    if goals == [] then None
    else if goals[0].achievedAt.None? then Some(goals[0])
    else
      assert forall i :: 1 <= i < |goals| ==> goals[i] == goals[1..][i - 1];
      ActiveGoal(goals[1..])
  }

  /** The active goal is the first goal in list order that has not been achieved. */
  lemma {:induction false} ActiveGoalIsFirst(goals: seq<Goal>, i: int)
    requires 0 <= i < |goals| && goals[i].achievedAt.None?
    requires forall j :: 0 <= j < i ==> goals[j].achievedAt.Some?
    ensures ActiveGoal(goals) == Some(goals[i])
  {
    if i > 0 {
      ActiveGoalIsFirst(goals[1..], i - 1);
    }
  }

  /** `activeGoal ? Math.max(0, Math.min(100, (balance / target) * 100)) : 0`. */
  function GoalProgress(balance: int, active: Option<Goal>): (progress: real)
    requires active.Some? ==> active.value.targetAmount > 0
  {
    match active
    case None => 0.0
    case Some(g) => MaxReal(0.0, MinReal(100.0, (balance as real / g.targetAmount as real) * 100.0))
  }

  /**
   * Without an active goal the progress is 0; with one it is the same clamped
   * percentage the Goals page shows for that goal, although the two pages
   * apply the clamps in opposite order.
   */
  lemma GoalProgressMeaning(balance: int, active: Option<Goal>)
    requires active.Some? ==> active.value.targetAmount > 0
    ensures active.None? ==> GoalProgress(balance, active) == 0.0
    ensures active.Some? ==>
      GoalProgress(balance, active) == GoalPercent(balance, active.value.targetAmount)
    ensures 0.0 <= GoalProgress(balance, active) <= 100.0
  {}

  function Min(a: int, b: int): int {
    if a <= b then a else b
  }

  /** `transactions.slice(0, 5)`. */
  function RecentTransactions(ts: seq<Transaction>): (recent: seq<Transaction>)
    ensures |recent| == Min(5, |ts|)
    ensures recent <= ts
  {
    ts[..Min(5, |ts|)]
  }

  /** The values the page shows once transactions and goals have loaded. */
  datatype Overview = Overview(
    balance: int,
    level: int,
    choresToNext: Option<int>,
    activeGoal: Option<Goal>,
    goalProgress: real,
    recent: seq<Transaction>,
    showsLevelBar: bool)

  /** The page's derivations; `None` while either list is still loading. */
  function OverviewOf(ts: seq<Transaction>, goals: seq<Goal>, txLoading: bool, goalsLoading: bool)
    : (r: Option<Overview>)
    requires forall g :: g in goals ==> g.targetAmount > 0
    ensures r.None? <==> txLoading || goalsLoading
  {
    if txLoading || goalsLoading then None
    else
      var choreCount := ChoreCount(ts);
      var active := ActiveGoal(goals);
      var toNext := ChoresToNextLevel(choreCount);
      Some(Overview(CalculateBalance(ts), LevelOf(choreCount), toNext, active,
                    GoalProgress(CalculateBalance(ts), active), RecentTransactions(ts), toNext.Some?))
  }

  /**
   * What the page shows: the balance is income minus expense; the level is the
   * level of the number of chores done, and the level bar is shown exactly
   * below the top level, that is while fewer than 100 chores are done; the
   * goal progress is 0 without an active goal and otherwise that goal's
   * percentage as the Goals page computes it.
   */
  lemma OverviewMeaning(ts: seq<Transaction>, goals: seq<Goal>)
    requires forall g :: g in goals ==> g.targetAmount > 0
    ensures var v := OverviewOf(ts, goals, false, false).value;
      v.balance == SumAmounts(Incomes(ts)) - SumAmounts(Expenses(ts)) &&
      1 <= v.level <= MAX_LEVEL &&
      (v.showsLevelBar <==> v.level < MAX_LEVEL) &&
      (v.showsLevelBar <==> ChoreCount(ts) < 100) &&
      (v.activeGoal.None? ==> v.goalProgress == 0.0) &&
      (v.activeGoal.Some? ==> v.goalProgress == GoalPercent(v.balance, v.activeGoal.value.targetAmount))
  {
    LevelBand(ChoreCount(ts), MAX_LEVEL);
    BalanceIsIncomeMinusExpense(ts);
    GoalProgressMeaning(CalculateBalance(ts), ActiveGoal(goals));
  }
}
