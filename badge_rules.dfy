/**
 * The badge rule engine: `checkEarnedBadgeIds` and its two helpers
 * `hasChoreStreak` and `hasSaverMonth`, together with the rules they decide.
 */
module BadgeRules {
  import opened Seqs
  import opened Calendar
  import opened Types
  import opened Balance
  import opened BadgeCatalog

  function Max(a: int, b: int): int {
    if a < b then b else a
  }

  // ---------------------------------------------------------------------------
  // The rules

  /** The order in which `checkEarnedBadgeIds` considers the badges. */
  const AWARD_ORDER: seq<string> :=
    [FIRST_CHORE, CHORE_10, FIRST_EXPENSE, FIRST_GOAL, GOAL_ACHIEVED, CHORE_STREAK_7, SAVER_MONTH]

  /** `goals.some(g => g.achieved_at !== null)`. */
  predicate HasAchievedGoal(goals: seq<Goal>) {
    exists g :: g in goals && g.achievedAt.Some?
  }

  /** The distinct days on which the transactions happened. */
  function DateSet(ts: seq<Transaction>): set<Date> {
    set t | t in ts :: t.date
  }

  /** The days on which at least one chore was done. */
  function IncomeDates(ts: seq<Transaction>): set<Date> {
    DateSet(Incomes(ts))
  }

  /** Some month has a chore and no purchase. */
  predicate SaverMonthExists(ts: seq<Transaction>) {
    exists t :: t in ts && IsIncome(t) &&
      forall e :: e in ts && IsExpense(e) ==> MonthOf(e.date) != MonthOf(t.date)
  }

  /** Whether the history earns the badge `id`. */
  predicate Earns(ts: seq<Transaction>, goals: seq<Goal>, id: string) {
    if id == FIRST_CHORE then |Incomes(ts)| >= 1
    else if id == CHORE_10 then |Incomes(ts)| >= 10
    else if id == FIRST_EXPENSE then |Expenses(ts)| >= 1
    else if id == FIRST_GOAL then |goals| >= 1
    else if id == GOAL_ACHIEVED then HasAchievedGoal(goals)
    else if id == CHORE_STREAK_7 then HasConsecutiveDays(IncomeDates(ts), 7)
    else if id == SAVER_MONTH then SaverMonthExists(ts)
    else false
  }

  function EarnsRule(ts: seq<Transaction>, goals: seq<Goal>): string -> bool {
    id => Earns(ts, goals, id)
  }

  /** The badges the history earns, in award order. */
  function EarnedIds(ts: seq<Transaction>, goals: seq<Goal>): seq<string> {
    Filter(AWARD_ORDER, EarnsRule(ts, goals))
  }

  /** The award order holds each catalog badge once. */
  lemma AwardOrderIds()
    ensures NoDup(AWARD_ORDER)
    ensures multiset(AWARD_ORDER) == multiset(CatalogIds())
  {
    CatalogOrder();
    CatalogIdsDistinct();
    var c := CatalogIds();
    assert AWARD_ORDER == c[2 := c[5]][5 := c[2]];
    SwapKeeps(c, 2, 5);
  }

  /** Swapping two elements of a list keeps its elements, and its distinctness. */
  lemma SwapKeeps<T>(c: seq<T>, i: int, j: int)
    requires 0 <= i < |c| && 0 <= j < |c|
    ensures multiset(c[i := c[j]][j := c[i]]) == multiset(c)
    ensures NoDup(c) ==> NoDup(c[i := c[j]][j := c[i]])
  {
    var r := c[i := c[j]][j := c[i]];
    if NoDup(c) {
      forall a, b | 0 <= a < b < |r| ensures r[a] != r[b] {
        var a' := if a == i then j else if a == j then i else a;
        var b' := if b == i then j else if b == j then i else b;
        assert r[a] == c[a'] && r[b] == c[b'] && a' != b';
      }
    }
  }

  /** What each rule asks of the history. */
  lemma EarnsRules(ts: seq<Transaction>, goals: seq<Goal>)
    ensures Earns(ts, goals, FIRST_CHORE) == (|Incomes(ts)| >= 1)
    ensures Earns(ts, goals, CHORE_10) == (|Incomes(ts)| >= 10)
    ensures Earns(ts, goals, FIRST_EXPENSE) == (|Expenses(ts)| >= 1)
    ensures Earns(ts, goals, FIRST_GOAL) == (|goals| >= 1)
    ensures Earns(ts, goals, GOAL_ACHIEVED) == HasAchievedGoal(goals)
    ensures Earns(ts, goals, CHORE_STREAK_7) == HasConsecutiveDays(IncomeDates(ts), 7)
    ensures Earns(ts, goals, SAVER_MONTH) == SaverMonthExists(ts)
  {
    IdsPairwiseDistinct();
  }

  /** Only the seven badges of the award order can be earned. */
  lemma EarnsOnlyAwardIds(ts: seq<Transaction>, goals: seq<Goal>, id: string)
    requires Earns(ts, goals, id)
    ensures id in AWARD_ORDER
  {}

  // ---------------------------------------------------------------------------
  // Runs of consecutive days in a chronological list of dates

  predicate Chronological(u: seq<Date>) {
    forall i, j :: 0 <= i < j < |u| ==> Before(u[i], u[j])
  }

  predicate AllCalendar(u: seq<Date>) {
    forall i :: 0 <= i < |u| ==> IsCalendarDate(u[i])
  }

  /** The date after position `t` is the day after the date at `t`. */
  predicate Consec(u: seq<Date>, t: int) {
    0 <= t && t + 1 < |u| && u[t + 1] == NextDay(u[t])
  }

  /** The `k` dates from position `j` on are consecutive days. */
  predicate RunAt(u: seq<Date>, j: int, k: int) {
    0 <= j && j + k <= |u| && forall t :: j <= t < j + k - 1 ==> Consec(u, t)
  }

  ghost predicate HasRun(u: seq<Date>, k: int) {
    exists j :: RunAt(u, j, k)
  }

  /** Along a run, the date `k` places on is `k` days later. */
  lemma {:induction false} RunIsAddDays(u: seq<Date>, j: int, k: nat)
    requires 0 <= j && j + k < |u|
    requires forall t :: j <= t < j + k ==> Consec(u, t)
    ensures u[j + k] == AddDays(u[j], k)
  {
    if k > 0 {
      RunIsAddDays(u, j, k - 1);
      assert Consec(u, j + k - 1);
    }
  }

  /**
   * When the `k` days after `u[j]` all occur in a chronological list of calendar
   * days, they are the `k` entries right after `u[j]`.
   */
  lemma {:induction false} ConsecutiveDaysAreAdjacent(u: seq<Date>, j: int, k: nat)
    requires Chronological(u) && AllCalendar(u)
    requires 0 <= j < |u|
    requires forall i :: 0 <= i <= k ==> AddDays(u[j], i) in u
    ensures j + k < |u|
    ensures forall t :: j <= t < j + k ==> Consec(u, t)
  {
    if k > 0 {
      ConsecutiveDaysAreAdjacent(u, j, k - 1);
      RunIsAddDays(u, j, k - 1);
      var p := j + k - 1;
      assert AddDays(u[j], k) == NextDay(u[p]);
      var m :| 0 <= m < |u| && u[m] == NextDay(u[p]);
      assert Before(u[p], u[m]);
      assert p < m;
      NothingBetween(u[p], u[p + 1]);
      assert m == p + 1;
    }
  }

  /**
   * A chronological list of calendar days holds a run of `k` consecutive entries
   * exactly when the set of its days holds `k` consecutive calendar days.
   */
  lemma RunIffConsecutiveDays(u: seq<Date>, s: set<Date>, k: int)
    requires Chronological(u) && AllCalendar(u) && k >= 1
    requires forall d :: d in s <==> d in u
    ensures HasRun(u, k) <==> HasConsecutiveDays(s, k)
  {
    if HasRun(u, k) {
      var j :| RunAt(u, j, k);
      forall i | 0 <= i < k ensures AddDays(u[j], i) in s {
        RunIsAddDays(u, j, i);
      }
      assert RunFrom(s, u[j], k);
    }
    if HasConsecutiveDays(s, k) {
      var d :| d in s && RunFrom(s, d, k);
      var j :| 0 <= j < |u| && u[j] == d;
      assert forall i :: 0 <= i <= k - 1 ==> AddDays(u[j], i) in s;
      ConsecutiveDaysAreAdjacent(u, j, k - 1);
      assert RunAt(u, j, k);
    }
  }

  // ---------------------------------------------------------------------------
  // hasChoreStreak

  /** `incomes.map(t => t.date)`. */
  function DatesOf(ts: seq<Transaction>): (r: seq<IsoDate>)
    ensures |r| == |ts|
    ensures forall d :: d in r <==> d in DateSet(ts)
  {
    var r := seq(|ts|, i requires 0 <= i < |ts| => ts[i].date);
    assert forall t :: t in ts ==> t.date in r by {
      forall t | t in ts ensures t.date in r {
        var i :| 0 <= i < |ts| && ts[i] == t;
        assert r[i] == t.date;
      }
    }
    r
  }

  /** `[...new Set(dates)].sort()`: the distinct dates, ordered as their `YYYY-MM-DD` strings. */
  function UniqueSortedDates(ts: seq<Transaction>): seq<IsoDate> {
    Sort(Dedup(DatesOf(ts)), DateTextBefore)
  }

  /** The distinct dates come out in chronological order, each once, at most one per transaction. */
  lemma UniqueSortedDatesFacts(ts: seq<Transaction>)
    ensures Chronological(UniqueSortedDates(ts))
    ensures AllCalendar(UniqueSortedDates(ts))
    ensures forall d :: d in DateSet(ts) <==> d in UniqueSortedDates(ts)
    ensures |UniqueSortedDates(ts)| <= |ts|
  {
    var u := UniqueSortedDates(ts);
    var dd := Dedup(DatesOf(ts));
    DateTextBeforeIsStrictTotalOrder();
    SortSorted(dd, DateTextBefore);
    forall d ensures d in DateSet(ts) <==> d in u {
      assert d in u <==> d in multiset(u);
      assert d in dd <==> d in multiset(dd);
      if d in DateSet(ts) {
        var t :| t in ts && t.date == d;
        var i :| 0 <= i < |ts| && ts[i] == t;
        assert DatesOf(ts)[i] == d;
      }
    }
  }

  /** `k` consecutive days need at least `k` transactions. */
  lemma ConsecutiveDaysNeedTransactions(ts: seq<Transaction>, k: int)
    requires k >= 1 && HasConsecutiveDays(DateSet(ts), k)
    ensures k <= |ts|
  {
    var u := UniqueSortedDates(ts);
    UniqueSortedDatesFacts(ts);
    RunIffConsecutiveDays(u, DateSet(ts), k);
  }

  /**
   * What the walk over the sorted dates knows on reaching position `i` with a
   * current streak of `streak`: the last `streak` dates are consecutive days,
   * the date before them does not lead into them, and no run of `k` days ends
   * before `i`.
   */
  ghost predicate ScanState(u: seq<Date>, i: int, streak: int, k: int) {
    1 <= streak <= i && streak < k &&
    (forall t :: i - streak <= t < i - 1 ==> Consec(u, t)) &&
    (i - streak > 0 ==> !Consec(u, i - streak - 1)) &&
    (forall j :: 0 <= j && j + k <= i ==> !RunAt(u, j, k))
  }

  /** One step of the walk: a one-day step extends the streak, any other step restarts it. */
  lemma ScanStep(u: seq<Date>, i: int, streak: int, k: int)
    requires 1 <= i < |u| && k >= 2 && ScanState(u, i, streak, k)
    ensures Consec(u, i - 1) && streak + 1 < k ==> ScanState(u, i + 1, streak + 1, k)
    ensures Consec(u, i - 1) && streak + 1 >= k ==> RunAt(u, i + 1 - k, k)
    ensures !Consec(u, i - 1) ==> ScanState(u, i + 1, 1, k)
  {
    if Consec(u, i - 1) && streak + 1 < k {
      forall j | 0 <= j && j + k <= i + 1 ensures !RunAt(u, j, k) {
        if j + k == i + 1 {
          assert !Consec(u, i - streak - 1);
        }
      }
    }
    if !Consec(u, i - 1) {
      forall j | 0 <= j && j + k <= i + 1 ensures !RunAt(u, j, k) {
        if j + k == i + 1 {
          assert !Consec(u, i - 1);
        }
      }
    }
  }

  /**
   * `hasChoreStreak`: whether the income dates hold `days` consecutive calendar
   * days (at least two, since the walk only succeeds after a step of one day).
   * Fewer incomes than `days` fail before any date is examined.
   */
  method HasChoreStreak(incomes: seq<Transaction>, days: int) returns (found: bool)
    ensures |incomes| < days ==> !found
    ensures found <==> HasConsecutiveDays(DateSet(incomes), Max(days, 2))
  {
    if |incomes| < days {
      if HasConsecutiveDays(DateSet(incomes), Max(days, 2)) {
        ConsecutiveDaysNeedTransactions(incomes, Max(days, 2));
      }
      return false;
    }
    ghost var k := Max(days, 2);
    var uniqueDates := UniqueSortedDates(incomes);
    UniqueSortedDatesFacts(incomes);
    RunIffConsecutiveDays(uniqueDates, DateSet(incomes), k);
    var streak := 1;
    var i := 1;
    while i < |uniqueDates|
      invariant 1 <= i && (uniqueDates != [] ==> i <= |uniqueDates|)
      invariant ScanState(uniqueDates, i, streak, k)
    {
      var diff := DayNumber(uniqueDates[i]) - DayNumber(uniqueDates[i - 1]);
      StepIsConsec(uniqueDates, i);
      ScanStep(uniqueDates, i, streak, k);
      if diff == 1 {
        streak := streak + 1;
        if streak >= days {
          assert RunAt(uniqueDates, i + 1 - k, k);
          return true;
        }
      } else {
        streak := 1;
      }
      i := i + 1;
    }
    ScanFinished(uniqueDates, i, streak, k);
    return false;
  }

  /** In a chronological list of calendar days, a day-number step of 1 is a one-day step. */
  lemma StepIsConsec(u: seq<Date>, i: int)
    requires Chronological(u) && AllCalendar(u) && 1 <= i < |u|
    ensures DayNumber(u[i]) - DayNumber(u[i - 1]) == 1 <==> Consec(u, i - 1)
  {
    DayStep(u[i - 1], u[i]);
  }

  /** A walk that reached the end without finding a run of `k` days shows there is none. */
  lemma ScanFinished(u: seq<Date>, i: int, streak: int, k: int)
    requires |u| <= i && (u != [] ==> i <= |u|) && ScanState(u, i, streak, k)
    ensures !HasRun(u, k)
  {
    assert forall j :: !RunAt(u, j, k);
  }

  // ---------------------------------------------------------------------------
  // hasSaverMonth

  /** `t.date.slice(0, 7)`. */
  function MonthKey(t: Transaction): string {
    DateText(t.date)[..7]
  }

  function MonthKeys(ts: seq<Transaction>): (r: seq<string>)
    ensures |r| == |ts|
    ensures forall k :: k in r <==> exists t :: t in ts && k == MonthText(MonthOf(t.date))
  {
    var r := seq(|ts|, i requires 0 <= i < |ts| => MonthKey(ts[i]));
    assert forall t :: t in ts ==> MonthKey(t) == MonthText(MonthOf(t.date)) && MonthKey(t) in r by {
      forall t | t in ts ensures MonthKey(t) == MonthText(MonthOf(t.date)) && MonthKey(t) in r {
        DateTextMonthPrefix(t.date);
        var i :| 0 <= i < |ts| && ts[i] == t;
        assert r[i] == MonthKey(t);
      }
    }
    r
  }

  /** Two dates share their `YYYY-MM` prefix exactly when they fall in the same month. */
  lemma MonthKeyIsMonth(a: Transaction, b: Transaction)
    ensures MonthKey(a) == MonthKey(b) <==> MonthOf(a.date) == MonthOf(b.date)
  {
    DateTextMonthPrefix(a.date);
    DateTextMonthPrefix(b.date);
    MonthTextOrder(MonthOf(a.date), MonthOf(b.date));
  }

  /** The month keys of the expenses: `expenseMonths`. */
  function ExpenseMonthKeys(ts: seq<Transaction>): set<string> {
    set e | e in Expenses(ts) :: MonthKey(e)
  }

  /** A saver month exists exactly when some income's month key is not an expense's month key. */
  lemma SaverMonthByKeys(ts: seq<Transaction>)
    ensures SaverMonthExists(ts) <==>
      exists k :: k in MonthKeys(Incomes(ts)) && k !in ExpenseMonthKeys(ts)
  {
    if SaverMonthExists(ts) {
      var t :| t in ts && IsIncome(t) &&
        forall e :: e in ts && IsExpense(e) ==> MonthOf(e.date) != MonthOf(t.date);
      SaverKeyOf(ts, t);
    }
    if k :| k in MonthKeys(Incomes(ts)) && k !in ExpenseMonthKeys(ts) {
      var t :| t in Incomes(ts) && k == MonthText(MonthOf(t.date));
      SaverMonthOfKey(ts, t);
    }
  }

  /** The month key of an income in a month without expenses is not an expense month key. */
  lemma SaverKeyOf(ts: seq<Transaction>, t: Transaction)
    requires t in ts && IsIncome(t)
    requires forall e :: e in ts && IsExpense(e) ==> MonthOf(e.date) != MonthOf(t.date)
    ensures MonthKey(t) in MonthKeys(Incomes(ts)) && MonthKey(t) !in ExpenseMonthKeys(ts)
  {
    DateTextMonthPrefix(t.date);
    assert t in Incomes(ts);
    forall e | e in Expenses(ts) ensures MonthKey(e) != MonthKey(t) {
      MonthKeyIsMonth(e, t);
    }
  }

  /** An income whose month key no expense has lies in a month without expenses. */
  lemma SaverMonthOfKey(ts: seq<Transaction>, t: Transaction)
    requires t in Incomes(ts) && MonthText(MonthOf(t.date)) !in ExpenseMonthKeys(ts)
    ensures SaverMonthExists(ts)
  {
    DateTextMonthPrefix(t.date);
    forall e | e in ts && IsExpense(e) ensures MonthOf(e.date) != MonthOf(t.date) {
      MonthKeyIsMonth(e, t);
      assert e in Expenses(ts);
    }
  }

  /**
   * `hasSaverMonth`: walks the distinct income months in first-seen order and
   * succeeds at the first one that is not an expense month.
   */
  method HasSaverMonth(transactions: seq<Transaction>) returns (found: bool)
    ensures found <==> SaverMonthExists(transactions)
  {
    var incomes := Incomes(transactions);
    var incomeMonths := Dedup(MonthKeys(incomes));
    var expenseMonths := ExpenseMonthKeys(transactions);
    for i := 0 to |incomeMonths|
      invariant forall n :: 0 <= n < i ==> incomeMonths[n] in expenseMonths
    {
      if incomeMonths[i] !in expenseMonths {
        assert incomeMonths[i] in MonthKeys(incomes);
        SaverMonthByKeys(transactions);
        return true;
      }
    }
    DedupAllIn(MonthKeys(incomes), expenseMonths);
    SaverMonthByKeys(transactions);
    return false;
  }

  // ---------------------------------------------------------------------------
  // checkEarnedBadgeIds

  /** `[id]` when `b` holds, else nothing. */
  function Pick<T>(b: bool, id: T): seq<T> {
    if b then [id] else []
  }

  /** The earned ids, spelled out rule by rule in award order. */
  lemma EarnedIdsInAwardOrder(ts: seq<Transaction>, goals: seq<Goal>)
    ensures EarnedIds(ts, goals) ==
      Pick(|Incomes(ts)| >= 1, FIRST_CHORE) + Pick(|Incomes(ts)| >= 10, CHORE_10) +
      Pick(|Expenses(ts)| >= 1, FIRST_EXPENSE) + Pick(|goals| >= 1, FIRST_GOAL) +
      Pick(HasAchievedGoal(goals), GOAL_ACHIEVED) +
      Pick(HasConsecutiveDays(IncomeDates(ts), 7), CHORE_STREAK_7) +
      Pick(SaverMonthExists(ts), SAVER_MONTH)
  {
    EarnsRules(ts, goals);
    FilterAwardOrder(EarnsRule(ts, goals));
  }

  /** Filtering the award order with any rule, spelled out. */
  lemma FilterAwardOrder(p: string -> bool)
    ensures Filter(AWARD_ORDER, p) ==
      Pick(p(FIRST_CHORE), FIRST_CHORE) + Pick(p(CHORE_10), CHORE_10) +
      Pick(p(FIRST_EXPENSE), FIRST_EXPENSE) + Pick(p(FIRST_GOAL), FIRST_GOAL) +
      Pick(p(GOAL_ACHIEVED), GOAL_ACHIEVED) + Pick(p(CHORE_STREAK_7), CHORE_STREAK_7) +
      Pick(p(SAVER_MONTH), SAVER_MONTH)
  {
    FilterSeven(AWARD_ORDER, p);
  }

  /** Filtering a seven-element list, one element at a time. */
  lemma FilterSeven<T(!new)>(a: seq<T>, p: T -> bool)
    requires |a| == 7
    ensures Filter(a, p) ==
      Pick(p(a[0]), a[0]) + Pick(p(a[1]), a[1]) + Pick(p(a[2]), a[2]) + Pick(p(a[3]), a[3]) +
      Pick(p(a[4]), a[4]) + Pick(p(a[5]), a[5]) + Pick(p(a[6]), a[6])
  {
    assert a[..0] == [] && a[..7] == a;
    var p0, p1, p2, p3 := Pick(p(a[0]), a[0]), Pick(p(a[1]), a[1]), Pick(p(a[2]), a[2]), Pick(p(a[3]), a[3]);
    var p4, p5, p6 := Pick(p(a[4]), a[4]), Pick(p(a[5]), a[5]), Pick(p(a[6]), a[6]);
    FilterStep(a, 0, p);
    assert Filter(a[..1], p) == p0;
    FilterStep(a, 1, p);
    assert Filter(a[..2], p) == p0 + p1;
    FilterStep(a, 2, p);
    assert Filter(a[..3], p) == p0 + p1 + p2;
    FilterStep(a, 3, p);
    assert Filter(a[..4], p) == p0 + p1 + p2 + p3;
    FilterStep(a, 4, p);
    assert Filter(a[..5], p) == p0 + p1 + p2 + p3 + p4;
    FilterStep(a, 5, p);
    assert Filter(a[..6], p) == p0 + p1 + p2 + p3 + p4 + p5;
    FilterStep(a, 6, p);
  }

  lemma FilterStep<T(!new)>(a: seq<T>, k: int, p: T -> bool)
    requires 0 <= k < |a|
    ensures Filter(a[..k + 1], p) == Filter(a[..k], p) + Pick(p(a[k]), a[k])
  {
    assert a[..k + 1] == a[..k] + [a[k]];
    FilterSnoc(a[..k], a[k], p);
  }

  /**
   * `checkEarnedBadgeIds`: pushes each badge whose rule holds, in award order.
   */
  method CheckEarnedBadgeIds(transactions: seq<Transaction>, goals: seq<Goal>) returns (earned: seq<string>)
    ensures earned == EarnedIds(transactions, goals)
  {
    earned := [];
    var incomes := Incomes(transactions);
    var expenses := Expenses(transactions);

    if |incomes| >= 1 { earned := earned + [FIRST_CHORE]; }
    ghost var prefix := Pick(|incomes| >= 1, FIRST_CHORE);
    assert earned == prefix;
    if |incomes| >= 10 { earned := earned + [CHORE_10]; }
    prefix := prefix + Pick(|incomes| >= 10, CHORE_10);
    assert earned == prefix;
    if |expenses| >= 1 { earned := earned + [FIRST_EXPENSE]; }
    prefix := prefix + Pick(|expenses| >= 1, FIRST_EXPENSE);
    assert earned == prefix;
    if |goals| >= 1 { earned := earned + [FIRST_GOAL]; }
    prefix := prefix + Pick(|goals| >= 1, FIRST_GOAL);
    assert earned == prefix;
    if exists g :: g in goals && g.achievedAt.Some? { earned := earned + [GOAL_ACHIEVED]; }
    prefix := prefix + Pick(HasAchievedGoal(goals), GOAL_ACHIEVED);
    assert earned == prefix;
    var streak := HasChoreStreak(incomes, 7);
    if streak { earned := earned + [CHORE_STREAK_7]; }
    prefix := prefix + Pick(HasConsecutiveDays(IncomeDates(transactions), 7), CHORE_STREAK_7);
    assert earned == prefix;
    var saver := HasSaverMonth(transactions);
    if saver { earned := earned + [SAVER_MONTH]; }
    prefix := prefix + Pick(SaverMonthExists(transactions), SAVER_MONTH);
    assert earned == prefix;
    EarnedIdsInAwardOrder(transactions, goals);
  }

  // ---------------------------------------------------------------------------
  // Properties of the earned list

  /**
   * The earned list holds exactly the badges whose rule holds, each once, in
   * award order, and every one of them is in the catalog.
   */
  lemma EarnedIdsMeaning(ts: seq<Transaction>, goals: seq<Goal>)
    ensures forall id :: id in EarnedIds(ts, goals) <==> Earns(ts, goals, id)
    ensures OrderedAsIn(EarnedIds(ts, goals), AWARD_ORDER)
    ensures NoDup(EarnedIds(ts, goals))
    ensures forall id :: id in EarnedIds(ts, goals) ==> id in CatalogIds()
  {
    AwardOrderIds();
    FilterOrderedAsIn(AWARD_ORDER, EarnsRule(ts, goals));
    forall id | Earns(ts, goals, id) ensures id in AWARD_ORDER {
      EarnsOnlyAwardIds(ts, goals, id);
    }
    forall id | id in AWARD_ORDER ensures id in CatalogIds() {
      assert id in multiset(AWARD_ORDER);
    }
  }

  /**
   * Ten chores include a first chore, a saver month has a chore in it, and a
   * seven-day streak takes at least seven chores.
   */
  lemma RuleImplications(ts: seq<Transaction>, goals: seq<Goal>)
    ensures Earns(ts, goals, CHORE_10) ==> Earns(ts, goals, FIRST_CHORE)
    ensures Earns(ts, goals, SAVER_MONTH) ==> Earns(ts, goals, FIRST_CHORE)
    ensures Earns(ts, goals, CHORE_STREAK_7) ==> ChoreCount(ts) >= 7
    ensures Earns(ts, goals, GOAL_ACHIEVED) ==> Earns(ts, goals, FIRST_GOAL)
  {
    EarnsRules(ts, goals);
    if SaverMonthExists(ts) {
      var t :| t in ts && IsIncome(t) &&
        forall e :: e in ts && IsExpense(e) ==> MonthOf(e.date) != MonthOf(t.date);
      assert t in Incomes(ts);
    }
    if HasConsecutiveDays(IncomeDates(ts), 7) {
      ConsecutiveDaysNeedTransactions(Incomes(ts), 7);
    }
  }

  /** Reordering the transactions or the goals earns the same badges. */
  lemma EarnedIdsOrderIndependent(ts1: seq<Transaction>, goals1: seq<Goal>, ts2: seq<Transaction>, goals2: seq<Goal>)
    requires multiset(ts1) == multiset(ts2) && multiset(goals1) == multiset(goals2)
    ensures EarnedIds(ts1, goals1) == EarnedIds(ts2, goals2)
  {
    ChoreCountPermutation(ts1, ts2);
    assert |goals1| == |multiset(goals1)| == |goals2|;
    assert forall t :: t in ts1 <==> t in ts2 by {
      forall t ensures t in ts1 <==> t in ts2 {
        assert t in ts1 <==> t in multiset(ts1);
        assert t in ts2 <==> t in multiset(ts2);
      }
    }
    assert forall g :: g in goals1 <==> g in goals2 by {
      forall g ensures g in goals1 <==> g in goals2 {
        assert g in goals1 <==> g in multiset(goals1);
        assert g in goals2 <==> g in multiset(goals2);
      }
    }
    assert IncomeDates(ts1) == IncomeDates(ts2);
    assert SaverMonthExists(ts1) == SaverMonthExists(ts2);
    assert HasAchievedGoal(goals1) == HasAchievedGoal(goals2);
    forall id | id in AWARD_ORDER ensures EarnsRule(ts1, goals1)(id) == EarnsRule(ts2, goals2)(id) {
    }
    FilterCongruence(AWARD_ORDER, EarnsRule(ts1, goals1), EarnsRule(ts2, goals2));
  }

  /** A further chore on a day that already has one does not change the streak badge. */
  lemma SameDayChoresCountOnce(ts: seq<Transaction>, goals: seq<Goal>, t: Transaction)
    requires IsIncome(t) && t.date in IncomeDates(ts)
    ensures Earns(ts + [t], goals, CHORE_STREAK_7) == Earns(ts, goals, CHORE_STREAK_7)
  {
    FilterSnoc(ts, t, IsIncome);
    assert Incomes(ts + [t]) == Incomes(ts) + [t];
    assert IncomeDates(ts + [t]) == IncomeDates(ts);
    EarnsRules(ts, goals);
    EarnsRules(ts + [t], goals);
  }

  /** An empty history with no goals earns nothing. */
  lemma NothingEarnedFromNothing()
    ensures EarnedIds([], []) == []
  {
    EarnsRules([], []);
    FilterAwardOrder(EarnsRule([], []));
    assert IncomeDates([]) == {};
  }
}
