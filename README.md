# kidget: chores, allowance, levels and badges

kidget is a family allowance app. A child earns money by doing chores and
spends it on purchases. Each chore is an `income` transaction and each
purchase is an `expense`. The child also keeps savings goals.

This project models the app's derivation engine in Dafny:

- the balance fold;
- the level table and the level engine (`calculateLevel`, `choresToNextLevel`);
- the badge catalog and the badge rule engine (`checkEarnedBadgeIds` with `hasChoreStreak` and `hasSaverMonth`);
- the Badges page's award step, and its split of the catalog into earned and unearned badges;
- the History page's month list, month filter, totals and edit guard;
- the Goals page's achieved test, progress percentage, "mark achieved" condition and creation guard;
- the Overview page's derived values.

## Modelling choices

- **Dates** (`calendar.dfy`). A date is a (year, month, day) triple. A transaction's date has type `IsoDate`: a proleptic Gregorian day with a four-digit year.
  - `DateText` and `MonthText` give the `YYYY-MM-DD` and `YYYY-MM` strings.
  - `DayNumber` counts days since 0000-01-01. It stands for `new Date(s).getTime() / 86 400 000`, which for a `YYYY-MM-DD` string is midnight UTC.
  - Lemmas connect each string operation of the source to its meaning:
    - `.sort()` on date strings is chronological order (`DateTextOrder`);
    - `slice(0, 7)` is the month (`DateTextMonthPrefix`);
    - `startsWith(month)` is month membership (`StartsWithMonth`);
    - a day difference of exactly 1 means the second date is the next calendar day (`DayStep`).
- **JavaScript idioms** (`seqs.dfy`). `filter` is `Filter`, `[...new Set(xs)]` is `Dedup`, which keeps first occurrences, and `sort` with a comparator is `Sort`, an insertion sort.
  - `Filter` is proved to keep the order of a list without duplicates, and to commute with permutation for any list.
  - `SortSorted` proves the output of `Sort` strictly ordered for a list without duplicates, whenever the comparator is a strict total order. Every list the source sorts comes from a `Set`, so it has no duplicates.
- **Methods where the source loops.** The source has three loops: `calculateLevel`, `hasChoreStreak` and `hasSaverMonth`. `checkEarnedBadgeIds` also grows an array with `push`. These four are methods, each proved against a specification function:
  - `LevelOf` for `calculateLevel`;
  - `HasConsecutiveDays` on the set of income dates for `hasChoreStreak`;
  - `SaverMonthExists` for `hasSaverMonth`;
  - `EarnedIds`, the award order filtered by the rule predicate `Earns`, for `checkEarnedBadgeIds`.

  The rest of the core is expressions, so it is modelled as functions and lemmas.
- **Badge store.** The signed-in user's badge rows are a `BadgeLedger` class. It has an `owner` and a `rows` field; the constructor loads the owner's rows from the badges table, as the `user_id` query does, and `Reconcile` appends to `rows`. The invariant `Valid()` says every row belongs to the owner. A row holds the user id and the badge id. The store assigns each row's own id and its `achieved_at` timestamp; these are not modelled.
- **Numbers.** Amounts are unbounded integers, whereas JavaScript numbers are doubles that are exact only up to 2^53, so sums beyond that are not modelled. The percentages are `real`, not IEEE doubles. `parseInt` results are `Option<int>`, with `None` standing for `NaN`.
- **Achieved goals.** The code tests this in two different ways:
  - The Goals page's `isAchieved` is `!!achieved_at` (src/pages/Goals/index.tsx:135). An empty-string timestamp therefore counts as not achieved there.
  - `checkEarnedBadgeIds` and the Overview page test `achieved_at !== null` and `=== null`.

  The model follows the code. `GoalsPage.IsAchieved` needs a non-empty timestamp. `BadgeRules.HasAchievedGoal` and `OverviewPage.ActiveGoal` only look at whether a timestamp is present. The two agree whenever timestamps are non-empty, which the app's own `toISOString()` writes always are.

## Model

| member | source | states |
|---|---|---|
| `Seqs.Filter` | src/utils/badges.ts:9-10 | `filter` keeps exactly the elements that pass the predicate and is never longer than its input |
| `Seqs.FilterOrderedAsIn` | src/pages/Badges/index.tsx:49-51 | filtering a list without duplicates keeps the list's order and has no duplicates |
| `Seqs.FilterPermutation` | src/utils/badges.ts:9-10 | filtering a permuted list gives a permutation of the filtered list |
| `Seqs.FilterPartition` | src/pages/Badges/index.tsx:50-51 | two filters with complementary predicates split the list between them |
| `Seqs.Dedup` | src/utils/badges.ts:25 | `[...new Set(xs)]` has no duplicates, is no longer than `xs`, and holds the same elements; its order is `DedupOrderedAsIn` |
| `Seqs.DedupOrderedAsIn` | src/utils/badges.ts:25 | the distinct elements are listed in the order of their first occurrence, as a `Set` iterates in insertion order |
| `Seqs.Sort` | src/utils/badges.ts:25 | sorting permutes the list |
| `Seqs.SortSorted` | src/pages/History/index.tsx:36-38 | with a strict total order as comparator, sorting a list without duplicates yields a strictly ordered list |
| `Seqs.SortedIndexOf` | src/pages/History/index.tsx:36-38 | in a list strictly ordered by a strict total order, a smaller element is found at a smaller index |
| `Seqs.DedupAllIn` | src/utils/badges.ts:46-50 | every element of a list lies in a set when every element of its deduplicated copy does |
| `Calendar.DayStep` | src/utils/badges.ts:28-31 | for two ordered calendar days, a day-number difference of exactly 1 holds if and only if the second is the day after the first |
| `Calendar.NothingBetween` | src/utils/badges.ts:28-31 | no calendar day lies strictly between a day and the next |
| `Calendar.DayNumber` | src/utils/badges.ts:28-30 | `new Date(s).getTime() / 86_400_000` as a count of days; by `DayStep` and `NothingBetween` two days differ by 1 exactly when the second is the next calendar day |
| `Calendar.DateTextOrder` | src/utils/badges.ts:25 | `YYYY-MM-DD` strings compare as their dates do, and equal strings mean equal dates |
| `Calendar.DateTextBeforeIsStrictTotalOrder` | src/utils/badges.ts:25 | the default string order of `sort` on date strings is a strict total order and coincides with chronological order |
| `Calendar.MonthTextOrder` | src/pages/History/index.tsx:36-38 | `YYYY-MM` strings compare as their months do, and equal strings mean equal months |
| `Calendar.TextBeforeIsStrictTotalOrder` | src/pages/History/index.tsx:36-38 | lexicographic character order on strings is irreflexive, transitive and total |
| `Calendar.TextBefore` | src/pages/History/index.tsx:37 | JavaScript string comparison, as lexicographic character order; `TextBeforeIsStrictTotalOrder` makes it a strict total order and `DateTextOrder` ties it to dates |
| `Calendar.StartsWith` | src/pages/History/index.tsx:45 | `s.startsWith(prefix)`; `StartsWithMonth` ties it to calendar months |
| `Calendar.DateTextMonthPrefix` | src/utils/badges.ts:44 | the first seven characters of a date's string are its month's string |
| `Calendar.StartsWithMonth` | src/pages/History/index.tsx:45 | a date string starts with a month string exactly when the date falls in that month |
| `Types.AcceptedAmount` | src/pages/History/index.tsx:73-74 | a parsed amount is accepted exactly when it is a number greater than zero, and then unchanged |
| `Balance.CalculateBalance` | src/utils/balance.ts:4-8 | `calculateBalance`, the reduce adding incomes and subtracting expenses from 0; its meaning is given by `BalanceIsIncomeMinusExpense` and `BalancePermutation` |
| `Balance.BalanceOfEmpty` | src/utils/balance.ts:5-8 | the empty history has balance 0 |
| `Balance.BalanceAppendOne` | src/utils/balance.ts:6 | appending an income raises the balance by its amount; appending an expense lowers it by its amount |
| `Balance.BalanceIsIncomeMinusExpense` | src/utils/balance.ts:4-8 | the balance is the sum of income amounts minus the sum of expense amounts |
| `Balance.BalanceAppend` | src/utils/balance.ts:4-8 | the balance of a concatenation is the sum of the balances |
| `Balance.BalancePermutation` | src/utils/balance.ts:4-8 | reordering the transactions does not change the balance |
| `Balance.SumAmountsAppend` | src/pages/History/index.tsx:51 | the amount total of a concatenation is the sum of the totals |
| `Balance.SumAmounts` | src/pages/History/index.tsx:51 | `reduce((s, tx) => s + tx.amount, 0)`; `SumAmountsAppend` makes it additive and `BalanceIsIncomeMinusExpense` relates it to the balance |
| `Balance.Incomes` | src/utils/badges.ts:9 | the income filter; by `Filter` it keeps exactly the incomes, and `ChoreCountPermutation` shows their number ignores order |
| `Balance.Expenses` | src/utils/badges.ts:10 | the expense filter; by `Filter` it keeps exactly the expenses, and `ChoreCountPermutation` shows their number ignores order |
| `Balance.ChoreCount` | src/pages/Badges/index.tsx:30 | the chore count is at most the number of transactions, and it is 0 exactly when there is no income |
| `Balance.ChoreCountPermutation` | src/pages/Overview/index.tsx:25 | reordering the transactions changes neither the number of incomes nor the number of expenses |
| `Levels.LevelTableShape` | src/constants/levels.ts:3-11 | five entries with levels 1 to 5 in order, the last being `MAX_LEVEL`; the first threshold is 0 and the thresholds strictly increase |
| `Level.HighestLevelReached` | src/utils/level.ts:5-9 | the highest level up to a bound whose threshold the count reaches, and 1 when none above 1 is reached |
| `Level.LevelOf` | src/utils/level.ts:3-4 | the level of a chore count lies in 1 to `MAX_LEVEL` |
| `Level.CalculateLevel` | src/utils/level.ts:4-10 | the level is `LevelOf(choreCount)`, lies in 1 to `MAX_LEVEL`, is 1 or a level whose threshold is reached, and no later table entry's threshold is reached |
| `Level.LevelBand` | src/utils/level.ts:6-8 | a count has level L exactly when it reaches L's threshold (or L is 1) and is below the next level's threshold (or L is the top) |
| `Level.LevelMonotone` | src/utils/level.ts:6-8 | more chores never give a lower level |
| `Level.FindLevel` | src/utils/level.ts:16 | `find` returns the first entry with the requested level, and returns nothing exactly when no entry has that level |
| `Level.FindLevelSucceeds` | src/constants/levels.ts:3-9 | for every level 1 to `MAX_LEVEL`, `find` returns that level's own table entry |
| `Level.ChoresToNextLevel` | src/utils/level.ts:13-18 | `None` exactly at the top level; otherwise the next level's threshold minus the count, which is positive |
| `Level.ChoresToNextLevelIsExact` | src/utils/level.ts:13-18 | doing the reported number of extra chores raises the level by exactly one, and fewer extra chores leave it unchanged |
| `Level.NextLevelStep` | src/utils/level.ts:13-18 | from a level below the top, adding the next threshold's shortfall gives exactly the next level, and adding less keeps the level |
| `Level.LevelExamples` | src/constants/levels.ts:4-8 | levels of 0, 9, 10, 29, 30, 60, 99, 100 and 1000 chores are 1, 1, 2, 2, 3, 4, 4, 5, 5; chores to the next level from 0, 10, 95 and 100 are 10, 20, 5 and none |
| `BadgeCatalog.Ids` | src/constants/badges.ts:5-41 | the id list has one id per definition, in the same order |
| `BadgeCatalog.CatalogOrder` | src/constants/badges.ts:3-46 | seven badges, in the order first_chore, chore_10, chore_streak_7, first_goal, goal_achieved, first_expense, saver_month |
| `BadgeCatalog.CatalogIdsDistinct` | src/constants/badges.ts:5-41 | no two catalog badges share an id |
| `BadgeCatalog.IdsPairwiseDistinct` | src/constants/badges.ts:5-41 | each of the 21 pairs of badge ids differs |
| `BadgeRules.AwardOrderIds` | src/utils/badges.ts:12-18 | the seven ids the engine can push are distinct and are exactly the catalog's ids |
| `BadgeRules.Earns` | src/utils/badges.ts:12-18 | the rule for each badge id; spelled out per id by `EarnsRules` |
| `BadgeRules.HasAchievedGoal` | src/utils/badges.ts:16 | `goals.some(g => g.achieved_at !== null)`; `EarnsRules` makes it the goal_achieved rule and `AchievedGoalEarnsBadge` links it to the Goals page |
| `BadgeRules.SaverMonthExists` | src/utils/badges.ts:41-53 | some income falls in a calendar month with no expense; `HasSaverMonth` is proved equal to it |
| `BadgeRules.EarnedIds` | src/utils/badges.ts:4-21 | the award order filtered by `Earns`; its meaning is `EarnedIdsMeaning` |
| `BadgeRules.EarnsRules` | src/utils/badges.ts:12-18 | first_chore needs one income and chore_10 ten; first_expense needs one expense; first_goal needs one goal; goal_achieved needs a goal with a timestamp; chore_streak_7 needs 7 consecutive income days; saver_month needs a month with income and no expense |
| `BadgeRules.EarnsOnlyAwardIds` | src/utils/badges.ts:8-20 | no id outside the seven the engine pushes is ever earned |
| `BadgeRules.RunIsAddDays` | src/utils/badges.ts:31-33 | along a run of one-day steps, the date k places on is k days later |
| `BadgeRules.ConsecutiveDaysAreAdjacent` | src/utils/badges.ts:25-31 | in a chronological list of distinct days, consecutive calendar days that all occur sit next to each other |
| `BadgeRules.RunIffConsecutiveDays` | src/utils/badges.ts:26-37 | the sorted distinct dates hold k adjacent entries a day apart exactly when the set of dates holds k consecutive calendar days |
| `BadgeRules.DatesOf` | src/utils/badges.ts:25 | `incomes.map(t => t.date)` has one entry per income, and a date occurs in it exactly when some income is on that date |
| `BadgeRules.UniqueSortedDates` | src/utils/badges.ts:25 | `[...new Set(dates)].sort()`; its meaning is `UniqueSortedDatesFacts` |
| `BadgeRules.UniqueSortedDatesFacts` | src/utils/badges.ts:25 | the deduplicated, sorted dates are chronological calendar days, hold exactly the transactions' dates, and number at most the transactions |
| `BadgeRules.ConsecutiveDaysNeedTransactions` | src/utils/badges.ts:24 | k consecutive days need at least k transactions, so the length test at the start never rejects a real streak |
| `BadgeRules.ScanStep` | src/utils/badges.ts:31-36 | a one-day step extends the current streak, either keeping the walk's state or completing a run of k; any other step restarts it at 1 |
| `BadgeRules.StepIsConsec` | src/utils/badges.ts:28-31 | in the sorted distinct dates, a day-number difference of 1 between neighbours holds exactly when the later one is the next calendar day |
| `BadgeRules.ScanFinished` | src/utils/badges.ts:37-38 | a walk that reached the end of the dates without completing a streak shows there is no run of k consecutive days |
| `BadgeRules.HasChoreStreak` | src/utils/badges.ts:23-39 | false whenever there are fewer incomes than `days`; true exactly when the income dates hold max(days, 2) consecutive calendar days |
| `BadgeRules.MonthKey` | src/utils/badges.ts:44 | `t.date.slice(0, 7)`; by `MonthKeyIsMonth` equal keys are exactly equal calendar months |
| `BadgeRules.MonthKeys` | src/utils/badges.ts:44 | `map(t => t.date.slice(0, 7))` has one entry per transaction, and a string occurs in it exactly when it is the `YYYY-MM` month string of some transaction's calendar month |
| `BadgeRules.MonthKeyIsMonth` | src/utils/badges.ts:43-48 | two transactions share a `YYYY-MM` prefix exactly when they fall in the same calendar month |
| `BadgeRules.SaverMonthByKeys` | src/utils/badges.ts:43-51 | a saver month exists exactly when some income month key is missing from the set of expense month keys |
| `BadgeRules.ExpenseMonthKeys` | src/utils/badges.ts:46-48 | the set of expense month keys; `SaverMonthByKeys` shows that testing income keys against it decides the saver month rule |
| `BadgeRules.SaverKeyOf` | src/utils/badges.ts:43-48 | an income whose month has no expense contributes a key to the income months that is absent from the expense months |
| `BadgeRules.SaverMonthOfKey` | src/utils/badges.ts:46-50 | an income whose month key is not among the expense keys makes the saver month rule hold |
| `BadgeRules.HasSaverMonth` | src/utils/badges.ts:42-53 | true exactly when some income falls in a month that has no expense |
| `BadgeRules.EarnedIdsInAwardOrder` | src/utils/badges.ts:12-18 | the earned list is each rule's badge, when the rule holds, in push order |
| `BadgeRules.CheckEarnedBadgeIds` | src/utils/badges.ts:4-21 | the pushed list equals the award order filtered by the badge rules |
| `BadgeRules.EarnedIdsMeaning` | src/utils/badges.ts:8-20 | an id is earned exactly when its rule holds; each id appears once, in push order, and is in the catalog |
| `BadgeRules.RuleImplications` | src/utils/badges.ts:12-18 | chore_10 implies first_chore; saver_month implies first_chore; chore_streak_7 needs at least 7 chores; goal_achieved implies first_goal |
| `BadgeRules.EarnedIdsOrderIndependent` | src/utils/badges.ts:9-18 | permuting the transactions or the goals leaves the earned list unchanged |
| `BadgeRules.SameDayChoresCountOnce` | src/utils/badges.ts:25 | another chore on a day that already has one does not change whether the streak badge is earned |
| `BadgeRules.NothingEarnedFromNothing` | src/utils/badges.ts:4-21 | no transactions and no goals earn no badge |
| `BadgesPage.SavedIds` | src/pages/Badges/index.tsx:40 | `new Set(badges.map(b => b.badge_id))`; how it grows is `SavedIdsAfterInsert` |
| `BadgesPage.NewBadgeIds` | src/pages/Badges/index.tsx:41 | the earned ids not yet saved; its meaning is `NewBadgeIdsMeaning` |
| `BadgesPage.NewBadgeIdsMeaning` | src/pages/Badges/index.tsx:39-41 | the badges to store are exactly the earned ones not yet saved: a subset of the earned list, disjoint from the saved set, each once and in earned order |
| `BadgesPage.NothingNewOnceSaved` | src/pages/Badges/index.tsx:41-43 | when every earned badge is saved, nothing is to be stored |
| `BadgesPage.RowsFor` | src/pages/Badges/index.tsx:45 | one row per new badge; every row is owned by the current user; the rows save exactly the given badge ids |
| `BadgesPage.SavedIdsAfterInsert` | src/pages/Badges/index.tsx:45-46 | storing rows for some badges adds exactly those badges to the saved set |
| `BadgesPage.BadgeLedger.constructor` | src/hooks/useBadges.ts:16-22 | the ledger belongs to the signed-in user and holds exactly that user's rows of the badges table, in table order |
| `BadgesPage.BadgeLedger.Reconcile` | src/pages/Badges/index.tsx:36-47 | nothing is stored while anything is loading; otherwise the new rows are the owner's rows for the earned badges the owner has not saved; rows are only appended and remain the owner's; afterwards the owner's saved set is the old one plus every earned badge |
| `BadgesPage.OtherUsersIgnored` | src/hooks/useBadges.ts:18-21 | another user's row in the badges table changes nothing in this user's fetched rows, whose saved ids are exactly the ids of this user's rows |
| `BadgesPage.ReconcileIdempotent` | src/pages/Badges/index.tsx:39-46 | after one award, awarding again on the same data stores nothing |
| `BadgesPage.CatalogEntriesDistinct` | src/constants/badges.ts:3-46 | no badge definition appears twice in the catalog |
| `BadgesPage.EarnedBadges` | src/pages/Badges/index.tsx:50 | the catalog entries whose id is saved; see `CatalogPartition` |
| `BadgesPage.UnearnedBadges` | src/pages/Badges/index.tsx:51 | the catalog entries whose id is not saved; see `CatalogPartition` |
| `BadgesPage.CatalogPartition` | src/pages/Badges/index.tsx:49-51 | earned and unearned badges together are the catalog; a badge is earned exactly when its id is saved; both lists keep catalog order |
| `HistoryPage.DescendingIsStrictTotalOrder` | src/pages/History/index.tsx:37 | the comparator `b.localeCompare(a)` orders strings strictly and totally, larger first |
| `HistoryPage.Descending` | src/pages/History/index.tsx:37 | the comparator `b.localeCompare(a)`; `DescendingIsStrictTotalOrder` makes it a strict total order, larger strings first |
| `HistoryPage.AvailableMonths` | src/pages/History/index.tsx:34-40 | the distinct month strings sorted latest first; its meaning is `AvailableMonthsMeaning` |
| `HistoryPage.AvailableMonthsMeaning` | src/pages/History/index.tsx:34-40 | the month list has no duplicates, is in descending string order, lists exactly the `YYYY-MM` prefixes of the transactions, and each entry is the month string of some transaction |
| `HistoryPage.AvailableMonthsLatestFirst` | src/pages/History/index.tsx:36-38 | a later calendar month is listed before an earlier one |
| `HistoryPage.Filtered` | src/pages/History/index.tsx:42-48 | the whole list without a selection, else the transactions whose date starts with the selected month; its meaning is `FilteredMeaning` |
| `HistoryPage.FilteredMeaning` | src/pages/History/index.tsx:42-48 | with no month selected the whole history is shown; with a month selected, exactly that calendar month's transactions in original order |
| `HistoryPage.TotalIncome` | src/pages/History/index.tsx:50-53 | the amount total of the shown incomes; see `TotalsMeaning` |
| `HistoryPage.TotalExpense` | src/pages/History/index.tsx:55-58 | the amount total of the shown expenses; see `TotalsMeaning` |
| `HistoryPage.SumAmountsNonNegative` | src/pages/History/index.tsx:50-58 | a total of non-negative amounts is non-negative |
| `HistoryPage.TotalsMeaning` | src/pages/History/index.tsx:50-58 | with no month selected, income total minus expense total is the balance; both totals are non-negative when no amount is negative |
| `HistoryPage.EditedTransaction` | src/pages/History/index.tsx:72-85 | an edit is rejected exactly when the parsed amount is missing or not positive; otherwise the transaction keeps its id and owner and takes the new type, amount, description and date |
| `GoalsPage.IsAchieved` | src/pages/Goals/index.tsx:135 | `!!achieved_at`: a non-empty timestamp; linked to the badge rule by `AchievedGoalEarnsBadge` |
| `GoalsPage.AchievedGoalEarnsBadge` | src/pages/Goals/index.tsx:135 | a goal the page shows as achieved makes the goal_achieved rule hold |
| `GoalsPage.GoalPercent` | src/pages/Goals/index.tsx:136 | the percentage lies in [0, 100] |
| `GoalsPage.GoalPercentMeaning` | src/pages/Goals/index.tsx:136 | 0 exactly for a balance of 0 or less; 100 exactly when the balance reaches the target; otherwise balance × 100 / target |
| `GoalsPage.GoalPercentMonotone` | src/pages/Goals/index.tsx:136 | a larger balance never shows a smaller percentage |
| `GoalsPage.OffersMarkAchieved` | src/pages/Goals/index.tsx:166 | `!isAchieved && percent >= 100`; its meaning is `OffersMarkAchievedMeaning` |
| `GoalsPage.OffersMarkAchievedMeaning` | src/pages/Goals/index.tsx:166 | "mark achieved" is offered exactly for a goal not yet achieved whose target the balance reaches |
| `GoalsPage.NewGoal` | src/pages/Goals/index.tsx:30-38 | a goal is created exactly when the parsed target is positive; it belongs to the user, has that target and is not achieved |
| `OverviewPage.ActiveGoal` | src/pages/Overview/index.tsx:31 | no active goal exactly when every goal has a timestamp; otherwise a goal from the list without one |
| `OverviewPage.ActiveGoalIsFirst` | src/pages/Overview/index.tsx:31 | the active goal is the first goal in list order without a timestamp |
| `OverviewPage.GoalProgress` | src/pages/Overview/index.tsx:32-34 | the active goal's clamped percentage, 0 without one; its meaning is `GoalProgressMeaning` |
| `OverviewPage.GoalProgressMeaning` | src/pages/Overview/index.tsx:32-34 | 0 without an active goal; otherwise the Goals page's clamped percentage for that goal, although the clamps are applied in the other order; always in [0, 100] |
| `OverviewPage.RecentTransactions` | src/pages/Overview/index.tsx:36 | the recent list is a prefix of the transactions of length min(5, their number) |
| `OverviewPage.OverviewOf` | src/pages/Overview/index.tsx:16-22 | nothing is derived while transactions or goals are loading |
| `OverviewPage.OverviewMeaning` | src/pages/Overview/index.tsx:24-73 | the balance is income minus expense; the level lies in 1 to 5; the level bar is shown exactly below the top level, i.e. under 100 chores; goal progress is 0 without an active goal and otherwise the Goals page's percentage |

## Left out

- Supabase I/O. This covers the fetching hooks, the awaited `insert`, `update` and `delete` calls, `refetch`, and `useEffect` scheduling. The insert is modelled only as appending to `BadgeLedger.rows`. In the app, two effect runs could both insert before a refetch and store a badge twice; the ledger model, which updates `rows` at once, does not capture that race.
- Authentication, routing, JSX and all presentation: the level emoji map, the progress bar's width clamp, translations, and the Badges and Overview pages' display of level and chores-to-next.
- `formatMonth`. It depends on the locale-specific `toLocaleDateString`.
- `levelProgressPercent`. Its body is not part of this model's source files, so it has nothing to be checked against.
- `parseInt`, as string parsing. The model starts from its result as `Option<int>`. `title.trim()` and `description.trim()` are not modelled; the text is kept as given.
- `Date.getTime()` millisecond arithmetic and IEEE division. Dates are day triples and percentages are reals.
- `b.localeCompare(a)` and the default `sort` order are modelled as lexicographic order of characters (`TextBefore`). JavaScript compares UTF-16 code units, which differs from character order only for characters above U+FFFF; the date and month strings are ASCII digits and `-`, on which code-unit order, character order and any locale collation agree. Locale tailoring in general is not modelled.
- `HistoryPage.AvailableMonthsMeaning` treats month strings as given by `MonthText`. A `YYYY-MM-DD` date whose text is malformed is outside the model: every transaction date is an `IsoDate` with a four-digit year.
- `GoalsPage.GoalPercent` requires `target > 0`. A goal is only ever created with a positive target (`GoalsPage.NewGoal`). The source would divide by zero for a stored target of 0, giving `Infinity` or `NaN`; that case is not modelled.
- `OverviewPage.OverviewOf` requires every goal's target to be positive, for the same reason.
- The edit and delete state machine of the History page and the form state of the Goals page. Only the guards and the resulting records are modelled.
