/**
 * The records the core reads: transactions, goals, earned-badge rows, the badge
 * catalog's entries and the level table's entries.
 */
module Types {
  import opened Calendar

  /** `T | null`. */
  datatype Option<T> = None | Some(value: T)

  /** A transaction is either a chore (income) or a purchase (expense). */
  datatype TxType = Income | Expense

  /** The source's `type` field is called `kind` here; `date` is a `YYYY-MM-DD` day. */
  datatype Transaction = Transaction(
    id: string,
    userId: string,
    kind: TxType,
    amount: int,
    description: string,
    date: IsoDate,
    createdAt: string)

  /** `achievedAt` is `None` while the goal has not been achieved. */
  datatype Goal = Goal(
    id: string,
    userId: string,
    title: string,
    targetAmount: int,
    createdAt: string,
    achievedAt: Option<string>)

  /**
   * The columns of an earned-badge row that the core reads and writes; the row's
   * own id and its `achieved_at` timestamp are assigned by the store.
   */
  datatype BadgeRow = BadgeRow(userId: string, badgeId: string)

  datatype BadgeDefinition = BadgeDefinition(
    id: string,
    emoji: string,
    nameKey: string,
    descriptionKey: string)

  datatype LevelThreshold = LevelThreshold(level: int, minChores: int)

  predicate IsIncome(t: Transaction) {
    t.kind == Income
  }

  predicate IsExpense(t: Transaction) {
    t.kind == Expense
  }

  /**
   * The amount check both entry forms apply to the result of `parseInt`
   * (`None` standing for `NaN`): `!amount || amount <= 0` rejects it.
   */
  function AcceptedAmount(parsed: Option<int>): (amount: Option<int>)
    ensures amount.Some? <==> parsed.Some? && parsed.value > 0
    ensures amount.Some? ==> amount.value == parsed.value
  {
    match parsed
    case None => None
    case Some(v) => if v == 0 || v <= 0 then None else Some(v)
  }
}
