/**
 * The History page's derived lists: the months that have transactions, the
 * transactions of the selected month, and that selection's income and expense
 * totals; and the check that guards saving an edited transaction.
 */
module HistoryPage {
  import opened Seqs
  import opened Calendar
  import opened Types
  import opened Balance
  import opened BadgeRules

  /** The comparator `(a, b) => b.localeCompare(a)` as a "comes first" relation: larger strings first. */
  predicate Descending(a: string, b: string) {
    TextBefore(b, a)
  }

  /** `[...new Set(transactions.map(tx => tx.date.slice(0, 7)))].sort((a, b) => b.localeCompare(a))`. */
  function AvailableMonths(ts: seq<Transaction>): seq<string> {
    Sort(Dedup(MonthKeys(ts)), Descending)
  }

  lemma DescendingIsStrictTotalOrder()
    ensures StrictTotalOrder(Descending)
  {
    TextBeforeIsStrictTotalOrder();
  }

  /**
   * The month list names each month that has a transaction, once, as its
   * `YYYY-MM` string, latest month first.
   */
  lemma AvailableMonthsMeaning(ts: seq<Transaction>)
    ensures NoDup(AvailableMonths(ts))
    ensures StrictlySorted(AvailableMonths(ts), Descending)
    ensures forall m :: m in AvailableMonths(ts) <==> exists t :: t in ts && MonthKey(t) == m
    ensures forall m :: m in AvailableMonths(ts) ==> exists t :: t in ts && m == MonthText(MonthOf(t.date))
  {
    var months := AvailableMonths(ts);
    var keys := Dedup(MonthKeys(ts));
    DescendingIsStrictTotalOrder();
    SortSorted(keys, Descending);
    StrictlySortedNoDup(months, Descending);
    forall m ensures m in months <==> exists t :: t in ts && MonthKey(t) == m {
      assert m in months <==> m in multiset(months);
      assert m in keys <==> m in multiset(keys);
      if m in keys {
        var i :| 0 <= i < |ts| && MonthKeys(ts)[i] == m;
        assert ts[i] in ts;
      } else {
        forall t | t in ts ensures MonthKey(t) != m {
          var i :| 0 <= i < |ts| && ts[i] == t;
          assert MonthKeys(ts)[i] == MonthKey(t);
        }
      }
    }
    forall t | t in ts ensures MonthKey(t) == MonthText(MonthOf(t.date)) {
      DateTextMonthPrefix(t.date);
    }
  }

  /** A later month is listed before an earlier one. */
  lemma AvailableMonthsLatestFirst(ts: seq<Transaction>, t1: Transaction, t2: Transaction)
    requires t1 in ts && t2 in ts && MonthBefore(MonthOf(t1.date), MonthOf(t2.date))
    ensures MonthKey(t1) in AvailableMonths(ts) && MonthKey(t2) in AvailableMonths(ts)
    ensures IndexOf(AvailableMonths(ts), MonthKey(t2)) < IndexOf(AvailableMonths(ts), MonthKey(t1))
  {
    var months := AvailableMonths(ts);
    AvailableMonthsMeaning(ts);
    var k1, k2 := MonthKey(t1), MonthKey(t2);
    DateTextMonthPrefix(t1.date);
    DateTextMonthPrefix(t2.date);
    MonthTextOrder(MonthOf(t1.date), MonthOf(t2.date));
    DescendingIsStrictTotalOrder();
    SortedIndexOf(months, Descending, k2, k1);
  }

  /** The filter `tx => tx.date.startsWith(prefix)`. */
  function DatePrefixIs(prefix: string): Transaction -> bool {
    (t: Transaction) => StartsWith(DateText(t.date), prefix)
  }

  /**
   * `selectedMonth ? transactions.filter(tx => tx.date.startsWith(selectedMonth)) : transactions`;
   * `None` and the empty string both mean no month is selected.
   */
  function Filtered(ts: seq<Transaction>, selected: Option<string>): seq<Transaction> {
    if selected.None? || selected.value == "" then ts
    else Filter(ts, DatePrefixIs(selected.value))
  }

  function InMonth(m: Month): Transaction -> bool {
    (t: Transaction) => MonthOf(t.date) == m
  }

  /**
   * With no month selected the whole history is shown; with a month's `YYYY-MM`
   * string selected, exactly the transactions of that calendar month, in their
   * original order.
   */
  lemma FilteredMeaning(ts: seq<Transaction>, m: Month)
    requires IsIsoMonth(m)
    ensures Filtered(ts, None) == ts && Filtered(ts, Some("")) == ts
    ensures Filtered(ts, Some(MonthText(m))) == Filter(ts, InMonth(m))
    ensures forall t :: t in Filtered(ts, Some(MonthText(m))) <==> t in ts && MonthOf(t.date) == m
  {
    forall t | t in ts ensures DatePrefixIs(MonthText(m))(t) == InMonth(m)(t) {
      StartsWithMonth(t.date, m);
    }
    FilterCongruence(ts, DatePrefixIs(MonthText(m)), InMonth(m));
  }

  /** `filtered.filter(tx => tx.type === 'income').reduce((s, tx) => s + tx.amount, 0)`. */
  function TotalIncome(filtered: seq<Transaction>): int {
    SumAmounts(Incomes(filtered))
  }

  /** `filtered.filter(tx => tx.type === 'expense').reduce((s, tx) => s + tx.amount, 0)`. */
  function TotalExpense(filtered: seq<Transaction>): int {
    SumAmounts(Expenses(filtered))
  }

  lemma {:induction false} SumAmountsNonNegative(ts: seq<Transaction>)
    requires forall t :: t in ts ==> t.amount >= 0
    ensures SumAmounts(ts) >= 0
  {
    if ts != [] {
      assert forall t :: t in ts[..|ts| - 1] ==> t in ts;
      SumAmountsNonNegative(ts[..|ts| - 1]);
    }
  }

  /**
   * With no month selected, income minus expense is the balance; for any
   * selection, both totals are non-negative when no amount is negative.
   */
  lemma TotalsMeaning(ts: seq<Transaction>, selected: Option<string>)
    ensures TotalIncome(Filtered(ts, None)) - TotalExpense(Filtered(ts, None)) == CalculateBalance(ts)
    ensures (forall t :: t in ts ==> t.amount >= 0) ==>
      TotalIncome(Filtered(ts, selected)) >= 0 && TotalExpense(Filtered(ts, selected)) >= 0
  {
    BalanceIsIncomeMinusExpense(ts);
    var f := Filtered(ts, selected);
    assert forall t :: t in f ==> t in ts;
    if forall t :: t in ts ==> t.amount >= 0 {
      SumAmountsNonNegative(Incomes(f));
      SumAmountsNonNegative(Expenses(f));
    }
  }

  /**
   * Saving an edit: the transaction with its new type, amount, description and
   * date, or `None` when the parsed amount is missing or not positive, in which
   * case nothing is saved.
   */
  function EditedTransaction(tx: Transaction, kind: TxType, parsedAmount: Option<int>,
                             description: string, date: IsoDate): (r: Option<Transaction>)
    ensures r.None? <==> AcceptedAmount(parsedAmount).None?
    ensures r.Some? ==> r.value.amount > 0 && r.value.amount == parsedAmount.value
    ensures r.Some? ==> r.value == tx.(kind := kind, amount := parsedAmount.value,
                                       description := description, date := date)
  {
    match AcceptedAmount(parsedAmount)
    case None => None
    case Some(amount) => Some(tx.(kind := kind, amount := amount, description := description, date := date))
  }
}
