/** The balance fold of `calculateBalance` and the income/expense views over a history. */
module Balance {
  import opened Seqs
  import opened Types

  /** What one transaction contributes to the balance. */
  function SignedAmount(t: Transaction): int {
    if t.kind == Income then t.amount else -t.amount
  }

  /** `calculateBalance`: a left fold from 0 adding incomes and subtracting expenses. */
  function CalculateBalance(ts: seq<Transaction>): int {
    if ts == [] then 0
    else CalculateBalance(ts[..|ts| - 1]) + SignedAmount(ts[|ts| - 1])
  }

  /** `reduce((s, tx) => s + tx.amount, 0)`. */
  function SumAmounts(ts: seq<Transaction>): int {
    if ts == [] then 0
    else SumAmounts(ts[..|ts| - 1]) + ts[|ts| - 1].amount
  }

  function Incomes(ts: seq<Transaction>): seq<Transaction> {
    Filter(ts, IsIncome)
  }

  function Expenses(ts: seq<Transaction>): seq<Transaction> {
    Filter(ts, IsExpense)
  }

  /** The number of chores: income transactions. */
  function ChoreCount(ts: seq<Transaction>): (n: nat)
    ensures n <= |ts|
    ensures n == 0 <==> forall t :: t in ts ==> !IsIncome(t)
  {
    var incomes := Incomes(ts);
    assert incomes != [] ==> incomes[0] in incomes;
    |incomes|
  }

  lemma BalanceOfEmpty()
    ensures CalculateBalance([]) == 0
  {}

  /** Appending an income raises the balance by its amount; an expense lowers it. */
  lemma BalanceAppendOne(ts: seq<Transaction>, t: Transaction)
    ensures CalculateBalance(ts + [t]) ==
      if IsIncome(t) then CalculateBalance(ts) + t.amount else CalculateBalance(ts) - t.amount
  {
    assert (ts + [t])[..|ts|] == ts;
  }

  lemma {:induction false} SumAmountsAppend(xs: seq<Transaction>, ys: seq<Transaction>)
    ensures SumAmounts(xs + ys) == SumAmounts(xs) + SumAmounts(ys)
    decreases |ys|
  {
    if ys == [] {
      assert xs + ys == xs;
    } else {
      assert (xs + ys)[..|xs + ys| - 1] == xs + ys[..|ys| - 1];
      SumAmountsAppend(xs, ys[..|ys| - 1]);
    }
  }

  /** The balance is the total of the incomes minus the total of the expenses. */
  lemma {:induction false} BalanceIsIncomeMinusExpense(ts: seq<Transaction>)
    ensures CalculateBalance(ts) == SumAmounts(Incomes(ts)) - SumAmounts(Expenses(ts))
  {
    if ts != [] {
      var init := ts[..|ts| - 1];
      var t := ts[|ts| - 1];
      BalanceIsIncomeMinusExpense(init);
      var fi, fe := Incomes(init), Expenses(init);
      if IsIncome(t) {
        assert Incomes(ts) == fi + [t] && Expenses(ts) == fe;
        assert (fi + [t])[..|fi|] == fi;
      } else {
        assert Incomes(ts) == fi && Expenses(ts) == fe + [t];
        assert (fe + [t])[..|fe|] == fe;
      }
    }
  }

  /** The balance of a concatenation is the sum of the balances. */
  lemma {:induction false} BalanceAppend(xs: seq<Transaction>, ys: seq<Transaction>)
    ensures CalculateBalance(xs + ys) == CalculateBalance(xs) + CalculateBalance(ys)
    decreases |ys|
  {
    if ys == [] {
      assert xs + ys == xs;
    } else {
      assert (xs + ys)[..|xs + ys| - 1] == xs + ys[..|ys| - 1];
      BalanceAppend(xs, ys[..|ys| - 1]);
    }
  }

  /** The order of the transactions does not matter to the balance. */
  lemma {:induction false} BalancePermutation(xs: seq<Transaction>, ys: seq<Transaction>)
    requires multiset(xs) == multiset(ys)
    ensures CalculateBalance(xs) == CalculateBalance(ys)
    decreases |xs|
  {
    if xs != [] {
      var init := xs[..|xs| - 1];
      var x := xs[|xs| - 1];
      assert xs == init + [x];
      assert x in multiset(ys);
      var k :| 0 <= k < |ys| && ys[k] == x;
      var rest := ys[..k] + ys[k + 1..];
      assert ys == ys[..k] + [x] + ys[k + 1..];
      assert multiset(ys) == multiset(ys[..k]) + multiset{x} + multiset(ys[k + 1..]);
      assert multiset(xs) == multiset(init) + multiset{x};
      assert multiset(rest) == multiset(ys[..k]) + multiset(ys[k + 1..]);
      assert multiset(init) == multiset(xs) - multiset{x};
      assert multiset(rest) == multiset(ys) - multiset{x};
      BalancePermutation(init, rest);
      BalanceAppend(ys[..k], ys[k + 1..]);
      BalanceAppend(ys[..k] + [x], ys[k + 1..]);
      BalanceAppendOne(ys[..k], x);
      BalanceAppendOne(init, x);
    }
  }

  /** The order of the transactions does not matter to the chore count. */
  lemma ChoreCountPermutation(xs: seq<Transaction>, ys: seq<Transaction>)
    requires multiset(xs) == multiset(ys)
    ensures ChoreCount(xs) == ChoreCount(ys)
    ensures |Expenses(xs)| == |Expenses(ys)|
  {
    FilterPermutation(xs, ys, IsIncome);
    FilterPermutation(xs, ys, IsExpense);
  }
}
