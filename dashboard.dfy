/** The personal dashboard: date-range filter, balance and totals, the five
    merchants with the largest spending and the month with the largest
    spending of all time. */
module Dashboard {
  import opened Types
  import opened Seqs
  import opened Numbers
  import opened Grouping

  /** The range filter. `cutoff` is the timestamp the clock gives for the
      chosen range (a week, one, three or six months, a year back); the
      `'ALL'` range needs none. */
  function FilterByRange(ts: seq<Transaction>, range: DateRange, cutoff: int): (r: seq<Transaction>)
    ensures range == All ==> r == ts
    ensures range != All ==> forall t :: t in r <==> t in ts && t.date >= cutoff
  {
    if range == All then ts else Filter(ts, (t: Transaction) => t.date >= cutoff)
  }

  /** A narrower range keeps the order of what it keeps: filtering distributes
      over concatenation. */
  lemma FilterByRangeKeepsOrder(a: seq<Transaction>, b: seq<Transaction>, range: DateRange, cutoff: int)
    ensures FilterByRange(a + b, range, cutoff) == FilterByRange(a, range, cutoff) + FilterByRange(b, range, cutoff)
  {
    if range != All {
      FilterAppend(a, b, (t: Transaction) => t.date >= cutoff);
    }
  }

  function IsIncome(t: Transaction): bool { t.kind == Income }

  /** What one transaction adds to the balance. */
  function SignedAmount(t: Transaction): real {
    if t.kind == Income then t.amount else -t.amount
  }

  /** `reduce((acc, t) => t.type === INCOME ? acc + t.amount : acc - t.amount, 0)`. */
  function TotalBalance(ts: seq<Transaction>): real {
    Sum(ts, SignedAmount)
  }

  function Expenses(ts: seq<Transaction>): (r: seq<Transaction>)
    ensures forall t :: t in r <==> t in ts && t.kind == Expense
  {
    Filter(ts, IsExpense)
  }

  function Incomes(ts: seq<Transaction>): (r: seq<Transaction>)
    ensures forall t :: t in r <==> t in ts && t.kind == Income
  {
    Filter(ts, IsIncome)
  }

  function TotalExpenses(ts: seq<Transaction>): real { Sum(Expenses(ts), Amount) }

  function TotalIncome(ts: seq<Transaction>): real { Sum(Incomes(ts), Amount) }

  /** The balance is the income minus the spending. */
  lemma {:induction false} BalanceIsIncomeMinusExpenses(ts: seq<Transaction>)
    ensures TotalBalance(ts) == TotalIncome(ts) - TotalExpenses(ts)
  {
    if ts != [] {
      var init, last := ts[..|ts| - 1], ts[|ts| - 1];
      assert ts == init + [last];
      BalanceIsIncomeMinusExpenses(init);
      FilterAppend(init, [last], IsExpense);
      FilterAppend(init, [last], IsIncome);
      FilterOne(last, IsExpense);
      FilterOne(last, IsIncome);
      SumAppend(Expenses(init), Expenses([last]), Amount);
      SumAppend(Incomes(init), Incomes([last]), Amount);
      assert Sum([last], Amount) == last.amount;
    }
  }

  /** Spending and income split the transactions: each transaction is in
      exactly one of them, and each keeps the original order. */
  lemma ExpensesIncomePartition(a: seq<Transaction>, b: seq<Transaction>)
    ensures multiset(Expenses(a)) + multiset(Incomes(a)) == multiset(a)
    ensures Expenses(a + b) == Expenses(a) + Expenses(b)
    ensures Incomes(a + b) == Incomes(a) + Incomes(b)
  {
    FilterPartition(a, IsExpense, IsIncome);
    FilterAppend(a, b, IsExpense);
    FilterAppend(a, b, IsIncome);
  }

  datatype MerchantRow = MerchantRow(name: string, amount: real, percent: JsNumber)

  function MerchantName(t: Transaction): string { t.merchantName }

  function RowOf(total: real): ((string, real)) -> MerchantRow {
    (e: (string, real)) => MerchantRow(e.0, e.1, Percent(e.1, total))
  }

  /** The merchants' totals, largest first. */
  function RankedMerchants(expenses: seq<Transaction>): (r: seq<(string, real)>)
    ensures multiset(r) == multiset(Entries(expenses, MerchantName))
    ensures SortedDesc(r, Total)
  {
    SortDesc(Entries(expenses, MerchantName), Total)
  }

  /** The `topMerchants` memo on the filtered spending. */
  function TopMerchants(expenses: seq<Transaction>): (r: seq<MerchantRow>)
    ensures |r| <= 5
  {
    Map(Take(RankedMerchants(expenses), 5), RowOf(Sum(expenses, Amount)))
  }

  method ComputeTopMerchants(expenses: seq<Transaction>) returns (top: seq<MerchantRow>)
    ensures top == TopMerchants(expenses)
  {
    var entries := GroupTotals(expenses, MerchantName);
    var sorted := SortDesc(entries, Total);
    var totalExpenses := Sum(expenses, Amount);
    top := Map(Take(sorted, 5), RowOf(totalExpenses));
  }

  /** Five rows, or one per merchant when there are fewer merchants. */
  lemma TopMerchantsLength(expenses: seq<Transaction>)
    ensures |TopMerchants(expenses)| == if |GroupKeys(expenses, MerchantName)| < 5
      then |GroupKeys(expenses, MerchantName)| else 5
  {
  }

  /** Row `i` of the top list is entry `i` of the ranking. */
  lemma TopMerchantsRow(expenses: seq<Transaction>, i: int)
    requires 0 <= i < |TopMerchants(expenses)|
    ensures TopMerchants(expenses)[i] == RowOf(Sum(expenses, Amount))(RankedMerchants(expenses)[i])
  {
  }

  /** Each row is a merchant with spending, and its amount is that merchant's
      total; no merchant has two rows. */
  lemma TopMerchantsTotals(expenses: seq<Transaction>)
    ensures forall r :: r in TopMerchants(expenses) ==>
      r.name in Map(expenses, MerchantName) && r.amount == SumWhere(expenses, MerchantName, r.name, Amount)
    ensures forall i, j :: 0 <= i < j < |TopMerchants(expenses)| ==>
      TopMerchants(expenses)[i].name != TopMerchants(expenses)[j].name
  {
    var ranked, top := RankedMerchants(expenses), TopMerchants(expenses);
    forall r | r in top ensures r.name in Map(expenses, MerchantName)
      && r.amount == SumWhere(expenses, MerchantName, r.name, Amount)
    {
      var i :| 0 <= i < |top| && top[i] == r;
      TopMerchantsRow(expenses, i);
      assert ranked[i] in multiset(Entries(expenses, MerchantName));
      EntriesExactly(expenses, MerchantName, ranked[i]);
    }
    EntriesDistinct(expenses, MerchantName, ranked);
    forall i, j | 0 <= i < j < |top| ensures top[i].name != top[j].name {
      TopMerchantsRow(expenses, i);
      TopMerchantsRow(expenses, j);
    }
  }

  /** The rows come largest first, and each percent is the share of the total
      spending (not a number when that total is zero). */
  lemma TopMerchantsOrdered(expenses: seq<Transaction>)
    ensures forall i, j :: 0 <= i < j < |TopMerchants(expenses)| ==>
      TopMerchants(expenses)[i].amount >= TopMerchants(expenses)[j].amount
    ensures forall r :: r in TopMerchants(expenses) ==> r.percent == Percent(r.amount, Sum(expenses, Amount))
  {
    var ranked, top := RankedMerchants(expenses), TopMerchants(expenses);
    forall i, j | 0 <= i < j < |top| ensures top[i].amount >= top[j].amount {
      TopMerchantsRow(expenses, i);
      TopMerchantsRow(expenses, j);
    }
  }

  /** A merchant left out of the list spent no more than any merchant in it. */
  lemma TopMerchantsAreTop(expenses: seq<Transaction>, m: string)
    requires m in Map(expenses, MerchantName)
    requires forall r :: r in TopMerchants(expenses) ==> r.name != m
    ensures forall r :: r in TopMerchants(expenses) ==> SumWhere(expenses, MerchantName, m, Amount) <= r.amount
  {
    var ranked, top := RankedMerchants(expenses), TopMerchants(expenses);
    var e := (m, SumWhere(expenses, MerchantName, m, Amount));
    EntriesExactly(expenses, MerchantName, e);
    assert e in multiset(ranked);
    var j :| 0 <= j < |ranked| && ranked[j] == e;
    forall i | 0 <= i < |top| ensures ranked[i] != e {
      TopMerchantsRow(expenses, i);
      assert top[i] in top;
    }
    forall r | r in top ensures e.1 <= r.amount {
      var i :| 0 <= i < |top| && top[i] == r;
      TopMerchantsRow(expenses, i);
    }
  }

  datatype MonthTotal = MonthTotal(date: string, amount: real)

  /** The grouping key of `athMonth`: the month label of the transaction's
      date, which the locale produces. */
  function MonthKey(monthOf: int -> string): Transaction -> string {
    (t: Transaction) => monthOf(t.date)
  }

  /** Every month's spending over all transactions, largest first. */
  function RankedMonths(ts: seq<Transaction>, monthOf: int -> string): (r: seq<(string, real)>)
    ensures multiset(r) == multiset(Entries(Expenses(ts), MonthKey(monthOf)))
    ensures SortedDesc(r, Total)
  {
    SortDesc(Entries(Expenses(ts), MonthKey(monthOf)), Total)
  }

  /** The `athMonth` memo: the first of the ranked months, if any. */
  function AthMonth(ts: seq<Transaction>, monthOf: int -> string): Option<MonthTotal> {
    var sorted := RankedMonths(ts, monthOf);
    if |sorted| > 0 then Some(MonthTotal(sorted[0].0, sorted[0].1)) else None
  }

  method ComputeAthMonth(ts: seq<Transaction>, monthOf: int -> string) returns (ath: Option<MonthTotal>)
    ensures ath == AthMonth(ts, monthOf)
  {
    var allExpenses := Filter(ts, IsExpense);
    var entries := GroupTotals(allExpenses, MonthKey(monthOf));
    var sorted := SortDesc(entries, Total);
    ath := if |sorted| > 0 then Some(MonthTotal(sorted[0].0, sorted[0].1)) else None;
  }

  /** There is a record month exactly when there is some spending. */
  lemma AthMonthNone(ts: seq<Transaction>, monthOf: int -> string)
    ensures AthMonth(ts, monthOf) == None <==> forall t :: t in ts ==> t.kind != Expense
  {
    EntriesEmpty(Expenses(ts), MonthKey(monthOf));
    if Expenses(ts) != [] {
      assert Expenses(ts)[0] in Expenses(ts);
    }
  }

  /** The record month is a month with spending and its amount is that
      month's total. */
  lemma AthMonthIsMonthTotal(ts: seq<Transaction>, monthOf: int -> string)
    requires AthMonth(ts, monthOf).Some?
    ensures var ath := AthMonth(ts, monthOf).value;
      ath.date in Map(Expenses(ts), MonthKey(monthOf))
      && ath.amount == SumWhere(Expenses(ts), MonthKey(monthOf), ath.date, Amount)
  {
    var ranked := RankedMonths(ts, monthOf);
    assert ranked[0] in multiset(Entries(Expenses(ts), MonthKey(monthOf)));
    EntriesExactly(Expenses(ts), MonthKey(monthOf), ranked[0]);
  }

  /** No month's total is larger than the record month's. */
  lemma AthMonthIsMax(ts: seq<Transaction>, monthOf: int -> string, t: Transaction)
    requires AthMonth(ts, monthOf).Some?
    requires t in Expenses(ts)
    ensures SumWhere(Expenses(ts), MonthKey(monthOf), monthOf(t.date), Amount) <= AthMonth(ts, monthOf).value.amount
  {
    var es, key := Expenses(ts), MonthKey(monthOf);
    var ranked := RankedMonths(ts, monthOf);
    KeyOfMember(es, key, t);
    var e := (monthOf(t.date), SumWhere(es, key, monthOf(t.date), Amount));
    EntriesExactly(es, key, e);
    assert e in multiset(ranked);
    var j :| 0 <= j < |ranked| && ranked[j] == e;
  }
}
