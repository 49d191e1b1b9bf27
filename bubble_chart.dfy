/** The category bubbles: spending per category with its share of the total,
    largest first, and the six bubbles drawn with a clamped size. */
module BubbleChart {
  import opened Types
  import opened Seqs
  import opened Numbers
  import opened Grouping

  datatype Bubble = Bubble(name: Category, value: real, percent: JsNumber)

  function CategoryOf(t: Transaction): Category { t.category }

  function Value(b: Bubble): real { b.value }

  /** `([name, value]) => ({ name, value, percent: (value / total) * 100 })`. */
  function BubbleOf(total: real): ((Category, real)) -> Bubble {
    (e: (Category, real)) => Bubble(e.0, e.1, Percent(e.1, total))
  }

  /** The bubbles before sorting, in first-seen category order. */
  function Unsorted(expenses: seq<Transaction>): seq<Bubble> {
    Map(Entries(expenses, CategoryOf), BubbleOf(Sum(expenses, Amount)))
  }

  /** The `data` memo. */
  function Data(ts: seq<Transaction>): (r: seq<Bubble>)
    ensures multiset(r) == multiset(Unsorted(Filter(ts, IsExpense)))
    ensures SortedDesc(r, Value)
  {
    SortDesc(Unsorted(Filter(ts, IsExpense)), Value)
  }

  /** The category totals, largest first. */
  function RankedCategories(expenses: seq<Transaction>): (r: seq<(Category, real)>)
    ensures multiset(r) == multiset(Entries(expenses, CategoryOf))
    ensures SortedDesc(r, Total)
  {
    SortDesc(Entries(expenses, CategoryOf), Total)
  }

  /** Sorting the bubbles is sorting the category totals they come from. */
  lemma DataIsRanked(ts: seq<Transaction>)
    ensures Data(ts) == Map(RankedCategories(Filter(ts, IsExpense)), BubbleOf(Sum(Filter(ts, IsExpense), Amount)))
  {
    var es := Filter(ts, IsExpense);
    SortDescMap(Entries(es, CategoryOf), BubbleOf(Sum(es, Amount)), Total, Value);
  }

  /** The loop of the memo: one pass over the spending that fills the
      category `Map` and adds up `total`; then the `Map`'s entries. */
  method FillCategories(expenses: seq<Transaction>) returns (entries: seq<(Category, real)>, total: real)
    ensures entries == Entries(expenses, CategoryOf)
    ensures total == Sum(expenses, Amount)
  {
    var keys: seq<Category> := [];
    var totals: map<Category, real> := map[];
    total := 0.0;
    for t := 0 to |expenses|
      invariant Filled(expenses, t, CategoryOf, keys, totals)
      invariant total == Sum(expenses[..t], Amount)
    {
      var c := expenses[t].category;
      var keys' := if c in totals then keys else keys + [c];
      var totals' := Bump(totals, c, expenses[t].amount);
      GroupStep(expenses, t, CategoryOf, keys, totals, keys', totals');
      SumStep(expenses, t);
      keys, totals := keys', totals';
      total := total + expenses[t].amount;
    }
    SumDone(expenses, total);
    entries := Map(keys, Lookup(totals));
    FilledEntries(expenses, CategoryOf, keys, totals);
  }

  /** Builds `data` the way the memo does. */
  method ComputeData(ts: seq<Transaction>) returns (data: seq<Bubble>)
    ensures data == Data(ts)
  {
    var expenses := Filter(ts, IsExpense);
    var entries, total := FillCategories(expenses);
    data := SortDesc(Map(entries, BubbleOf(total)), Value);
  }

  /** Each bubble is a category with spending, its value is that category's
      total, and its percent is that total's share of all spending. */
  lemma DataBubbles(ts: seq<Transaction>, i: int)
    requires 0 <= i < |Data(ts)|
    ensures var b := Data(ts)[i];
      b.name in Map(Filter(ts, IsExpense), CategoryOf)
      && b.value == SumWhere(Filter(ts, IsExpense), CategoryOf, b.name, Amount)
      && b.percent == Percent(b.value, Sum(Filter(ts, IsExpense), Amount))
  {
    var es := Filter(ts, IsExpense);
    var ranked := RankedCategories(es);
    DataIsRanked(ts);
    assert ranked[i] in multiset(Entries(es, CategoryOf));
    EntriesExactly(es, CategoryOf, ranked[i]);
  }

  /** One bubble per category that has spending. */
  lemma DataOnePerCategory(ts: seq<Transaction>)
    ensures |Data(ts)| == |GroupKeys(Filter(ts, IsExpense), CategoryOf)|
    ensures forall c :: c in Map(Filter(ts, IsExpense), CategoryOf) ==> exists b :: b in Data(ts) && b.name == c
  {
    var es := Filter(ts, IsExpense);
    var ranked, data := RankedCategories(es), Data(ts);
    DataIsRanked(ts);
    forall c | c in Map(es, CategoryOf) ensures exists b :: b in data && b.name == c {
      var e := (c, SumWhere(es, CategoryOf, c, Amount));
      EntriesExactly(es, CategoryOf, e);
      assert e in multiset(ranked);
      var j :| 0 <= j < |ranked| && ranked[j] == e;
      assert data[j].name == c;
    }
  }

  /** No category has two bubbles. */
  lemma DataDistinct(ts: seq<Transaction>)
    ensures forall i, j :: 0 <= i < j < |Data(ts)| ==> Data(ts)[i].name != Data(ts)[j].name
  {
    var es := Filter(ts, IsExpense);
    DataIsRanked(ts);
    EntriesDistinct(es, CategoryOf, RankedCategories(es));
  }

  /** The bubbles add up to all spending. */
  lemma DataTotal(ts: seq<Transaction>)
    ensures Sum(Data(ts), Value) == Sum(Filter(ts, IsExpense), Amount)
  {
    var es := Filter(ts, IsExpense);
    DataIsRanked(ts);
    SumMap(RankedCategories(es), BubbleOf(Sum(es, Amount)), Value, Total);
    SumSortDesc(Entries(es, CategoryOf), Total, Total);
    EntriesSum(es, CategoryOf);
  }

  /** The empty-state message shows exactly when there is no spending. */
  lemma DataEmpty(ts: seq<Transaction>)
    ensures Data(ts) == [] <==> forall t :: t in ts ==> t.kind != Expense
  {
    var es := Filter(ts, IsExpense);
    EntriesEmpty(es, CategoryOf);
    if es != [] {
      assert es[0] in es;
    }
  }

  /** The percent as a number, zero where it is not one. */
  function PercentValue(b: Bubble): real {
    if b.percent.Finite? then b.percent.value else 0.0
  }

  /** The bubble's percent is its value's share of `total`. */
  ghost predicate Proportional(b: Bubble, total: real) {
    b.percent.Finite? && b.percent.value * total == b.value * 100.0
  }

  /** Proportional bubbles: their percents and values add up in the same
      proportion. */
  lemma {:induction false} SumProportional(s: seq<Bubble>, total: real)
    requires forall b :: b in s ==> Proportional(b, total)
    ensures Sum(s, PercentValue) * total == Sum(s, Value) * 100.0
  {
    if s != [] {
      var init, last := s[..|s| - 1], s[|s| - 1];
      assert forall b :: b in init ==> b in s;
      SumProportional(init, total);
      assert last in s;
      Distribute(Sum(init, PercentValue), last.percent.value, total);
      Distribute(Sum(init, Value), last.value, 100.0);
    }
  }

  lemma Distribute(x: real, y: real, k: real)
    ensures (x + y) * k == x * k + y * k
  {
  }

  /** Each bubble's percent is its value's share of all spending. */
  lemma PercentsProportional(ts: seq<Transaction>)
    requires Sum(Filter(ts, IsExpense), Amount) != 0.0
    ensures forall b :: b in Data(ts) ==> Proportional(b, Sum(Filter(ts, IsExpense), Amount))
  {
    var data := Data(ts);
    var total := Sum(Filter(ts, IsExpense), Amount);
    forall b | b in data ensures Proportional(b, total) {
      var i :| 0 <= i < |data| && data[i] == b;
      DataBubbles(ts, i);
      BubblePercent(b, total);
    }
  }

  lemma BubblePercent(b: Bubble, total: real)
    requires total != 0.0 && b.percent == Percent(b.value, total)
    ensures Proportional(b, total)
  {
  }

  lemma Cancel(p: real, v: real, t: real)
    requires t != 0.0 && p * t == v * 100.0 && v == t
    ensures p == 100.0
  {
    assert (p - 100.0) * t == 0.0;
  }

  /** With some spending in total, the percents add up to 100. */
  lemma PercentsSumTo100(ts: seq<Transaction>)
    requires Sum(Filter(ts, IsExpense), Amount) != 0.0
    ensures forall b :: b in Data(ts) ==> b.percent.Finite?
    ensures Sum(Data(ts), PercentValue) == 100.0
  {
    PercentsProportional(ts);
    DataTotal(ts);
    PercentsOfTotal(Data(ts), Sum(Filter(ts, IsExpense), Amount));
  }

  /** Proportional bubbles whose values add up to `total` have percents that
      add up to 100. */
  lemma PercentsOfTotal(data: seq<Bubble>, total: real)
    requires total != 0.0 && Sum(data, Value) == total
    requires forall b :: b in data ==> Proportional(b, total)
    ensures Sum(data, PercentValue) == 100.0
  {
    SumProportional(data, total);
    Cancel(Sum(data, PercentValue), Sum(data, Value), total);
  }

  /** `data.slice(0, 6)`: the bubbles that are drawn. */
  function TopData(data: seq<Bubble>): (r: seq<Bubble>)
    ensures |r| == if |data| < 6 then |data| else 6
    ensures r == data[..|r|]
  {
    Take(data, 6)
  }

  /** `Math.max(70, Math.min(150, item.percent * 3))`, as written. */
  function SizeAsWritten(percent: JsNumber): (r: JsNumber)
    ensures percent == NaN <==> r == NaN
  {
    MathMax(70.0, MathMin(150.0, Scale(percent, 3.0)))
  }

  /** A percent that is a number or an infinity gives a size in [70, 150]. */
  lemma SizeAsWrittenInRange(percent: JsNumber)
    requires percent != NaN
    ensures SizeAsWritten(percent).Finite?
    ensures 70.0 <= SizeAsWritten(percent).value <= 150.0
  {
  }

  /** A percent that is a number gives three times the percent, clamped to
      [70, 150]. */
  lemma SizeClamps(p: real)
    ensures SizeAsWritten(Finite(p)) ==
      Finite(if 3.0 * p < 70.0 then 70.0 else if 3.0 * p > 150.0 then 150.0 else 3.0 * p)
  {
    assert Scale(Finite(p), 3.0) == Finite(3.0 * p);
  }

  /** Inside the clamp the size is exactly `percent * 3`. */
  lemma SizeInClamp(p: real)
    requires 70.0 <= 3.0 * p <= 150.0
    ensures SizeAsWritten(Finite(p)) == Finite(3.0 * p)
  {
    SizeClamps(p);
  }

  /** One expense of amount 0 makes the total 0, its percent `0 / 0`, and the
      size of its bubble NaN, which is no CSS length. */
  lemma SizeAsWrittenNaN()
    ensures var ts := [Transaction("1", 0.0, Expense, Groceries, "Lidl", 0)];
      Data(ts) == [Bubble(Groceries, 0.0, NaN)] && SizeAsWritten(Data(ts)[0].percent) == NaN
  {
    var ts := [Transaction("1", 0.0, Expense, Groceries, "Lidl", 0)];
    FilterOne(ts[0], IsExpense);
    assert Filter(ts, IsExpense) == ts;
    assert Map(ts, CategoryOf) == [Groceries];
    assert Distinct([Groceries]) == [Groceries];
    assert Sum(ts, Amount) == 0.0;
    assert SumWhere(ts, CategoryOf, Groceries, Amount) == 0.0;
    assert Entries(ts, CategoryOf) == [(Groceries, 0.0)];
    assert Unsorted(ts) == [Bubble(Groceries, 0.0, NaN)];
  }

  /** The size clamp with a percent that is not a number drawn at the
      smallest size, so that every bubble's size is a length in [70, 150]. */
  function BubbleSize(percent: JsNumber): (r: real)
    ensures 70.0 <= r <= 150.0
    ensures percent != NaN ==> SizeAsWritten(percent) == Finite(r)
  {
    match SizeAsWritten(percent)
    case Finite(v) => v
    case _ => 70.0
  }

  /** The corrected sizes of the six drawn bubbles: `BubbleSize` of each
      percent. Where a percent is a number or an infinity this is the size the
      code computes; where it is NaN (a zero total) the code's size is NaN
      (`SizeAsWrittenNaN`) and this one is 70. */
  function Sizes(ts: seq<Transaction>): (r: seq<real>)
    ensures |r| == |TopData(Data(ts))| && |r| <= 6
    ensures forall k :: 0 <= k < |r| ==> 70.0 <= r[k] <= 150.0
    ensures forall k :: 0 <= k < |r| && TopData(Data(ts))[k].percent != NaN ==>
      SizeAsWritten(TopData(Data(ts))[k].percent) == Finite(r[k])
  {
    Map(TopData(Data(ts)), (b: Bubble) => BubbleSize(b.percent))
  }
}
