/** The friends-and-family ledger: the open debts of the active tab, their
    total, and the form that records a new debt. */
module FriendsFamily {
  import opened Types
  import opened Seqs
  import opened App

  /** `d.type === activeTab && !d.isSettled`. */
  function IsOpenIn(tab: DebtType): Debt -> bool {
    (d: Debt) => d.kind == tab && !d.isSettled
  }

  /** `filteredDebts`. */
  function FilteredDebts(debts: seq<Debt>, tab: DebtType): (r: seq<Debt>)
    ensures forall d :: d in r <==> d in debts && d.kind == tab && !d.isSettled
  {
    Filter(debts, IsOpenIn(tab))
  }

  /** The open list keeps the ledger's order. */
  lemma FilteredDebtsKeepOrder(a: seq<Debt>, b: seq<Debt>, tab: DebtType)
    ensures FilteredDebts(a + b, tab) == FilteredDebts(a, tab) + FilteredDebts(b, tab)
  {
    FilterAppend(a, b, IsOpenIn(tab));
  }

  function DebtAmount(d: Debt): real { d.amount }

  /** `totalAmount`. */
  function TotalAmount(debts: seq<Debt>, tab: DebtType): real {
    Sum(FilteredDebts(debts, tab), DebtAmount)
  }

  /** The debt form's fields. */
  datatype DebtForm = DebtForm(person: string, amount: string, desc: string, showAddForm: bool)

  /** `handleAdd`: nothing when the person or the amount is empty; otherwise
      the new debt and the cleared, closed form. `parsedAmount` is what
      `parseFloat` makes of the amount text, `id` and `date` come from the
      clock. */
  function HandleAdd(form: DebtForm, tab: DebtType, parsedAmount: real, id: string, date: string)
    : (r: (Option<Debt>, DebtForm))
    ensures r.0.None? <==> form.person == "" || form.amount == ""
    ensures r.0.None? ==> r.1 == form
    ensures r.0.Some? ==>
      && r.0.value.kind == tab && !r.0.value.isSettled
      && r.0.value.personName == form.person && r.0.value.amount == parsedAmount
      && r.0.value.description == form.desc
    ensures r.0.Some? ==> r.1 == DebtForm("", "", "", false)
  {
    if form.person == "" || form.amount == "" then (None, form)
    else (Some(Debt(id, form.person, parsedAmount, tab, form.desc, date, false)), DebtForm("", "", "", false))
  }

  /** A debt from the form, once prepended to the ledger, heads the open list
      of the tab it was made in and adds its amount to that tab's total. */
  lemma AddedDebtIsListed(form: DebtForm, tab: DebtType, parsedAmount: real, id: string, date: string,
                          debts: seq<Debt>)
    requires HandleAdd(form, tab, parsedAmount, id, date).0.Some?
    ensures var d := HandleAdd(form, tab, parsedAmount, id, date).0.value;
      FilteredDebts([d] + debts, tab) == [d] + FilteredDebts(debts, tab)
      && TotalAmount([d] + debts, tab) == parsedAmount + TotalAmount(debts, tab)
  {
    var d := HandleAdd(form, tab, parsedAmount, id, date).0.value;
    FilteredDebtsKeepOrder([d], debts, tab);
    FilterOne(d, IsOpenIn(tab));
    SumCons(d, FilteredDebts(debts, tab), DebtAmount);
  }

  /** Settling a debt takes it off the open list of every tab and changes
      nothing else there. */
  lemma {:induction false} SettledLeavesList(debts: seq<Debt>, id: string, tab: DebtType)
    ensures FilteredDebts(SettleById(debts, id), tab) == RemoveById(FilteredDebts(debts, tab), DebtId, id)
  {
    if debts != [] {
      var d, rest := debts[0], debts[1..];
      var s := SettleById(debts, id);
      assert debts == [d] + rest;
      assert s == [s[0]] + SettleById(rest, id);
      SettledLeavesList(rest, id, tab);
      FilteredDebtsKeepOrder([s[0]], SettleById(rest, id), tab);
      FilteredDebtsKeepOrder([d], rest, tab);
      FilterOne(s[0], IsOpenIn(tab));
      FilterOne(d, IsOpenIn(tab));
      RemoveByIdKeepsOrder(FilteredDebts([d], tab), FilteredDebts(rest, tab), DebtId, id);
      FilterOne(d, (x: Debt) => DebtId(x) != id);
    }
  }
}
