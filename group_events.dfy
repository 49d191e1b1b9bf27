/** The group-expense screen (components/GroupEvents.tsx): creating an event,
    adding an expense to the selected event, the per-person share, the
    participants' colours, and the settlement memo that turns an event's
    expenses into the transfers that settle it. */
module GroupEvents {
  import opened Types
  import opened Seqs
  import opened Numbers
  import opened Text
  import opened Settlement

  function Payer(e: GroupExpense): string { e.paidBy }
  function Amount(e: GroupExpense): real { e.amount }
  function Self(p: string): string { p }

  // ---------------------------------------------------------------------
  // Phase 1: balances

  /** `expenses.reduce((sum, e) => sum + e.amount, 0)`. */
  function TotalSpent(ev: GroupEvent): real { Sum(ev.expenses, Amount) }

  /** `totalSpent / participants.length`: NaN or an infinity when there are
      no participants. */
  function Share(ev: GroupEvent): (r: JsNumber)
    ensures r.Finite? <==> |ev.participants| > 0
    ensures r.Finite? ==> r.value * |ev.participants| as real == TotalSpent(ev)
  {
    Div(TotalSpent(ev), |ev.participants| as real)
  }

  /** What `p` paid, over all expenses whose payer is `p`. */
  function PaidBy(ev: GroupEvent, p: string): real { SumWhere(ev.expenses, Payer, p, Amount) }

  /** The amount the last loop subtracts for one listing: the share, which
      is finite whenever there is a listing at all. */
  function ShareOf(ev: GroupEvent): string -> real {
    p => if Share(ev).Finite? then Share(ev).value else 0.0
  }

  /** What is taken from `p`: the share once for each time `p` is listed
      among the participants. */
  function Charges(ev: GroupEvent, p: string): real { SumWhere(ev.participants, Self, p, ShareOf(ev)) }

  /** The balance the memo computes for the key `p`: a participant's is what
      they paid minus the share once per listing; a payer who is not a
      participant reads an undefined entry, and `undefined + amount` is NaN. */
  function BalanceOf(ev: GroupEvent, p: string): JsNumber {
    if p in ev.participants then Finite(PaidBy(ev, p) - Charges(ev, p)) else NaN
  }

  /** The keys of the `balances` record in insertion order: the participants,
      then payers who are not participants, each at its first occurrence. */
  function BalanceKeys(ev: GroupEvent): seq<string> {
    Distinct(ev.participants + Map(ev.expenses, Payer))
  }

  function BalanceMap(ev: GroupEvent): map<string, JsNumber> {
    map k | k in BalanceKeys(ev) :: BalanceOf(ev, k)
  }

  /** Payers that are not participants cannot be picked in the form, but an
      event's data does not enforce it. */
  ghost predicate PayersKnown(ev: GroupEvent) {
    forall e :: e in ev.expenses ==> e.paidBy in ev.participants
  }

  /** The entry for key `k` after the payers of `es` have been credited. */
  function Credited(ps: seq<string>, es: seq<GroupExpense>, k: string): JsNumber {
    if k in ps then Finite(SumWhere(es, Payer, k, Amount)) else NaN
  }

  lemma CreditedSnoc(ps: seq<string>, es: seq<GroupExpense>, e: GroupExpense, k: string)
    ensures Credited(ps, es + [e], k)
         == if k == e.paidBy then Add(Credited(ps, es, k), e.amount) else Credited(ps, es, k)
  {
    assert (es + [e])[..|es + [e]| - 1] == es;
  }

  /** The entry for key `k` after the share has been taken once for each
      listing in `qs`, a prefix of the participants. */
  function Charged(ev: GroupEvent, qs: seq<string>, k: string): JsNumber {
    if k in ev.participants then Finite(PaidBy(ev, k) - SumWhere(qs, Self, k, ShareOf(ev))) else NaN
  }

  lemma ChargedSnoc(ev: GroupEvent, qs: seq<string>, p: string, k: string)
    requires p in ev.participants
    ensures Charged(ev, qs + [p], k)
         == if k == p then Add(Charged(ev, qs, k), -Share(ev).value) else Charged(ev, qs, k)
  {
    assert (qs + [p])[..|qs + [p]| - 1] == qs;
  }

  /** Once the share has been taken for every listing, the entry is the
      balance. */
  lemma ChargedAll(ev: GroupEvent, k: string)
    ensures Charged(ev, ev.participants, k) == BalanceOf(ev, k)
  {
  }

  /** `participants.forEach(p => balances[p] = 0)`, on an empty record;
      `keys` is the record's insertion order. */
  method InitBalances(ps: seq<string>) returns (keys: seq<string>, balances: map<string, JsNumber>)
    ensures keys == Distinct(ps)
    ensures forall k :: k in balances <==> k in keys
    ensures forall k :: k in balances ==> balances[k] == Finite(0.0)
  {
    keys, balances := [], map[];
    for t := 0 to |ps|
      invariant keys == Distinct(ps[..t])
      invariant forall k :: k in balances <==> k in keys
      invariant forall k :: k in balances ==> balances[k] == Finite(0.0)
    {
      var p := ps[t];
      TakeSnoc(ps, t);
      DistinctSnoc(ps[..t], p);
      if p !in balances {
        keys := keys + [p];
      }
      balances := balances[p := Finite(0.0)];
    }
    assert ps[..|ps|] == ps;
  }

  /** `expenses.forEach(e => balances[e.paidBy] += e.amount)` on the record
      `InitBalances` built. */
  method CreditPayers(ps: seq<string>, es: seq<GroupExpense>, keys0: seq<string>, balances0: map<string, JsNumber>)
    returns (keys: seq<string>, balances: map<string, JsNumber>)
    requires keys0 == Distinct(ps)
    requires forall k :: k in balances0 <==> k in keys0
    requires forall k :: k in balances0 ==> balances0[k] == Finite(0.0)
    ensures keys == Distinct(ps + Map(es, Payer))
    ensures forall k :: k in balances <==> k in keys
    ensures forall k :: k in balances ==> balances[k] == Credited(ps, es, k)
  {
    keys, balances := keys0, balances0;
    assert ps + Map(es[..0], Payer) == ps;
    for t := 0 to |es|
      invariant keys == Distinct(ps + Map(es[..t], Payer))
      invariant forall k :: k in balances <==> k in keys
      invariant forall k :: k in balances ==> balances[k] == Credited(ps, es[..t], k)
    {
      var e := es[t];
      // Reading a missing key gives `undefined`, and `undefined + amount` is NaN.
      var current := if e.paidBy in balances then balances[e.paidBy] else NaN;
      var updated := balances[e.paidBy := Add(current, e.amount)];
      assert current == Credited(ps, es[..t], e.paidBy);
      CreditKeysStep(ps, es, t, keys);
      CreditBalancesStep(ps, es, t, balances, current, updated);
      if e.paidBy !in balances {
        keys := keys + [e.paidBy];
      }
      balances := updated;
    }
    assert es[..|es|] == es;
  }

  /** One more payer: the record's keys grow by the payer if it is new. */
  lemma CreditKeysStep(ps: seq<string>, es: seq<GroupExpense>, t: int, keys: seq<string>)
    requires 0 <= t < |es|
    requires keys == Distinct(ps + Map(es[..t], Payer))
    ensures (if es[t].paidBy in keys then keys else keys + [es[t].paidBy])
      == Distinct(ps + Map(es[..t + 1], Payer))
  {
    MapSnoc(es, t, Payer);
    assert ps + Map(es[..t + 1], Payer) == (ps + Map(es[..t], Payer)) + [es[t].paidBy];
    DistinctSnoc(ps + Map(es[..t], Payer), es[t].paidBy);
  }

  /** One `balances[e.paidBy] += e.amount`, with `current` the entry read
      before it and `updated` the record after it. */
  lemma CreditBalancesStep(ps: seq<string>, es: seq<GroupExpense>, t: int, balances: map<string, JsNumber>,
                           current: JsNumber, updated: map<string, JsNumber>)
    requires 0 <= t < |es|
    requires forall k :: k in balances ==> balances[k] == Credited(ps, es[..t], k)
    requires current == Credited(ps, es[..t], es[t].paidBy)
    requires updated == balances[es[t].paidBy := Add(current, es[t].amount)]
    ensures forall k :: k in updated ==> updated[k] == Credited(ps, es[..t + 1], k)
  {
    var e := es[t];
    TakeSnoc(es, t);
    forall k | k in updated ensures updated[k] == Credited(ps, es[..t + 1], k) {
      CreditedSnoc(ps, es[..t], e, k);
    }
  }

  /** `participants.forEach(p => balances[p] -= share)` on the record
      `CreditPayers` built. */
  method ChargeShares(ev: GroupEvent, share: JsNumber, keys: seq<string>, balances0: map<string, JsNumber>)
    returns (balances: map<string, JsNumber>)
    requires share == Share(ev)
    requires keys == BalanceKeys(ev)
    requires forall k :: k in balances0 <==> k in keys
    requires forall k :: k in balances0 ==> balances0[k] == Credited(ev.participants, ev.expenses, k)
    ensures forall k :: k in balances <==> k in keys
    ensures forall k :: k in balances ==> balances[k] == BalanceOf(ev, k)
  {
    var ps := ev.participants;
    balances := balances0;
    assert ps[..0] == [];
    for t := 0 to |ps|
      invariant forall k :: k in balances <==> k in keys
      invariant forall k :: k in balances ==> balances[k] == Charged(ev, ps[..t], k)
    {
      var p := ps[t];
      TakeSnoc(ps, t);
      forall k ensures Charged(ev, ps[..t + 1], k)
        == if k == p then Add(Charged(ev, ps[..t], k), -share.value) else Charged(ev, ps[..t], k)
      {
        ChargedSnoc(ev, ps[..t], p, k);
      }
      assert p in keys;
      balances := balances[p := Add(balances[p], -share.value)];
    }
    assert ps[..|ps|] == ps;
    forall k | k in balances ensures balances[k] == BalanceOf(ev, k) {
      assert balances[k] == Charged(ev, ps, k);
      ChargedAll(ev, k);
    }
  }

  /** The balance phase of the settlement memo: the three `forEach` loops
      that fill the `balances` record, and `keys`, the record's insertion
      order. */
  method ComputeBalances(ev: GroupEvent) returns (keys: seq<string>, balances: map<string, JsNumber>)
    ensures keys == BalanceKeys(ev)
    ensures balances == BalanceMap(ev)
  {
    keys, balances := InitBalances(ev.participants);
    var totalSpent := Sum(ev.expenses, Amount);
    var share := Div(totalSpent, |ev.participants| as real);
    keys, balances := CreditPayers(ev.participants, ev.expenses, keys, balances);
    balances := ChargeShares(ev, share, keys, balances);
    assert forall k :: k in balances <==> k in BalanceMap(ev);
  }

  // ---------------------------------------------------------------------
  // Phase 2: debtors and creditors

  /** `Object.entries(balances)` as `{ person, amount }` records, in key order;
      a NaN balance is left out because it compares false against both
      thresholds. */
  function Entries(keys: seq<string>, balances: map<string, JsNumber>): (r: seq<Entry>)
    requires forall k :: k in keys ==> k in balances
    ensures forall e :: e in r ==> e.person in keys && balances[e.person] == Finite(e.amount)
  {
    if keys == [] then []
    else
      var k := keys[|keys| - 1];
      assert forall q :: q in keys[..|keys| - 1] ==> q in keys;
      Entries(keys[..|keys| - 1], balances) + EntryOf(k, balances)
  }

  /** No balance is infinite; only a share over zero participants could be,
      and then no key is a participant. */
  ghost predicate NoInfinity(keys: seq<string>, balances: map<string, JsNumber>)
    requires forall k :: k in keys ==> k in balances
  {
    forall k :: k in keys ==> !balances[k].PosInfinity? && !balances[k].NegInfinity?
  }

  /** The entry, if any, that one key contributes. */
  function EntryOf(k: string, balances: map<string, JsNumber>): seq<Entry>
    requires k in balances
  {
    if balances[k].Finite? then [Entry(k, balances[k].value)] else []
  }

  lemma EntriesPrefix(keys: seq<string>, t: int, balances: map<string, JsNumber>)
    requires 0 <= t < |keys| && forall k :: k in keys ==> k in balances
    ensures Entries(keys[..t + 1], balances) == Entries(keys[..t], balances) + EntryOf(keys[t], balances)
  {
    assert keys[..t + 1][..t] == keys[..t] && keys[..t + 1][t] == keys[t];
    assert forall k :: k in keys[..t + 1] ==> k in keys;
  }

  /** The `for (const [person, amount] of Object.entries(balances))` loop that
      pushes debtors and creditors. */
  method SplitBalances(keys: seq<string>, balances: map<string, JsNumber>)
    returns (debtors: seq<Entry>, creditors: seq<Entry>)
    requires forall k :: k in keys ==> k in balances
    requires NoInfinity(keys, balances)
    ensures debtors == Filter(Entries(keys, balances), IsDebtor)
    ensures creditors == Filter(Entries(keys, balances), IsCreditor)
  {
    debtors, creditors := [], [];
    assert keys[..0] == [];
    for t := 0 to |keys|
      invariant debtors == Filter(Entries(keys[..t], balances), IsDebtor)
      invariant creditors == Filter(Entries(keys[..t], balances), IsCreditor)
    {
      var person := keys[t];
      var amount := balances[person];
      ghost var before := Entries(keys[..t], balances);
      EntriesPrefix(keys, t, balances);
      FilterAppend(before, EntryOf(person, balances), IsDebtor);
      FilterAppend(before, EntryOf(person, balances), IsCreditor);
      if amount.Finite? {
        FilterOne(Entry(person, amount.value), IsDebtor);
        FilterOne(Entry(person, amount.value), IsCreditor);
      }
      if amount.Finite? && amount.value < -Epsilon {
        debtors := debtors + [Entry(person, amount.value)];
      }
      if amount.Finite? && amount.value > Epsilon {
        creditors := creditors + [Entry(person, amount.value)];
      }
    }
    assert keys[..|keys|] == keys;
  }

  /** A key whose entry is finite contributes its entry. */
  lemma {:induction false} EntriesComplete(keys: seq<string>, balances: map<string, JsNumber>, k: string)
    requires forall q :: q in keys ==> q in balances
    requires k in keys && balances[k].Finite?
    ensures Entry(k, balances[k].value) in Entries(keys, balances)
  {
    var init := keys[..|keys| - 1];
    assert forall q :: q in init ==> q in keys;
    if k != keys[|keys| - 1] {
      assert k in init by {
        var i :| 0 <= i < |keys| && keys[i] == k;
        assert init[i] == k;
      }
      EntriesComplete(init, balances, k);
    }
  }

  /** Every balance is finite or NaN. */
  lemma BalancesNotInfinite(ev: GroupEvent)
    ensures forall k :: k in BalanceKeys(ev) ==> k in BalanceMap(ev)
    ensures NoInfinity(BalanceKeys(ev), BalanceMap(ev))
  {
  }

  /** The entries of the event's balance record. */
  function AllEntries(ev: GroupEvent): (r: seq<Entry>)
    ensures forall e :: e in r ==> BalanceOf(ev, e.person) == Finite(e.amount)
  {
    BalancesNotInfinite(ev);
    Entries(BalanceKeys(ev), BalanceMap(ev))
  }

  /** `debtors` after `sort((a, b) => a.amount - b.amount)`: most negative first. */
  function Debtors(ev: GroupEvent): (r: seq<Entry>)
    ensures multiset(r) == multiset(Filter(AllEntries(ev), IsDebtor))
    ensures SortedDesc(r, NegAmount)
  {
    SortDesc(Filter(AllEntries(ev), IsDebtor), NegAmount)
  }

  /** `creditors` after `sort((a, b) => b.amount - a.amount)`: largest first. */
  function Creditors(ev: GroupEvent): (r: seq<Entry>)
    ensures multiset(r) == multiset(Filter(AllEntries(ev), IsCreditor))
    ensures SortedDesc(r, EntryAmount)
  {
    SortDesc(Filter(AllEntries(ev), IsCreditor), EntryAmount)
  }

  /** A person is a debtor, with their balance as amount, exactly when their
      balance is below minus a cent; likewise a creditor above a cent. */
  lemma DebtorsExactly(ev: GroupEvent, p: string, a: real)
    ensures Entry(p, a) in Debtors(ev) <==> BalanceOf(ev, p) == Finite(a) && a < -Epsilon
    ensures Entry(p, a) in Creditors(ev) <==> BalanceOf(ev, p) == Finite(a) && a > Epsilon
  {
    var all := AllEntries(ev);
    AllEntriesExactly(ev, p, a);
    assert Entry(p, a) in Debtors(ev) <==> Entry(p, a) in multiset(Filter(all, IsDebtor));
    assert Entry(p, a) in Creditors(ev) <==> Entry(p, a) in multiset(Filter(all, IsCreditor));
  }

  /** The balance record holds a person's entry exactly when their balance
      is that number. */
  lemma AllEntriesExactly(ev: GroupEvent, p: string, a: real)
    ensures Entry(p, a) in AllEntries(ev) <==> BalanceOf(ev, p) == Finite(a)
  {
    if BalanceOf(ev, p) == Finite(a) {
      BalancesNotInfinite(ev);
      assert p in BalanceKeys(ev);
      EntriesComplete(BalanceKeys(ev), BalanceMap(ev), p);
    }
  }

  /** No one is both a debtor and a creditor. */
  lemma DebtorsCreditorsDisjoint(ev: GroupEvent)
    ensures Persons(Debtors(ev)) !! Persons(Creditors(ev))
  {
    forall p | p in Persons(Debtors(ev)) && p in Persons(Creditors(ev)) ensures false {
      var d :| d in Debtors(ev) && d.person == p;
      var c :| c in Creditors(ev) && c.person == p;
      DebtorsExactly(ev, p, d.amount);
      DebtorsExactly(ev, p, c.amount);
    }
  }

  /** The sorted lists are what the two-cursor loop starts from. */
  lemma DebtorsCreditorsPending(ev: GroupEvent)
    ensures Pending(Debtors(ev), Creditors(ev))
  {
    forall e | e in Debtors(ev) ensures e.amount <= -Epsilon {
      DebtorsExactly(ev, e.person, e.amount);
    }
    forall e | e in Creditors(ev) ensures e.amount >= Epsilon {
      DebtorsExactly(ev, e.person, e.amount);
    }
  }

  /** The transfers the memo returns for a selected event. */
  function SettlementsOf(ev: GroupEvent): seq<Transfer> {
    DebtorsCreditorsPending(ev);
    Greedy(Debtors(ev), Creditors(ev))
  }

  // ---------------------------------------------------------------------
  // The memo

  /** The `settlements` memo: no transfers without a selected event,
      otherwise the balances, the split, the two sorts and the loop. */
  method Settlements(selected: Option<GroupEvent>) returns (results: seq<Transfer>)
    ensures selected.None? ==> results == []
    ensures selected.Some? ==> results == SettlementsOf(selected.value)
  {
    if selected.None? {
      return [];
    }
    var ev := selected.value;
    var keys, balances := ComputeBalances(ev);
    BalancesNotInfinite(ev);
    var debtors, creditors := SplitBalances(keys, balances);
    debtors := SortDesc(debtors, NegAmount);
    creditors := SortDesc(creditors, EntryAmount);
    DebtorsCreditorsPending(ev);
    var restDebtors, restCreditors, i, j;
    results, restDebtors, restCreditors, i, j := SettleGreedy(debtors, creditors);
  }

  /** Every transfer goes from someone whose balance is below minus a cent to
      someone whose balance is above a cent, so never to the payer
      themself, and moves at least a cent. */
  lemma SettlementsValid(ev: GroupEvent)
    ensures forall t :: t in SettlementsOf(ev) ==>
      && t.from != t.to
      && t.amount >= Epsilon
      && BalanceOf(ev, t.from).Finite? && BalanceOf(ev, t.from).value < -Epsilon
      && BalanceOf(ev, t.to).Finite? && BalanceOf(ev, t.to).value > Epsilon
  {
    DebtorsCreditorsPending(ev);
    var ds, cs := Debtors(ev), Creditors(ev);
    GreedyTransfersValid(ds, cs);
    DebtorsCreditorsDisjoint(ev);
    NoSelfTransfer(ds, cs);
    forall t | t in SettlementsOf(ev)
      ensures BalanceOf(ev, t.from).Finite? && BalanceOf(ev, t.from).value < -Epsilon
      ensures BalanceOf(ev, t.to).Finite? && BalanceOf(ev, t.to).value > Epsilon
    {
      var d :| d in ds && d.person == t.from;
      var c :| c in cs && c.person == t.to;
      DebtorsExactly(ev, d.person, d.amount);
      DebtorsExactly(ev, c.person, c.amount);
    }
  }

  /** When every participant's balance is within a cent of zero there is
      nothing to settle. */
  lemma NoTransfersWhenSettled(ev: GroupEvent)
    requires forall p :: p in ev.participants ==>
      BalanceOf(ev, p).Finite? && -Epsilon <= BalanceOf(ev, p).value <= Epsilon
    ensures Debtors(ev) == [] && Creditors(ev) == []
    ensures SettlementsOf(ev) == []
  {
    var all := AllEntries(ev);
    forall e | e in all ensures !IsDebtor(e) && !IsCreditor(e) {
      assert e.person in ev.participants;
    }
    HeadIsMember(Filter(all, IsDebtor));
    HeadIsMember(Filter(all, IsCreditor));
  }

  /** Without participants every balance is NaN, so there are no transfers. */
  lemma NoParticipants(ev: GroupEvent)
    requires ev.participants == []
    ensures SettlementsOf(ev) == []
  {
    NoTransfersWhenSettled(ev);
  }

  /** Without expenses the share is zero and so is every balance. */
  lemma NoExpenses(ev: GroupEvent)
    requires ev.expenses == []
    ensures forall p :: p in ev.participants ==> BalanceOf(ev, p) == Finite(0.0)
    ensures SettlementsOf(ev) == []
  {
    forall p | p in ev.participants ensures BalanceOf(ev, p) == Finite(0.0) {
      NoExpensesBalance(ev, p);
    }
    NoTransfersWhenSettled(ev);
  }

  lemma NoExpensesBalance(ev: GroupEvent, p: string)
    requires ev.expenses == [] && p in ev.participants
    ensures BalanceOf(ev, p) == Finite(0.0)
  {
    assert Share(ev) == Finite(0.0);
    SumWhereZero(ev.participants, Self, p, ShareOf(ev));
  }

  /** A lone participant who paid everything owes and is owed nothing. */
  lemma SingleParticipant(ev: GroupEvent, p: string)
    requires ev.participants == [p] && PayersKnown(ev)
    ensures BalanceOf(ev, p) == Finite(0.0)
    ensures SettlementsOf(ev) == []
  {
    SingleParticipantBalance(ev, p);
    NoTransfersWhenSettled(ev);
  }

  lemma SingleParticipantBalance(ev: GroupEvent, p: string)
    requires ev.participants == [p] && PayersKnown(ev)
    ensures BalanceOf(ev, p) == Finite(0.0)
  {
    SumWhereAll(ev.expenses, Payer, p, Amount);
    assert PaidBy(ev, p) == TotalSpent(ev);
    assert Share(ev).value == TotalSpent(ev);
    assert ShareOf(ev)(p) == TotalSpent(ev);
    assert [p][..0] == [];
    assert Charges(ev, p) == SumWhere([], Self, p, ShareOf(ev)) + ShareOf(ev)(p);
  }

  // ---------------------------------------------------------------------
  // Conservation

  /** When every key's entry is finite and given by `d`, the entries add up to
      the sum of `d` over the keys. */
  lemma {:induction false} EntriesSum(keys: seq<string>, m: map<string, JsNumber>, d: string -> real)
    requires forall k :: k in keys ==> k in m && m[k] == Finite(d(k))
    ensures Sum(Entries(keys, m), EntryAmount) == Sum(keys, d)
  {
    if keys != [] {
      var init, k := keys[..|keys| - 1], keys[|keys| - 1];
      assert forall q :: q in init ==> q in keys;
      EntriesSum(init, m, d);
      var e := Entry(k, d(k));
      assert Entries(keys, m) == Entries(init, m) + [e];
      SumAppend(Entries(init, m), [e], EntryAmount);
      assert [e][..0] == [];
    }
  }

  /** A participant's balance as a function of the key. */
  function KeyBalance(ev: GroupEvent): string -> real {
    k => KeySum(ev.expenses, Payer, Amount)(k) - KeySum(ev.participants, Self, ShareOf(ev))(k)
  }

  lemma BalanceIsKeyBalance(ev: GroupEvent, k: string)
    requires k in ev.participants
    ensures BalanceOf(ev, k) == Finite(KeyBalance(ev)(k))
  {
    assert KeySum(ev.expenses, Payer, Amount)(k) == PaidBy(ev, k);
    assert KeySum(ev.participants, Self, ShareOf(ev))(k) == Charges(ev, k);
  }

  /** Summing per distinct name what each listing carries gives the sum over
      the listings. */
  lemma ListingsTotal(ps: seq<string>, f: string -> real)
    ensures Sum(Distinct(ps), KeySum(ps, Self, f)) == Sum(ps, f)
  {
    SumKeySum(Distinct(ps), ps, Self, f);
    SumOverKeysTotal(Distinct(ps), ps, Self, f);
  }

  /** The shares taken add up to the total spent. */
  lemma ChargesTotal(ev: GroupEvent)
    requires |ev.participants| > 0
    ensures Sum(Distinct(ev.participants), KeySum(ev.participants, Self, ShareOf(ev))) == TotalSpent(ev)
  {
    var ps := ev.participants;
    ListingsTotal(ps, ShareOf(ev));
    ChargesPerListing(ev);
    ShareSpread(ev);
  }

  lemma ChargesPerListing(ev: GroupEvent)
    requires |ev.participants| > 0
    ensures Sum(ev.participants, ShareOf(ev)) == Share(ev).value * |ev.participants| as real
  {
    SumConst(ev.participants, ShareOf(ev), Share(ev).value);
  }

  /** The share times the number of listings is the total. */
  lemma ShareSpread(ev: GroupEvent)
    requires |ev.participants| > 0
    ensures Share(ev).value * |ev.participants| as real == TotalSpent(ev)
  {
  }

  /** Money is conserved: when every payer is a participant, the balances add
      up to zero. Participants listed twice are charged twice and their key
      appears once, which keeps the sum at zero without distinct names. */
  lemma BalancesSumToZero(ev: GroupEvent)
    requires PayersKnown(ev)
    ensures Sum(AllEntries(ev), EntryAmount) == 0.0
  {
    var ps, es := ev.participants, ev.expenses;
    var payers := Map(es, Payer);
    forall x | x in payers ensures x in ps {
      var i :| 0 <= i < |payers| && payers[i] == x;
      assert es[i] in es;
    }
    DistinctAppendKnown(ps, payers);
    var keys := Distinct(ps);
    assert BalanceKeys(ev) == keys;
    if |ps| == 0 {
      assert keys == [];
    } else {
      var paid, charge := KeySum(es, Payer, Amount), KeySum(ps, Self, ShareOf(ev));
      forall k | k in keys ensures k in BalanceMap(ev) && BalanceMap(ev)[k] == Finite(KeyBalance(ev)(k)) {
        BalanceIsKeyBalance(ev, k);
      }
      EntriesSum(keys, BalanceMap(ev), KeyBalance(ev));
      SumDifference(keys, paid, charge, KeyBalance(ev));
      SumKeySum(keys, es, Payer, Amount);
      forall e | e in es ensures Payer(e) in keys {
      }
      SumOverKeysTotal(keys, es, Payer, Amount);
      ChargesTotal(ev);
    }
  }

  // ---------------------------------------------------------------------
  // Creating an event and adding an expense

  /** The name every event starts with: the user. */
  const Me: string := "Me"

  predicate NonEmpty(s: string) { s != "" }

  /** The participants `handleCreateEvent` builds from the comma-separated
      text: the user, then every trimmed non-empty piece in input order. */
  function ParseParticipants(text: string): (r: seq<string>)
    ensures |r| >= 1 && r[0] == Me
    ensures forall k :: 1 <= k < |r| ==> r[k] != "" && Trim(r[k]) == r[k]
  {
    var names := Filter(Map(Split(text, ','), Trim), NonEmpty);
    NamesTrimmed(Split(text, ','));
    PrependShape(Me, names);
    [Me] + names
  }

  /** The names are trimmed and non-empty. */
  lemma NamesTrimmed(pieces: seq<string>)
    ensures forall x :: x in Filter(Map(pieces, Trim), NonEmpty) ==> x != "" && Trim(x) == x
  {
    forall x | x in Map(pieces, Trim) ensures Trim(x) == x {
      var i :| 0 <= i < |pieces| && x == Map(pieces, Trim)[i];
      TrimIdempotent(pieces[i]);
    }
  }

  lemma PrependShape(me: string, names: seq<string>)
    ensures forall k :: 1 <= k < |[me] + names| ==> ([me] + names)[k] in names
  {
    forall k | 1 <= k < |[me] + names| ensures ([me] + names)[k] in names {
      assert ([me] + names)[k] == names[k - 1];
    }
  }

  /** `handleCreateEvent`: the id and the date come from the clock, the other
      fields from the form; the expenses start empty. */
  function CreateEvent(id: string, title: string, kind: EventKind, text: string,
                       date: string, currency: string): (r: GroupEvent)
    ensures r.participants == ParseParticipants(text) && r.expenses == []
    ensures r.id == id && r.title == title && r.kind == kind && r.date == date
    ensures r.currency == Some(currency)
  {
    GroupEvent(id, title, kind, ParseParticipants(text), [], date, Some(currency))
  }

  /** Whatever is typed between the commas, the participants are the user
      followed by the trimmed pieces that are not empty, in input order,
      duplicates included. */
  lemma ParsePieces(pieces: seq<string>)
    requires |pieces| >= 1 && forall k :: 0 <= k < |pieces| ==> ',' !in pieces[k]
    ensures ParseParticipants(Join(pieces, ',')) == [Me] + Filter(Map(pieces, Trim), NonEmpty)
  {
    SplitJoin(pieces, ',');
  }

  /** Names typed with white space around them, as in "Alex, Sarah, Tom",
      come back as the names, in order after the user (`Text.TrimPadded`
      gives the trimmed piece of a padded name). */
  lemma ParsePadded(pieces: seq<string>, names: seq<string>)
    requires |pieces| == |names| >= 1
    requires forall k :: 0 <= k < |pieces| ==> ',' !in pieces[k] && Trim(pieces[k]) == names[k] && names[k] != ""
    ensures ParseParticipants(Join(pieces, ',')) == [Me] + names
  {
    ParsePieces(pieces);
    TrimsTo(pieces, names);
    assert forall x :: x in names ==> NonEmpty(x);
    FilterKeepsAll(names, NonEmpty);
  }

  /** Trimming every piece gives the names. */
  lemma TrimsTo(pieces: seq<string>, names: seq<string>)
    requires |pieces| == |names|
    requires forall k :: 0 <= k < |pieces| ==> Trim(pieces[k]) == names[k]
    ensures Map(pieces, Trim) == names
  {
  }

  /** Names typed already trimmed come back unchanged, in order after the
      user, duplicates included. */
  lemma ParseJoined(names: seq<string>)
    requires forall k :: 0 <= k < |names| ==> names[k] != "" && Trim(names[k]) == names[k] && ',' !in names[k]
    ensures ParseParticipants(if names == [] then "" else Join(names, ',')) == [Me] + names
  {
    if names != [] {
      ParsePieces(names);
      MapFixed(names, Trim);
      assert forall x :: x in names ==> NonEmpty(x);
      FilterKeepsAll(names, NonEmpty);
    } else {
      EmptyText();
    }
  }

  /** An empty field gives no names. */
  lemma EmptyText()
    ensures Filter(Map(Split("", ','), Trim), NonEmpty) == []
  {
    assert Split("", ',') == [""];
    assert Trim("") == "";
    assert Map([""], Trim) == [""];
  }

  /** `expPayer || 'Me'`: an unchosen payer is the user. */
  function PayerOrMe(payer: string): string {
    if payer == "" then Me else payer
  }

  /** `handleAddExpense`: nothing without a selected event; otherwise the
      event with the new expense put in front of its expenses. The amount is
      what `parseFloat` made of the field. */
  function AddExpense(selected: Option<GroupEvent>, id: string, description: string,
                      amount: real, payer: string, date: string): (r: Option<GroupEvent>)
    ensures r.None? <==> selected.None?
    ensures r.Some? ==>
      var ev := selected.value;
      && r.value.expenses == [GroupExpense(id, description, amount, PayerOrMe(payer), date)] + ev.expenses
      && r.value == ev.(expenses := r.value.expenses)
  {
    match selected
    case None => None
    case Some(ev) =>
      Some(ev.(expenses := [GroupExpense(id, description, amount, PayerOrMe(payer), date)] + ev.expenses))
  }

  /** The new expense raises the total by its amount and credits its payer
      only; the participants and so every share's divisor stay the same. */
  lemma AddExpenseEffect(ev: GroupEvent, id: string, description: string,
                         amount: real, payer: string, date: string, q: string)
    ensures var ev' := AddExpense(Some(ev), id, description, amount, payer, date).value;
      && ev'.participants == ev.participants
      && TotalSpent(ev') == TotalSpent(ev) + amount
      && PaidBy(ev', q) == PaidBy(ev, q) + (if q == PayerOrMe(payer) then amount else 0.0)
  {
    var e := GroupExpense(id, description, amount, PayerOrMe(payer), date);
    SumCons(e, ev.expenses, Amount);
    SumWhereCons(e, ev.expenses, Payer, q, Amount);
  }

  /** `handleShare`'s total and per-person figures: nothing without a
      selected event. */
  function ShareSummary(selected: Option<GroupEvent>): (r: Option<(real, JsNumber)>)
    ensures r.None? <==> selected.None?
    ensures r.Some? ==>
      && r.value.0 == TotalSpent(selected.value)
      && (r.value.1.Finite? <==> |selected.value.participants| > 0)
      && (r.value.1.Finite? ==> r.value.1.value * |selected.value.participants| as real == r.value.0)
  {
    match selected
    case None => None
    case Some(ev) => Some((TotalSpent(ev), Share(ev)))
  }

  /** With every participant listed once, a participant's balance is what
      they paid minus total spent over the number of participants. */
  lemma BalanceOfDistinct(ev: GroupEvent, p: string)
    requires NoDup(ev.participants) && p in ev.participants
    ensures BalanceOf(ev, p) == Finite(PaidBy(ev, p) - TotalSpent(ev) / |ev.participants| as real)
  {
    ListedOnce(ev.participants, p, ShareOf(ev));
  }

  lemma {:induction false} ListedOnce(ps: seq<string>, p: string, f: string -> real)
    requires NoDup(ps) && p in ps
    ensures SumWhere(ps, Self, p, f) == f(p)
  {
    var init, last := ps[..|ps| - 1], ps[|ps| - 1];
    assert NoDup(init) by {
      forall i, j | 0 <= i < j < |init| ensures init[i] != init[j] {
        assert init[i] == ps[i] && init[j] == ps[j];
      }
    }
    if last == p {
      assert forall x :: x in init ==> Self(x) != p by {
        forall x | x in init ensures x != p {
          var i :| 0 <= i < |init| && init[i] == x;
          assert ps[i] == x;
        }
      }
      SumWhereAbsent(init, Self, p, f);
    } else {
      assert p in init by {
        var i :| 0 <= i < |ps| && ps[i] == p;
        assert init[i] == p;
      }
      ListedOnce(init, p, f);
    }
  }

  // ---------------------------------------------------------------------
  // Participant colours

  /** The palette, in order. */
  const Colors: seq<string> := [
    "#EF4444", "#F97316", "#F59E0B", "#84CC16", "#10B981", "#06B6D4", "#0EA5E9",
    "#3B82F6", "#6366F1", "#8B5CF6", "#D946EF", "#EC4899", "#F43F5E", "#A8A29E"]

  /** ECMAScript's ToInt32 on an integer: wrap into [-2^31, 2^31). */
  function ToInt32(x: int): (r: int)
    ensures -0x8000_0000 <= r < 0x8000_0000
    ensures (r - x) % 0x1_0000_0000 == 0
  {
    (x + 0x8000_0000) % 0x1_0000_0000 - 0x8000_0000
  }

  /** One round of the loop: `charCodeAt(i) + ((hash << 5) - hash)`, where the
      shift works on the 32-bit value and the subtraction on the number. */
  function HashStep(hash: int, c: char): int {
    c as int + (ToInt32(ToInt32(hash) * 32) - hash)
  }

  /** The hash after every character of `name`, left to right. */
  function Hash(name: string): int {
    if name == [] then 0 else HashStep(Hash(name[..|name| - 1]), name[|name| - 1])
  }

  function IntAbs(x: int): nat { if x < 0 then -x else x }

  /** `Math.abs(hash) % COLORS.length`. */
  function ColorIndex(name: string): (r: nat)
    ensures r < |Colors|
  {
    IntAbs(Hash(name)) % |Colors|
  }

  /** `getColor`. */
  method GetColor(name: string) returns (color: string)
    ensures color == Colors[ColorIndex(name)]
    ensures color in Colors
  {
    var hash := 0;
    for i := 0 to |name|
      invariant hash == Hash(name[..i])
    {
      TakeSnoc(name, i);
      hash := name[i] as int + (ToInt32(ToInt32(hash) * 32) - hash);
    }
    assert name[..|name|] == name;
    var index := (if hash < 0 then -hash else hash) % |Colors|;
    color := Colors[index];
  }

  /** Each round adds at most a character code and a 32-bit value to the
      magnitude of the hash. */
  lemma {:induction false} HashBound(name: string)
    ensures IntAbs(Hash(name)) <= |name| * (0x8000_0000 + 0x11_0000)
  {
    if name != [] {
      HashBound(name[..|name| - 1]);
    }
  }

  /** For names shorter than 2^21 characters every intermediate hash is an
      integer below 2^53, so the double arithmetic of the source is exact and
      the integer model is the source's value. */
  lemma HashExact(name: string)
    requires |name| < 0x20_0000
    ensures IntAbs(Hash(name)) < 0x20_0000_0000_0000
  {
    HashBound(name);
  }

  /** The user's own colour: 'M' gives 77, then 'e' gives 101 + 2464 - 77. */
  lemma MeColor()
    ensures Hash(Me) == 2488 && Colors[ColorIndex(Me)] == "#D946EF"
  {
    assert "M"[..0] == [];
    assert Hash("M") == 77;
    assert Me[..1] == "M";
    assert ToInt32(77 * 32) == 2464;
    assert Hash(Me) == HashStep(77, 'e') == 2488;
  }
}
