/** The second phase of the group-expense engine (components/GroupEvents.tsx):
    debtors and creditors are paired greedily by two cursors until one list
    runs out. Balances within one cent of zero count as settled. */
module Settlement {
  import opened Seqs
  import opened Numbers

  /** The rounding tolerance of every comparison against zero. */
  const Epsilon: real := 0.01

  /** One `{ person, amount }` record of the debtor or creditor list. */
  datatype Entry = Entry(person: string, amount: real)

  /** "`from` owes `to` `amount`". */
  datatype Transfer = Transfer(from: string, to: string, amount: real)

  predicate IsDebtor(e: Entry) { e.amount < -Epsilon }
  predicate IsCreditor(e: Entry) { e.amount > Epsilon }

  function EntryAmount(e: Entry): real { e.amount }
  /** The sort key that orders debtors most negative first. */
  function NegAmount(e: Entry): real { -e.amount }
  function TransferAmount(t: Transfer): real { t.amount }

  ghost function Persons(s: seq<Entry>): set<string> {
    set e | e in s :: e.person
  }

  /** The lists the loop still works on: every debtor owes at least a cent
      and every creditor is owed at least a cent. */
  ghost predicate Pending(ds: seq<Entry>, cs: seq<Entry>) {
    && (forall e :: e in ds ==> e.amount <= -Epsilon)
    && (forall e :: e in cs ==> e.amount >= Epsilon)
  }

  /** The list after its head's amount became `rest`: advanced past the head
      when it is `settled`, otherwise with the head updated in place. */
  function Next(s: seq<Entry>, rest: real, settled: bool): (r: seq<Entry>)
    requires s != []
    ensures settled ==> r == s[1..]
    ensures !settled ==> |r| == |s| && r[0] == Entry(s[0].person, rest) && r[1..] == s[1..]
  {
    if settled then s[1..] else [Entry(s[0].person, rest)] + s[1..]
  }

  /** One iteration of the loop on the current debtor `ds[0]` and creditor
      `cs[0]`: the transfer it records and the lists that remain, where a side
      whose remainder dropped under a cent has been advanced past. */
  function Step(ds: seq<Entry>, cs: seq<Entry>): (r: (Transfer, seq<Entry>, seq<Entry>))
    requires ds != [] && cs != [] && Pending(ds, cs)
    ensures Pending(r.1, r.2)
    ensures |r.1| + |r.2| < |ds| + |cs|
    ensures r.0.from == ds[0].person && r.0.to == cs[0].person && r.0.amount >= Epsilon
  {
    var d, c := ds[0], cs[0];
    var amount := Min(Abs(d.amount), c.amount);
    var dRest, cRest := d.amount + amount, c.amount - amount;
    var ds' := Next(ds, dRest, Abs(dRest) < Epsilon);
    var cs' := Next(cs, cRest, cRest < Epsilon);
    assert forall e :: e in ds[1..] ==> e in ds;
    assert forall e :: e in cs[1..] ==> e in cs;
    (Transfer(d.person, c.person, amount), ds', cs')
  }

  /** An iteration brings no new person onto either list. */
  lemma StepPersons(ds: seq<Entry>, cs: seq<Entry>)
    requires ds != [] && cs != [] && Pending(ds, cs)
    ensures Persons(Step(ds, cs).1) <= Persons(ds) && Persons(Step(ds, cs).2) <= Persons(cs)
  {
    assert forall e :: e in ds[1..] ==> e in ds;
    assert forall e :: e in cs[1..] ==> e in cs;
    assert ds[0] in ds && cs[0] in cs;
  }

  /** The transfers the loop emits from the given state until one cursor
      reaches the end of its list. */
  function Greedy(ds: seq<Entry>, cs: seq<Entry>): seq<Transfer>
    requires Pending(ds, cs)
    decreases |ds| + |cs|
  {
    if ds == [] || cs == [] then []
    else
      var s := Step(ds, cs);
      [s.0] + Greedy(s.1, s.2)
  }

  /** One iteration, in the loop's own terms: the transfer of
      `Math.min(Math.abs(debtor.amount), creditor.amount)` and the two lists
      with their remainders. */
  lemma StepIs(ds: seq<Entry>, cs: seq<Entry>, amount: real, dRest: real, cRest: real)
    requires ds != [] && cs != [] && Pending(ds, cs)
    requires amount == Min(Abs(ds[0].amount), cs[0].amount)
    requires dRest == ds[0].amount + amount && cRest == cs[0].amount - amount
    ensures Step(ds, cs) == (Transfer(ds[0].person, cs[0].person, amount),
      Next(ds, dRest, Abs(dRest) < Epsilon), Next(cs, cRest, cRest < Epsilon))
  {
  }

  /** The transfers after one iteration, in the loop's own terms. */
  lemma GreedyOnce(ds: seq<Entry>, cs: seq<Entry>, amount: real, dRest: real, cRest: real)
    requires ds != [] && cs != [] && Pending(ds, cs)
    requires amount == Min(Abs(ds[0].amount), cs[0].amount)
    requires dRest == ds[0].amount + amount && cRest == cs[0].amount - amount
    ensures Pending(Next(ds, dRest, Abs(dRest) < Epsilon), Next(cs, cRest, cRest < Epsilon))
    ensures Greedy(ds, cs) == [Transfer(ds[0].person, cs[0].person, amount)]
      + Greedy(Next(ds, dRest, Abs(dRest) < Epsilon), Next(cs, cRest, cRest < Epsilon))
  {
    StepIs(ds, cs, amount, dRest, cRest);
  }

  /** `Final` after one iteration, in the loop's own terms. */
  lemma FinalOnce(ds: seq<Entry>, cs: seq<Entry>, amount: real, dRest: real, cRest: real)
    requires ds != [] && cs != [] && Pending(ds, cs)
    requires amount == Min(Abs(ds[0].amount), cs[0].amount)
    requires dRest == ds[0].amount + amount && cRest == cs[0].amount - amount
    ensures Pending(Next(ds, dRest, Abs(dRest) < Epsilon), Next(cs, cRest, cRest < Epsilon))
    ensures Final(ds, cs).0 == (if Abs(dRest) < Epsilon then [Entry(ds[0].person, dRest)] else [])
      + Final(Next(ds, dRest, Abs(dRest) < Epsilon), Next(cs, cRest, cRest < Epsilon)).0
    ensures Final(ds, cs).1 == (if cRest < Epsilon then [Entry(cs[0].person, cRest)] else [])
      + Final(Next(ds, dRest, Abs(dRest) < Epsilon), Next(cs, cRest, cRest < Epsilon)).1
  {
    StepIs(ds, cs, amount, dRest, cRest);
  }

  /** `Greedy` and `Final` after one iteration. */
  lemma GreedyUnfold(ds: seq<Entry>, cs: seq<Entry>, amount: real, dRest: real, cRest: real)
    requires ds != [] && cs != [] && Pending(ds, cs)
    requires amount == Min(Abs(ds[0].amount), cs[0].amount)
    requires dRest == ds[0].amount + amount && cRest == cs[0].amount - amount
    ensures Pending(Next(ds, dRest, Abs(dRest) < Epsilon), Next(cs, cRest, cRest < Epsilon))
    ensures Greedy(ds, cs) == [Transfer(ds[0].person, cs[0].person, amount)]
      + Greedy(Next(ds, dRest, Abs(dRest) < Epsilon), Next(cs, cRest, cRest < Epsilon))
    ensures Final(ds, cs).0 == (if Abs(dRest) < Epsilon then [Entry(ds[0].person, dRest)] else [])
      + Final(Next(ds, dRest, Abs(dRest) < Epsilon), Next(cs, cRest, cRest < Epsilon)).0
    ensures Final(ds, cs).1 == (if cRest < Epsilon then [Entry(cs[0].person, cRest)] else [])
      + Final(Next(ds, dRest, Abs(dRest) < Epsilon), Next(cs, cRest, cRest < Epsilon)).1
  {
    GreedyOnce(ds, cs, amount, dRest, cRest);
    FinalOnce(ds, cs, amount, dRest, cRest);
  }

  /** Each transfer goes from a debtor to a creditor and moves at least a
      cent, because a remainder that was not advanced past is at least a cent. */
  lemma {:induction false} GreedyTransfersValid(ds: seq<Entry>, cs: seq<Entry>)
    requires Pending(ds, cs)
    ensures forall t :: t in Greedy(ds, cs) ==>
      t.from in Persons(ds) && t.to in Persons(cs) && t.amount >= Epsilon
    decreases |ds| + |cs|
  {
    if ds != [] && cs != [] {
      var s := Step(ds, cs);
      GreedyTransfersValid(s.1, s.2);
      StepPersons(ds, cs);
      assert ds[0] in ds && cs[0] in cs;
    }
  }

  /** No transfer is from a person to themself when no one is both a debtor
      and a creditor. */
  lemma NoSelfTransfer(ds: seq<Entry>, cs: seq<Entry>)
    requires Pending(ds, cs)
    requires Persons(ds) !! Persons(cs)
    ensures forall t :: t in Greedy(ds, cs) ==> t.from != t.to
  {
    GreedyTransfersValid(ds, cs);
  }

  /** Every iteration advances at least one cursor, so there are fewer
      transfers than debtors and creditors together. */
  lemma {:induction false} GreedyLength(ds: seq<Entry>, cs: seq<Entry>)
    requires Pending(ds, cs)
    ensures Greedy(ds, cs) == [] <==> ds == [] || cs == []
    ensures |Greedy(ds, cs)| <= |ds| + |cs| - 1 || Greedy(ds, cs) == []
    decreases |ds| + |cs|
  {
    if ds != [] && cs != [] {
      var s := Step(ds, cs);
      GreedyLength(s.1, s.2);
    }
  }

  /** What is still owed (as a positive number) and still due. */
  function Debt(ds: seq<Entry>): real { Sum(ds, NegAmount) }
  function Credit(cs: seq<Entry>): real { Sum(cs, EntryAmount) }
  function Transferred(ts: seq<Transfer>): real { Sum(ts, TransferAmount) }

  /** One iteration moves `amount` off the current debtor; whatever a debtor
      still owes when the cursor passes it is under a cent. */
  lemma StepDebt(ds: seq<Entry>, cs: seq<Entry>)
    requires ds != [] && cs != [] && Pending(ds, cs)
    ensures var s := Step(ds, cs);
      0.0 <= Debt(ds) - s.0.amount - Debt(s.1) <= Epsilon * (|ds| - |s.1|) as real
  {
    var s := Step(ds, cs);
    var d := ds[0];
    assert ds == [d] + ds[1..];
    SumCons(d, ds[1..], NegAmount);
    if Abs(d.amount + s.0.amount) >= Epsilon {
      SumCons(d.(amount := d.amount + s.0.amount), ds[1..], NegAmount);
    }
  }

  /** The same on the creditor side. */
  lemma StepCredit(ds: seq<Entry>, cs: seq<Entry>)
    requires ds != [] && cs != [] && Pending(ds, cs)
    ensures var s := Step(ds, cs);
      0.0 <= Credit(cs) - s.0.amount - Credit(s.2) <= Epsilon * (|cs| - |s.2|) as real
  {
    var s := Step(ds, cs);
    var c := cs[0];
    assert cs == [c] + cs[1..];
    SumCons(c, cs[1..], EntryAmount);
    if c.amount - s.0.amount >= Epsilon {
      SumCons(c.(amount := c.amount - s.0.amount), cs[1..], EntryAmount);
    }
  }

  /** Two debtors owing 10 each and creditors owed 15 and 5 need three
      transfers: the first creditor is split across both debtors. */
  lemma ThreeTransfers()
    ensures var ds, cs := [Entry("A", -10.0), Entry("B", -10.0)], [Entry("C", 15.0), Entry("D", 5.0)];
      Pending(ds, cs) && Greedy(ds, cs) == [Transfer("A", "C", 10.0), Transfer("B", "C", 5.0), Transfer("B", "D", 5.0)]
  {
    var ds, cs := [Entry("A", -10.0), Entry("B", -10.0)], [Entry("C", 15.0), Entry("D", 5.0)];
    GreedyOnce(ds, cs, 10.0, 0.0, 5.0);
    assert Next(ds, 0.0, true) == [Entry("B", -10.0)];
    assert Next(cs, 5.0, false) == [Entry("C", 5.0), Entry("D", 5.0)];
    LastTwoTransfers();
  }

  lemma LastTwoTransfers()
    ensures var ds, cs := [Entry("B", -10.0)], [Entry("C", 5.0), Entry("D", 5.0)];
      Pending(ds, cs) && Greedy(ds, cs) == [Transfer("B", "C", 5.0), Transfer("B", "D", 5.0)]
  {
    var ds, cs := [Entry("B", -10.0)], [Entry("C", 5.0), Entry("D", 5.0)];
    GreedyOnce(ds, cs, 5.0, -5.0, 0.0);
    assert Next(ds, -5.0, false) == [Entry("B", -5.0)];
    assert Next(cs, 0.0, true) == [Entry("D", 5.0)];
    LastTransfer();
  }

  lemma LastTransfer()
    ensures Pending([Entry("B", -5.0)], [Entry("D", 5.0)])
    ensures Greedy([Entry("B", -5.0)], [Entry("D", 5.0)]) == [Transfer("B", "D", 5.0)]
  {
    var ds, cs := [Entry("B", -5.0)], [Entry("D", 5.0)];
    GreedyOnce(ds, cs, 5.0, 0.0, 0.0);
    assert Next(ds, 0.0, true) == [];
    assert Next(cs, 0.0, true) == [];
  }

  /** Money is conserved: the transfers never exceed what is owed or what is
      due, and the side whose list runs out is settled to within a cent per
      person. */
  lemma {:induction false} GreedySettles(ds: seq<Entry>, cs: seq<Entry>)
    requires Pending(ds, cs)
    ensures Transferred(Greedy(ds, cs)) <= Debt(ds)
    ensures Transferred(Greedy(ds, cs)) <= Credit(cs)
    ensures Debt(ds) - Transferred(Greedy(ds, cs)) <= Epsilon * |ds| as real
         || Credit(cs) - Transferred(Greedy(ds, cs)) <= Epsilon * |cs| as real
    decreases |ds| + |cs|
  {
    if ds != [] && cs != [] {
      var s := Step(ds, cs);
      GreedySettles(s.1, s.2);
      SumCons(s.0, Greedy(s.1, s.2), TransferAmount);
      StepDebt(ds, cs);
      StepCredit(ds, cs);
    } else {
      DebtNonNegative(ds);
      CreditNonNegative(cs);
    }
  }

  lemma {:induction false} DebtNonNegative(ds: seq<Entry>)
    requires forall e :: e in ds ==> e.amount <= 0.0
    ensures Debt(ds) >= 0.0
  {
    if ds != [] {
      assert forall e :: e in ds[..|ds| - 1] ==> e in ds;
      DebtNonNegative(ds[..|ds| - 1]);
      assert ds[|ds| - 1] in ds;
    }
  }

  lemma {:induction false} CreditNonNegative(cs: seq<Entry>)
    requires forall e :: e in cs ==> e.amount >= 0.0
    ensures Credit(cs) >= 0.0
  {
    if cs != [] {
      assert forall e :: e in cs[..|cs| - 1] ==> e in cs;
      CreditNonNegative(cs[..|cs| - 1]);
      assert cs[|cs| - 1] in cs;
    }
  }

  /** The contents of the two lists when the loop stops: every record the
      loop touched holds what is left of its amount, including the ones its
      cursor has passed. */
  function Final(ds: seq<Entry>, cs: seq<Entry>): (r: (seq<Entry>, seq<Entry>))
    requires Pending(ds, cs)
    decreases |ds| + |cs|
  {
    if ds == [] || cs == [] then (ds, cs)
    else
      var s := Step(ds, cs);
      var d, c := Entry(ds[0].person, ds[0].amount + s.0.amount), Entry(cs[0].person, cs[0].amount - s.0.amount);
      var f := Final(s.1, s.2);
      ((if Abs(d.amount) < Epsilon then [d] else []) + f.0, (if c.amount < Epsilon then [c] else []) + f.1)
  }

  /** `now` is `before` with its amount moved towards zero, never past it:
      a debtor's amount stays in `[before, 0]`, a creditor's in `[0, before]`. */
  predicate Shrunk(before: Entry, now: Entry, debtor: bool) {
    && now.person == before.person
    && (if debtor then before.amount <= now.amount <= 0.0 else 0.0 <= now.amount <= before.amount)
  }

  /** Record by record, `now` is `before` moved towards zero. */
  ghost predicate AllShrunk(before: seq<Entry>, now: seq<Entry>, debtor: bool) {
    |now| == |before| && forall k :: 0 <= k < |before| ==> Shrunk(before[k], now[k], debtor)
  }

  /** The loop keeps every debtor record in its place and only moves its
      amount towards zero: a debtor never ends up owed money. */
  lemma {:induction false} FinalDebtors(ds: seq<Entry>, cs: seq<Entry>)
    requires Pending(ds, cs)
    ensures AllShrunk(ds, Final(ds, cs).0, true)
    decreases |ds| + |cs|
  {
    if ds != [] && cs != [] {
      var amount := Min(Abs(ds[0].amount), cs[0].amount);
      var dRest, cRest := ds[0].amount + amount, cs[0].amount - amount;
      GreedyUnfold(ds, cs, amount, dRest, cRest);
      var nextDs := Next(ds, dRest, Abs(dRest) < Epsilon);
      var nextCs := Next(cs, cRest, cRest < Epsilon);
      FinalDebtors(nextDs, nextCs);
      assert ds[0] in ds;
      ShrunkStep(ds, dRest, Abs(dRest) < Epsilon, Final(nextDs, nextCs).0, true);
    }
  }

  /** The same for the creditor records: a creditor never ends up owing. */
  lemma {:induction false} FinalCreditors(ds: seq<Entry>, cs: seq<Entry>)
    requires Pending(ds, cs)
    ensures AllShrunk(cs, Final(ds, cs).1, false)
    decreases |ds| + |cs|
  {
    if ds != [] && cs != [] {
      var amount := Min(Abs(ds[0].amount), cs[0].amount);
      var dRest, cRest := ds[0].amount + amount, cs[0].amount - amount;
      GreedyUnfold(ds, cs, amount, dRest, cRest);
      var nextDs := Next(ds, dRest, Abs(dRest) < Epsilon);
      var nextCs := Next(cs, cRest, cRest < Epsilon);
      FinalCreditors(nextDs, nextCs);
      assert cs[0] in cs;
      ShrunkStep(cs, cRest, cRest < Epsilon, Final(nextDs, nextCs).1, false);
    }
  }

  /** One iteration's share of `FinalDebtors` and `FinalCreditors`: if the
      head moves towards zero and the rest of the run shrinks the list it
      leaves, the whole run shrinks the original list. */
  lemma ShrunkStep(s: seq<Entry>, rest: real, passed: bool, tail: seq<Entry>, debtor: bool)
    requires s != [] && Shrunk(s[0], Entry(s[0].person, rest), debtor)
    requires AllShrunk(Next(s, rest, passed), tail, debtor)
    ensures AllShrunk(s, (if passed then [Entry(s[0].person, rest)] else []) + tail, debtor)
  {
    var next := Next(s, rest, passed);
    var r := (if passed then [Entry(s[0].person, rest)] else []) + tail;
    forall k | 0 <= k < |s| ensures Shrunk(s[k], r[k], debtor) {
      if passed {
        if k > 0 {
          assert r[k] == tail[k - 1] && next[k - 1] == s[k];
        }
      } else if k > 0 {
        assert next[k] == next[1..][k - 1] == s[k];
      } else {
        assert Shrunk(next[0], tail[0], debtor);
      }
    }
  }

  /** Every debtor owes less than a cent. */
  ghost predicate DebtorsSettled(s: seq<Entry>) {
    forall k :: 0 <= k < |s| ==> Abs(s[k].amount) < Epsilon
  }

  /** Every creditor is owed less than a cent. */
  ghost predicate CreditorsSettled(s: seq<Entry>) {
    forall k :: 0 <= k < |s| ==> s[k].amount < Epsilon
  }

  /** When the loop stops, one of the two lists is settled to within a cent
      for every person on it. */
  lemma {:induction false} FinalSettled(ds: seq<Entry>, cs: seq<Entry>)
    requires Pending(ds, cs)
    ensures DebtorsSettled(Final(ds, cs).0) || CreditorsSettled(Final(ds, cs).1)
    decreases |ds| + |cs|
  {
    if ds != [] && cs != [] {
      var amount := Min(Abs(ds[0].amount), cs[0].amount);
      var dRest, cRest := ds[0].amount + amount, cs[0].amount - amount;
      GreedyUnfold(ds, cs, amount, dRest, cRest);
      var nextDs := Next(ds, dRest, Abs(dRest) < Epsilon);
      var nextCs := Next(cs, cRest, cRest < Epsilon);
      FinalSettled(nextDs, nextCs);
      var g := Final(nextDs, nextCs);
      if DebtorsSettled(g.0) {
        PrependSettled(Entry(ds[0].person, dRest), Abs(dRest) < Epsilon, g.0, true);
      } else {
        PrependSettled(Entry(cs[0].person, cRest), cRest < Epsilon, g.1, false);
      }
    }
  }

  /** Putting a record that is within a cent in front of a settled list. */
  lemma PrependSettled(e: Entry, passed: bool, s: seq<Entry>, debtors: bool)
    requires if debtors then DebtorsSettled(s) else CreditorsSettled(s)
    requires passed ==> if debtors then Abs(e.amount) < Epsilon else e.amount < Epsilon
    ensures var r := (if passed then [e] else []) + s;
      if debtors then DebtorsSettled(r) else CreditorsSettled(r)
  {
    var r := (if passed then [e] else []) + s;
    if passed {
      assert forall k :: 1 <= k < |r| ==> r[k] == s[k - 1];
    } else {
      assert r == s;
    }
  }

  /** Exact conservation: every transfer lowers the debt still owed and the
      credit still due by its amount, so what the lists hold at the end is
      what they held at the start minus what was transferred. */
  lemma {:induction false} FinalConserves(ds: seq<Entry>, cs: seq<Entry>)
    requires Pending(ds, cs)
    ensures Debt(Final(ds, cs).0) == Debt(ds) - Transferred(Greedy(ds, cs))
    ensures Credit(Final(ds, cs).1) == Credit(cs) - Transferred(Greedy(ds, cs))
    decreases |ds| + |cs|
  {
    if ds != [] && cs != [] {
      var s := Step(ds, cs);
      FinalConserves(s.1, s.2);
      SumCons(s.0, Greedy(s.1, s.2), TransferAmount);
      FinalStepDebt(ds, cs);
      FinalStepCredit(ds, cs);
    }
  }

  /** One iteration of `FinalConserves` on the debtor side. */
  lemma FinalStepDebt(ds: seq<Entry>, cs: seq<Entry>)
    requires ds != [] && cs != [] && Pending(ds, cs)
    ensures var s := Step(ds, cs);
      Debt(Final(ds, cs).0) - Debt(Final(s.1, s.2).0) == Debt(ds) - Debt(s.1) - s.0.amount
  {
    var s := Step(ds, cs);
    var amount := Min(Abs(ds[0].amount), cs[0].amount);
    var dRest, cRest := ds[0].amount + amount, cs[0].amount - amount;
    StepIs(ds, cs, amount, dRest, cRest);
    FinalOnce(ds, cs, amount, dRest, cRest);
    assert ds == [ds[0]] + ds[1..];
    DebtShift(ds[0], ds[1..], Entry(ds[0].person, dRest), Abs(dRest) < Epsilon, Final(s.1, s.2).0);
  }

  /** The debt arithmetic of one iteration: the head record `head` became
      `d` and was either passed (and put in front of what the rest of the run
      leaves, `g`) or kept at the head of the list. */
  lemma DebtShift(head: Entry, rest: seq<Entry>, d: Entry, passed: bool, g: seq<Entry>)
    ensures Debt((if passed then [d] else []) + g) - Debt(g)
      == Debt([head] + rest) - Debt(if passed then rest else [d] + rest) - (d.amount - head.amount)
  {
    SumCons(head, rest, NegAmount);
    if passed {
      SumCons(d, g, NegAmount);
    } else {
      assert [] + g == g;
      SumCons(d, rest, NegAmount);
    }
  }

  /** One iteration of `FinalConserves` on the creditor side. */
  lemma FinalStepCredit(ds: seq<Entry>, cs: seq<Entry>)
    requires ds != [] && cs != [] && Pending(ds, cs)
    ensures var s := Step(ds, cs);
      Credit(Final(ds, cs).1) - Credit(Final(s.1, s.2).1) == Credit(cs) - Credit(s.2) - s.0.amount
  {
    var s := Step(ds, cs);
    var c := Entry(cs[0].person, cs[0].amount - s.0.amount);
    var g := Final(s.1, s.2);
    assert cs == [cs[0]] + cs[1..];
    SumCons(cs[0], cs[1..], EntryAmount);
    if c.amount < Epsilon {
      SumCons(c, g.1, EntryAmount);
    } else {
      assert Final(ds, cs).1 == g.1;
      SumCons(c, cs[1..], EntryAmount);
    }
  }

  /** What the loop keeps true: the transfers recorded so far followed by the
      ones still to come are `total`, the records before the cursors
      followed by the final contents of the rest are `finalDs` and `finalCs`,
      and every record a cursor has passed is within a cent of zero. */
  ghost predicate LoopInvariant(total: seq<Transfer>, finalDs: seq<Entry>, finalCs: seq<Entry>,
                                results: seq<Transfer>, ds: seq<Entry>, cs: seq<Entry>, i: int, j: int)
  {
    && 0 <= i <= |ds| && 0 <= j <= |cs| && Pending(ds[i..], cs[j..])
    && results + Greedy(ds[i..], cs[j..]) == total
    && ds[..i] + Final(ds[i..], cs[j..]).0 == finalDs
    && cs[..j] + Final(ds[i..], cs[j..]).1 == finalCs
    && PassedSettled(ds, cs, i, j)
  }

  /** How the loop stops: one cursor is at the end of its list, and every
      record the cursors passed is within a cent of zero. */
  ghost predicate Stopped(ds: seq<Entry>, cs: seq<Entry>, i: int, j: int) {
    PassedSettled(ds, cs, i, j) && (i == |ds| || j == |cs|)
  }

  /** Every debtor before cursor `i` and every creditor before cursor `j` is
      within a cent of zero. */
  ghost predicate PassedSettled(ds: seq<Entry>, cs: seq<Entry>, i: int, j: int) {
    0 <= i <= |ds| && 0 <= j <= |cs| && DebtorsSettled(ds[..i]) && CreditorsSettled(cs[..j])
  }

  /** A cursor that passes a record within a cent keeps its passed part
      settled. */
  lemma {:induction false} SettledAppend(s: seq<Entry>, done: seq<Entry>, debtors: bool)
    requires if debtors then DebtorsSettled(s) else CreditorsSettled(s)
    requires forall k :: 0 <= k < |done| ==> if debtors then Abs(done[k].amount) < Epsilon else done[k].amount < Epsilon
    ensures if debtors then DebtorsSettled(s + done) else CreditorsSettled(s + done)
  {
    forall k | 0 <= k < |s + done|
      ensures if debtors then Abs((s + done)[k].amount) < Epsilon else (s + done)[k].amount < Epsilon
    {
      if k >= |s| {
        assert (s + done)[k] == done[k - |s|];
      } else {
        assert (s + done)[k] == s[k];
      }
    }
  }

  /** One pass through the loop body, from the state before it to the state
      after it, keeps `LoopInvariant` and moves at least one cursor. */
  lemma LoopStep(total: seq<Transfer>, finalDs: seq<Entry>, finalCs: seq<Entry>,
                 results: seq<Transfer>, ds: seq<Entry>, cs: seq<Entry>, i: int, j: int,
                 results': seq<Transfer>, ds': seq<Entry>, cs': seq<Entry>, i': int, j': int)
    requires LoopInvariant(total, finalDs, finalCs, results, ds, cs, i, j) && i < |ds| && j < |cs|
    requires var amount := Min(Abs(ds[i].amount), cs[j].amount);
      var dRest, cRest := ds[i].amount + amount, cs[j].amount - amount;
      && results' == results + [Transfer(ds[i].person, cs[j].person, amount)]
      && ds' == ds[i := Entry(ds[i].person, dRest)] && cs' == cs[j := Entry(cs[j].person, cRest)]
      && i' == (if Abs(dRest) < Epsilon then i + 1 else i) && j' == (if cRest < Epsilon then j + 1 else j)
    ensures LoopInvariant(total, finalDs, finalCs, results', ds', cs', i', j')
    ensures |ds'| == |ds| && |cs'| == |cs| && i' + j' > i + j
  {
    var debtor, creditor := ds[i], cs[j];
    assert debtor in ds[i..] && creditor in cs[j..];
    var amount := Min(Abs(debtor.amount), creditor.amount);
    var dRest, cRest := debtor.amount + amount, creditor.amount - amount;
    GreedyUnfold(ds[i..], cs[j..], amount, dRest, cRest);
    var nextDs := Next(ds[i..], dRest, Abs(dRest) < Epsilon);
    var nextCs := Next(cs[j..], cRest, cRest < Epsilon);
    ConcatAssoc(results, [Transfer(debtor.person, creditor.person, amount)], Greedy(nextDs, nextCs));
    var f := Final(nextDs, nextCs);
    var doneD := UpdateAt(ds, i, dRest, Abs(dRest) < Epsilon);
    var doneC := UpdateAt(cs, j, cRest, cRest < Epsilon);
    ConcatAssoc(ds[..i], doneD, f.0);
    ConcatAssoc(cs[..j], doneC, f.1);
    PassedStep(ds, cs, i, j, dRest, cRest);
  }

  /** A pass advances a cursor only past a record it left within a cent, so
      the records behind both cursors stay settled. */
  lemma PassedStep(ds: seq<Entry>, cs: seq<Entry>, i: int, j: int, dRest: real, cRest: real)
    requires PassedSettled(ds, cs, i, j) && i < |ds| && j < |cs|
    ensures PassedSettled(ds[i := Entry(ds[i].person, dRest)], cs[j := Entry(cs[j].person, cRest)],
                          if Abs(dRest) < Epsilon then i + 1 else i, if cRest < Epsilon then j + 1 else j)
  {
    var doneD := UpdateAt(ds, i, dRest, Abs(dRest) < Epsilon);
    var doneC := UpdateAt(cs, j, cRest, cRest < Epsilon);
    SettledAppend(ds[..i], doneD, true);
    SettledAppend(cs[..j], doneC, false);
  }

  /** Before the first pass nothing is recorded and no record is passed. */
  lemma LoopStart(ds: seq<Entry>, cs: seq<Entry>)
    requires Pending(ds, cs)
    ensures LoopInvariant(Greedy(ds, cs), Final(ds, cs).0, Final(ds, cs).1, [], ds, cs, 0, 0)
  {
    assert ds[..0] == [] && cs[..0] == [] && ds[0..] == ds && cs[0..] == cs;
  }

  /** When a cursor has reached the end of its list, the invariant says the
      loop has produced everything. */
  lemma LoopDone(total: seq<Transfer>, finalDs: seq<Entry>, finalCs: seq<Entry>,
                 results: seq<Transfer>, ds: seq<Entry>, cs: seq<Entry>, i: int, j: int)
    requires LoopInvariant(total, finalDs, finalCs, results, ds, cs, i, j)
    requires i == |ds| || j == |cs|
    ensures results == total && ds == finalDs && cs == finalCs
    ensures Stopped(ds, cs, i, j)
  {
    assert ds[..i] + ds[i..] == ds && cs[..j] + cs[j..] == cs;
  }

  /** Updating the record under a cursor and perhaps advancing past it: the
      part before the cursor grows by the passed record, the part from the
      cursor on is `Next` of the old one. Returns the passed records. */
  lemma UpdateAt(s: seq<Entry>, i: int, rest: real, settled: bool) returns (done: seq<Entry>)
    requires 0 <= i < |s|
    ensures done == if settled then [Entry(s[i].person, rest)] else []
    ensures var s', i' := s[i := Entry(s[i].person, rest)], if settled then i + 1 else i;
      s'[..i'] == s[..i] + done && s'[i'..] == Next(s[i..], rest, settled)
  {
    done := if settled then [Entry(s[i].person, rest)] else [];
    var s' := s[i := Entry(s[i].person, rest)];
    if settled {
      assert s'[..i + 1] == s[..i] + done;
      assert s'[i + 1..] == s[i..][1..];
    } else {
      assert s'[..i] == s[..i];
      assert s'[i..] == [Entry(s[i].person, rest)] + s[i..][1..];
    }
  }

  lemma ConcatAssoc<T>(a: seq<T>, b: seq<T>, c: seq<T>)
    ensures (a + b) + c == a + (b + c)
  {
  }

  /** One pass of the loop body: the transfer of `min(|debt|, credit)` is
      recorded, both records under the cursors are updated in place, and a
      cursor moves past a record that is within a cent of zero. */
  method Pass(ghost total: seq<Transfer>, ghost finalDs: seq<Entry>, ghost finalCs: seq<Entry>,
              results: seq<Transfer>, ds: seq<Entry>, cs: seq<Entry>, i: nat, j: nat)
    returns (results': seq<Transfer>, ds': seq<Entry>, cs': seq<Entry>, i': nat, j': nat)
    requires LoopInvariant(total, finalDs, finalCs, results, ds, cs, i, j) && i < |ds| && j < |cs|
    ensures LoopInvariant(total, finalDs, finalCs, results', ds', cs', i', j')
    ensures |ds'| == |ds| && |cs'| == |cs| && i' + j' > i + j
  {
    var debtor := ds[i];
    var creditor := cs[j];
    var amount := Min(Abs(debtor.amount), creditor.amount);
    results' := results + [Transfer(debtor.person, creditor.person, amount)];
    var debtorRest, creditorRest := debtor.amount + amount, creditor.amount - amount;
    ds' := ds[i := Entry(debtor.person, debtorRest)];
    cs' := cs[j := Entry(creditor.person, creditorRest)];
    i', j' := i, j;
    if Abs(debtorRest) < Epsilon { i' := i + 1; }
    if creditorRest < Epsilon { j' := j + 1; }
    LoopStep(total, finalDs, finalCs, results, ds, cs, i, j, results', ds', cs', i', j');
  }

  /** The `while (i < debtors.length && j < creditors.length)` loop. The
      records it updates in place are held in two local lists; it returns the
      transfers, the lists' final contents and the two cursors. Every record
      before a cursor is within a cent of zero, and one cursor is at the end
      of its list. */
  method SettleGreedy(debtors: seq<Entry>, creditors: seq<Entry>)
    returns (results: seq<Transfer>, restDebtors: seq<Entry>, restCreditors: seq<Entry>, i: nat, j: nat)
    requires Pending(debtors, creditors)
    ensures results == Greedy(debtors, creditors)
    ensures (restDebtors, restCreditors) == Final(debtors, creditors)
    ensures Stopped(restDebtors, restCreditors, i, j)
  {
    var ds, cs := debtors, creditors;
    results := [];
    i, j := 0, 0;
    ghost var total, finalLists := Greedy(debtors, creditors), Final(debtors, creditors);
    LoopStart(debtors, creditors);
    while i < |ds| && j < |cs|
      invariant |ds| == |debtors| && |cs| == |creditors|
      invariant LoopInvariant(total, finalLists.0, finalLists.1, results, ds, cs, i, j)
      decreases |ds| - i + |cs| - j
    {
      results, ds, cs, i, j := Pass(total, finalLists.0, finalLists.1, results, ds, cs, i, j);
    }
    LoopDone(total, finalLists.0, finalLists.1, results, ds, cs, i, j);
    restDebtors := ds;
    restCreditors := cs;
  }
}
