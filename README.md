# Z-Finance in Dafny

A model of the core logic of Z-Finance, a personal-finance web app written in
TypeScript and React, with proofs about that model. The model covers:

- **The group-expense engine** (`components/GroupEvents.tsx`). The `settlements`
  memo works in two phases.
  - It fills a `balances` record: every participant starts at 0, every expense
    credits its payer, and every participant is charged
    `totalSpent / participants.length`.
  - It splits the record into debtors (below -0.01) and creditors (above 0.01),
    sorts both lists, and pairs them greedily with a two-cursor `while` loop.
  - The file also models event creation from a comma-separated participant
    field, adding an expense, the share summary and the `getColor` hash.
- **The app's state** (`App.tsx`). A class holds the transaction, debt and event
  lists and the user profile. Its methods are the handlers that prepend, delete
  by id, settle, replace and reset.
- **The charts and lists**:
  - the dashboard's totals, its five top merchants and its record month;
  - the category bubbles and their size clamp;
  - the friends-and-family ledger;
  - the transaction search and its newest-first order;
  - the add-transaction form, with its merchant autocomplete and the two
    steps of its category prediction: the guarded request and the applied
    answer.

How the pieces are represented:

- Money is `real`.
- Results of JavaScript arithmetic that can be `NaN` or an infinity (`x / 0`,
  `undefined + x`, `Math.min` and `Math.max` of those) are a `JsNumber`.
- A `Map` or record filled in a `forEach` is a `map` plus the sequence of its
  keys in insertion order.
- `Array.prototype.sort` is a stable descending insertion sort on sequences.
- Loops in the source are methods with `for`/`while` loops. Each is proved
  equal to a pure function that defines its result.
- Each property is proved as a lemma about that function.

Behaviour of the code that a reader might not expect:

- The greedy loop can emit more transfers than `min(#debtors, #creditors)`.
  Two debtors owing 10 each and creditors owed 15 and 5 give three transfers
  (`Settlement.ThreeTransfers`). The bound that holds is
  `#debtors + #creditors - 1` (`Settlement.GreedyLength`).
- Balances are not zeroed exactly. When the loop stops, one side is settled to
  within a cent per person (`Settlement.FinalSettled`). Balances that were
  within a cent of zero at the start are never touched.
- Conservation of money does not need distinct participant names. A name
  listed twice is charged the share twice, and the shares still add up to the
  total (`GroupEvents.BalancesSumToZero`).
- A payer who is not a participant makes their record entry `NaN`
  (`undefined + amount`). Such an entry is neither a debtor nor a creditor. The
  model keeps this path instead of excluding it by a precondition. Only the
  conservation lemma assumes every payer is a participant. The form does not
  guarantee it: the chosen payer (`components/GroupEvents.tsx:61`) is set only
  by the select (:425) and is kept after an expense is added (:102-103) and
  when another event is opened (:194). Choosing "Alex" in an event with
  Me and Alex, going back and adding an expense to an event with Me and Sam
  records Alex as payer (:93). Alex's entry is then `NaN` (:137), and Me and
  Sam are charged for money nobody is credited with.
- With no participants the share is `NaN` or an infinity, and there are no
  transfers (`GroupEvents.NoParticipants`).
- The comment at `components/BubbleChart.tsx:42` says the bubble size is
  60–140px. The code clamps to [70, 150], and the model follows the code.

## Model

| member | source | states |
|---|---|---|
| GroupEvents.Share | components/GroupEvents.tsx:133-134 | the share is the total spent divided by the number of listings; it is not a number when there are no participants |
| GroupEvents.TotalSpent | components/GroupEvents.tsx:133 | defines the total spent as the sum of the expense amounts; `Share` and `BalancesSumToZero` state what follows from it |
| GroupEvents.PaidBy | components/GroupEvents.tsx:136-138 | defines what a person paid as the sum over the expenses they paid; `CreditPayers` proves the credit loop computes it |
| GroupEvents.BalanceOf | components/GroupEvents.tsx:130-142 | defines a key's balance: paid minus the share once per listing, NaN for a payer who is not a participant; `ComputeBalances` proves the loops compute it |
| GroupEvents.InitBalances | components/GroupEvents.tsx:131 | the record has exactly the distinct participants as keys, in first-listed order, each at 0 |
| GroupEvents.CreditPayers | components/GroupEvents.tsx:136-138 | after the loop each key holds what that person paid; a payer who is not a participant becomes a new key holding NaN |
| GroupEvents.CreditKeysStep | components/GroupEvents.tsx:137 | one credit adds the payer to the key order exactly when the payer is new |
| GroupEvents.CreditBalancesStep | components/GroupEvents.tsx:137 | one `+=` keeps every entry equal to the credited total of the expenses seen so far |
| GroupEvents.ChargeShares | components/GroupEvents.tsx:140-142 | after the loop each entry is the balance: paid minus the share once per listing |
| GroupEvents.ComputeBalances | components/GroupEvents.tsx:130-142 | the three loops build exactly the balance record and its key order |
| GroupEvents.CreditedSnoc | components/GroupEvents.tsx:137 | one more expense changes only its payer's entry, by its amount |
| GroupEvents.ChargedSnoc | components/GroupEvents.tsx:141 | one more charge changes only that participant's entry, by minus the share |
| GroupEvents.ChargedAll | components/GroupEvents.tsx:140-142 | once every listing is charged, the entry is the balance |
| GroupEvents.Entries | components/GroupEvents.tsx:147 | `Object.entries` yields one record per key with a finite balance, in key order |
| GroupEvents.SplitBalances | components/GroupEvents.tsx:144-150 | the loop pushes exactly the entries below -0.01 as debtors and above 0.01 as creditors, in key order |
| GroupEvents.EntriesPrefix | components/GroupEvents.tsx:147 | one more key adds its record, if its balance is finite, at the end |
| GroupEvents.BalancesNotInfinite | components/GroupEvents.tsx:131-142 | every key has an entry, and no entry is an infinity |
| GroupEvents.EntriesComplete | components/GroupEvents.tsx:147 | every key with a finite entry contributes its record |
| GroupEvents.AllEntries | components/GroupEvents.tsx:147 | every record carries the person's balance |
| GroupEvents.AllEntriesExactly | components/GroupEvents.tsx:147 | a record is present exactly when it is the person's finite balance |
| GroupEvents.Debtors | components/GroupEvents.tsx:152 | the debtors are a permutation of the pushed debtors, most negative first |
| GroupEvents.Creditors | components/GroupEvents.tsx:153 | the creditors are a permutation of the pushed creditors, largest first |
| GroupEvents.DebtorsExactly | components/GroupEvents.tsx:147-153 | a person is a debtor exactly when their balance is below -0.01, and a creditor exactly when it is above 0.01, with that balance as amount |
| GroupEvents.DebtorsCreditorsDisjoint | components/GroupEvents.tsx:148-149 | no person is both a debtor and a creditor |
| GroupEvents.DebtorsCreditorsPending | components/GroupEvents.tsx:147-153 | the loop starts with every debtor at or below -0.01 and every creditor at or above 0.01 |
| GroupEvents.Settlements | components/GroupEvents.tsx:128-172 | no selected event gives no transfers; otherwise the memo's phases give the greedy transfers of the sorted lists |
| GroupEvents.SettlementsOf | components/GroupEvents.tsx:144-171 | defines the transfers of a selected event as the greedy transfers of its sorted debtors and creditors; `SettlementsValid` and `NoTransfersWhenSettled` state their properties |
| GroupEvents.SettlementsValid | components/GroupEvents.tsx:158-169 | every transfer goes from a person whose balance is below -0.01 to a different person whose balance is above 0.01, and moves at least 0.01 |
| GroupEvents.NoTransfersWhenSettled | components/GroupEvents.tsx:147-150 | all balances within a cent of zero give no debtors, no creditors and no transfers |
| GroupEvents.NoParticipants | components/GroupEvents.tsx:131-134 | an event without participants has no transfers |
| GroupEvents.NoExpenses | components/GroupEvents.tsx:131-142 | without expenses every balance is 0 and there are no transfers |
| GroupEvents.NoExpensesBalance | components/GroupEvents.tsx:131-142 | without expenses a participant's balance is 0 |
| GroupEvents.SingleParticipant | components/GroupEvents.tsx:131-142 | a lone participant who paid everything has balance 0 and no transfers |
| GroupEvents.SingleParticipantBalance | components/GroupEvents.tsx:131-142 | a lone participant who paid everything has balance 0 |
| GroupEvents.EntriesSum | components/GroupEvents.tsx:147 | the records add up to the sum of the keys' balances |
| GroupEvents.BalanceIsKeyBalance | components/GroupEvents.tsx:131-142 | a participant's balance is what they paid minus their charges |
| GroupEvents.ListingsTotal | components/GroupEvents.tsx:140-142 | charging per listing and adding up per distinct name gives the same total |
| GroupEvents.ChargesTotal | components/GroupEvents.tsx:140-142 | the shares taken add up to the total spent |
| GroupEvents.ChargesPerListing | components/GroupEvents.tsx:140-142 | the shares taken are the share times the number of listings |
| GroupEvents.ShareSpread | components/GroupEvents.tsx:133-134 | the share times the number of listings is the total spent |
| GroupEvents.BalancesSumToZero | components/GroupEvents.tsx:131-142 | when every payer is a participant the balances add up to exactly 0, duplicates or not |
| GroupEvents.BalanceOfDistinct | components/GroupEvents.tsx:130-142 | with distinct participants a balance is what the person paid minus total / number of participants |
| GroupEvents.ListedOnce | components/GroupEvents.tsx:140-142 | a name listed once is charged once |
| GroupEvents.ParseParticipants | components/GroupEvents.tsx:68-73 | the participants are 'Me' followed by trimmed, non-empty names |
| GroupEvents.ParsePieces | components/GroupEvents.tsx:68-73 | a field made of comma-free pieces parses to 'Me' followed by every piece trimmed, the empty ones dropped, in order |
| GroupEvents.ParsePadded | components/GroupEvents.tsx:68-73 | pieces that trim to non-empty names, such as names typed with spaces after the commas, give 'Me' followed by those names in order |
| GroupEvents.NamesTrimmed | components/GroupEvents.tsx:68 | the kept names are trimmed and non-empty |
| GroupEvents.PrependShape | components/GroupEvents.tsx:73 | every participant after the first is one of the parsed names |
| GroupEvents.CreateEvent | components/GroupEvents.tsx:66-77 | the event has the parsed participants, no expenses, and the form's title, kind and currency |
| GroupEvents.ParseJoined | components/GroupEvents.tsx:68 | names typed already trimmed and joined by commas come back in order, duplicates kept, after 'Me'; the empty field gives only 'Me' |
| GroupEvents.EmptyText | components/GroupEvents.tsx:68 | an empty field gives no names |
| GroupEvents.AddExpense | components/GroupEvents.tsx:85-101 | nothing without a selected event; otherwise exactly one expense is put in front, its payer defaults to 'Me', and every other field is unchanged |
| GroupEvents.PayerOrMe | components/GroupEvents.tsx:93 | defines the payer as the chosen one, or 'Me' when none is chosen; `AddExpenseEffect` proves the new expense credits exactly that person |
| GroupEvents.AddExpenseEffect | components/GroupEvents.tsx:89-100 | the new expense raises the total by its amount and credits its payer |
| GroupEvents.ShareSummary | components/GroupEvents.tsx:107-110 | nothing without a selected event; otherwise the total and the per-person share |
| GroupEvents.ToInt32 | components/GroupEvents.tsx:42 | the result is in the int32 range and congruent to the input modulo 2^32 |
| GroupEvents.ColorIndex | components/GroupEvents.tsx:43 | the palette index is in range |
| GroupEvents.GetColor | components/GroupEvents.tsx:40-44 | the hash loop gives the palette entry at `abs(hash) % 14` |
| GroupEvents.HashBound | components/GroupEvents.tsx:42 | each round adds at most a 32-bit value and a character code to the magnitude of the hash |
| GroupEvents.HashExact | components/GroupEvents.tsx:42 | for names under 2^21 characters the hash stays below 2^53, so the double arithmetic is exact |
| GroupEvents.MeColor | components/GroupEvents.tsx:40-44 | the hash of 'Me' is 2488 and its colour is `#D946EF` |
| Settlement.Next | components/GroupEvents.tsx:165-169 | a passed record is dropped; otherwise the head holds its remainder and the rest is unchanged |
| Settlement.Step | components/GroupEvents.tsx:159-169 | one iteration transfers from the current debtor to the current creditor at least 0.01, keeps both lists pending and shortens them |
| Settlement.Greedy | components/GroupEvents.tsx:158-170 | defines the transfers the loop emits, one iteration at a time; `GreedyTransfersValid`, `GreedyLength` and `GreedySettles` state their properties and `SettleGreedy` proves the loop computes them |
| Settlement.Final | components/GroupEvents.tsx:158-170 | defines the contents of the two lists when the loop stops; `FinalDebtors`, `FinalCreditors`, `FinalSettled` and `FinalConserves` state their properties |
| Settlement.StepIs | components/GroupEvents.tsx:161-169 | one iteration transfers `min(abs(debt), credit)` and leaves the two remainders |
| Settlement.StepPersons | components/GroupEvents.tsx:159-169 | an iteration brings no new person onto either list |
| Settlement.GreedyOnce | components/GroupEvents.tsx:158-170 | the transfers are the iteration's transfer followed by those from the lists it leaves |
| Settlement.FinalOnce | components/GroupEvents.tsx:165-169 | the final records are the passed record, if any, followed by the final records of the rest |
| Settlement.GreedyUnfold | components/GroupEvents.tsx:158-170 | the transfers and the final records after one iteration |
| Settlement.GreedyTransfersValid | components/GroupEvents.tsx:161-169 | every transfer is from a debtor to a creditor and moves at least 0.01 |
| Settlement.NoSelfTransfer | components/GroupEvents.tsx:163 | when no one is both debtor and creditor, no transfer is to its sender |
| Settlement.GreedyLength | components/GroupEvents.tsx:158-170 | there are no transfers exactly when a list is empty, and otherwise at most #debtors + #creditors - 1 |
| Settlement.StepDebt | components/GroupEvents.tsx:165-168 | an iteration lowers the debt by its transfer, plus under a cent for a passed debtor |
| Settlement.StepCredit | components/GroupEvents.tsx:166-169 | an iteration lowers the credit by its transfer, plus under a cent for a passed creditor |
| Settlement.ThreeTransfers | components/GroupEvents.tsx:158-170 | debtors of 10 and 10 with creditors of 15 and 5 give three transfers |
| Settlement.LastTwoTransfers | components/GroupEvents.tsx:158-170 | the last two transfers of that example |
| Settlement.LastTransfer | components/GroupEvents.tsx:158-170 | the last transfer of that example |
| Settlement.GreedySettles | components/GroupEvents.tsx:158-170 | the transfers exceed neither the debt nor the credit, and settle one side to within a cent per person |
| Settlement.DebtNonNegative | components/GroupEvents.tsx:148 | the debt of non-positive records is non-negative |
| Settlement.CreditNonNegative | components/GroupEvents.tsx:149 | the credit of non-negative records is non-negative |
| Settlement.FinalDebtors | components/GroupEvents.tsx:165-168 | every debtor record keeps its place and person and ends between its start and 0 |
| Settlement.FinalCreditors | components/GroupEvents.tsx:166-169 | every creditor record keeps its place and person and ends between 0 and its start |
| Settlement.ShrunkStep | components/GroupEvents.tsx:165-169 | one iteration's share of the sign-preservation proofs |
| Settlement.FinalSettled | components/GroupEvents.tsx:168-169 | when the loop stops, every debtor or every creditor is within a cent of zero |
| Settlement.PrependSettled | components/GroupEvents.tsx:168-169 | a passed record within a cent keeps a settled list settled |
| Settlement.FinalConserves | components/GroupEvents.tsx:163-166 | the final debt and credit are the starting ones minus exactly what was transferred |
| Settlement.FinalStepDebt | components/GroupEvents.tsx:165 | one iteration of that conservation on the debtor side |
| Settlement.DebtShift | components/GroupEvents.tsx:165 | the debt arithmetic of one iteration |
| Settlement.FinalStepCredit | components/GroupEvents.tsx:166 | one iteration of that conservation on the creditor side |
| Settlement.LoopStep | components/GroupEvents.tsx:158-170 | one pass of the loop body keeps the loop invariant and advances a cursor |
| Settlement.PassedStep | components/GroupEvents.tsx:165-169 | a cursor advances only past a record it left within a cent, so every record behind both cursors stays settled |
| Settlement.SettledAppend | components/GroupEvents.tsx:168-169 | a settled list extended by records within a cent stays settled |
| Settlement.LoopStart | components/GroupEvents.tsx:155-156 | with nothing recorded and both cursors at 0, the loop invariant holds |
| Settlement.Pass | components/GroupEvents.tsx:159-169 | the loop body keeps the loop invariant, keeps both lengths and advances a cursor |
| Settlement.LoopDone | components/GroupEvents.tsx:158 | when a cursor reaches its end, the loop has produced every transfer and final record, and every record behind a cursor is within a cent of zero |
| Settlement.UpdateAt | components/GroupEvents.tsx:165-169 | updating the record under a cursor and perhaps advancing past it |
| Settlement.SettleGreedy | components/GroupEvents.tsx:155-171 | the loop returns exactly the greedy transfers and the final records; of its two cursors one is at the end of its list, and every record before a cursor is within a cent of zero |
| App.RemoveById | App.tsx:235 | the kept elements are exactly those with another id |
| App.WithId | App.tsx:235 | the elements with the given id |
| App.RemoveByIdExact | App.tsx:235 | what is kept and what has the id together are the original list, as a multiset |
| App.RemoveByIdKeepsOrder | App.tsx:235 | removal keeps the others in order: it distributes over concatenation |
| App.RemoveByIdIdempotent | App.tsx:245 | deleting twice is deleting once |
| App.RemoveByIdAbsent | App.tsx:235 | deleting an absent id changes nothing |
| App.UpdateById | App.tsx:239 | the length is kept; elements with the id are updated and the others are untouched |
| App.UpdateByIdAbsent | App.tsx:244 | updating an absent id changes nothing |
| App.UpdateByIdIdempotent | App.tsx:239 | an id-keeping idempotent update applied twice is applied once |
| App.UpdateThenRemove | App.tsx:239 | an id-keeping update touches nothing outside the target id |
| App.MarkSettled | App.tsx:239 | the debt is settled and no other field changes |
| App.SettleById | App.tsx:239 | the length is kept; the matching debts are settled and the others untouched |
| App.SettleIdempotent | App.tsx:239 | settling twice is settling once |
| App.SettleKeepsOthers | App.tsx:239 | the other debts stay where and as they were |
| App.SettleCloses | App.tsx:239 | no debt with the id is left open |
| App.ReplaceById | App.tsx:244 | the length is kept and exactly the elements with the updated event's id are replaced |
| App.ReplaceByIdPresent | App.tsx:244 | the updated event is in the list afterwards exactly when it, or an event with its id, was |
| App.ReplaceByIdAbsent | App.tsx:244 | an absent id changes nothing |
| App.ReplaceByIdIdempotent | App.tsx:244 | replacing twice is replacing once |
| App.OnboardingSubmit | App.tsx:55-60 | a profile exactly when the name has a non-space character; the untrimmed name is kept |
| App.AppState.constructor | App.tsx:155-170 | the state starts with the loaded lists and profile, with its modals closed |
| App.AppState.CompleteOnboarding | App.tsx:196-199 | the profile is set and nothing else changes |
| App.AppState.AddTransaction | App.tsx:221-232 | the new transaction is put in front of the unchanged list, and the quick-add modal closes |
| App.AppState.DeleteTransaction | App.tsx:234-236 | exactly the transactions with the id are removed |
| App.AppState.AddDebt | App.tsx:238 | the debt is put in front of the unchanged list |
| App.AppState.SettleDebt | App.tsx:239 | the matching debts are settled and nothing else changes |
| App.AppState.DeleteDebt | App.tsx:240 | exactly the debts with the id are removed |
| App.AppState.AddEvent | App.tsx:243 | the event is put in front of the unchanged list |
| App.AppState.UpdateEvent | App.tsx:244 | exactly the events with the updated event's id are replaced |
| App.AppState.DeleteEvent | App.tsx:245 | exactly the events with the id are removed |
| App.AppState.ResetApp | App.tsx:248-261 | once confirmed, every list is empty, the profile is gone and settings close; otherwise nothing changes |
| App.AppState.UpdateAvatar | App.tsx:268-274 | with a profile only its avatar changes; without one nothing happens |
| Dashboard.TotalBalance | components/Dashboard.tsx:38-42 | defines the balance as income added and spending subtracted; `BalanceIsIncomeMinusExpenses` proves it is the income minus the spending |
| Dashboard.TotalExpenses | components/Dashboard.tsx:44-47 | defines the spending as the sum of the expense amounts |
| Dashboard.TotalIncome | components/Dashboard.tsx:45-48 | defines the income as the sum of the income amounts |
| Dashboard.FilterByRange | components/Dashboard.tsx:22-36 | 'ALL' returns the list itself; other ranges keep exactly the transactions from the cutoff on |
| Dashboard.FilterByRangeKeepsOrder | components/Dashboard.tsx:35 | the range filter keeps the order |
| Dashboard.Expenses | components/Dashboard.tsx:44 | exactly the expense transactions |
| Dashboard.Incomes | components/Dashboard.tsx:45 | exactly the income transactions |
| Dashboard.BalanceIsIncomeMinusExpenses | components/Dashboard.tsx:38-48 | the balance is total income minus total expenses |
| Dashboard.ExpensesIncomePartition | components/Dashboard.tsx:44-45 | expenses and income split the transactions, each in the original order |
| Dashboard.RankedMerchants | components/Dashboard.tsx:56-57 | the merchant totals, permuted, largest first |
| Dashboard.TopMerchants | components/Dashboard.tsx:51-64 | at most five rows |
| Dashboard.ComputeTopMerchants | components/Dashboard.tsx:51-64 | the `Map` fill, sort, slice and map give the top-merchant rows |
| Dashboard.TopMerchantsLength | components/Dashboard.tsx:58 | five rows, or one per merchant when there are fewer |
| Dashboard.TopMerchantsRow | components/Dashboard.tsx:57-63 | row i is entry i of the ranking |
| Dashboard.TopMerchantsTotals | components/Dashboard.tsx:52-58 | each row is a merchant with spending and that merchant's total; names are distinct |
| Dashboard.TopMerchantsOrdered | components/Dashboard.tsx:56-62 | rows come largest first, and each percent is amount / total expenses * 100 |
| Dashboard.TopMerchantsAreTop | components/Dashboard.tsx:56-58 | a merchant left out spent no more than any listed one |
| Dashboard.RankedMonths | components/Dashboard.tsx:81-85 | the month totals, permuted, largest first |
| Dashboard.ComputeAthMonth | components/Dashboard.tsx:78-87 | the `Map` fill and sort give the record month |
| Dashboard.AthMonth | components/Dashboard.tsx:78-87 | defines the record month as the first of the ranked months; `AthMonthNone`, `AthMonthIsMonthTotal` and `AthMonthIsMax` state its properties |
| Dashboard.AthMonthNone | components/Dashboard.tsx:80-86 | there is no record month exactly when there are no expenses |
| Dashboard.AthMonthIsMonthTotal | components/Dashboard.tsx:81-86 | the record month is a month with spending, with that month's total |
| Dashboard.AthMonthIsMax | components/Dashboard.tsx:85-86 | no month's total exceeds the record month's |
| Grouping.GroupKeys | components/Dashboard.tsx:53-56 | the `Map`'s keys are distinct and are exactly the keys that occur |
| Grouping.Entries | components/Dashboard.tsx:56 | one entry per key |
| Grouping.Bump | components/Dashboard.tsx:54 | `map.set` adds the key and keeps the others |
| Grouping.GroupTotals | components/Dashboard.tsx:52-56 | the `forEach` fill returns exactly the entries: each key with its total, in first-seen order |
| Grouping.GroupStep | components/Dashboard.tsx:54 | one `map.set` keeps the fill invariant |
| Grouping.GroupTotalsStep | components/Dashboard.tsx:54 | one `map.set` keeps every total right |
| Grouping.SumStep | components/BubbleChart.tsx:17 | `total += t.amount` adds the next amount |
| Grouping.SumDone | components/BubbleChart.tsx:14-18 | after the loop `total` is the sum of all amounts |
| Grouping.FilledEntries | components/Dashboard.tsx:56 | after the fill, the entries read back are exactly the entries |
| Grouping.KeyOfMember | components/Dashboard.tsx:83 | a transaction's key occurs among the keys |
| Grouping.EntriesAt | components/Dashboard.tsx:56 | entry i is key i with its total |
| Grouping.EntriesExactly | components/Dashboard.tsx:52-56 | a pair is an entry exactly when its key occurs and its value is that key's total |
| Grouping.EntriesDistinct | components/Dashboard.tsx:52-57 | no key has two entries, in any rearrangement |
| Grouping.EntriesSum | components/BubbleChart.tsx:14-17 | the totals add up to the sum of all amounts |
| Grouping.EntriesEmpty | components/BubbleChart.tsx:12-29 | there are entries exactly when there are transactions |
| BubbleChart.Unsorted | components/BubbleChart.tsx:13-25 | defines the bubbles before sorting, one per category in first-seen order; `Data`'s contract makes the result a rearrangement of them |
| BubbleChart.Data | components/BubbleChart.tsx:11-27 | the bubbles are a permutation of the category bubbles, largest value first |
| BubbleChart.RankedCategories | components/BubbleChart.tsx:26 | the category totals, permuted, largest first |
| BubbleChart.DataIsRanked | components/BubbleChart.tsx:20-26 | sorting the bubbles is sorting the category totals |
| BubbleChart.FillCategories | components/BubbleChart.tsx:12-18 | the loop gives the category entries and the total of all spending |
| BubbleChart.ComputeData | components/BubbleChart.tsx:11-27 | the memo's steps give `data` |
| BubbleChart.DataBubbles | components/BubbleChart.tsx:20-25 | each bubble is a category with spending, its value is that category's total, and its percent is that value's share of the total |
| BubbleChart.DataOnePerCategory | components/BubbleChart.tsx:12-20 | one bubble per category with spending |
| BubbleChart.DataDistinct | components/BubbleChart.tsx:13-20 | no category has two bubbles |
| BubbleChart.DataTotal | components/BubbleChart.tsx:14-17 | the values add up to the total spending |
| BubbleChart.DataEmpty | components/BubbleChart.tsx:12-29 | no bubbles exactly when there are no expenses |
| BubbleChart.SumProportional | components/BubbleChart.tsx:24 | proportional percents and values add up in the same proportion |
| BubbleChart.PercentsProportional | components/BubbleChart.tsx:24 | with non-zero spending, every percent is its value's share of the total |
| BubbleChart.BubblePercent | components/BubbleChart.tsx:24 | one bubble's percent is proportional to its value |
| BubbleChart.PercentsSumTo100 | components/BubbleChart.tsx:24 | with non-zero total spending, every percent is a number and they add up to 100 |
| BubbleChart.PercentsOfTotal | components/BubbleChart.tsx:24 | proportional bubbles whose values add up to the total have percents adding up to 100 |
| BubbleChart.TopData | components/BubbleChart.tsx:37 | the drawn bubbles are the prefix of length min(6, #bubbles) |
| BubbleChart.SizeAsWritten | components/BubbleChart.tsx:43 | the size as written is NaN exactly when the percent is |
| BubbleChart.SizeClamps | components/BubbleChart.tsx:43 | a number percent gives three times the percent, raised to 70 below and cut to 150 above |
| BubbleChart.SizeInClamp | components/BubbleChart.tsx:43 | inside the clamp the size is exactly `percent * 3` |
| BubbleChart.SizeAsWrittenInRange | components/BubbleChart.tsx:43 | a percent that is not NaN gives a size in [70, 150] |
| BubbleChart.SizeAsWrittenNaN | components/BubbleChart.tsx:14-43 | one expense of amount 0 gives a bubble whose size is NaN |
| BubbleChart.BubbleSize | components/BubbleChart.tsx:43 | every size is in [70, 150] and agrees with the code whenever the percent is not NaN |
| BubbleChart.Sizes | components/BubbleChart.tsx:37-43 | the corrected sizes of the drawn bubbles, the corrected half of the size finding: one per drawn bubble, at most six, each in [70, 150], and equal to the size the code computes wherever the percent is not NaN |
| FriendsFamily.FilteredDebts | components/FriendsFamily.tsx:23 | exactly the open debts of the active tab |
| FriendsFamily.TotalAmount | components/FriendsFamily.tsx:24 | defines the tab's total as the sum of its open debts; `AddedDebtIsListed` proves a new debt adds its amount to it |
| FriendsFamily.FilteredDebtsKeepOrder | components/FriendsFamily.tsx:23 | the open list keeps the ledger's order |
| FriendsFamily.HandleAdd | components/FriendsFamily.tsx:26-44 | nothing when the person or amount is empty; otherwise an open debt of the active tab with the form's fields, and a cleared, closed form |
| FriendsFamily.AddedDebtIsListed | components/FriendsFamily.tsx:23-39 | the new debt heads the tab's open list, and the tab's total grows by its amount |
| FriendsFamily.SettledLeavesList | components/FriendsFamily.tsx:23 | settling a debt removes exactly it from every tab's open list |
| TransactionList.Render | components/TransactionList.tsx:37-43 | defines the view: the empty-list message when there are no transactions, otherwise the sorted matches; `RenderEmptyState` states when the message shows |
| TransactionList.Filtered | components/TransactionList.tsx:30-33 | exactly the transactions whose lowercased merchant or category contains the lowercased term |
| TransactionList.FilteredKeepsOrder | components/TransactionList.tsx:30-33 | the search keeps the order |
| TransactionList.EmptyTermKeepsAll | components/TransactionList.tsx:30-33 | an empty term keeps every transaction |
| TransactionList.Sorted | components/TransactionList.tsx:35 | a permutation of the matches, newest first |
| TransactionList.RenderEmptyState | components/TransactionList.tsx:37-43 | the empty message shows exactly when the list is empty, whatever the term; a search matching nothing shows no rows |
| AddTransaction.Suggest | components/AddTransaction.tsx:36-38 | five suggestions, or every match when fewer than five merchants match |
| AddTransaction.SuggestFirstMatches | components/AddTransaction.tsx:36-38 | the suggestions are the first matching catalogue merchants, all of them when at most five match |
| AddTransaction.SuggestCatalogueOrder | components/AddTransaction.tsx:36-38 | the catalogue order decides which matches are shown |
| AddTransaction.FindCategory | components/AddTransaction.tsx:58 | a category is found exactly when one has that name, and it has that name |
| AddTransaction.NameInjective | types.ts:7-18 | no two categories share a name |
| AddTransaction.Listed | types.ts:7-18 | the enumeration lists every category |
| AddTransaction.FindCategoryOwnName | components/AddTransaction.tsx:58 | each category is found by its own name |
| AddTransaction.FindCategoryOnlyNames | components/AddTransaction.tsx:58 | only the category names are found |
| AddTransaction.TransactionForm.constructor | components/AddTransaction.tsx:12-18 | the form starts empty, as an expense in Groceries, with no suggestions |
| AddTransaction.TransactionForm.HandleMerchantChange | components/AddTransaction.tsx:32-44 | typing shows the suggestions; an empty input hides them and keeps the old list |
| AddTransaction.TransactionForm.SelectMerchant | components/AddTransaction.tsx:46-50 | the merchant's name and default category are taken, and the suggestions hide |
| AddTransaction.PredictedCategory | components/AddTransaction.tsx:57-61 | a non-empty answer that names a category gives that category; no answer, an empty one or an unknown name keeps the current one |
| AddTransaction.TransactionForm.CanPredict | components/AddTransaction.tsx:171 | defines when the predict button is enabled: no prediction running and a merchant typed |
| AddTransaction.TransactionForm.StartPredict | components/AddTransaction.tsx:52-55 | without merchant or amount nothing changes and no request is made; otherwise the request carries the merchant and the form is marked as predicting; nothing else changes |
| AddTransaction.TransactionForm.FinishPredict | components/AddTransaction.tsx:55-63 | the answer is mapped onto the current category by `PredictedCategory`, the form stops predicting, and nothing else changes |
| AddTransaction.TransactionForm.HandleSubmit | components/AddTransaction.tsx:66-74 | nothing when a field is empty; otherwise one `onAdd` with the form's values, and the fields reset to ''/''/expense/Groceries |
| Numbers.Div | components/GroupEvents.tsx:134 | a division by non-zero is the quotient; by zero it is not a number, and NaN for 0 / 0 |
| Numbers.Add | components/GroupEvents.tsx:137 | the sum is a number exactly when the entry was one, and then it adds |
| Numbers.Min | components/GroupEvents.tsx:161 | the smaller of the two |
| Numbers.Abs | components/GroupEvents.tsx:161 | the magnitude |
| Numbers.Scale | components/BubbleChart.tsx:43 | scaling by a positive factor keeps NaN and the infinities and multiplies a number |
| Numbers.MathMin | components/BubbleChart.tsx:43 | the smaller of the bound and the number: NaN exactly for NaN, the number when it is at most the bound or is minus infinity, and the bound otherwise |
| Numbers.MathMax | components/BubbleChart.tsx:43 | the larger of the bound and the number: NaN exactly for NaN, the number when it is at least the bound or is plus infinity, and the bound otherwise |
| Numbers.Percent | components/Dashboard.tsx:62 | with a non-zero total, amount / total * 100; otherwise not a number |
| Text.Lower | components/TransactionList.tsx:31 | same length; each ASCII capital becomes its lower-case letter and every other character stays |
| Text.LowerIgnoresCase | components/TransactionList.tsx:31-32 | texts that differ only in ASCII letter case lower to the same text, so the search ignores case |
| Text.ContainsAt | components/TransactionList.tsx:31 | `includes` holds exactly when the needle occurs at some position |
| Text.ContainsEmpty | components/TransactionList.tsx:31 | every string includes the empty string |
| Text.TrimStart | App.tsx:57 | a suffix of the text that does not start with white space, with only white space dropped |
| Text.TrimEnd | App.tsx:57 | a prefix of the text that does not end with white space, with only white space dropped |
| Text.Trim | App.tsx:57 | no space left at either end, empty exactly when the text was all spaces, and the result is a slice of the text with only white space cut off before and after it |
| Text.TrimMiddle | App.tsx:57 | the trimmed text is the slice between the leading and the trailing white space |
| Text.TrimPadded | components/GroupEvents.tsx:68 | a name padded with white space on either side trims to the name |
| Text.PaddedParts | components/GroupEvents.tsx:68 | a padded name sits between its white-space padding |
| Text.PaddedBounds | components/GroupEvents.tsx:68 | the cut `Trim` makes is exactly around a part that starts and ends with non-space characters and has only white space outside it |
| Text.TrimIdempotent | components/GroupEvents.tsx:68 | trimming twice is trimming once |
| Text.Contains | components/TransactionList.tsx:31-32 | defines `includes`, searching from the left; `ContainsAt` proves it holds exactly when the needle occurs at some index |
| Text.Split | components/GroupEvents.tsx:68 | at least one piece, none containing the separator |
| Text.JoinSplit | components/GroupEvents.tsx:68 | joining the pieces gives back the text |
| Text.SplitNoSeparator | components/GroupEvents.tsx:68 | a text without the separator splits into itself alone |
| Text.SplitAfterPiece | components/GroupEvents.tsx:68 | a separator-free piece followed by the separator splits off as the first piece |
| Text.SplitJoin | components/GroupEvents.tsx:68 | splitting joined separator-free pieces gives them back |
| Seqs.Filter | components/Dashboard.tsx:44-45 | the kept elements are exactly the input's elements that satisfy the test, and there are no more of them than inputs |
| Seqs.FilterAppend | components/TransactionList.tsx:30-33 | filtering a concatenation filters each part, so the kept elements keep their order |
| Seqs.FilterPartition | components/Dashboard.tsx:44-45 | two complementary filters split a list without losing or adding an element |
| Seqs.Sum | components/Dashboard.tsx:47-48 | defines `reduce((acc, x) => acc + f(x), 0)` as a left fold; `SumAppend` proves it adds over concatenation |
| Seqs.SumAppend | components/Dashboard.tsx:47-48 | the sum of a concatenation is the sum of the parts |
| Seqs.SumWhere | components/Dashboard.tsx:52-55 | defines what a `Map` holds for a key once each element's amount is added under its key; `Grouping.GroupTotals` proves the fill computes it |
| Seqs.Distinct | components/GroupEvents.tsx:131 | the keys in first-occurrence order: no key twice, and exactly the elements of the input |
| Seqs.Take | components/AddTransaction.tsx:38 | `slice(0, n)`: the first n elements, or all of them when there are fewer |
| Seqs.SortDesc | components/TransactionList.tsx:35 | a rearrangement of the input, ordered by descending key |
| Seqs.SortDescStable | components/TransactionList.tsx:35 | elements with equal keys keep their input order |
| Seqs.InsertDescKeepsTies | components/TransactionList.tsx:35 | inserting an element puts it ahead of the elements with its key and keeps those in order |

## Left out

- Rendering, modals, theme and dark-mode effects, the onboarding timers and the bubble positions are user interface only.
- `localStorage` and the JSON parse fallbacks are browser I/O. The app state is built from already-loaded lists, and the storage writes of the handlers are not modelled.
- The category prediction service is an external network call. `StartPredict` returns the request and the answer is a parameter of `FinishPredict`. Other handlers may run between the two steps, as they can while the `await` is pending, and the answer is applied to the form as it is then.
- The clock and the locale are outside the model:
  - `Date.now()` ids and ISO dates are parameters;
  - the range cutoff is a parameter of `FilterByRange`;
  - the month label of `toLocaleDateString` is a function parameter of the record-month members;
  - dates are integer timestamps.
- `parseFloat` is a library conversion. The parsed amount is a parameter of each handler that uses it.
- `toFixed`, the share text, the clipboard and the alert of `handleShare` are formatting and I/O. Only the total and the per-person figure are modelled.
- The daily bar chart (`components/Dashboard.tsx:67-75`) is a locale-keyed grouping with the same shape as the record month. It is not modelled separately.
- Amounts are exact reals, not IEEE doubles. Rounding in additions is not modelled; NaN and the infinities are.
- `toLowerCase` lowers the ASCII letters only; Unicode case mapping is not modelled. `trim` removes the ECMAScript white space and line terminators.
- `getColor` treats characters as their code points, while `charCodeAt` uses UTF-16 code units. The two differ only for characters outside the Basic Multilingual Plane. The hash is exact because doubles are exact below 2^53 (the `HashExact` lemma).
- `Array.prototype.sort` is modelled as a stable insertion sort (`Seqs.SortDescStable`). The engines the app runs on sort stably; a comparator that returns NaN is not modelled.
- Record keys are enumerated in insertion order. JavaScript enumerates integer-like keys first, so participants named like numbers would be visited in another order. The `balances` record is a plain object (`components/GroupEvents.tsx:130`), so a participant named `__proto__` reaches the prototype setter and never becomes a key: with participants Me and `__proto__` and Me paying 10, the code gives no transfers, while the model's `GroupEvents.Entries` lists `__proto__` and gives a transfer of 5 to Me. Special object keys are not modelled.
- The API key field and its storage in settings and reset are credentials I/O.
- Settlement.SettleGreedy: the debtor and creditor records are two local sequences updated with `s[i := ...]`. They are not arrays of shared objects. The memo builds fresh records, so nothing outside the loop observes the aliasing.
- AddTransaction.TransactionForm: the catalogue is a constant field set by the constructor, not a module-level constant read by the handler.
- Dashboard.TopMerchants: its own contract states only the row bound. Contents, order, percents and maximality are the lemmas beside it.

## Findings

| source | as written | input that shows it | evidently intended | confidence | as-written member | corrected member |
|---|---|---|---|---|---|---|
| components/BubbleChart.tsx:43 | `Math.max(70, Math.min(150, item.percent * 3))` with `percent` being `(value / total) * 100` from line 24 | one expense of amount 0: the form accepts any non-empty amount text, the total is 0, the percent is 0 / 0 = NaN and so is the size | every bubble gets a size in [70, 150] | not executed | BubbleChart.SizeAsWrittenNaN | BubbleChart.BubbleSize |
