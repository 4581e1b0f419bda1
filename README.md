# splitpay settlement engine in Dafny

This project models `calculateSettlements(expenses, members)` from the splitpay expense-sharing app. Every balance screen, settlement page and report of the app uses it. The engine works in three phases:

1. **Balance table.** Every member whose `_id` is truthy starts at zero. For each expense, the payer is credited the amount and each share's user is debited the share. An id without a balance entry is ignored.
2. **Classification.** A balance below −0.01 makes a debtor; one above +0.01 makes a creditor. Debtors are sorted ascending and creditors descending, both with a stable sort.
3. **Greedy matching.** A two-index loop pays the current creditor the smaller of the two magnitudes (the debtor's debt and the creditor's credit), rounded to two decimals. It reduces both records by that amount. It advances past a debtor whose remainder is less than 0.01 from zero, and past a creditor whose remainder is below 0.01.

## Modules

- `money.dfy` (`Money`)
  - The single `Tolerance` of 0.01.
  - `Round2`, which is `Math.round(x * 100) / 100` over exact reals.
  - `CentRounding`: the three properties of a rounding that the matching needs.
- `ledger.dfy` (`Ledger`)
  - JavaScript values used as ids, with `PayerKey`, which is `paidBy?._id || paidBy`.
  - Expenses and shares, and the balance of a key as a function of the expenses.
  - The member keys in `Object.keys` order.
  - Transfers, and the "mark as paid" settlement expense.
  - Balance conservation.
- `sorting.dfy` (`Sorting`)
  - The stable sort of both sides, with `SortSpec` (stable insertion sort) as the reference.
  - `SortInPlace`, an in-place insertion sort on an array, proved equal to `SortSpec`.
- `matching.dfy` (`Matching`)
  - The greedy matching, with `Match` as the reference.
  - The loop itself, `MatchInPlace`, on two arrays of records that it updates in place. It is proved to emit `Match`, to keep every record's id and the total of the amounts, and to leave one side settled.
- `settlement.dfy` (`Settlement`)
  - The whole engine: `Settlements` is the reference.
  - `CalculateSettlements` runs the phases as the source does: a loop filling the balance table, nested loops over expenses and shares, a classification loop, two in-place sorts and the matching loop. It is proved to return `Settlements`, so the engine is deterministic.

### What the greedy matching guarantees

Paying the emitted transfers leaves:

- every former debtor with at most half a cent of credit;
- every former creditor with at most half a cent of debt;
- every member inside the ±0.01 band untouched;
- one whole side (all debtors, or all creditors) less than 0.01 from zero.

Hence, after every transfer is recorded with "mark as paid", recomputing yields no transfers (`SettleAllIdempotent`).

The code does **not** bring every member to less than 0.01 from zero. Each transfer is rounded to whole cents, and a creditor collects the rounding shortfall of every debtor that pays it. Take three members owing 0.014 each to a fourth, who is owed 0.042. Each debtor pays 0.01, and the creditor is still owed 0.012 (`ResidualCounterexample`). The model follows the code and proves the bounds above instead.

## Model

| member | source | states |
|---|---|---|
| Money.Abs | client/src/utils/settlementLogic.js:59 | `Math.abs`: the magnitude, non-negative and equal to x or −x |
| Money.Min | client/src/utils/settlementLogic.js:59 | `Math.min`: at most both arguments and equal to one of them |
| Money.Round2 | client/src/utils/settlementLogic.js:62 | definition: `Math.round(amount * 100) / 100` over exact reals, that is floor(100·x + ½) / 100, so halves round up as `Math.round` does |
| Money.Round2Error | client/src/utils/settlementLogic.js:62 | rounding to two decimals lands strictly above x − 0.005 and at most at x + 0.005 (halves round up) |
| Money.Round2AtLeastCent | client/src/utils/settlementLogic.js:62 | an amount of at least one cent rounds to at least one cent, so the `amount > 0` push always happens for two unsettled parties |
| Money.Round2WholeCents | client/src/utils/settlementLogic.js:62 | the rounded amount is a whole number of cents (a hundred times it is an integer), and rounding it again changes nothing |
| Money.WholeCentsExact | client/src/utils/settlementLogic.js:62 | a value is a whole number of cents exactly when two-decimal rounding leaves it unchanged |
| Money.Round2IsCentRounding | client/src/utils/settlementLogic.js:62 | `Math.round(x * 100) / 100` has every property the matching relies on |
| Ledger.MemberKeys | client/src/utils/settlementLogic.js:9-13 | definition: the balance table's keys in `Object.keys` order (line 38): each valid member id once, at the place where it first occurs |
| Ledger.ShareDebit | client/src/utils/settlementLogic.js:25-31 | definition: what the share loop takes from key k: the sum of the share amounts whose user coerces to k |
| Ledger.ExpenseEffect | client/src/utils/settlementLogic.js:17-31 | definition: one expense's effect on key k: plus the amount when k is the payer's key, minus the shares naming k; missing shares debit nothing |
| Ledger.Balance | client/src/utils/settlementLogic.js:15-32 | definition: the net balance of key k after the expense loop, the sum of every expense's effect on k |
| Ledger.Balances | client/src/utils/settlementLogic.js:6-32 | the table after the member and expense loops has exactly one entry per member key (an id that is not a member key gets none), holding that key's balance |
| Ledger.PayerKey | client/src/utils/settlementLogic.js:17 | the payer's balance key is the id for a bare string id, the embedded `_id` for a user object that has a truthy one, and "[object Object]" for an object without one |
| Ledger.MemberKey | client/src/utils/settlementLogic.js:9-13 | a member gets a balance key exactly when it is an object with a truthy `_id`, and the key is that `_id` as a property key |
| Ledger.MemberKeysExact | client/src/utils/settlementLogic.js:9-13 | the balance table's keys are distinct and are exactly the keys of the valid members |
| Ledger.BalanceAppend | client/src/utils/settlementLogic.js:15-32 | a balance over two runs of expenses is the sum of the balances over each |
| Ledger.BalanceConservation | client/src/utils/settlementLogic.js:15-32 | when every expense has a member payer and member share users, and its shares add up to its amount, the members' balances add up to zero |
| Ledger.SettlementExpense | client/src/pages/expenses/Settlement.jsx:60-68 | definition: the expense "mark as paid" posts: paid by the debtor, for the transfer's amount, with one share of the whole amount to the creditor |
| Ledger.MarkAsPaid | client/src/pages/expenses/Settlement.jsx:60-68 | recording a transfer as an expense paid by `from` with one share to `to` raises `from`'s balance by the amount, lowers `to`'s by the same, and leaves every other balance unchanged |
| Ledger.RecordTransfers | client/src/pages/expenses/Settlement.jsx:60-68 | recording a list of transfers moves each balance by what that member paid minus what it received in the list |
| Sorting.Insert | client/src/utils/settlementLogic.js:46-47 | definition: places an entry after every entry that does not outrank it and in front of those that outrank it |
| Sorting.SortSpec | client/src/utils/settlementLogic.js:46-47 | definition: the sort by the comparators `a.amount - b.amount` (debtors) and `b.amount - a.amount` (creditors), inserting the entries one by one |
| Sorting.SortSpecCorrect | client/src/utils/settlementLogic.js:46-47 | the reference sort yields a permutation of its input that is sorted ascending, or descending for creditors |
| Sorting.SortSpecKeepsSorted | client/src/utils/settlementLogic.js:46-47 | a stable sort leaves input that is already sorted exactly as it is, ties included |
| Sorting.SortSpecStable | client/src/utils/settlementLogic.js:46-47 | for every rank, the entries of that rank come out in the order they went in; with `SortSpecCorrect` this fixes the output to the one stable order, which `Array.prototype.sort` produces |
| Sorting.InsertInPlace | client/src/utils/settlementLogic.js:46-47 | one insertion pass places element k among the sorted prefix after every element that does not outrank it, and leaves the rest of the array alone |
| Sorting.SortInPlace | client/src/utils/settlementLogic.js:46-47 | sorting the array in place leaves exactly the stable sort of its old contents |
| Matching.RoundAmount | client/src/utils/settlementLogic.js:59-62 | definition: the amount of one round, the rounded smaller of the debtor's magnitude and the creditor's amount |
| Matching.NextDebtors | client/src/utils/settlementLogic.js:73-77 | definition: the debtors after a round: the head gains the amount and is passed once it is less than 0.01 from zero |
| Matching.NextCreditors | client/src/utils/settlementLogic.js:74-78 | definition: the creditors after a round: the head loses the amount and is passed once it is below 0.01 |
| Matching.Match | client/src/utils/settlementLogic.js:54-79 | definition: the transfers of the greedy loop over the sorted sides, round by round, a transfer only for a positive amount, until a side runs out |
| Matching.RoundPositive | client/src/utils/settlementLogic.js:59-70 | for a debtor and a creditor both beyond the tolerance, the rounded transfer is at least one cent and a whole number of cents |
| Matching.RoundProgress | client/src/utils/settlementLogic.js:72-78 | a round settles the debtor or the creditor, and neither overshoots by more than half a cent |
| Matching.NextKeepsSides | client/src/utils/settlementLogic.js:72-78 | after a round the remaining debtors still owe and the remaining creditors are still owed at least the tolerance (a cent), and the two lists together shrink |
| Matching.MatchTransfers | client/src/utils/settlementLogic.js:64-70 | every transfer runs from a debtor to a creditor and moves at least a cent, in whole cents |
| Matching.MatchFirst | client/src/utils/settlementLogic.js:55-70 | the first transfer goes from the first debtor to the first creditor and moves the rounded smaller magnitude |
| Matching.MatchLength | client/src/utils/settlementLogic.js:54-79 | there are no transfers exactly when a side is empty, otherwise at most debtors + creditors − 1 |
| Matching.MatchSettles | client/src/utils/settlementLogic.js:54-79 | after paying the transfers, every debtor holds at most half a cent of credit and every creditor at most half a cent of debt, and one whole side is within the tolerance |
| Matching.LoopStep | client/src/utils/settlementLogic.js:54-79 | one pass of the loop body keeps the loop invariant and moves i or j forward. The invariant covers: emitted plus still to come equals the whole matching; ids unchanged; total unchanged; the records before i and j settled |
| Matching.PayRound | client/src/utils/settlementLogic.js:55-78 | one pass of the loop body: the amount, the conditional push, the two record updates and the index advances |
| Matching.StepInPlace | client/src/utils/settlementLogic.js:54-79 | a pass of the loop body started in a state that satisfies the loop invariant ends in one that satisfies it again, with both indices in range and their sum larger, so the loop terminates |
| Matching.MatchInPlace | client/src/utils/settlementLogic.js:50-81 | the loop emits exactly the greedy matching of the sorted sides, keeps every record's id and the sum of all amounts, and ends with one side settled |
| Settlement.Debtors | client/src/utils/settlementLogic.js:38-43 | every debtor record owes at least a cent, so the matching loop can take the list as it is |
| Settlement.Creditors | client/src/utils/settlementLogic.js:38-43 | every creditor record is owed at least a cent, so the matching loop can take the list as it is |
| Settlement.DebtorsExact | client/src/utils/settlementLogic.js:41 | a record is a debtor exactly when it carries the balance of a member whose balance is below −0.01 |
| Settlement.CreditorsExact | client/src/utils/settlementLogic.js:42 | a record is a creditor exactly when it carries the balance of a member whose balance is above 0.01 |
| Settlement.ClassifyDistinct | client/src/utils/settlementLogic.js:38-43 | with distinct keys, no member is both a debtor and a creditor and none appears twice |
| Settlement.DebtorsEmpty | client/src/utils/settlementLogic.js:41 | there are no debtors exactly when no balance is below −0.01 |
| Settlement.CreditorsEmpty | client/src/utils/settlementLogic.js:42 | there are no creditors exactly when no balance is above 0.01 |
| Settlement.SortedDebtors | client/src/utils/settlementLogic.js:46 | the sorted debtors are a permutation of the debtors, most negative first |
| Settlement.SortedCreditors | client/src/utils/settlementLogic.js:47 | the sorted creditors are a permutation of the creditors, largest first |
| Settlement.Settlements | client/src/utils/settlementLogic.js:1-3 | absent expenses or members give no transfers |
| Settlement.Plan | client/src/utils/settlementLogic.js:35-79 | definition: classify the table, sort each side, and match them rounding with `Round2` |
| Settlement.PlanTransfers | client/src/utils/settlementLogic.js:59-70 | every transfer is from a member with balance below −0.01 to a member with balance above 0.01, never from a member to itself, and moves at least a cent in whole cents |
| Settlement.PlanEmpty | client/src/utils/settlementLogic.js:35-79 | there are no transfers exactly when nobody owes more than 0.01 or nobody is owed more than 0.01 |
| Settlement.PlanCount | client/src/utils/settlementLogic.js:54-79 | the loop stops after fewer transfers than there are members |
| Settlement.PlanFirst | client/src/utils/settlementLogic.js:46-62 | the first transfer goes from a member with the lowest balance to a member with the highest, for the rounded smaller magnitude |
| Settlement.PlanSettles | client/src/utils/settlementLogic.js:54-79 | after the plan is paid: former debtors hold at most half a cent of credit and former creditors at most half a cent of debt; members in the band are untouched; one side is within 0.01 |
| Settlement.PlanIdempotent | client/src/utils/settlementLogic.js:54-79 | over the balances left once the plan is paid, the plan is empty |
| Settlement.SettleAllIdempotent | client/src/utils/settlementLogic.js:1-81 | marking every emitted transfer as paid and recomputing gives no transfers |
| Settlement.NoExpenses | client/src/utils/settlementLogic.js:1-81 | with no expenses there are no transfers, whatever the members |
| Settlement.EqualSplitExample | client/src/utils/settlementLogic.js:1-81 | A pays 300 split equally among A, B and C, with A as an embedded user object: the engine returns B→A 100 and C→A 100 |
| Settlement.ResidualCounterexample | client/src/utils/settlementLogic.js:54-79 | three debts of 0.014 to one creditor give three transfers of 0.01, which leaves the creditor owed 0.012, beyond the tolerance |
| Settlement.InitBalances | client/src/utils/settlementLogic.js:6-13 | the member loop builds a table of zero balances whose keys, in insertion order, are the member keys |
| Settlement.DebitShares | client/src/utils/settlementLogic.js:25-31 | the share loop debits each member by the shares naming it and leaves the table's keys unchanged |
| Settlement.AddExpenses | client/src/utils/settlementLogic.js:15-32 | the expense loop adds each member's balance over all expenses to its entry and adds no key |
| Settlement.Classify | client/src/utils/settlementLogic.js:35-43 | the classification loop pushes exactly the debtors and the creditors, in key order |
| Settlement.CalculateSettlements | client/src/utils/settlementLogic.js:1-81 | the engine as written returns `Settlements` |

## Left out

- Floating point. Amounts are exact reals. IEEE-754 drift, and the `NaN` that a missing `amount` would produce, are not modelled. The tolerance comparisons and the rounding are the source's, applied to exact values.
- Matching.MatchInPlace and Matching.Match take the rounding as a parameter that satisfies `CentRounding`. The engine passes `Round2`. This keeps the floor function out of the loop proofs. Nothing is claimed for other roundings beyond what the lemmas state.
- Malformed inputs that make the source throw are not modelled:
  - `expenses` or `members` that are truthy but not arrays;
  - a `null` entry in `expenses`;
  - a `null` share.
  - `Option.None` stands for an absent (falsy) argument.
- Values used as ids are strings, `undefined`, `null` or objects. Number and boolean ids are not modelled; the app's ids are strings.
- `Object.keys` order is modelled as insertion order. JavaScript lists integer-like keys (array indices) first, in numeric order. Mongo ids and the calculator's 13-digit `Date.now()` ids are never such keys.
- Keys inherited from `Object.prototype` (`toString`, `__proto__`, …) are not modelled. In the source they defeat the `!== undefined` test.
- The `debtors`/`creditors` arrays the source grows with `push` are built as sequences, then copied into fixed arrays for the in-place sort and loop.
- The source mutates `debtor.amount` through an object reference. The model writes the updated record back into its array slot. Each record is referenced once, so nothing is aliased.
- The loop body is a method of its own, `PayRound`. `StepInPlace` wraps it with the proof that it keeps the loop invariant.
- `Array.prototype.sort` is modelled by insertion sort. `SortSpecCorrect` and `SortSpecStable` together pin its output to the one stable order of the comparator, which is the order any stable sort, the engine's included, produces. The sort algorithm itself and its comparison count are not modelled.
- The React pages, the PDF report, the server (controllers, models, routes, auth, email), the API client and `format.js` are not part of this model.
