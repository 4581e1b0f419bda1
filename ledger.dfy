/** The data the settlement engine reads (members, expenses, shares), the
    transfers it produces, and the net balance of each member as the sum of
    what every expense does to it. */
module Ledger {
  import opened Money

  datatype Option<T> = None | Some(value: T)

  /** A JavaScript value in a position where the engine expects an id: a
      string, `undefined`, `null`, or an object of which only the `_id`
      property is read (`Undefined` when the object has none). */
  datatype Value = Undefined | Null | Str(s: string) | Obj(id: Value)

  /** JavaScript truthiness of such a value. */
  predicate Truthy(v: Value)
  {
    match v
    case Undefined => false
    case Null => false
    case Str(s) => s != ""
    case Obj(_) => true
  }

  /** The string a value becomes when it is used as a property key of a
      plain object (`balances[v]`). */
  function PropertyKey(v: Value): string
  {
    match v
    case Undefined => "undefined"
    case Null => "null"
    case Str(s) => s
    case Obj(_) => "[object Object]"
  }

  /** `v?._id`: the `_id` of an object, `undefined` for anything else. */
  function IdOf(v: Value): Value
  {
    if v.Obj? then v.id else Undefined
  }

  /** The balance key of an expense's payer, `paidBy?._id || paidBy`: the
      payer may be given as a bare id or as an embedded user object. */
  function PayerKey(paidBy: Value): (k: string)
    ensures paidBy.Str? ==> k == paidBy.s
    ensures paidBy.Obj? && Truthy(paidBy.id) ==> k == PropertyKey(paidBy.id)
    ensures paidBy.Obj? && !Truthy(paidBy.id) ==> k == "[object Object]"
  {
    PropertyKey(if Truthy(IdOf(paidBy)) then IdOf(paidBy) else paidBy)
  }

  /** The balance key of a member entry, if it gets one: `m && m._id`
      must be truthy. */
  function MemberKey(m: Value): (k: Option<string>)
    ensures k.Some? <==> m.Obj? && Truthy(m.id)
    ensures k.Some? ==> k.value == PropertyKey(m.id)
  {
    if Truthy(m) && Truthy(IdOf(m)) then Some(PropertyKey(IdOf(m))) else None
  }

  datatype Share = Share(user: Value, amount: real)

  /** An expense; `shares` is `None` when the field is absent or is not an
      array. */
  datatype Expense = Expense(paidBy: Value, amount: real, shares: Option<seq<Share>>)

  /** A debtor or creditor record `{ userId, amount }` of the matching
      phase: its amount is the member's balance, later what is left of it. */
  datatype Entry = Entry(userId: string, amount: real)

  /** The user ids of a list of entries, in order. */
  function Ids(s: seq<Entry>): (ids: seq<string>)
    ensures |ids| == |s| && forall i :: 0 <= i < |s| ==> ids[i] == s[i].userId
  {
    seq(|s|, i requires 0 <= i < |s| => s[i].userId)
  }

  lemma IdsAppend(a: seq<Entry>, b: seq<Entry>)
    ensures Ids(a + b) == Ids(a) + Ids(b)
  {
  }

  /** A recommended payment: `from` pays `to` the given amount. */
  datatype Transfer = Transfer(from: string, to: string, amount: real)

  /** No key occurs twice. */
  predicate Distinct(keys: seq<string>)
  {
    forall k :: k in keys ==> multiset(keys)[k] <= 1
  }

  /** The keys of the balance table in `Object.keys` order: every valid
      member id, once, at the position where it first occurs. */
  function MemberKeys(members: seq<Value>): seq<string>
  {
    if members == [] then []
    else
      var keys := MemberKeys(members[..|members| - 1]);
      match MemberKey(members[|members| - 1])
      case None => keys
      case Some(k) => if k in keys then keys else keys + [k]
  }

  /** The balance table has exactly one entry per valid member id. */
  lemma {:induction false} MemberKeysExact(members: seq<Value>)
    ensures Distinct(MemberKeys(members))
    ensures forall k :: k in MemberKeys(members) <==> Some(k) in MemberKeySet(members)
  {
    if members != [] {
      var init := members[..|members| - 1];
      MemberKeysExact(init);
      assert members == init + [members[|members| - 1]];
      assert MemberKeySet(members) == MemberKeySet(init) + {MemberKey(members[|members| - 1])};
      var keys := MemberKeys(init);
      match MemberKey(members[|members| - 1])
      case None =>
      case Some(k) =>
        if k !in keys {
          assert multiset(keys + [k]) == multiset(keys) + multiset{k};
        }
    }
  }

  /** The member keys seen in a member list, including `None` for entries
      that have none. */
  function MemberKeySet(members: seq<Value>): set<Option<string>>
  {
    set m | m in members :: MemberKey(m)
  }

  /** What the shares of one expense take off the balance of key `k`. */
  function ShareDebit(shares: seq<Share>, k: string): real
  {
    if shares == [] then 0.0
    else
      var last := shares[|shares| - 1];
      ShareDebit(shares[..|shares| - 1], k) + (if PropertyKey(last.user) == k then last.amount else 0.0)
  }

  /** What one expense does to the balance of key `k`: the payer is
      credited the amount, each share's user is debited the share. */
  function ExpenseEffect(e: Expense, k: string): real
  {
    (if PayerKey(e.paidBy) == k then e.amount else 0.0)
      - (if e.shares.Some? then ShareDebit(e.shares.value, k) else 0.0)
  }

  /** The net balance of key `k` over a list of expenses. */
  function Balance(expenses: seq<Expense>, k: string): real
  {
    if expenses == [] then 0.0
    else Balance(expenses[..|expenses| - 1], k) + ExpenseEffect(expenses[|expenses| - 1], k)
  }

  /** The balance table after all expenses: one entry per member key. */
  function Balances(expenses: seq<Expense>, keys: seq<string>): (bal: map<string, real>)
    ensures bal.Keys == set k | k in keys
  {
    map k | k in keys :: Balance(expenses, k)
  }

  /** Balances are additive over concatenated expense lists. */
  lemma {:induction false} BalanceAppend(a: seq<Expense>, b: seq<Expense>, k: string)
    ensures Balance(a + b, k) == Balance(a, k) + Balance(b, k)
  {
    if b == [] {
      assert a + b == a;
    } else {
      var init := b[..|b| - 1];
      BalanceAppend(a, init, k);
      assert (a + b)[..|a + b| - 1] == a + init;
    }
  }

  /** Sum of the amounts of `ts` that `k` pays minus those `k` receives. */
  function NetOut(ts: seq<Transfer>, k: string): real
  {
    if ts == [] then 0.0
    else
      (if ts[0].from == k then ts[0].amount else 0.0)
        - (if ts[0].to == k then ts[0].amount else 0.0)
        + NetOut(ts[1..], k)
  }

  /** A key that no transfer names is untouched by the transfers. */
  lemma {:induction false} NetOutUnnamed(ts: seq<Transfer>, k: string)
    requires forall t :: t in ts ==> t.from != k && t.to != k
    ensures NetOut(ts, k) == 0.0
  {
    if ts != [] {
      assert ts[0] in ts;
      NetOutUnnamed(ts[1..], k);
    }
  }

  /** "Mark as paid" records a transfer as an expense paid by the debtor
      with a single share, of the whole amount, owed by the creditor. */
  function SettlementExpense(t: Transfer): Expense
  {
    Expense(Str(t.from), t.amount, Some([Share(Str(t.to), t.amount)]))
  }

  function SettlementExpenses(ts: seq<Transfer>): seq<Expense>
  {
    if ts == [] then [] else [SettlementExpense(ts[0])] + SettlementExpenses(ts[1..])
  }

  /** Recording a transfer raises the payer's balance by its amount, lowers
      the receiver's by the same, and leaves every other balance alone. */
  lemma MarkAsPaid(expenses: seq<Expense>, t: Transfer, k: string)
    ensures Balance(expenses + [SettlementExpense(t)], k)
         == Balance(expenses, k)
            + (if k == t.from then t.amount else 0.0)
            - (if k == t.to then t.amount else 0.0)
  {
    var es := expenses + [SettlementExpense(t)];
    assert es[..|es| - 1] == expenses;
    assert ShareDebit([Share(Str(t.to), t.amount)], k)
        == ShareDebit([], k) + (if t.to == k then t.amount else 0.0);
  }

  /** Recording a whole list of transfers moves every balance by the
      transfers' net outflow for that key. */
  lemma {:induction false} RecordTransfers(expenses: seq<Expense>, ts: seq<Transfer>, k: string)
    ensures Balance(expenses + SettlementExpenses(ts), k) == Balance(expenses, k) + NetOut(ts, k)
    decreases |ts|
  {
    if ts == [] {
      assert expenses + SettlementExpenses(ts) == expenses;
    } else {
      var e := SettlementExpense(ts[0]);
      MarkAsPaid(expenses, ts[0], k);
      RecordTransfers(expenses + [e], ts[1..], k);
      assert SettlementExpenses(ts) == [e] + SettlementExpenses(ts[1..]);
      assert expenses + SettlementExpenses(ts) == (expenses + [e]) + SettlementExpenses(ts[1..]);
    }
  }

  /** The sum of the amounts of a list of shares. */
  function ShareTotal(shares: seq<Share>): real
  {
    if shares == [] then 0.0 else ShareTotal(shares[..|shares| - 1]) + shares[|shares| - 1].amount
  }

  /** An expense that keeps the books balanced among the members `keys`:
      the payer and every share's user are members, and the shares add up
      to the amount. */
  predicate Balanced(e: Expense, keys: seq<string>)
  {
    && PayerKey(e.paidBy) in keys
    && e.shares.Some?
    && (forall s :: s in e.shares.value ==> PropertyKey(s.user) in keys)
    && ShareTotal(e.shares.value) == e.amount
  }

  /** What the members `keys` hold together after the expenses. */
  function TotalBalance(expenses: seq<Expense>, keys: seq<string>): real
  {
    if keys == [] then 0.0 else TotalBalance(expenses, keys[..|keys| - 1]) + Balance(expenses, keys[|keys| - 1])
  }

  /** What one expense does to the members `keys` together. */
  function TotalEffect(e: Expense, keys: seq<string>): real
  {
    if keys == [] then 0.0 else TotalEffect(e, keys[..|keys| - 1]) + ExpenseEffect(e, keys[|keys| - 1])
  }

  /** What a list of shares takes off the members `keys` together. */
  function TotalDebit(shares: seq<Share>, keys: seq<string>): real
  {
    if keys == [] then 0.0 else TotalDebit(shares, keys[..|keys| - 1]) + ShareDebit(shares, keys[|keys| - 1])
  }

  /** `a` for every occurrence of `x` among the keys. */
  function Pick(keys: seq<string>, x: string, a: real): real
  {
    if keys == [] then 0.0 else Pick(keys[..|keys| - 1], x, a) + (if keys[|keys| - 1] == x then a else 0.0)
  }

  lemma DistinctInit(keys: seq<string>)
    requires Distinct(keys) && keys != []
    ensures Distinct(keys[..|keys| - 1]) && keys[|keys| - 1] !in keys[..|keys| - 1]
  {
    var init, last := keys[..|keys| - 1], keys[|keys| - 1];
    assert keys == init + [last];
    assert multiset(keys) == multiset(init) + multiset{last};
    forall k | k in init
      ensures multiset(init)[k] <= 1
    {
      assert k in keys;
    }
    assert last in keys && multiset(keys)[last] == multiset(init)[last] + 1;
  }

  /** Among distinct keys, `x` is counted once if it is a key. */
  lemma {:induction false} PickDistinct(keys: seq<string>, x: string, a: real)
    requires Distinct(keys)
    ensures Pick(keys, x, a) == if x in keys then a else 0.0
  {
    if keys != [] {
      var init, last := keys[..|keys| - 1], keys[|keys| - 1];
      DistinctInit(keys);
      PickDistinct(init, x, a);
      assert keys == init + [last];
    }
  }

  lemma {:induction false} TotalDebitStep(shares: seq<Share>, keys: seq<string>)
    requires shares != []
    ensures var last := shares[|shares| - 1];
      TotalDebit(shares, keys) == TotalDebit(shares[..|shares| - 1], keys) + Pick(keys, PropertyKey(last.user), last.amount)
  {
    if keys != [] {
      TotalDebitStep(shares, keys[..|keys| - 1]);
    }
  }

  lemma {:induction false} TotalDebitNone(keys: seq<string>)
    ensures TotalDebit([], keys) == 0.0
  {
    if keys != [] {
      TotalDebitNone(keys[..|keys| - 1]);
    }
  }

  /** Shares whose users are all among distinct keys take their total off
      those keys together. */
  lemma {:induction false} TotalDebitShares(shares: seq<Share>, keys: seq<string>)
    requires Distinct(keys) && forall s :: s in shares ==> PropertyKey(s.user) in keys
    ensures TotalDebit(shares, keys) == ShareTotal(shares)
  {
    if shares == [] {
      TotalDebitNone(keys);
    } else {
      var init, last := shares[..|shares| - 1], shares[|shares| - 1];
      assert last in shares;
      TotalDebitShares(init, keys);
      TotalDebitStep(shares, keys);
      PickDistinct(keys, PropertyKey(last.user), last.amount);
    }
  }

  lemma {:induction false} TotalEffectSplit(e: Expense, keys: seq<string>)
    ensures TotalEffect(e, keys)
         == Pick(keys, PayerKey(e.paidBy), e.amount) - (if e.shares.Some? then TotalDebit(e.shares.value, keys) else 0.0)
  {
    if keys != [] {
      TotalEffectSplit(e, keys[..|keys| - 1]);
    }
  }

  lemma {:induction false} TotalBalanceStep(expenses: seq<Expense>, keys: seq<string>)
    requires expenses != []
    ensures TotalBalance(expenses, keys)
         == TotalBalance(expenses[..|expenses| - 1], keys) + TotalEffect(expenses[|expenses| - 1], keys)
  {
    if keys != [] {
      TotalBalanceStep(expenses, keys[..|keys| - 1]);
    }
  }

  lemma {:induction false} TotalBalanceNone(keys: seq<string>)
    ensures TotalBalance([], keys) == 0.0
  {
    if keys != [] {
      TotalBalanceNone(keys[..|keys| - 1]);
    }
  }

  /** Balance conservation: when every expense is balanced among distinct
      member keys, the members' balances add up to zero. */
  lemma {:induction false} BalanceConservation(expenses: seq<Expense>, keys: seq<string>)
    requires Distinct(keys) && forall e :: e in expenses ==> Balanced(e, keys)
    ensures TotalBalance(expenses, keys) == 0.0
  {
    if expenses == [] {
      TotalBalanceNone(keys);
    } else {
      var init, last := expenses[..|expenses| - 1], expenses[|expenses| - 1];
      assert last in expenses;
      BalanceConservation(init, keys);
      TotalBalanceStep(expenses, keys);
      TotalEffectSplit(last, keys);
      PickDistinct(keys, PayerKey(last.paidBy), last.amount);
      TotalDebitShares(last.shares.value, keys);
    }
  }
}
