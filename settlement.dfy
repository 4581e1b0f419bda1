/** `calculateSettlements(expenses, members)`: the balance table of the
    members, its split into debtors and creditors, the two sorts and the
    greedy matching. `Settlements` is the reference definition of the whole
    engine; `CalculateSettlements` is the engine as written, phase by phase,
    and is proved to compute it. */
module Settlement {
  import opened Money
  import opened Ledger
  import opened Sorting
  import opened Matching

  /** Every key of the list has an entry in the table. */
  predicate Covers(keys: seq<string>, bal: map<string, real>)
  {
    forall k :: k in keys ==> k in bal
  }

  /** The debtor records of the classification: every key whose balance is
      below minus the tolerance, in key order, carrying its balance. */
  function Debtors(keys: seq<string>, bal: map<string, real>): (d: seq<Entry>)
    requires Covers(keys, bal)
    ensures Owing(d)
  {
    if keys == [] then []
    else
      var k := keys[|keys| - 1];
      Debtors(keys[..|keys| - 1], bal) + (if bal[k] < -Tolerance then [Entry(k, bal[k])] else [])
  }

  /** The creditor records of the classification: every key whose balance
      is above the tolerance, in key order, carrying its balance. */
  function Creditors(keys: seq<string>, bal: map<string, real>): (c: seq<Entry>)
    requires Covers(keys, bal)
    ensures Owed(c)
  {
    if keys == [] then []
    else
      var k := keys[|keys| - 1];
      Creditors(keys[..|keys| - 1], bal) + (if bal[k] > Tolerance then [Entry(k, bal[k])] else [])
  }

  /** A record is a debtor exactly when it carries the balance of a key
      whose balance is below minus the tolerance. */
  lemma {:induction false} DebtorsExact(keys: seq<string>, bal: map<string, real>, e: Entry)
    requires Covers(keys, bal)
    ensures e in Debtors(keys, bal) <==> e.userId in keys && bal[e.userId] < -Tolerance && e.amount == bal[e.userId]
  {
    if keys != [] {
      var init, k := keys[..|keys| - 1], keys[|keys| - 1];
      DebtorsExact(init, bal, e);
      assert keys == init + [k];
    }
  }

  /** A record is a creditor exactly when it carries the balance of a key
      whose balance is above the tolerance. */
  lemma {:induction false} CreditorsExact(keys: seq<string>, bal: map<string, real>, e: Entry)
    requires Covers(keys, bal)
    ensures e in Creditors(keys, bal) <==> e.userId in keys && bal[e.userId] > Tolerance && e.amount == bal[e.userId]
  {
    if keys != [] {
      var init, k := keys[..|keys| - 1], keys[|keys| - 1];
      CreditorsExact(init, bal, e);
      assert keys == init + [k];
    }
  }

  /** Each key gives at most one record, on one side only: the ids of the
      debtors and creditors together are a sub-multiset of the keys. */
  lemma {:induction false} ClassifyIds(keys: seq<string>, bal: map<string, real>)
    requires Covers(keys, bal)
    ensures multiset(Ids(Debtors(keys, bal))) + multiset(Ids(Creditors(keys, bal))) <= multiset(keys)
  {
    if keys != [] {
      var init, k := keys[..|keys| - 1], keys[|keys| - 1];
      ClassifyIds(init, bal);
      var dx := if bal[k] < -Tolerance then [Entry(k, bal[k])] else [];
      var cx := if bal[k] > Tolerance then [Entry(k, bal[k])] else [];
      IdsAppend(Debtors(init, bal), dx);
      IdsAppend(Creditors(init, bal), cx);
      assert multiset(Ids(dx)) + multiset(Ids(cx)) <= multiset{k};
      assert keys == init + [k];
    }
  }

  /** With distinct keys no member is both a debtor and a creditor, and
      none appears twice. */
  lemma ClassifyDistinct(keys: seq<string>, bal: map<string, real>)
    requires Covers(keys, bal) && Distinct(keys)
    ensures DistinctParties(Debtors(keys, bal), Creditors(keys, bal))
  {
    var d, c := Debtors(keys, bal), Creditors(keys, bal);
    ClassifyIds(keys, bal);
    IdsAppend(d, c);
    DistinctSub(Ids(d + c), keys);
  }

  /** No debtors exactly when no balance is below minus the tolerance. */
  lemma DebtorsEmpty(keys: seq<string>, bal: map<string, real>)
    requires Covers(keys, bal)
    ensures Debtors(keys, bal) == [] <==> forall k :: k in keys ==> bal[k] >= -Tolerance
  {
    var d := Debtors(keys, bal);
    if d != [] {
      assert d[0] in d;
      DebtorsExact(keys, bal, d[0]);
    }
    forall k | k in keys && bal[k] < -Tolerance
      ensures d != []
    {
      DebtorsExact(keys, bal, Entry(k, bal[k]));
    }
  }

  /** No creditors exactly when no balance is above the tolerance. */
  lemma CreditorsEmpty(keys: seq<string>, bal: map<string, real>)
    requires Covers(keys, bal)
    ensures Creditors(keys, bal) == [] <==> forall k :: k in keys ==> bal[k] <= Tolerance
  {
    var c := Creditors(keys, bal);
    if c != [] {
      assert c[0] in c;
      CreditorsExact(keys, bal, c[0]);
    }
    forall k | k in keys && bal[k] > Tolerance
      ensures c != []
    {
      CreditorsExact(keys, bal, Entry(k, bal[k]));
    }
  }

  lemma SameElements(a: seq<Entry>, b: seq<Entry>, e: Entry)
    requires multiset(a) == multiset(b)
    ensures e in a <==> e in b
  {
    assert e in a <==> e in multiset(a);
    assert e in b <==> e in multiset(b);
  }

  /** The debtors after `debtors.sort((a, b) => a.amount - b.amount)`:
      the same records, most negative balance first. */
  function SortedDebtors(keys: seq<string>, bal: map<string, real>): (d: seq<Entry>)
    requires Covers(keys, bal)
    ensures Owing(d) && SortedBy(d, false)
    ensures multiset(d) == multiset(Debtors(keys, bal))
  {
    var u := Debtors(keys, bal);
    SortSpecCorrect(u, false);
    assert Owing(SortSpec(u, false)) by {
      forall e | e in SortSpec(u, false) ensures e.amount <= -Tolerance {
        SameElements(SortSpec(u, false), u, e);
      }
    }
    SortSpec(u, false)
  }

  /** The creditors after `creditors.sort((a, b) => b.amount - a.amount)`:
      the same records, largest balance first. */
  function SortedCreditors(keys: seq<string>, bal: map<string, real>): (c: seq<Entry>)
    requires Covers(keys, bal)
    ensures Owed(c) && SortedBy(c, true)
    ensures multiset(c) == multiset(Creditors(keys, bal))
  {
    var u := Creditors(keys, bal);
    SortSpecCorrect(u, true);
    assert Owed(SortSpec(u, true)) by {
      forall e | e in SortSpec(u, true) ensures e.amount >= Tolerance {
        SameElements(SortSpec(u, true), u, e);
      }
    }
    SortSpec(u, true)
  }

  /** The transfers the engine emits for a balance table whose keys, in
      `Object.keys` order, are `keys`. */
  function Plan(keys: seq<string>, bal: map<string, real>): seq<Transfer>
    requires Covers(keys, bal)
  {
    Round2IsCentRounding();
    Match(SortedDebtors(keys, bal), SortedCreditors(keys, bal), Round2)
  }

  /** The whole engine: no transfers when either input is absent, otherwise
      the plan for the members' balances over the expenses. */
  function Settlements(expenses: Option<seq<Expense>>, members: Option<seq<Value>>): (r: seq<Transfer>)
    ensures expenses.None? || members.None? ==> r == []
  {
    if expenses.None? || members.None? then []
    else
      var keys := MemberKeys(members.value);
      Plan(keys, Balances(expenses.value, keys))
  }

  /** Every transfer runs from a member whose balance is below minus the
      tolerance to a member whose balance is above it, hence never from a
      member to itself, and moves a positive whole number of cents. */
  lemma PlanTransfers(keys: seq<string>, bal: map<string, real>)
    requires Covers(keys, bal)
    ensures forall t :: t in Plan(keys, bal) ==>
      && t.from in keys && bal[t.from] < -Tolerance
      && t.to in keys && bal[t.to] > Tolerance
      && t.from != t.to
      && t.amount >= Tolerance && WholeCents(t.amount)
  {
    Round2IsCentRounding();
    var d, c := SortedDebtors(keys, bal), SortedCreditors(keys, bal);
    MatchTransfers(d, c, Round2);
    forall t | t in Plan(keys, bal)
      ensures t.from in keys && bal[t.from] < -Tolerance
      ensures t.to in keys && bal[t.to] > Tolerance
      ensures WholeCents(t.amount)
    {
      WholeCentsExact(t.amount);
      var i :| 0 <= i < |Ids(d)| && Ids(d)[i] == t.from;
      SameElements(d, Debtors(keys, bal), d[i]);
      DebtorsExact(keys, bal, d[i]);
      var j :| 0 <= j < |Ids(c)| && Ids(c)[j] == t.to;
      SameElements(c, Creditors(keys, bal), c[j]);
      CreditorsExact(keys, bal, c[j]);
    }
  }

  lemma SameLength(a: seq<Entry>, b: seq<Entry>)
    requires multiset(a) == multiset(b)
    ensures |a| == |b| && (a == [] <==> b == [])
  {
    assert |multiset(a)| == |a| && |multiset(b)| == |b|;
  }

  /** No transfers exactly when no member owes more than the tolerance or
      no member is owed more than it. */
  lemma PlanEmpty(keys: seq<string>, bal: map<string, real>)
    requires Covers(keys, bal)
    ensures Plan(keys, bal) == []
        <==> (forall k :: k in keys ==> bal[k] >= -Tolerance) || (forall k :: k in keys ==> bal[k] <= Tolerance)
  {
    Round2IsCentRounding();
    var d, c := SortedDebtors(keys, bal), SortedCreditors(keys, bal);
    MatchLength(d, c, Round2);
    SameLength(d, Debtors(keys, bal));
    SameLength(c, Creditors(keys, bal));
    DebtorsEmpty(keys, bal);
    CreditorsEmpty(keys, bal);
  }

  lemma SubCount(a: multiset<string>, b: multiset<string>)
    requires a <= b
    ensures |a| <= |b|
  {
    assert b == a + (b - a);
  }

  /** There are no more debtors and creditors together than keys. */
  lemma SidesCount(keys: seq<string>, bal: map<string, real>)
    requires Covers(keys, bal)
    ensures |Debtors(keys, bal)| + |Creditors(keys, bal)| <= |keys|
  {
    ClassifyIds(keys, bal);
    SubCount(multiset(Ids(Debtors(keys, bal))) + multiset(Ids(Creditors(keys, bal))), multiset(keys));
  }

  /** Fewer transfers than members: each round settles a debtor or a
      creditor and the last round settles both sides' last records. */
  lemma PlanCount(keys: seq<string>, bal: map<string, real>)
    requires Covers(keys, bal)
    ensures Plan(keys, bal) == [] || |Plan(keys, bal)| < |keys|
  {
    Round2IsCentRounding();
    var d, c := SortedDebtors(keys, bal), SortedCreditors(keys, bal);
    MatchLength(d, c, Round2);
    SameLength(d, Debtors(keys, bal));
    SameLength(c, Creditors(keys, bal));
    SidesCount(keys, bal);
  }

  /** The first debtor after sorting has the lowest balance of all. */
  lemma DebtorsLowest(keys: seq<string>, bal: map<string, real>)
    requires Covers(keys, bal) && SortedDebtors(keys, bal) != []
    ensures var e := SortedDebtors(keys, bal)[0];
      e.userId in keys && e.amount == bal[e.userId] && forall k :: k in keys ==> e.amount <= bal[k]
  {
    var d := SortedDebtors(keys, bal);
    SameElements(d, Debtors(keys, bal), d[0]);
    DebtorsExact(keys, bal, d[0]);
    forall k | k in keys
      ensures d[0].amount <= bal[k]
    {
      if bal[k] < -Tolerance {
        DebtorsExact(keys, bal, Entry(k, bal[k]));
        SameElements(d, Debtors(keys, bal), Entry(k, bal[k]));
      }
    }
  }

  /** The first creditor after sorting has the highest balance of all. */
  lemma CreditorsHighest(keys: seq<string>, bal: map<string, real>)
    requires Covers(keys, bal) && SortedCreditors(keys, bal) != []
    ensures var e := SortedCreditors(keys, bal)[0];
      e.userId in keys && e.amount == bal[e.userId] && forall k :: k in keys ==> bal[k] <= e.amount
  {
    var c := SortedCreditors(keys, bal);
    SameElements(c, Creditors(keys, bal), c[0]);
    CreditorsExact(keys, bal, c[0]);
    forall k | k in keys
      ensures bal[k] <= c[0].amount
    {
      if bal[k] > Tolerance {
        CreditorsExact(keys, bal, Entry(k, bal[k]));
        SameElements(c, Creditors(keys, bal), Entry(k, bal[k]));
      }
    }
  }

  /** The first transfer is paid by a member with the lowest balance to a
      member with the highest balance, and moves the smaller of the two
      magnitudes rounded to two decimals. */
  lemma PlanFirst(keys: seq<string>, bal: map<string, real>)
    requires Covers(keys, bal)
    ensures var r := Plan(keys, bal);
      r != [] ==>
        && r[0].from in keys && r[0].to in keys
        && (forall k :: k in keys ==> bal[r[0].from] <= bal[k] <= bal[r[0].to])
        && r[0].amount == Round2(Min(-bal[r[0].from], bal[r[0].to]))
  {
    Round2IsCentRounding();
    var d, c := SortedDebtors(keys, bal), SortedCreditors(keys, bal);
    MatchLength(d, c, Round2);
    var r := Plan(keys, bal);
    assert r == Match(d, c, Round2);
    if r != [] {
      MatchFirst(d, c, Round2);
      DebtorsLowest(keys, bal);
      CreditorsHighest(keys, bal);
      assert r[0] == Transfer(d[0].userId, c[0].userId, Round2(Min(-d[0].amount, c[0].amount)));
      assert bal[r[0].from] == d[0].amount && bal[r[0].to] == c[0].amount;
    }
  }

  /** Sorting keeps the ids, so the sorted sides, like the unsorted ones,
      name each member once between them. */
  lemma SortedDistinct(keys: seq<string>, bal: map<string, real>)
    requires Covers(keys, bal) && Distinct(keys)
    ensures DistinctParties(SortedDebtors(keys, bal), SortedCreditors(keys, bal))
  {
    var du, cu := Debtors(keys, bal), Creditors(keys, bal);
    var d, c := SortedDebtors(keys, bal), SortedCreditors(keys, bal);
    ClassifyDistinct(keys, bal);
    SortSpecIds(du, false);
    SortSpecIds(cu, true);
    assert d == SortSpec(du, false) && c == SortSpec(cu, true);
    IdsAppend(d, c);
    IdsAppend(du, cu);
    DistinctSub(Ids(d + c), Ids(du + cu));
  }

  /** Paying `r` leaves every debtor of `bal` with at most half a cent of
      credit, every creditor with at most half a cent of debt, every member
      inside the tolerance band untouched, and one whole side within the
      tolerance of zero. */
  ghost predicate SettledBy(keys: seq<string>, bal: map<string, real>, r: seq<Transfer>)
    requires Covers(keys, bal)
  {
    && (forall k :: k in keys && bal[k] < -Tolerance ==> bal[k] + NetOut(r, k) <= HalfCent)
    && (forall k :: k in keys && bal[k] > Tolerance ==> bal[k] + NetOut(r, k) >= -HalfCent)
    && (forall k :: k in keys && -Tolerance <= bal[k] <= Tolerance ==> NetOut(r, k) == 0.0)
    && ((forall k :: k in keys && bal[k] < -Tolerance ==> Abs(bal[k] + NetOut(r, k)) < Tolerance)
     || (forall k :: k in keys && bal[k] > Tolerance ==> bal[k] + NetOut(r, k) < Tolerance))
  }

  /** Paying the plan leaves every former debtor with at most half a cent
      of credit, every former creditor with at most half a cent of debt,
      every member inside the tolerance band untouched, and one whole side
      within the tolerance of zero. (Not every member ends within the
      tolerance: see `ResidualCounterexample`.) */
  lemma PlanSettles(keys: seq<string>, bal: map<string, real>)
    requires Covers(keys, bal) && Distinct(keys)
    ensures SettledBy(keys, bal, Plan(keys, bal))
  {
    Round2IsCentRounding();
    var d, c := SortedDebtors(keys, bal), SortedCreditors(keys, bal);
    var r := Plan(keys, bal);
    assert r == Match(d, c, Round2);
    SortedDistinct(keys, bal);
    MatchSettles(d, c, Round2);
    forall k | k in keys && bal[k] < -Tolerance
      ensures Entry(k, bal[k]) in d
    {
      DebtorsExact(keys, bal, Entry(k, bal[k]));
      SameElements(d, Debtors(keys, bal), Entry(k, bal[k]));
    }
    forall k | k in keys && bal[k] > Tolerance
      ensures Entry(k, bal[k]) in c
    {
      CreditorsExact(keys, bal, Entry(k, bal[k]));
      SameElements(c, Creditors(keys, bal), Entry(k, bal[k]));
    }
    PlanTransfers(keys, bal);
    forall k | k in keys && -Tolerance <= bal[k] <= Tolerance
      ensures NetOut(r, k) == 0.0
    {
      NetOutUnnamed(r, k);
    }
  }

  /** The balance table once the transfers `ts` are paid. */
  function Paid(keys: seq<string>, bal: map<string, real>, ts: seq<Transfer>): (paid: map<string, real>)
    requires Covers(keys, bal)
    ensures Covers(keys, paid) && paid.Keys == set k | k in keys
  {
    map k | k in keys :: bal[k] + NetOut(ts, k)
  }

  /** Paying the plan leaves nothing to settle: over the balances it
      produces, the plan is empty. */
  lemma PlanIdempotent(keys: seq<string>, bal: map<string, real>)
    requires Covers(keys, bal) && Distinct(keys)
    ensures var r := Plan(keys, bal);
      Plan(keys, Paid(keys, bal, r)) == []
  {
    PlanSettles(keys, bal);
    NothingLeft(keys, bal, Plan(keys, bal));
  }

  /** Transfers that leave one side settled and the other on its side of
      zero leave no debtor or no creditor behind. */
  lemma NothingLeft(keys: seq<string>, bal: map<string, real>, r: seq<Transfer>)
    requires Covers(keys, bal)
    requires SettledBy(keys, bal, r)
    ensures Plan(keys, Paid(keys, bal, r)) == []
  {
    var paid := Paid(keys, bal, r);
    if forall k :: k in keys && bal[k] < -Tolerance ==> Abs(bal[k] + NetOut(r, k)) < Tolerance {
      NoneOwing(keys, bal, paid);
    } else {
      NoneOwed(keys, bal, paid);
    }
    PlanEmpty(keys, paid);
  }

  lemma NoneOwing(keys: seq<string>, bal: map<string, real>, paid: map<string, real>)
    requires Covers(keys, bal) && Covers(keys, paid)
    requires forall k :: k in keys && bal[k] < -Tolerance ==> Abs(paid[k]) < Tolerance
    requires forall k :: k in keys && bal[k] > Tolerance ==> paid[k] >= -HalfCent
    requires forall k :: k in keys && -Tolerance <= bal[k] <= Tolerance ==> paid[k] == bal[k]
    ensures forall k :: k in keys ==> paid[k] >= -Tolerance
  {
  }

  lemma NoneOwed(keys: seq<string>, bal: map<string, real>, paid: map<string, real>)
    requires Covers(keys, bal) && Covers(keys, paid)
    requires forall k :: k in keys && bal[k] > Tolerance ==> paid[k] < Tolerance
    requires forall k :: k in keys && bal[k] < -Tolerance ==> paid[k] <= HalfCent
    requires forall k :: k in keys && -Tolerance <= bal[k] <= Tolerance ==> paid[k] == bal[k]
    ensures forall k :: k in keys ==> paid[k] <= Tolerance
  {
  }

  /** "Mark as paid" on every transfer of a plan, then recomputing, gives
      no transfers: recording a transfer moves the two balances by its
      amount (`MarkAsPaid`), and paying the whole plan leaves no debtor or
      no creditor. */
  lemma SettleAllIdempotent(expenses: seq<Expense>, members: seq<Value>)
    ensures var r := Settlements(Some(expenses), Some(members));
      Settlements(Some(expenses + SettlementExpenses(r)), Some(members)) == []
  {
    var keys := MemberKeys(members);
    MemberKeysExact(members);
    var bal := Balances(expenses, keys);
    var r := Plan(keys, bal);
    var es := expenses + SettlementExpenses(r);
    forall k | k in keys
      ensures Balance(es, k) == bal[k] + NetOut(r, k)
    {
      RecordTransfers(expenses, r, k);
    }
    SameTable(Balances(es, keys), Paid(keys, bal, r));
    PlanIdempotent(keys, bal);
  }

  lemma SameTable(a: map<string, real>, b: map<string, real>)
    requires a.Keys == b.Keys && forall k :: k in a ==> a[k] == b[k]
    ensures a == b
  {
  }

  /** The member keys and balances of the counterexample below. */
  function ResidualKeys(): seq<string>
  {
    ["a", "b", "c", "d"]
  }

  function ResidualBalances(): map<string, real>
  {
    map["a" := 0.042, "b" := -0.014, "c" := -0.014, "d" := -0.014]
  }

  /** Not every member ends within the tolerance of zero. Three members
      each owing 1.4 cents to a fourth pay a rounded cent each, and the
      creditor is left owed 1.2 cents, more than the tolerance. */
  lemma ResidualCounterexample()
    ensures Plan(ResidualKeys(), ResidualBalances()) == [Transfer("b", "a", 0.01), Transfer("c", "a", 0.01), Transfer("d", "a", 0.01)]
    ensures Paid(ResidualKeys(), ResidualBalances(), Plan(ResidualKeys(), ResidualBalances()))["a"] > Tolerance
  {
    assert ResidualBalances()["a"] == 0.042;
    ExamplePlan();
    ExampleReceived();
  }

  lemma ExamplePlan()
    ensures Plan(ResidualKeys(), ResidualBalances()) == [Transfer("b", "a", 0.01), Transfer("c", "a", 0.01), Transfer("d", "a", 0.01)]
  {
    ExampleSorted();
    ExampleMatch();
  }

  lemma ExampleReceived()
    ensures NetOut([Transfer("b", "a", 0.01), Transfer("c", "a", 0.01), Transfer("d", "a", 0.01)], "a") == -0.03
  {
    var r := [Transfer("b", "a", 0.01), Transfer("c", "a", 0.01), Transfer("d", "a", 0.01)];
    assert r[1..] == [r[1], r[2]] && r[1..][1..] == [r[2]] && r[1..][1..][1..] == [];
  }

  /** The greedy matching of the example: each debtor pays a rounded cent. */
  lemma ExampleMatch()
    ensures && CentRounding(Round2)
            && Match([Entry("b", -0.014), Entry("c", -0.014), Entry("d", -0.014)], [Entry("a", 0.042)], Round2)
               == [Transfer("b", "a", 0.01), Transfer("c", "a", 0.01), Transfer("d", "a", 0.01)]
  {
    var a, b, c, d := Entry("a", 0.042), Entry("b", -0.014), Entry("c", -0.014), Entry("d", -0.014);
    Round2IsCentRounding();
    ExampleCent();
    MatchRound([b, c, d], [a], Round2);
    assert NextDebtors([b, c, d], 0.01) == [c, d];
    ExampleMatchTail();
  }

  lemma ExampleCent()
    ensures Round2(0.014) == 0.01
  {
    assert (0.014 * 100.0 + 0.5).Floor == 1;
  }

  lemma ExampleMatchTail()
    ensures && CentRounding(Round2)
            && Match([Entry("c", -0.014), Entry("d", -0.014)], [Entry("a", 0.032)], Round2)
               == [Transfer("c", "a", 0.01), Transfer("d", "a", 0.01)]
  {
    var a, c, d := Entry("a", 0.032), Entry("c", -0.014), Entry("d", -0.014);
    Round2IsCentRounding();
    ExampleCent();
    MatchRound([c, d], [a], Round2);
    assert NextDebtors([c, d], 0.01) == [d];
    MatchRound([d], [a.(amount := 0.022)], Round2);
    assert Match([], [a.(amount := 0.012)], Round2) == [];
  }

  /** The example's two sides after sorting: ties keep their key order. */
  lemma ExampleSorted()
    ensures SortedDebtors(ResidualKeys(), ResidualBalances()) == [Entry("b", -0.014), Entry("c", -0.014), Entry("d", -0.014)]
    ensures SortedCreditors(ResidualKeys(), ResidualBalances()) == [Entry("a", 0.042)]
  {
    var a, b, c, d := Entry("a", 0.042), Entry("b", -0.014), Entry("c", -0.014), Entry("d", -0.014);
    ExampleDebtors();
    ExampleCreditors();
    assert SortedBy([b, c, d], false);
    SortSpecKeepsSorted([b, c, d], false);
    SortSpecKeepsSorted([a], true);
  }

  lemma ExampleDebtors()
    ensures Debtors(ResidualKeys(), ResidualBalances()) == [Entry("b", -0.014), Entry("c", -0.014), Entry("d", -0.014)]
  {
    var keys, bal := ResidualKeys(), ResidualBalances();
    assert bal["a"] == 0.042 && bal["b"] == -0.014 && bal["c"] == -0.014 && bal["d"] == -0.014;
    assert keys[..3] == ["a", "b", "c"] && ["a", "b", "c"][..2] == ["a", "b"] && ["a", "b"][..1] == ["a"];
    assert ["a"][..0] == [];
    assert Debtors([], bal) == [];
    assert Debtors(["a"], bal) == [];
    assert Debtors(["a", "b"], bal) == [Entry("b", -0.014)];
    assert Debtors(["a", "b", "c"], bal) == [Entry("b", -0.014), Entry("c", -0.014)];
  }

  lemma ExampleCreditors()
    ensures Creditors(ResidualKeys(), ResidualBalances()) == [Entry("a", 0.042)]
  {
    var keys, bal := ResidualKeys(), ResidualBalances();
    assert bal["a"] == 0.042 && bal["b"] == -0.014 && bal["c"] == -0.014 && bal["d"] == -0.014;
    assert keys[..3] == ["a", "b", "c"] && ["a", "b", "c"][..2] == ["a", "b"] && ["a", "b"][..1] == ["a"];
    assert ["a"][..0] == [];
    assert Creditors([], bal) == [];
    assert Creditors(["a"], bal) == [] + [Entry("a", 0.042)];
    assert Creditors(["a", "b"], bal) == [Entry("a", 0.042)];
    assert Creditors(["a", "b", "c"], bal) == [Entry("a", 0.042)];
  }

  /** With no expenses every balance is zero and there is nothing to
      settle, whatever the members. */
  lemma NoExpenses(members: seq<Value>)
    ensures Settlements(Some([]), Some(members)) == []
  {
    var keys := MemberKeys(members);
    var bal := Balances([], keys);
    assert forall k :: k in keys ==> bal[k] == 0.0;
    PlanEmpty(keys, bal);
  }

  /** Members A, B and C; A pays 300, split equally among the three, with
      A given as an embedded user object: B and C each pay A 100. */
  lemma EqualSplitExample()
    ensures Settlements(Some([SplitExpense()]), Some(SplitMembers()))
         == [Transfer("B", "A", 100.0), Transfer("C", "A", 100.0)]
  {
    SplitKeys();
    SplitBalances();
    SplitPlan();
  }

  function SplitMembers(): seq<Value>
  {
    [Obj(Str("A")), Obj(Str("B")), Obj(Str("C"))]
  }

  function SplitExpense(): Expense
  {
    Expense(Obj(Str("A")), 300.0, Some([Share(Str("A"), 100.0), Share(Str("B"), 100.0), Share(Str("C"), 100.0)]))
  }

  /** The balances the split expense leaves. */
  function SplitTable(): map<string, real>
  {
    map["A" := 200.0, "B" := -100.0, "C" := -100.0]
  }

  lemma SplitKeys()
    ensures MemberKeys(SplitMembers()) == ["A", "B", "C"]
  {
    var members := SplitMembers();
    assert MemberKey(members[0]) == Some("A") && MemberKey(members[1]) == Some("B") && MemberKey(members[2]) == Some("C");
    assert members[..2] == [members[0], members[1]] && members[..2][..1] == [members[0]] && members[..2][..1][..0] == [];
    assert MemberKeys([members[0]]) == ["A"];
    assert "B" !in ["A"];
    assert MemberKeys(members[..2]) == ["A", "B"];
    assert "C" !in ["A", "B"];
  }

  lemma SplitBalances()
    ensures Balances([SplitExpense()], ["A", "B", "C"]) == SplitTable()
  {
    var keys := ["A", "B", "C"];
    var e := SplitExpense();
    var shares := e.shares.value;
    assert shares[..2] == [shares[0], shares[1]] && shares[..2][..1] == [shares[0]] && shares[..2][..1][..0] == [];
    assert [e][..0] == [];
    assert PayerKey(e.paidBy) == "A";
    var bal := SplitTable();
    assert bal["A"] == 200.0 && bal["B"] == -100.0 && bal["C"] == -100.0;
    forall k | k in keys
      ensures Balance([e], k) == bal[k]
    {
      assert ShareDebit(shares[..1], k) == ShareDebit([], k) + (if "A" == k then 100.0 else 0.0);
      assert ShareDebit(shares[..2], k) == ShareDebit(shares[..1], k) + (if "B" == k then 100.0 else 0.0);
      assert ShareDebit(shares, k) == ShareDebit(shares[..2], k) + (if "C" == k then 100.0 else 0.0);
      assert Balance([e], k) == Balance([], k) + ExpenseEffect(e, k);
    }
    SameTable(Balances([e], keys), bal);
  }

  lemma SplitPlan()
    ensures Plan(["A", "B", "C"], SplitTable()) == [Transfer("B", "A", 100.0), Transfer("C", "A", 100.0)]
  {
    SplitSorted();
    SplitMatch();
  }

  lemma SplitSorted()
    ensures SortedDebtors(["A", "B", "C"], SplitTable()) == [Entry("B", -100.0), Entry("C", -100.0)]
    ensures SortedCreditors(["A", "B", "C"], SplitTable()) == [Entry("A", 200.0)]
  {
    var a, b, c := Entry("A", 200.0), Entry("B", -100.0), Entry("C", -100.0);
    SplitDebtors();
    SplitCreditors();
    assert SortedBy([b, c], false);
    SortSpecKeepsSorted([b, c], false);
    SortSpecKeepsSorted([a], true);
  }

  lemma SplitDebtors()
    ensures Debtors(["A", "B", "C"], SplitTable()) == [Entry("B", -100.0), Entry("C", -100.0)]
  {
    var keys, bal := ["A", "B", "C"], SplitTable();
    assert bal["A"] == 200.0 && bal["B"] == -100.0 && bal["C"] == -100.0;
    assert keys[..2] == ["A", "B"] && ["A", "B"][..1] == ["A"] && ["A"][..0] == [];
    assert Debtors([], bal) == [];
    assert Debtors(["A"], bal) == [];
    assert Debtors(["A", "B"], bal) == [Entry("B", -100.0)];
  }

  lemma SplitCreditors()
    ensures Creditors(["A", "B", "C"], SplitTable()) == [Entry("A", 200.0)]
  {
    var keys, bal := ["A", "B", "C"], SplitTable();
    assert bal["A"] == 200.0 && bal["B"] == -100.0 && bal["C"] == -100.0;
    assert keys[..2] == ["A", "B"] && ["A", "B"][..1] == ["A"] && ["A"][..0] == [];
    assert Creditors([], bal) == [];
    assert Creditors(["A"], bal) == [] + [Entry("A", 200.0)];
    assert Creditors(["A", "B"], bal) == [Entry("A", 200.0)];
  }

  lemma SplitMatch()
    ensures && CentRounding(Round2)
            && Match([Entry("B", -100.0), Entry("C", -100.0)], [Entry("A", 200.0)], Round2)
               == [Transfer("B", "A", 100.0), Transfer("C", "A", 100.0)]
  {
    var a, b, c := Entry("A", 200.0), Entry("B", -100.0), Entry("C", -100.0);
    Round2IsCentRounding();
    assert (100.0 * 100.0 + 0.5).Floor == 10000;
    MatchRound([b, c], [a], Round2);
    MatchRound([c], [a.(amount := 100.0)], Round2);
    assert Match([], [], Round2) == [];
  }

  /** The member loop: a zero balance for every member whose `_id` is
      truthy. `keys` is the key order of the table, in which a repeated id
      keeps the place of its first occurrence. */
  method InitBalances(members: seq<Value>) returns (keys: seq<string>, balances: map<string, real>)
    ensures keys == MemberKeys(members)
    ensures balances.Keys == set k | k in keys
    ensures forall k :: k in balances ==> balances[k] == 0.0
  {
    keys, balances := [], map[];
    for n := 0 to |members|
      invariant keys == MemberKeys(members[..n])
      invariant balances.Keys == set k | k in keys
      invariant forall k :: k in balances ==> balances[k] == 0.0
    {
      assert members[..n + 1][..n] == members[..n];
      match MemberKey(members[n]) {
        case None =>
        case Some(id) =>
          if id !in balances {
            keys := keys + [id];
          }
          balances := balances[id := 0.0];
      }
    }
    assert members[..|members|] == members;
  }

  /** The share loop of one expense: each share whose user has a balance
      is debited its amount. */
  method DebitShares(shares: seq<Share>, balances: map<string, real>) returns (balances': map<string, real>)
    ensures balances'.Keys == balances.Keys
    ensures forall k :: k in balances' ==> balances'[k] == balances[k] - ShareDebit(shares, k)
  {
    balances' := balances;
    for n := 0 to |shares|
      invariant balances'.Keys == balances.Keys
      invariant forall k :: k in balances' ==> balances'[k] == balances[k] - ShareDebit(shares[..n], k)
    {
      assert shares[..n + 1][..n] == shares[..n];
      var user := PropertyKey(shares[n].user);
      if user in balances' {
        balances' := balances'[user := balances'[user] - shares[n].amount];
      }
    }
    assert shares[..|shares|] == shares;
  }

  /** The expense loop: the payer, if it has a balance, is credited the
      amount, and the shares, if they form an array, are debited. */
  method AddExpenses(expenses: seq<Expense>, balances: map<string, real>) returns (balances': map<string, real>)
    ensures balances'.Keys == balances.Keys
    ensures forall k :: k in balances' ==> balances'[k] == balances[k] + Balance(expenses, k)
  {
    balances' := balances;
    for n := 0 to |expenses|
      invariant balances'.Keys == balances.Keys
      invariant forall k :: k in balances' ==> balances'[k] == balances[k] + Balance(expenses[..n], k)
    {
      assert expenses[..n + 1][..n] == expenses[..n];
      var exp := expenses[n];
      ghost var before := balances';
      var paidById := PayerKey(exp.paidBy);
      if paidById in balances' {
        balances' := balances'[paidById := balances'[paidById] + exp.amount];
      }
      if exp.shares.Some? {
        balances' := DebitShares(exp.shares.value, balances');
      }
      assert forall k :: k in balances' ==> balances'[k] == before[k] + ExpenseEffect(exp, k);
    }
    assert expenses[..|expenses|] == expenses;
  }

  /** The classification loop: in key order, a balance below minus the
      tolerance is pushed as a debtor and one above it as a creditor. */
  method Classify(keys: seq<string>, balances: map<string, real>) returns (debtors: seq<Entry>, creditors: seq<Entry>)
    requires Covers(keys, balances)
    ensures debtors == Debtors(keys, balances) && creditors == Creditors(keys, balances)
  {
    debtors, creditors := [], [];
    for n := 0 to |keys|
      invariant debtors == Debtors(keys[..n], balances) && creditors == Creditors(keys[..n], balances)
    {
      assert keys[..n + 1][..n] == keys[..n];
      var userId := keys[n];
      var amount := balances[userId];
      if amount < -Tolerance {
        debtors := debtors + [Entry(userId, amount)];
      }
      if amount > Tolerance {
        creditors := creditors + [Entry(userId, amount)];
      }
    }
    assert keys[..|keys|] == keys;
  }

  /** `calculateSettlements(expenses, members)`, phase by phase: the
      balance table, the classification, the two in-place sorts and the
      in-place greedy matching. It computes `Settlements`. */
  method CalculateSettlements(expenses: Option<seq<Expense>>, members: Option<seq<Value>>) returns (settlements: seq<Transfer>)
    ensures settlements == Settlements(expenses, members)
  {
    if expenses.None? || members.None? {
      return [];
    }
    var keys, balances := InitBalances(members.value);
    balances := AddExpenses(expenses.value, balances);
    assert balances == Balances(expenses.value, keys);
    var debtors, creditors := Classify(keys, balances);
    var da := new Entry[|debtors|](n requires 0 <= n < |debtors| => debtors[n]);
    var ca := new Entry[|creditors|](n requires 0 <= n < |creditors| => creditors[n]);
    assert da[..] == debtors && ca[..] == creditors;
    SortInPlace(da, false);
    SortInPlace(ca, true);
    assert da[..] == SortedDebtors(keys, balances) && ca[..] == SortedCreditors(keys, balances);
    Round2IsCentRounding();
    settlements := MatchInPlace(da, ca, Round2);
  }
}
