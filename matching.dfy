/** The greedy two-index matching of sorted debtors against sorted
    creditors. `Match` is the reference definition, one transfer per round;
    `MatchInPlace` is the loop of the engine, which mutates the amounts of
    the records in place and advances an index once its side is settled. */
module Matching {
  import opened Money
  import opened Ledger

  /** Every debtor still owes at least a cent. */
  predicate Owing(d: seq<Entry>)
  {
    forall e :: e in d ==> e.amount <= -Tolerance
  }

  /** Every creditor is still owed at least a cent. */
  predicate Owed(c: seq<Entry>)
  {
    forall e :: e in c ==> e.amount >= Tolerance
  }

  /** The user ids of debtors and creditors together name each member once. */
  predicate DistinctParties(d: seq<Entry>, c: seq<Entry>)
  {
    Distinct(Ids(d + c))
  }

  /** The amount settled between a debtor and a creditor in one round: the
      smaller of the two magnitudes, rounded to two decimals. */
  function RoundAmount(debtor: Entry, creditor: Entry, round: real -> real): real
  {
    round(Min(Abs(debtor.amount), creditor.amount))
  }

  /** The rounded amount moves at least a cent and a whole number of
      cents. */
  lemma RoundPositive(debtor: Entry, creditor: Entry, round: real -> real)
    requires CentRounding(round)
    requires debtor.amount <= -Tolerance && creditor.amount >= Tolerance
    ensures Tolerance <= RoundAmount(debtor, creditor, round)
    ensures round(RoundAmount(debtor, creditor, round)) == RoundAmount(debtor, creditor, round)
  {
  }

  /** Why the loop makes progress: a round settles the debtor or the
      creditor (or both), and neither side overshoots by more than half a
      cent, so a side that is not settled stays on its side of the band. */
  lemma RoundProgress(debtor: Entry, creditor: Entry, round: real -> real)
    requires CentRounding(round)
    requires debtor.amount <= -Tolerance && creditor.amount >= Tolerance
    ensures var amount := RoundAmount(debtor, creditor, round);
      && (Abs(debtor.amount + amount) < Tolerance || creditor.amount - amount < Tolerance)
      && debtor.amount + amount <= HalfCent
      && creditor.amount - amount >= -HalfCent
  {
    var m := Min(Abs(debtor.amount), creditor.amount);
    assert m - HalfCent < round(m) <= m + HalfCent;
  }

  /** The debtors after a round that paid `amount`: the head leaves once it
      is within the tolerance of zero, otherwise it carries what is left. */
  function NextDebtors(d: seq<Entry>, amount: real): seq<Entry>
    requires d != []
  {
    var left := d[0].amount + amount;
    if Abs(left) < Tolerance then d[1..] else [d[0].(amount := left)] + d[1..]
  }

  /** The creditors after a round that paid `amount`. */
  function NextCreditors(c: seq<Entry>, amount: real): seq<Entry>
    requires c != []
  {
    var left := c[0].amount - amount;
    if left < Tolerance then c[1..] else [c[0].(amount := left)] + c[1..]
  }

  /** A round keeps the remaining debtors owing and the remaining creditors
      owed, and shortens the two lists together. */
  lemma NextKeepsSides(d: seq<Entry>, c: seq<Entry>, round: real -> real)
    requires CentRounding(round) && Owing(d) && Owed(c) && d != [] && c != []
    ensures Owing(NextDebtors(d, RoundAmount(d[0], c[0], round)))
    ensures Owed(NextCreditors(c, RoundAmount(d[0], c[0], round)))
    ensures |NextDebtors(d, RoundAmount(d[0], c[0], round))| + |NextCreditors(c, RoundAmount(d[0], c[0], round))| < |d| + |c|
  {
    assert d[0] in d && c[0] in c;
    RoundProgress(d[0], c[0], round);
    RoundPositive(d[0], c[0], round);
  }

  /** The transfers of the greedy matching, in emission order. */
  function Match(d: seq<Entry>, c: seq<Entry>, round: real -> real): seq<Transfer>
    requires CentRounding(round) && Owing(d) && Owed(c)
    decreases |d| + |c|
  {
    if d == [] || c == [] then []
    else
      var amount := RoundAmount(d[0], c[0], round);
      NextKeepsSides(d, c, round);
      (if amount > 0.0 then [Transfer(d[0].userId, c[0].userId, amount)] else [])
        + Match(NextDebtors(d, amount), NextCreditors(c, amount), round)
  }

  /** Unfolds one round of `Match`: it always emits. */
  lemma MatchRound(d: seq<Entry>, c: seq<Entry>, round: real -> real)
    requires CentRounding(round) && Owing(d) && Owed(c) && d != [] && c != []
    ensures var amount := RoundAmount(d[0], c[0], round);
      && Owing(NextDebtors(d, amount)) && Owed(NextCreditors(c, amount))
      && Match(d, c, round) == [Transfer(d[0].userId, c[0].userId, amount)]
                        + Match(NextDebtors(d, amount), NextCreditors(c, amount), round)
  {
    assert d[0] in d && c[0] in c;
    RoundPositive(d[0], c[0], round);
    NextKeepsSides(d, c, round);
  }

  /** The ids of the next round are among those of this round. */
  lemma NextIds(d: seq<Entry>, c: seq<Entry>, amount: real)
    requires d != [] && c != []
    ensures multiset(Ids(NextDebtors(d, amount))) <= multiset(Ids(d))
    ensures multiset(Ids(NextCreditors(c, amount))) <= multiset(Ids(c))
  {
    var left := d[0].amount + amount;
    HeadIds(d, left);
    if Abs(left) >= Tolerance {
      assert NextDebtors(d, amount) == [d[0].(amount := left)] + d[1..];
    } else {
      assert NextDebtors(d, amount) == d[1..];
    }
    var right := c[0].amount - amount;
    HeadIds(c, right);
    if right >= Tolerance {
      assert NextCreditors(c, amount) == [c[0].(amount := right)] + c[1..];
    } else {
      assert NextCreditors(c, amount) == c[1..];
    }
  }

  /** Dropping the head of a list, or changing its amount, keeps its ids
      among the list's ids. */
  lemma HeadIds(s: seq<Entry>, left: real)
    requires s != []
    ensures multiset(Ids(s[1..])) <= multiset(Ids(s))
    ensures Ids([s[0].(amount := left)] + s[1..]) == Ids(s)
  {
    var t := Ids(s);
    assert Ids(s[1..]) == t[1..];
    assert t == [t[0]] + t[1..];
    assert multiset(t) == multiset{t[0]} + multiset(t[1..]);
    var s' := [s[0].(amount := left)] + s[1..];
    assert forall k :: 0 <= k < |s| ==> s'[k].userId == s[k].userId;
  }

  /** Every transfer runs from a debtor to a creditor and moves a positive
      whole number of cents, at least the tolerance. */
  lemma {:induction false} MatchTransfers(d: seq<Entry>, c: seq<Entry>, round: real -> real)
    requires CentRounding(round) && Owing(d) && Owed(c)
    ensures forall t :: t in Match(d, c, round) ==>
      t.from in Ids(d) && t.to in Ids(c) && t.amount >= Tolerance && round(t.amount) == t.amount
    decreases |d| + |c|
  {
    if d != [] && c != [] {
      var amount := RoundAmount(d[0], c[0], round);
      MatchRound(d, c, round);
      assert d[0] in d && c[0] in c;
      RoundPositive(d[0], c[0], round);
      var d', c' := NextDebtors(d, amount), NextCreditors(c, amount);
      MatchTransfers(d', c', round);
      NextIds(d, c, amount);
      assert Ids(d)[0] == d[0].userId && Ids(c)[0] == c[0].userId;
      forall x | x in Ids(d') ensures x in Ids(d) {
        assert x in multiset(Ids(d'));
      }
      forall x | x in Ids(c') ensures x in Ids(c) {
        assert x in multiset(Ids(c'));
      }
    }
  }

  /** The first transfer is between the first debtor and the first
      creditor and moves the smaller magnitude, rounded. */
  lemma MatchFirst(d: seq<Entry>, c: seq<Entry>, round: real -> real)
    requires CentRounding(round) && Owing(d) && Owed(c) && d != [] && c != []
    ensures Match(d, c, round) != []
    ensures Match(d, c, round)[0] == Transfer(d[0].userId, c[0].userId, round(Min(-d[0].amount, c[0].amount)))
  {
    MatchRound(d, c, round);
    assert d[0] in d;
  }

  /** Each round settles one side at least, and the last round settles the
      side that runs out: at most |d| + |c| - 1 transfers, and none exactly
      when one side is empty. */
  lemma {:induction false} MatchLength(d: seq<Entry>, c: seq<Entry>, round: real -> real)
    requires CentRounding(round) && Owing(d) && Owed(c)
    ensures Match(d, c, round) == [] <==> d == [] || c == []
    ensures d != [] && c != [] ==> |Match(d, c, round)| <= |d| + |c| - 1
    decreases |d| + |c|
  {
    if d != [] && c != [] {
      var amount := RoundAmount(d[0], c[0], round);
      MatchRound(d, c, round);
      NextKeepsSides(d, c, round);
      MatchLength(NextDebtors(d, amount), NextCreditors(c, amount), round);
    }
  }

  /** The remaining balance of a record once `ts` are paid. */
  function Residual(e: Entry, ts: seq<Transfer>): real
  {
    e.amount + NetOut(ts, e.userId)
  }

  lemma IdsIn(s: seq<Entry>, e: Entry)
    requires e in s
    ensures e.userId in Ids(s)
  {
    var i :| 0 <= i < |s| && s[i] == e;
    assert Ids(s)[i] == e.userId;
  }

  lemma DistinctSub(a: seq<string>, b: seq<string>)
    requires multiset(a) <= multiset(b) && Distinct(b)
    ensures Distinct(a)
  {
    forall k | k in a
      ensures multiset(a)[k] <= 1
    {
      assert k in multiset(a);
      assert k in multiset(b);
    }
  }

  /** Distinct parties: the head debtor and head creditor are named by no
      other record, no debtor is a creditor, and the parties of any later
      round are still distinct. */
  lemma RoundDistinct(d: seq<Entry>, c: seq<Entry>, d': seq<Entry>, c': seq<Entry>)
    requires d != [] && c != [] && DistinctParties(d, c)
    requires multiset(Ids(d')) <= multiset(Ids(d)) && multiset(Ids(c')) <= multiset(Ids(c))
    ensures DistinctParties(d', c')
    ensures d[0].userId !in Ids(d[1..]) && c[0].userId !in Ids(c[1..])
    ensures forall e :: e in d ==> e.userId !in Ids(c)
  {
    IdsAppend(d, c);
    IdsAppend(d', c');
    DistinctSub(Ids(d' + c'), Ids(d + c));
    HeadsDistinct(d, c);
  }

  /** Within distinct parties no id is shared between the two sides or
      repeated after a head. */
  lemma HeadsDistinct(d: seq<Entry>, c: seq<Entry>)
    requires d != [] && c != [] && Distinct(Ids(d) + Ids(c))
    ensures d[0].userId !in Ids(d[1..]) && c[0].userId !in Ids(c[1..])
    ensures forall e :: e in d ==> e.userId !in Ids(c)
  {
    var all := Ids(d) + Ids(c);
    assert multiset(all) == multiset(Ids(d)) + multiset(Ids(c));
    assert Ids(d) == [d[0].userId] + Ids(d[1..]);
    assert Ids(c) == [c[0].userId] + Ids(c[1..]);
    assert d[0].userId in all && c[0].userId in all;
    forall e | e in d
      ensures e.userId !in Ids(c)
    {
      IdsIn(d, e);
      assert e.userId in all;
    }
  }

  /** The head debtor after one round: settled, with nothing more to pay or
      receive, or carried into the next round with its reduced amount. */
  lemma HeadDebtorResidual(d: seq<Entry>, c: seq<Entry>, amount: real, rest: seq<Transfer>)
    requires d != [] && c != []
    requires d[0].userId !in Ids(d[1..]) && d[0].userId !in Ids(c)
    requires multiset(Ids(NextCreditors(c, amount))) <= multiset(Ids(c))
    requires forall t :: t in rest ==>
      t.from in Ids(NextDebtors(d, amount)) && t.to in Ids(NextCreditors(c, amount))
    ensures var ts := [Transfer(d[0].userId, c[0].userId, amount)] + rest;
      var left := d[0].amount + amount;
      if Abs(left) < Tolerance then Residual(d[0], ts) == left
      else d[0].(amount := left) in NextDebtors(d, amount)
           && Residual(d[0], ts) == Residual(d[0].(amount := left), rest)
  {
    var x := d[0].userId;
    var ts := [Transfer(x, c[0].userId, amount)] + rest;
    assert ts[1..] == rest;
    assert x != c[0].userId by { assert Ids(c)[0] == c[0].userId; }
    if Abs(d[0].amount + amount) < Tolerance {
      assert x !in multiset(Ids(NextCreditors(c, amount)));
      NetOutUnnamed(rest, x);
    }
  }

  /** The head creditor after one round, likewise. */
  lemma HeadCreditorResidual(d: seq<Entry>, c: seq<Entry>, amount: real, rest: seq<Transfer>)
    requires d != [] && c != []
    requires c[0].userId !in Ids(c[1..]) && c[0].userId !in Ids(d)
    requires multiset(Ids(NextDebtors(d, amount))) <= multiset(Ids(d))
    requires forall t :: t in rest ==>
      t.from in Ids(NextDebtors(d, amount)) && t.to in Ids(NextCreditors(c, amount))
    ensures var ts := [Transfer(d[0].userId, c[0].userId, amount)] + rest;
      var left := c[0].amount - amount;
      if left < Tolerance then Residual(c[0], ts) == left
      else c[0].(amount := left) in NextCreditors(c, amount)
           && Residual(c[0], ts) == Residual(c[0].(amount := left), rest)
  {
    var y := c[0].userId;
    var ts := [Transfer(d[0].userId, y, amount)] + rest;
    assert ts[1..] == rest;
    assert y != d[0].userId by { assert Ids(d)[0] == d[0].userId; }
    if c[0].amount - amount < Tolerance {
      assert y !in multiset(Ids(NextDebtors(d, amount)));
      NetOutUnnamed(rest, y);
    }
  }

  /** Every record but the two heads is carried into the next round as it
      is, and the round's transfer does not name it. */
  lemma OthersResidual(d: seq<Entry>, c: seq<Entry>, amount: real, rest: seq<Transfer>, e: Entry)
    requires d != [] && c != []
    requires e in d[1..] || e in c[1..]
    requires e.userId != d[0].userId && e.userId != c[0].userId
    ensures e in d[1..] ==> e in NextDebtors(d, amount)
    ensures e in c[1..] ==> e in NextCreditors(c, amount)
    ensures Residual(e, [Transfer(d[0].userId, c[0].userId, amount)] + rest) == Residual(e, rest)
  {
    var ts := [Transfer(d[0].userId, c[0].userId, amount)] + rest;
    assert ts[1..] == rest;
  }

  /** The head of a list is named once when its ids are distinct, so any
      record with the head's id is the head. */
  lemma OnlyHead(s: seq<Entry>, e: Entry)
    requires s != [] && e in s && s[0].userId !in Ids(s[1..])
    ensures e == s[0] || (e in s[1..] && e.userId != s[0].userId)
  {
    if e != s[0] {
      assert e in s[1..];
      IdsIn(s[1..], e);
    }
  }

  /** The debtors after one round whose later transfers are `rest`: each
      keeps the bound it has in the next round, and the head is bounded by
      what this round leaves it; if the next round's debtors all end
      settled, so do these. */
  lemma DebtorsAfterRound(d: seq<Entry>, c: seq<Entry>, amount: real, rest: seq<Transfer>)
    requires d != [] && c != [] && DistinctParties(d, c)
    requires d[0].amount + amount <= HalfCent
    requires forall t :: t in rest ==>
      t.from in Ids(NextDebtors(d, amount)) && t.to in Ids(NextCreditors(c, amount))
    requires forall e :: e in NextDebtors(d, amount) ==> Residual(e, rest) <= HalfCent
    ensures var ts := [Transfer(d[0].userId, c[0].userId, amount)] + rest;
      && (forall e :: e in d ==> Residual(e, ts) <= HalfCent)
      && ((forall e :: e in NextDebtors(d, amount) ==> Abs(Residual(e, rest)) < Tolerance) ==>
          forall e :: e in d ==> Abs(Residual(e, ts)) < Tolerance)
  {
    var d', c' := NextDebtors(d, amount), NextCreditors(c, amount);
    var ts := [Transfer(d[0].userId, c[0].userId, amount)] + rest;
    NextIds(d, c, amount);
    RoundDistinct(d, c, d', c');
    IdsIn(c, c[0]);
    HeadDebtorResidual(d, c, amount, rest);
    forall e | e in d
      ensures e == d[0] || (e in d' && Residual(e, ts) == Residual(e, rest))
    {
      OnlyHead(d, e);
      if e != d[0] {
        OthersResidual(d, c, amount, rest, e);
      }
    }
  }

  /** The creditors after one round, likewise. */
  lemma CreditorsAfterRound(d: seq<Entry>, c: seq<Entry>, amount: real, rest: seq<Transfer>)
    requires d != [] && c != [] && DistinctParties(d, c)
    requires c[0].amount - amount >= -HalfCent
    requires forall t :: t in rest ==>
      t.from in Ids(NextDebtors(d, amount)) && t.to in Ids(NextCreditors(c, amount))
    requires forall e :: e in NextCreditors(c, amount) ==> Residual(e, rest) >= -HalfCent
    ensures var ts := [Transfer(d[0].userId, c[0].userId, amount)] + rest;
      && (forall e :: e in c ==> Residual(e, ts) >= -HalfCent)
      && ((forall e :: e in NextCreditors(c, amount) ==> Residual(e, rest) < Tolerance) ==>
          forall e :: e in c ==> Residual(e, ts) < Tolerance)
  {
    var d', c' := NextDebtors(d, amount), NextCreditors(c, amount);
    var ts := [Transfer(d[0].userId, c[0].userId, amount)] + rest;
    NextIds(d, c, amount);
    RoundDistinct(d, c, d', c');
    IdsIn(d, d[0]);
    HeadCreditorResidual(d, c, amount, rest);
    forall e | e in c
      ensures e == c[0] || (e in c' && Residual(e, ts) == Residual(e, rest))
    {
      OnlyHead(c, e);
      if e != c[0] {
        assert e.userId !in Ids(d) by {
          if e.userId in Ids(d) {
            var i :| 0 <= i < |d| && Ids(d)[i] == e.userId;
            assert d[i] in d;
            IdsIn(c, e);
          }
        }
        assert e.userId != d[0].userId;
        OthersResidual(d, c, amount, rest, e);
      }
    }
  }

  /** After the greedy matching every debtor is left with at most half a
      cent of credit and every creditor with at most half a cent of debt,
      and one whole side is settled to within the tolerance. Paying the
      transfers therefore leaves no debtor or no creditor. */
  lemma {:induction false} MatchSettles(d: seq<Entry>, c: seq<Entry>, round: real -> real)
    requires CentRounding(round) && Owing(d) && Owed(c) && DistinctParties(d, c)
    ensures forall e :: e in d ==> Residual(e, Match(d, c, round)) <= HalfCent
    ensures forall e :: e in c ==> Residual(e, Match(d, c, round)) >= -HalfCent
    ensures (forall e :: e in d ==> Abs(Residual(e, Match(d, c, round))) < Tolerance)
         || (forall e :: e in c ==> Residual(e, Match(d, c, round)) < Tolerance)
    decreases |d| + |c|
  {
    if d == [] || c == [] {
      assert Match(d, c, round) == [];
      forall e | e in d ensures Residual(e, []) == e.amount { }
      forall e | e in c ensures Residual(e, []) == e.amount { }
    } else {
      var amount := RoundAmount(d[0], c[0], round);
      MatchRound(d, c, round);
      assert d[0] in d && c[0] in c;
      RoundProgress(d[0], c[0], round);
      var d', c' := NextDebtors(d, amount), NextCreditors(c, amount);
      NextIds(d, c, amount);
      RoundDistinct(d, c, d', c');
      MatchSettles(d', c', round);
      MatchTransfers(d', c', round);
      var rest := Match(d', c', round);
      DebtorsAfterRound(d, c, amount, rest);
      CreditorsAfterRound(d, c, amount, rest);
    }
  }

  /** Sum of the amounts of a list of records. */
  function Sum(s: seq<Entry>): real
  {
    if s == [] then 0.0 else Sum(s[..|s| - 1]) + s[|s| - 1].amount
  }

  lemma {:induction false} SumUpdate(s: seq<Entry>, k: nat, e: Entry)
    requires k < |s|
    ensures Sum(s[k := e]) == Sum(s) - s[k].amount + e.amount
  {
    if k < |s| - 1 {
      SumUpdate(s[..|s| - 1], k, e);
      assert s[k := e][..|s| - 1] == s[..|s| - 1][k := e];
    } else {
      assert s[k := e][..|s| - 1] == s[..|s| - 1];
    }
  }

  /** One pass of the loop body on the records as sequences: the round pays
      `amount` from record `i` of `ds` to record `j` of `cs`, reduces both,
      and moves to `i2` and `j2`. The state it leaves is the next round of
      `Match`, and the lists of records still to match get shorter. */
  lemma LoopRound(ds: seq<Entry>, cs: seq<Entry>, i: nat, j: nat, amount: real, i2: nat, j2: nat, round: real -> real)
    requires CentRounding(round) && i < |ds| && j < |cs| && Owing(ds[i..]) && Owed(cs[j..])
    requires amount == RoundAmount(ds[i], cs[j], round)
    requires i2 == if Abs(ds[i].amount + amount) < Tolerance then i + 1 else i
    requires j2 == if cs[j].amount - amount < Tolerance then j + 1 else j
    ensures var ds2 := ds[i := ds[i].(amount := ds[i].amount + amount)];
      var cs2 := cs[j := cs[j].(amount := cs[j].amount - amount)];
      && amount > 0.0
      && Owing(ds2[i2..]) && Owed(cs2[j2..])
      && Match(ds[i..], cs[j..], round) == [Transfer(ds[i].userId, cs[j].userId, amount)] + Match(ds2[i2..], cs2[j2..], round)
      && |ds2[i2..]| + |cs2[j2..]| < |ds[i..]| + |cs[j..]|
  {
    var d, c := ds[i..], cs[j..];
    assert d[0] == ds[i] && c[0] == cs[j];
    MatchRound(d, c, round);
    RoundPositive(d[0], c[0], round);
    NextKeepsSides(d, c, round);
    DebtorInPlace(ds, i, amount, i2);
    CreditorInPlace(cs, j, amount, j2);
  }

  /** Writing the reduced debtor into its slot and moving past it once it
      is settled leaves the next round's debtors as the suffix. */
  lemma DebtorInPlace(ds: seq<Entry>, i: nat, amount: real, i2: nat)
    requires i < |ds|
    requires i2 == if Abs(ds[i].amount + amount) < Tolerance then i + 1 else i
    ensures ds[i := ds[i].(amount := ds[i].amount + amount)][i2..] == NextDebtors(ds[i..], amount)
  {
    assert ds[i..][0] == ds[i] && ds[i..][1..] == ds[i + 1..];
  }

  /** Writing the reduced creditor into its slot, likewise. */
  lemma CreditorInPlace(cs: seq<Entry>, j: nat, amount: real, j2: nat)
    requires j < |cs|
    requires j2 == if cs[j].amount - amount < Tolerance then j + 1 else j
    ensures cs[j := cs[j].(amount := cs[j].amount - amount)][j2..] == NextCreditors(cs[j..], amount)
  {
    assert cs[j..][0] == cs[j] && cs[j..][1..] == cs[j + 1..];
  }

  /** The same pass keeps the total of all amounts. */
  lemma LoopRoundSum(ds: seq<Entry>, cs: seq<Entry>, i: nat, j: nat, amount: real)
    requires i < |ds| && j < |cs|
    ensures Sum(ds[i := ds[i].(amount := ds[i].amount + amount)])
          + Sum(cs[j := cs[j].(amount := cs[j].amount - amount)])
         == Sum(ds) + Sum(cs)
  {
    SumUpdate(ds, i, ds[i].(amount := ds[i].amount + amount));
    SumUpdate(cs, j, cs[j].(amount := cs[j].amount - amount));
  }

  /** The records the loop has moved past stay settled. */
  lemma LoopRoundPrefix(ds: seq<Entry>, cs: seq<Entry>, i: nat, j: nat, amount: real, i2: nat, j2: nat)
    requires i < |ds| && j < |cs|
    requires i2 == if Abs(ds[i].amount + amount) < Tolerance then i + 1 else i
    requires j2 == if cs[j].amount - amount < Tolerance then j + 1 else j
    requires forall k :: 0 <= k < i ==> Abs(ds[k].amount) < Tolerance
    requires forall k :: 0 <= k < j ==> cs[k].amount < Tolerance
    ensures var ds2 := ds[i := ds[i].(amount := ds[i].amount + amount)];
      var cs2 := cs[j := cs[j].(amount := cs[j].amount - amount)];
      && (forall k :: 0 <= k < i2 ==> Abs(ds2[k].amount) < Tolerance)
      && (forall k :: 0 <= k < j2 ==> cs2[k].amount < Tolerance)
  {
  }

  /** The state of the matching loop after some rounds on records that
      started as `d0` and `c0`: records before `i` and `j` are settled, the
      rest still owe or are owed, the transfers so far followed by the
      matching of the rest are the matching of the start, ids never change
      and the total of all amounts is kept. */
  ghost predicate MatchLoopInv(d0: seq<Entry>, c0: seq<Entry>, ds: seq<Entry>, cs: seq<Entry>, i: int, j: int,
                               settlements: seq<Transfer>, round: real -> real)
  {
    && CentRounding(round) && Owing(d0) && Owed(c0)
    && |ds| == |d0| && |cs| == |c0| && 0 <= i <= |ds| && 0 <= j <= |cs|
    && Owing(ds[i..]) && Owed(cs[j..])
    && settlements + Match(ds[i..], cs[j..], round) == Match(d0, c0, round)
    && (forall k :: 0 <= k < |ds| ==> ds[k].userId == d0[k].userId)
    && (forall k :: 0 <= k < |cs| ==> cs[k].userId == c0[k].userId)
    && Sum(ds) + Sum(cs) == Sum(d0) + Sum(c0)
    && (forall k :: 0 <= k < i ==> Abs(ds[k].amount) < Tolerance)
    && (forall k :: 0 <= k < j ==> cs[k].amount < Tolerance)
  }

  /** The loop state holds before the first round. */
  lemma LoopStart(d0: seq<Entry>, c0: seq<Entry>, round: real -> real)
    requires CentRounding(round) && Owing(d0) && Owed(c0)
    ensures MatchLoopInv(d0, c0, d0, c0, 0, 0, [], round)
  {
    assert d0[0..] == d0 && c0[0..] == c0;
  }

  /** One pass of the loop body keeps the loop state and moves at least one
      index forward: `ds2`, `cs2`, `i2`, `j2` and `s2` are the records, the
      indices and the transfers after the pass. */
  lemma LoopStep(d0: seq<Entry>, c0: seq<Entry>, ds: seq<Entry>, cs: seq<Entry>, i: nat, j: nat,
                 settlements: seq<Transfer>, round: real -> real, amount: real,
                 ds2: seq<Entry>, cs2: seq<Entry>, i2: nat, j2: nat, s2: seq<Transfer>)
    requires i < |ds| && j < |cs|
    requires amount == RoundAmount(ds[i], cs[j], round)
    requires ds2 == ds[i := ds[i].(amount := ds[i].amount + amount)]
    requires cs2 == cs[j := cs[j].(amount := cs[j].amount - amount)]
    requires i2 == if Abs(ds2[i].amount) < Tolerance then i + 1 else i
    requires j2 == if cs2[j].amount < Tolerance then j + 1 else j
    requires s2 == if amount > 0.0 then settlements + [Transfer(ds[i].userId, cs[j].userId, amount)] else settlements
    ensures MatchLoopInv(d0, c0, ds, cs, i, j, settlements, round) ==>
      i + j < i2 + j2 && i2 <= |ds2| && j2 <= |cs2| && MatchLoopInv(d0, c0, ds2, cs2, i2, j2, s2, round)
  {
    if MatchLoopInv(d0, c0, ds, cs, i, j, settlements, round) {
      LoopMatch(d0, c0, ds, cs, i, j, settlements, round, amount, i2, j2);
      LoopRoundSum(ds, cs, i, j, amount);
      LoopRoundPrefix(ds, cs, i, j, amount, i2, j2);
      LoopRoundIds(d0, c0, ds, cs, i, j, amount);
    }
  }

  /** The transfers so far followed by the matching of what is left stay
      the matching of the start. */
  lemma LoopMatch(d0: seq<Entry>, c0: seq<Entry>, ds: seq<Entry>, cs: seq<Entry>, i: nat, j: nat,
                  settlements: seq<Transfer>, round: real -> real, amount: real, i2: nat, j2: nat)
    requires CentRounding(round) && Owing(d0) && Owed(c0)
    requires i < |ds| && j < |cs| && Owing(ds[i..]) && Owed(cs[j..])
    requires settlements + Match(ds[i..], cs[j..], round) == Match(d0, c0, round)
    requires amount == RoundAmount(ds[i], cs[j], round)
    requires i2 == if Abs(ds[i].amount + amount) < Tolerance then i + 1 else i
    requires j2 == if cs[j].amount - amount < Tolerance then j + 1 else j
    ensures var ds2 := ds[i := ds[i].(amount := ds[i].amount + amount)];
      var cs2 := cs[j := cs[j].(amount := cs[j].amount - amount)];
      && amount > 0.0 && i + j < i2 + j2
      && Owing(ds2[i2..]) && Owed(cs2[j2..])
      && (settlements + [Transfer(ds[i].userId, cs[j].userId, amount)]) + Match(ds2[i2..], cs2[j2..], round)
         == Match(d0, c0, round)
  {
    LoopRound(ds, cs, i, j, amount, i2, j2, round);
    var ds2 := ds[i := ds[i].(amount := ds[i].amount + amount)];
    var cs2 := cs[j := cs[j].(amount := cs[j].amount - amount)];
    var t := Transfer(ds[i].userId, cs[j].userId, amount);
    var rest := Match(ds2[i2..], cs2[j2..], round);
    assert Match(ds[i..], cs[j..], round) == [t] + rest;
    assert (settlements + [t]) + rest == settlements + ([t] + rest);
  }

  /** The pass changes amounts only, never ids. */
  lemma LoopRoundIds(d0: seq<Entry>, c0: seq<Entry>, ds: seq<Entry>, cs: seq<Entry>, i: nat, j: nat, amount: real)
    requires i < |ds| && j < |cs| && |ds| == |d0| && |cs| == |c0|
    requires forall k :: 0 <= k < |ds| ==> ds[k].userId == d0[k].userId
    requires forall k :: 0 <= k < |cs| ==> cs[k].userId == c0[k].userId
    ensures var ds2 := ds[i := ds[i].(amount := ds[i].amount + amount)];
      forall k :: 0 <= k < |ds2| ==> ds2[k].userId == d0[k].userId
    ensures var cs2 := cs[j := cs[j].(amount := cs[j].amount - amount)];
      forall k :: 0 <= k < |cs2| ==> cs2[k].userId == c0[k].userId
  {
  }

  /** When one side runs out the loop has emitted the whole matching, the
      records keep their ids and their total, and every record on that side
      is settled. */
  lemma LoopDone(d0: seq<Entry>, c0: seq<Entry>, ds: seq<Entry>, cs: seq<Entry>, i: nat, j: nat,
                 settlements: seq<Transfer>, round: real -> real)
    ensures MatchLoopInv(d0, c0, ds, cs, i, j, settlements, round) && (i == |ds| || j == |cs|) ==>
      && settlements == Match(d0, c0, round)
      && Ids(ds) == Ids(d0) && Ids(cs) == Ids(c0)
      && Sum(ds) + Sum(cs) == Sum(d0) + Sum(c0)
      && ((forall e :: e in ds ==> Abs(e.amount) < Tolerance) || (forall e :: e in cs ==> e.amount < Tolerance))
  {
    if MatchLoopInv(d0, c0, ds, cs, i, j, settlements, round) && (i == |ds| || j == |cs|) {
      assert ds[i..] == [] || cs[j..] == [];
    }
  }

  /** One pass of the loop body: pay the current debtor's smaller magnitude,
      rounded, to the current creditor if it is positive, reduce both
      records by it, and move past each record that is now settled. */
  method PayRound(debtors: array<Entry>, creditors: array<Entry>, i: nat, j: nat, round: real -> real, settlements: seq<Transfer>)
    returns (settlements': seq<Transfer>, amount: real, i': nat, j': nat)
    requires debtors != creditors && i < debtors.Length && j < creditors.Length
    modifies debtors, creditors
    ensures amount == RoundAmount(old(debtors[..])[i], old(creditors[..])[j], round)
    ensures debtors[..] == old(debtors[..])[i := old(debtors[..])[i].(amount := old(debtors[..])[i].amount + amount)]
    ensures creditors[..] == old(creditors[..])[j := old(creditors[..])[j].(amount := old(creditors[..])[j].amount - amount)]
    ensures i' == if Abs(debtors[..][i].amount) < Tolerance then i + 1 else i
    ensures j' == if creditors[..][j].amount < Tolerance then j + 1 else j
    ensures settlements' == if amount > 0.0 then settlements + [Transfer(old(debtors[..])[i].userId, old(creditors[..])[j].userId, amount)] else settlements
  {
    settlements', i', j' := settlements, i, j;
    var debtor, creditor := debtors[i], creditors[j];
    amount := Min(Abs(debtor.amount), creditor.amount);
    amount := round(amount);
    if amount > 0.0 {
      settlements' := settlements' + [Transfer(debtor.userId, creditor.userId, amount)];
    }
    debtors[i] := debtor.(amount := debtor.amount + amount);
    creditors[j] := creditor.(amount := creditor.amount - amount);
    if Abs(debtors[i].amount) < Tolerance {
      i' := i' + 1;
    }
    if creditors[j].amount < Tolerance {
      j' := j' + 1;
    }
  }

  /** The loop body as the loop sees it: from a state that satisfies the
      loop invariant, one pass (`PayRound`) leads to a state that satisfies
      it again, with `i + j` larger and both indices in range. */
  method StepInPlace(debtors: array<Entry>, creditors: array<Entry>, i: nat, j: nat, round: real -> real,
                     settlements: seq<Transfer>, ghost d0: seq<Entry>, ghost c0: seq<Entry>)
    returns (settlements': seq<Transfer>, i': nat, j': nat)
    requires debtors != creditors && i < debtors.Length && j < creditors.Length
    modifies debtors, creditors
    ensures MatchLoopInv(d0, c0, old(debtors[..]), old(creditors[..]), i, j, settlements, round) ==>
      && i + j < i' + j' && i' <= debtors.Length && j' <= creditors.Length
      && MatchLoopInv(d0, c0, debtors[..], creditors[..], i', j', settlements', round)
  {
    ghost var ds, cs := debtors[..], creditors[..];
    var amount;
    settlements', amount, i', j' := PayRound(debtors, creditors, i, j, round, settlements);
    LoopStep(d0, c0, ds, cs, i, j, settlements, round, amount, debtors[..], creditors[..], i', j', settlements');
  }

  /** The matching loop. Each round pays the rounded smaller magnitude from
      the current debtor to the current creditor, reduces both records by
      it, and advances past every record that is now within the tolerance
      of zero. The engine rounds with `Round2`. */
  method MatchInPlace(debtors: array<Entry>, creditors: array<Entry>, round: real -> real) returns (settlements: seq<Transfer>)
    requires CentRounding(round) && debtors != creditors
    requires Owing(debtors[..]) && Owed(creditors[..])
    modifies debtors, creditors
    ensures settlements == Match(old(debtors[..]), old(creditors[..]), round)
    ensures Ids(debtors[..]) == Ids(old(debtors[..])) && Ids(creditors[..]) == Ids(old(creditors[..]))
    ensures Sum(debtors[..]) + Sum(creditors[..]) == Sum(old(debtors[..])) + Sum(old(creditors[..]))
    ensures (forall e :: e in debtors[..] ==> Abs(e.amount) < Tolerance)
         || (forall e :: e in creditors[..] ==> e.amount < Tolerance)
  {
    ghost var d0, c0 := debtors[..], creditors[..];
    settlements := [];
    var i, j := 0, 0;
    LoopStart(d0, c0, round);
    while i < debtors.Length && j < creditors.Length
      invariant i <= debtors.Length && j <= creditors.Length
      invariant MatchLoopInv(d0, c0, debtors[..], creditors[..], i, j, settlements, round)
      decreases debtors.Length - i + creditors.Length - j
    {
      settlements, i, j := StepInPlace(debtors, creditors, i, j, round, settlements, d0, c0);
    }
    LoopDone(d0, c0, debtors[..], creditors[..], i, j, settlements, round);
  }
}
