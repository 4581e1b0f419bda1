/** The two in-place sorts of the engine: debtors by ascending balance (most
    negative first), creditors by descending balance (largest first).
    `Array.prototype.sort` is stable, so the reference definition is a
    stable insertion sort: an element goes after every element of equal
    rank. */
module Sorting {
  import opened Ledger

  /** The sort key: the amount for ascending order, its negation for
      descending order (`b.amount - a.amount`). */
  function Rank(e: Entry, descending: bool): real
  {
    if descending then -e.amount else e.amount
  }

  predicate SortedBy(s: seq<Entry>, descending: bool)
  {
    forall i, j :: 0 <= i < j < |s| ==> Rank(s[i], descending) <= Rank(s[j], descending)
  }

  /** Inserts `x` into `s` after the last element whose rank does not
      exceed that of `x`, scanning from the end. */
  function Insert(s: seq<Entry>, x: Entry, descending: bool): seq<Entry>
  {
    if s == [] || Rank(s[|s| - 1], descending) <= Rank(x, descending) then s + [x]
    else Insert(s[..|s| - 1], x, descending) + [s[|s| - 1]]
  }

  /** Stable insertion sort: the order `Array.prototype.sort` produces. */
  function SortSpec(s: seq<Entry>, descending: bool): seq<Entry>
  {
    if s == [] then [] else Insert(SortSpec(s[..|s| - 1], descending), s[|s| - 1], descending)
  }

  lemma {:induction false} InsertPermutes(s: seq<Entry>, x: Entry, descending: bool)
    ensures multiset(Insert(s, x, descending)) == multiset(s) + multiset{x}
  {
    if s != [] && Rank(s[|s| - 1], descending) > Rank(x, descending) {
      var init, last := s[..|s| - 1], s[|s| - 1];
      InsertPermutes(init, x, descending);
      assert s == init + [last];
    }
  }

  lemma {:induction false} InsertIds(s: seq<Entry>, x: Entry, descending: bool)
    ensures multiset(Ids(Insert(s, x, descending))) == multiset(Ids(s)) + multiset{x.userId}
  {
    if s == [] || Rank(s[|s| - 1], descending) <= Rank(x, descending) {
      IdsAppend(s, [x]);
    } else {
      var init, last := s[..|s| - 1], s[|s| - 1];
      InsertIds(init, x, descending);
      assert s == init + [last];
      IdsAppend(init, [last]);
      IdsAppend(Insert(init, x, descending), [last]);
    }
  }

  lemma {:induction false} InsertSorted(s: seq<Entry>, x: Entry, descending: bool)
    requires SortedBy(s, descending)
    ensures SortedBy(Insert(s, x, descending), descending)
  {
    if s == [] || Rank(s[|s| - 1], descending) <= Rank(x, descending) {
    } else {
      var init, last := s[..|s| - 1], s[|s| - 1];
      InsertSorted(init, x, descending);
      InsertPermutes(init, x, descending);
      var r := Insert(init, x, descending);
      forall i | 0 <= i < |r|
        ensures Rank(r[i], descending) <= Rank(last, descending)
      {
        assert r[i] in multiset(r);
        assert r[i] in multiset(init) || r[i] == x;
      }
    }
  }

  /** The reference sort yields a sorted permutation of its input. */
  lemma {:induction false} SortSpecCorrect(s: seq<Entry>, descending: bool)
    ensures SortedBy(SortSpec(s, descending), descending)
    ensures multiset(SortSpec(s, descending)) == multiset(s)
  {
    if s != [] {
      var init, last := s[..|s| - 1], s[|s| - 1];
      SortSpecCorrect(init, descending);
      InsertSorted(SortSpec(init, descending), last, descending);
      InsertPermutes(SortSpec(init, descending), last, descending);
      assert s == init + [last];
    }
  }

  /** Sorting keeps the multiset of user ids. */
  lemma {:induction false} SortSpecIds(s: seq<Entry>, descending: bool)
    ensures multiset(Ids(SortSpec(s, descending))) == multiset(Ids(s))
  {
    if s != [] {
      var init, last := s[..|s| - 1], s[|s| - 1];
      SortSpecIds(init, descending);
      InsertIds(SortSpec(init, descending), last, descending);
      assert s == init + [last];
      IdsAppend(init, [last]);
    }
  }

  /** Stability on sorted input: a list already in order is left as it is. */
  lemma {:induction false} SortSpecKeepsSorted(s: seq<Entry>, descending: bool)
    requires SortedBy(s, descending)
    ensures SortSpec(s, descending) == s
  {
    if s != [] {
      var init, last := s[..|s| - 1], s[|s| - 1];
      assert SortedBy(init, descending) by {
        forall i, j | 0 <= i < j < |init|
          ensures Rank(init[i], descending) <= Rank(init[j], descending)
        {
          assert init[i] == s[i] && init[j] == s[j];
        }
      }
      SortSpecKeepsSorted(init, descending);
      if init != [] {
        assert init[|init| - 1] == s[|s| - 2];
      }
      assert Insert(init, last, descending) == init + [last];
      assert s == init + [last];
    }
  }

  /** The entries of `s` whose rank is `r`, in their order in `s`. */
  function Tier(s: seq<Entry>, r: real, descending: bool): seq<Entry>
  {
    if s == [] then []
    else Tier(s[..|s| - 1], r, descending) + (if Rank(s[|s| - 1], descending) == r then [s[|s| - 1]] else [])
  }

  /** Appending one entry extends its own tier only. */
  lemma TierSnoc(s: seq<Entry>, e: Entry, r: real, descending: bool)
    ensures Tier(s + [e], r, descending) == Tier(s, r, descending) + (if Rank(e, descending) == r then [e] else [])
  {
    assert (s + [e])[..|s|] == s;
  }

  /** Inserting `x` never moves it past an entry of its own rank: every
      tier keeps its order, and `x` joins the end of its own. */
  lemma {:induction false} InsertTier(s: seq<Entry>, x: Entry, r: real, descending: bool)
    ensures Tier(Insert(s, x, descending), r, descending)
         == Tier(s, r, descending) + (if Rank(x, descending) == r then [x] else [])
  {
    if s == [] || Rank(s[|s| - 1], descending) <= Rank(x, descending) {
      TierSnoc(s, x, r, descending);
    } else {
      var init, last := s[..|s| - 1], s[|s| - 1];
      var t := Insert(init, x, descending);
      assert Insert(s, x, descending) == t + [last];
      InsertTier(init, x, r, descending);
      TierSnoc(t, last, r, descending);
      TierSnoc(init, last, r, descending);
      assert init + [last] == s;
      if Rank(x, descending) == r {
        assert Tier(t + [last], r, descending) == Tier(init, r, descending) + [x];
      } else {
        assert Tier(t + [last], r, descending) == Tier(init + [last], r, descending);
      }
    }
  }

  /** The reference sort is stable: for every rank, the entries of that
      rank come out in the order they went in. With `SortSpecCorrect`
      this fixes the output to the one stable order of the comparator,
      which is the order `Array.prototype.sort` produces. */
  lemma {:induction false} SortSpecStable(s: seq<Entry>, r: real, descending: bool)
    ensures Tier(SortSpec(s, descending), r, descending) == Tier(s, r, descending)
  {
    if s != [] {
      var init, last := s[..|s| - 1], s[|s| - 1];
      SortSpecStable(init, r, descending);
      InsertTier(SortSpec(init, descending), last, r, descending);
    }
  }

  /** Where the backwards scan stops, `x` goes: after `s[..j]`, in front
      of the elements that outrank it. */
  lemma {:induction false} InsertAt(s: seq<Entry>, j: nat, x: Entry, descending: bool)
    requires j <= |s| && (j == 0 || Rank(s[j - 1], descending) <= Rank(x, descending))
    requires forall i :: j <= i < |s| ==> Rank(s[i], descending) > Rank(x, descending)
    ensures Insert(s, x, descending) == s[..j] + [x] + s[j..]
  {
    if |s| > j {
      var init := s[..|s| - 1];
      InsertAt(init, j, x, descending);
      assert init[..j] == s[..j] && init[j..] + [s[|s| - 1]] == s[j..];
    } else {
      assert s[..j] == s;
    }
  }

  /** The array prefix the insertion pass leaves, read as a sequence: the
      sorted prefix with `x` placed where the backwards scan stopped. */
  lemma InsertedPrefix(s: seq<Entry>, x: Entry, j: nat, b: seq<Entry>, descending: bool)
    requires j <= |s| && |b| == |s| + 1 && b[j] == x
    requires j == 0 || Rank(s[j - 1], descending) <= Rank(x, descending)
    requires forall i :: j <= i < |s| ==> Rank(s[i], descending) > Rank(x, descending)
    requires forall i :: 0 <= i < j ==> b[i] == s[i]
    requires forall i :: j < i < |b| ==> b[i] == s[i - 1]
    ensures b == Insert(s, x, descending)
  {
    InsertAt(s, j, x, descending);
    var r := s[..j] + [x] + s[j..];
    assert forall i :: 0 <= i < |b| ==> b[i] == r[i];
  }

  /** One pass of the insertion sort: moves `a[k]` left past the elements
      of greater rank in the already sorted prefix `a[..k]`. */
  method InsertInPlace(a: array<Entry>, k: nat, descending: bool)
    requires k < a.Length
    modifies a
    ensures a[..k + 1] == Insert(old(a[..k]), old(a[k]), descending)
    ensures a[k + 1..] == old(a[k + 1..])
  {
    ghost var s := a[..k];
    var x := a[k];
    var j := k;
    while j > 0 && Rank(a[j - 1], descending) > Rank(x, descending)
      invariant 0 <= j <= k
      invariant forall i :: 0 <= i < j ==> a[i] == s[i]
      invariant forall i :: j < i <= k ==> a[i] == s[i - 1]
      invariant forall i :: j <= i < k ==> Rank(s[i], descending) > Rank(x, descending)
      invariant forall i :: k < i < a.Length ==> a[i] == old(a[i])
    {
      a[j] := a[j - 1];
      j := j - 1;
    }
    a[j] := x;
    InsertedPrefix(s, x, j, a[..k + 1], descending);
    assert a[k + 1..] == old(a[k + 1..]);
  }

  /** `debtors.sort(...)` / `creditors.sort(...)`: sorts the array in place
      by insertion. */
  method SortInPlace(a: array<Entry>, descending: bool)
    modifies a
    ensures a[..] == SortSpec(old(a[..]), descending)
  {
    ghost var orig := a[..];
    var k := 0;
    while k < a.Length
      invariant 0 <= k <= a.Length
      invariant a[..k] == SortSpec(orig[..k], descending)
      invariant a[k..] == orig[k..]
    {
      assert a[k] == orig[k];
      assert a[k + 1..] == orig[k + 1..] by {
        assert a[k + 1..] == a[k..][1..] && orig[k + 1..] == orig[k..][1..];
      }
      InsertInPlace(a, k, descending);
      assert orig[..k + 1][..k] == orig[..k];
      k := k + 1;
    }
    assert a[..] == a[..a.Length];
    assert orig == orig[..a.Length];
  }
}
