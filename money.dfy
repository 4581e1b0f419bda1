/** Currency arithmetic of the settlement engine: the one tolerance it uses
    and the two-decimal rounding of each transfer. Amounts are exact reals;
    the engine itself computes with IEEE doubles. */
module Money {

  /** The single epsilon used for classifying balances and for deciding
      that a debtor or creditor is settled. */
  const Tolerance: real := 0.01

  /** Half a cent: the largest error that rounding to two decimals makes. */
  const HalfCent: real := 0.005

  function Abs(x: real): (r: real)
    ensures r >= 0.0 && (r == x || r == -x)
  {
    if x < 0.0 then -x else x
  }

  function Min(x: real, y: real): (r: real)
    ensures r <= x && r <= y && (r == x || r == y)
  {
    if x <= y then x else y
  }

  /** `Math.round(x * 100) / 100`: JavaScript's Math.round rounds halves up,
      that is, it is floor(v + 1/2). */
  function Round2(x: real): real
  {
    (x * 100.0 + 0.5).Floor as real / 100.0
  }

  /** A whole number of cents: a hundred times it is an integer. */
  predicate WholeCents(x: real)
  {
    (x * 100.0).Floor as real == x * 100.0
  }

  /** The whole numbers of cents are exactly the values Round2 leaves
      unchanged. */
  lemma WholeCentsExact(x: real)
    ensures WholeCents(x) <==> Round2(x) == x
  {
    var f := (x * 100.0 + 0.5).Floor;
    if WholeCents(x) {
      var n := (x * 100.0).Floor;
      assert n as real <= x * 100.0 + 0.5 < n as real + 1.0;
      assert f == n;
    }
    if Round2(x) == x {
      assert x * 100.0 == f as real;
    }
  }

  /** Rounding to two decimals moves a value by at most half a cent. */
  lemma Round2Error(x: real)
    ensures x - HalfCent < Round2(x) <= x + HalfCent
  {
    var f := (x * 100.0 + 0.5).Floor;
    assert f as real <= x * 100.0 + 0.5 < f as real + 1.0;
  }

  /** A value of at least one cent rounds to at least one cent, so the
      rounded transfer of two unsettled parties is positive. */
  lemma Round2AtLeastCent(x: real)
    requires x >= Tolerance
    ensures Round2(x) >= Tolerance
  {
    var f := (x * 100.0 + 0.5).Floor;
    assert x * 100.0 + 0.5 >= 1.5;
    assert f as real > x * 100.0 + 0.5 - 1.0;
    assert f >= 1;
  }

  /** Rounding produces whole cents. */
  lemma Round2WholeCents(x: real)
    ensures WholeCents(Round2(x)) && Round2(Round2(x)) == Round2(x)
  {
    var f := (x * 100.0 + 0.5).Floor;
    var y := f as real / 100.0;
    assert y * 100.0 == f as real;
    assert y * 100.0 + 0.5 == f as real + 0.5;
    assert (y * 100.0 + 0.5).Floor == f;
  }

  /** What the matching relies on of its rounding: it errs by at most half
      a cent, keeps an amount of a cent or more at a cent or more, and
      leaves a rounded amount as it is. */
  ghost predicate CentRounding(round: real -> real)
  {
    && (forall x :: x - HalfCent < round(x) <= x + HalfCent)
    && (forall x :: x >= Tolerance ==> round(x) >= Tolerance)
    && (forall x {:trigger round(round(x))} :: round(round(x)) == round(x))
  }

  /** Two-decimal rounding is such a rounding. */
  lemma Round2IsCentRounding()
    ensures CentRounding(Round2)
  {
    forall x
      ensures x - HalfCent < Round2(x) <= x + HalfCent
      ensures x >= Tolerance ==> Round2(x) >= Tolerance
      ensures Round2(Round2(x)) == Round2(x)
    {
      Round2Error(x);
      if x >= Tolerance {
        Round2AtLeastCent(x);
      }
      Round2WholeCents(x);
    }
  }
}
