/**
 Non-negative binary floating point with a 53-bit significand, rounded to nearest with ties to
 even (section 4.3.1 of IEEE 754-2019), which is what every JavaScript number operation does.

 The exponent range is unbounded here: results below 2^-1022 do not underflow and results at or
 above 2^1024 do not become Infinity. No amount this project handles is that small, and a value
 that large is refused as unsafe either way.
 */
module Binary64 {

  const TWO51: real := 2251799813685248.0
  const TWO52: real := 4503599627370496.0
  const TWO53: real := 9007199254740992.0

  /** Number.MAX_SAFE_INTEGER, 2^53 - 1. */
  const MAX_SAFE: int := 9007199254740991

  /** The integer nearest to `x`; of two equally near, the even one. */
  function HalfEven(x: real): (n: int)
    ensures n as real - x <= 0.5
    ensures x - n as real <= 0.5
  {
    var f := x.Floor;
    var r := x - f as real;
    if r < 0.5 || (r == 0.5 && f % 2 == 0) then f else f + 1
  }

  /** Math.round of a non-negative value: nearest integer, ties upwards. */
  function JsRound(x: real): (n: int)
    ensures n as real - 0.5 <= x < n as real + 0.5
  {
    (x + 0.5).Floor
  }

  /** How many doublings or halvings separate `x` from the interval [2^52, 2^53). */
  ghost function Rank(x: real): (n: nat)
    requires x >= 0.0
  {
    if x == 0.0 then 0
    else if x >= TWO53 then x.Floor
    else if x < TWO52 then PositiveQuotient(x); (TWO53 / x).Floor
    else 0
  }

  lemma PositiveQuotient(x: real)
    requires 0.0 < x
    ensures TWO53 / x > 0.0
  {
    assert (TWO53 / x) * x == TWO53;
  }

  lemma RankHalves(x: real)
    requires x >= TWO53
    ensures Rank(x / 2.0) < Rank(x)
  {
  }

  lemma RankDoubles(x: real)
    requires 0.0 < x < TWO52
    ensures Rank(2.0 * x) < Rank(x)
  {
    PositiveQuotient(x);
    var y := TWO53 / x;
    assert y * x == TWO53;
    assert y > 2.0;
    assert TWO53 / (2.0 * x) == y / 2.0 by {
      assert (y / 2.0) * (2.0 * x) == TWO53;
    }
  }

  /** The double nearest to `x`. */
  function Fl(x: real): (r: real)
    requires x >= 0.0
    ensures r >= 0.0
    decreases Rank(x)
  {
    if x == 0.0 then 0.0
    else if x >= TWO53 then RankHalves(x); 2.0 * Fl(x / 2.0)
    else if x < TWO52 then RankDoubles(x); Fl(2.0 * x) / 2.0
    else HalfEven(x) as real
  }

  /** The rounding unit: each result is within 2^-53 of the exact one, relatively. */
  lemma {:induction false} RelativeError(x: real)
    requires x >= 0.0
    ensures Fl(x) - x <= x / TWO53
    ensures x - Fl(x) <= x / TWO53
    decreases Rank(x)
  {
    if x == 0.0 {
    } else if x >= TWO53 {
      RankHalves(x);
      RelativeError(x / 2.0);
    } else if x < TWO52 {
      RankDoubles(x);
      RelativeError(2.0 * x);
    }
  }

  /** Every integer up to 2^53 is a double. */
  lemma {:induction false} IntegersAreExact(n: int)
    requires 0 <= n <= MAX_SAFE + 1
    ensures Fl(n as real) == n as real
    decreases Rank(n as real)
  {
    var x := n as real;
    if x >= TWO53 {
      assert x / 2.0 == TWO52;
    } else if 0.0 < x < TWO52 {
      RankDoubles(x);
      assert 2.0 * x == (2 * n) as real;
      IntegersAreExact(2 * n);
    }
  }

  lemma {:induction false} AtMostTwo53(x: real)
    requires 0.0 <= x <= TWO53
    ensures Fl(x) <= TWO53
    decreases Rank(x)
  {
    if x >= TWO53 {
      assert x / 2.0 == TWO52;
    } else if 0.0 < x < TWO52 {
      RankDoubles(x);
      AtMostTwo53(2.0 * x);
    }
  }

  lemma {:induction false} AtLeastTwo52(x: real)
    requires x >= TWO52
    ensures Fl(x) >= TWO52
    ensures x >= TWO53 ==> Fl(x) >= TWO53
    decreases Rank(x)
  {
    if x >= TWO53 {
      RankHalves(x);
      AtLeastTwo52(x / 2.0);
    }
  }

  lemma HalfEvenMonotone(x: real, y: real)
    requires x <= y
    ensures HalfEven(x) <= HalfEven(y)
  {
    assert x.Floor <= y.Floor;
  }

  /** Rounding keeps order when the two values straddle a power of two or lie above it. */
  lemma MonotoneAbove(x: real, y: real)
    requires 0.0 < x <= y && x < TWO53 && TWO52 <= y
    ensures Fl(x) <= Fl(y)
  {
    if x < TWO52 {
      AtMostTwo53(2.0 * x);
      AtLeastTwo52(y);
    } else if y >= TWO53 {
      AtMostTwo53(x);
      AtLeastTwo52(y);
    } else {
      HalfEvenMonotone(x, y);
    }
  }

  /** Rounding keeps order. */
  lemma {:induction false} Monotone(x: real, y: real)
    requires 0.0 <= x <= y
    ensures Fl(x) <= Fl(y)
    decreases Rank(x)
  {
    if x == 0.0 {
    } else if x >= TWO53 {
      RankHalves(x);
      Monotone(x / 2.0, y / 2.0);
    } else if y < TWO52 {
      RankDoubles(x);
      Monotone(2.0 * x, 2.0 * y);
    } else {
      MonotoneAbove(x, y);
    }
  }

  /** Rounding commutes with doubling, so it may be computed at any convenient scale. */
  lemma Doubling(x: real)
    requires x >= 0.0
    ensures Fl(2.0 * x) == 2.0 * Fl(x)
  {
    if x >= TWO52 {
      assert (2.0 * x) / 2.0 == x;
    }
  }

  /** Number.isSafeInteger of a non-negative value. */
  predicate IsSafeInteger(x: real) {
    x == x.Floor as real && x.Floor <= MAX_SAFE
  }
}
