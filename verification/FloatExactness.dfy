/**
 Exactly which safe amounts the two rounded conversions keep, at any number of decimals `e`: the reader
 that goes through binary floating point, and the draft editor's printer.

 Both form `fl(m / 10^e) * 10^e`. Rounding commutes with powers of two, so only the division by 5^e
 matters, and the product is the amount plus a residue modulo 5^e over a power of two.
 */
module FloatExactness {
  import opened Text
  import opened Binary64
  import opened MoneyText
  import opened MoneyPrinting

  function Pow2(k: nat): (p: int)
    ensures p >= 1
  {
    if k == 0 then 1 else 2 * Pow2(k - 1)
  }

  /** 5^e */
  function Fives(e: nat): (q: int)
    ensures q >= 1 && q % 2 == 1
  {
    if e == 0 then 1 else FiveTimesOdd(Fives(e - 1)); 5 * Fives(e - 1)
  }

  lemma FiveTimesOdd(q: int)
    requires q % 2 == 1
    ensures 5 * q % 2 == 1
  {
    IsOdd(5 * q, 5 * (q / 2) + 2);
  }

  lemma IsOdd(n: int, h: int)
    requires n == 2 * h + 1
    ensures n % 2 == 1
  {
  }

  lemma {:induction false} PowerOfTen(e: nat)
    ensures Pow10(e) == Pow2(e) * Fives(e)
  {
    if e > 0 {
      PowerOfTen(e - 1);
      assert 2 * Pow2(e - 1) * (5 * Fives(e - 1)) == 10 * (Pow2(e - 1) * Fives(e - 1));
    }
  }

  const P51: int := 2251799813685248
  const P52: int := 4503599627370496
  const P53: int := 9007199254740992

  // ---------------------------------------------------------------------------------------
  // The grain of a quotient and the drift of the product

  /** How often `m / q` must be doubled to reach 2^52, from where rounding gives a whole number. */
  function Doublings(m: int, q: int): (j: nat)
    decreases q * P52 - m
  {
    if m <= 0 || m >= q * P52 then 0 else 1 + Doublings(2 * m, q)
  }

  /** What must be added to `n` to reach the nearest multiple of the odd number `q`. */
  function Miss(n: int, q: int): int
    requires q >= 1
  {
    if 2 * (n % q) < q then -(n % q) else q - n % q
  }

  /** `2^j` for the quotient of `m` by 5^e. */
  function Grain(m: nat, e: nat): (g: int)
    ensures g >= 1
  {
    Pow2(Doublings(m, Fives(e)))
  }

  /** The product is the amount plus `Drift / Grain`. */
  function Drift(m: nat, e: nat): int { Miss(m * Grain(m, e), Fives(e)) }

  /** The amounts the draft editor prints faithfully: those off by less than a half, or by minus a half. */
  predicate Survives(m: nat, e: nat) { -Grain(m, e) <= 2 * Drift(m, e) < Grain(m, e) }

  /** The amounts the reader through floating point gets right: its product is rounded once more. */
  predicate ReadsExactly(m: nat, e: nat) { Reads(m, Drift(m, e), Grain(m, e)) }

  predicate Reads(m: nat, r: int, g: int) {
    if m < P51 then true
    else if m < P52 then 4 * r <= g
    else -g < 2 * r < g || ((2 * r == g || 2 * r == -g) && m % 2 == 0)
  }

  lemma {:induction false} DoublingsReach(m: int, q: int)
    requires 0 < m < q * P53
    ensures q * P52 <= m * Pow2(Doublings(m, q)) < q * P53
    decreases q * P52 - m
  {
    if m < q * P52 {
      DoublingsReach(2 * m, q);
      var p := Pow2(Doublings(2 * m, q));
      assert m * (2 * p) == 2 * m * p;
    }
  }

  lemma MissIsSmall(n: int, q: int)
    requires q >= 1 && q % 2 == 1
    ensures -q < 2 * Miss(n, q) < q
  {
  }

  // ---------------------------------------------------------------------------------------
  // The product

  lemma {:induction false} RoundingScales(x: real, k: nat, y: real)
    requires x >= 0.0 && y == Pow2(k) as real * x
    ensures y >= 0.0 && Fl(y) == Pow2(k) as real * Fl(x)
    decreases k
  {
    hide Fl;
    if k > 0 {
      var h := Pow2(k - 1) as real;
      Twice(h, Pow2(k) as real, x);
      RoundingScales(x, k - 1, y / 2.0);
      Doubling(y / 2.0);
      Twice(h, Pow2(k) as real, Fl(x));
    }
  }

  lemma Twice(h: real, p: real, x: real)
    requires p == 2.0 * h
    ensures p * x == 2.0 * (h * x)
  {
  }

  lemma Smaller(a: real, b: real, q: real)
    requires q >= 1.0 && a * q < b * q
    ensures a < b
  {
    assert a >= b ==> a * q >= b * q;
  }

  /** A ratio with an odd divisor has one nearest whole number. */
  lemma NearestMultiple(n: int, q: int, t: real) returns (k: int)
    requires n >= 0 && q >= 1 && q % 2 == 1 && t * q as real == n as real
    ensures q * k == n + Miss(n, q) && HalfEven(t) == k
  {
    hide HalfEven;
    k := if 2 * (n % q) < q then n / q else n / q + 1;
    DivMod(n, q);
    assert q * k == n + Miss(n, q) by { Multiples(n / q, q); }
    MissIsSmall(n, q);
    NearestReal(n as real, q as real, t, k, Miss(n, q));
  }

  lemma Multiples(a: int, q: int)
    ensures q * (a + 1) == q * a + q && q * a == a * q
  {
  }

  lemma NearestReal(n: real, q: real, t: real, k: int, r: int)
    requires q >= 1.0 && t * q == n && q * k as real == n + r as real
    requires -q < 2.0 * r as real < q
    ensures HalfEven(t) == k
  {
    hide HalfEven;
    var d := k as real - t;
    assert d * q == r as real;
    Smaller(d, 0.5, q);
    Smaller(-0.5, d, q);
    WholeBetween(HalfEven(t), k);
  }

  lemma WholeBetween(n: int, m: int)
    requires m as real - 1.0 < n as real < m as real + 1.0
    ensures n == m
  {
  }

  lemma InTopBinade(t: real)
    requires TWO52 <= t < TWO53
    ensures Fl(t) == HalfEven(t) as real
  {
  }

  /** The rounded quotient by 5^e, in units of the grain, is the nearest whole number. */
  lemma RoundedQuotient(m: int, q: int, j: nat, w: real) returns (k: int)
    requires m >= 0 && q >= 1 && q % 2 == 1 && q * P52 <= m * Pow2(j) < q * P53
    requires w >= 0.0 && w * q as real == m as real
    ensures Pow2(j) as real * Fl(w) == k as real
    ensures q * k == m * Pow2(j) + Miss(m * Pow2(j), q)
  {
    hide Fl, Miss, HalfEven, Pow2;
    var t := Pow2(j) as real * w;
    RoundingScales(w, j, t);
    k := RoundedRatio(m * Pow2(j), q, t) by {
      Reorder(Pow2(j) as real, w, q as real, m as real);
      AsReal(m, Pow2(j));
    }
  }

  lemma RoundedRatio(n: int, q: int, t: real) returns (k: int)
    requires n >= 0 && q >= 1 && q % 2 == 1 && q * P52 <= n < q * P53 && t * q as real == n as real
    ensures t >= 0.0 && Fl(t) == k as real && q * k == n + Miss(n, q)
  {
    hide Fl, Miss, HalfEven;
    BetweenPowers(t, q, n);
    k := NearestMultiple(n, q, t);
    InTopBinade(t);
  }

  lemma AsReal(a: int, b: int)
    ensures a as real * b as real == (a * b) as real
  {
  }

  lemma Reorder(g: real, w: real, q: real, m: real)
    requires w * q == m
    ensures g * w * q == m * g
  {
    assert g * w * q == g * (w * q);
  }

  lemma BetweenPowers(t: real, q: int, n: int)
    requires q >= 1 && t * q as real == n as real && q * P52 <= n < q * P53
    ensures TWO52 <= t < TWO53
  {
    AsReal(q, P52);
    AsReal(q, P53);
    Smaller(t, TWO53, q as real);
    assert (t - TWO52) * q as real == t * q as real - TWO52 * q as real;
    SignOfFactor(t - TWO52, q as real);
  }

  /** The product of the rounded quotient by 10^e with 10^e. */
  function Product(m: nat, e: nat): (z: real)
    ensures z >= 0.0
  {
    Quotient(m, Pow10(e));
    ProductSign(Fl(m as real / Pow10(e) as real), Pow10(e) as real);
    Fl(m as real / Pow10(e) as real) * Pow10(e) as real
  }

  lemma ProductDrifts(m: nat, e: nat)
    requires m <= MAX_SAFE
    ensures Grain(m, e) as real * Product(m, e) == (m * Grain(m, e) + Drift(m, e)) as real
  {
    hide Fl, Miss, Pow10, Pow2, Doublings, Fives;
    if m == 0 {
      ZeroProduct(e);
    } else {
      var q, j, w := Fives(e), Doublings(m, Fives(e)), FifthPart(m, e);
      DoublingsReach(m, q);
      ProductByFives(m, e);
      var k := RoundedQuotient(m, q, j, w);
      Gather(Grain(m, e) as real, q as real, Fl(w), k as real);
      AsReal(q, k);
    }
  }

  /** `m / 5^e`, as the quotient by 10^e scaled up. */
  function FifthPart(m: nat, e: nat): (w: real)
    ensures w >= 0.0
  {
    Quotient(m, Pow10(e));
    ProductSign(Pow2(e) as real, m as real / Pow10(e) as real);
    Pow2(e) as real * (m as real / Pow10(e) as real)
  }

  /** Only the division by 5^e matters. */
  lemma ProductByFives(m: nat, e: nat)
    ensures FifthPart(m, e) * Fives(e) as real == m as real
    ensures Product(m, e) == Fl(FifthPart(m, e)) * Fives(e) as real
  {
    hide Fl, Pow10, Pow2, Fives;
    Quotient(m, Pow10(e));
    PowerOfTen(e);
    AsReal(Pow2(e), Fives(e));
    var p, x := Pow10(e) as real, m as real / Pow10(e) as real;
    ByFives(m as real, x, p, e, Fives(e) as real, FifthPart(m, e), Product(m, e));
  }

  lemma ByFives(m: real, x: real, p: real, e: nat, q: real, w: real, z: real)
    requires x >= 0.0 && x * p == m && p == Pow2(e) as real * q && w == Pow2(e) as real * x && z == Fl(x) * p
    ensures w >= 0.0 && w * q == m && z == Fl(w) * q
  {
    hide Fl, Pow2;
    RoundingScales(x, e, w);
    TenParts(Pow2(e) as real, q, x, m);
    Regroup(Fl(x), Pow2(e) as real, q, p);
  }

  lemma Regroup(f: real, h: real, q: real, p: real)
    requires p == h * q
    ensures f * p == h * f * q
  {
    assert f * (h * q) == h * f * q;
  }

  lemma TenParts(h: real, q: real, x: real, m: real)
    requires x * (h * q) == m
    ensures h * x * q == m
  {
    assert h * x * q == x * (h * q);
  }

  lemma Gather(g: real, q: real, f: real, k: real)
    requires g * f == k
    ensures g * (f * q) == q * k
  {
    assert g * (f * q) == g * f * q;
  }

  lemma ZeroProduct(e: nat)
    ensures Product(0, e) == 0.0 && Drift(0, e) == 0 && Grain(0, e) == 1
  {
    Quotient(0, Pow10(e));
    assert 0.0 / Pow10(e) as real == 0.0;
  }

  /** How far the product can be off, which shrinks with the amount. */
  lemma DriftIsBounded(m: nat, e: nat)
    requires m <= MAX_SAFE
    ensures SmallDrift(m, Grain(m, e), Drift(m, e))
  {
    hide Miss, Pow2, Doublings, Fives;
    if m == 0 {
      ZeroProduct(e);
    } else {
      DoublingsReach(m, Fives(e));
      MissIsSmall(m * Grain(m, e), Fives(e));
      SizeOfDrift(m, Fives(e), Grain(m, e), Drift(m, e));
    }
  }

  predicate SmallDrift(m: nat, g: int, r: int) {
    && -g < r < g
    && (m <= P52 ==> -g < 2 * r < g)
    && (m <= P51 ==> -g < 4 * r < g)
  }

  lemma SizeOfDrift(m: nat, q: int, g: int, r: int)
    requires m <= MAX_SAFE && g >= 1 && q * P52 <= m * g && -q < 2 * r < q
    ensures SmallDrift(m, g, r)
  {
    Scaled(m, MAX_SAFE, g);
    Scaled(m, P52, g);
    Scaled(m, P51, g);
    DriftFromSize(m, q, g, r, m * g);
  }

  lemma Scaled(m: int, c: int, g: int)
    requires g >= 1
    ensures m <= c ==> m * g <= c * g
  {
  }

  lemma DriftFromSize(m: nat, q: int, g: int, r: int, n: int)
    requires g >= 1 && q * P52 <= n && -q < 2 * r < q
    requires n <= MAX_SAFE * g && (m <= P52 ==> n <= P52 * g) && (m <= P51 ==> n <= P51 * g)
    ensures SmallDrift(m, g, r)
  {
    assert q < 2 * g;
    assert m <= P52 ==> q <= g;
    assert m <= P51 ==> 2 * q <= g;
  }

  // ---------------------------------------------------------------------------------------
  // Rounding an amount that is off by less than one

  lemma HalfEvenNear(m: int, d: real)
    requires -1.0 < d < 1.0
    ensures HalfEven(m as real + d) == m <==> -0.5 < d < 0.5 || ((d == 0.5 || d == -0.5) && m % 2 == 0)
    ensures d > 0.5 ==> HalfEven(m as real + d) == m + 1
    ensures d < -0.5 ==> HalfEven(m as real + d) == m - 1
  {
    assert (m as real + d).Floor == if d >= 0.0 then m else m - 1;
  }

  lemma JsRoundNear(m: int, d: real)
    requires -1.0 < d < 1.0
    ensures JsRound(m as real + d) == m <==> -0.5 <= d < 0.5
  {
    var n := JsRound(m as real + d);
    if -0.5 <= d < 0.5 { WholeBetween(n, m); }
  }

  /** From 2^52 on the product is rounded to a whole number. */
  lemma ReadAbove(m: nat, d: real)
    requires P52 <= m <= MAX_SAFE && -1.0 < d < 1.0 && (m == P52 ==> d > -0.5)
    ensures m as real + d >= 0.0
    ensures JsRound(Fl(m as real + d)) == m <==> -0.5 < d < 0.5 || ((d == 0.5 || d == -0.5) && m % 2 == 0)
  {
    hide Fl, HalfEven, JsRound;
    var z := m as real + d;
    HalfEvenNear(m, d);
    if z >= TWO52 {
      InTopBinade(z);
      NearestIs(Fl(z), HalfEven(z));
    } else {
      HalvesBelow(z);
      HalfEvenNear(2 * m, 2.0 * d);
      HalfOf(m, HalfEven(2.0 * z), Fl(z));
    }
  }

  lemma HalvesBelow(z: real)
    requires TWO52 <= 2.0 * z < TWO53
    ensures 2.0 * Fl(z) == HalfEven(2.0 * z) as real
  {
    Doubling(z);
  }

  lemma HalfOf(m: int, n: int, y: real)
    requires 2 * m - 1 <= n <= 2 * m + 1 && 2.0 * y == n as real
    ensures JsRound(y) == if n <= 2 * m then m else m + 1
  {
  }

  /** From 2^51 to 2^52 the product is rounded to a multiple of a half, and halves are read upwards. */
  lemma ReadBetween(m: nat, d: real)
    requires P51 <= m < P52 && -0.5 < d < 0.5 && (m == P51 ==> d > -0.25)
    ensures m as real + d >= 0.0
    ensures JsRound(Fl(m as real + d)) == if d <= 0.25 then m else m + 1
  {
    hide Fl, HalfEven, JsRound;
    var z := m as real + d;
    if z >= TWO51 {
      HalvesBelow(z);
      assert 2.0 * z == (2 * m) as real + 2.0 * d;
      HalfEvenNear(2 * m, 2.0 * d);
      HalfOf(m, HalfEven(2.0 * z), Fl(z));
    } else {
      RelativeError(z);
      NearestIs(Fl(z), m);
    }
  }

  // ---------------------------------------------------------------------------------------
  // The two conversions

  /** An offset `r / g`, and how it compares with the fractions that matter. */
  lemma Offset(m: nat, g: int, r: int, z: real) returns (d: real)
    requires g >= 1 && g as real * z == (m * g + r) as real && SmallDrift(m, g, r)
    ensures z == m as real + d && -1.0 < d < 1.0
    ensures (d < 0.5 <==> 2 * r < g) && (d == 0.5 <==> 2 * r == g)
    ensures (d < -0.5 <==> 2 * r < -g) && (d == -0.5 <==> 2 * r == -g)
    ensures (d <= 0.25 <==> 4 * r <= g) && (d <= -0.25 <==> 4 * r <= -g)
  {
    d := z - m as real;
    AsReal(m, g);
    assert g as real * d == g as real * z - g as real * m as real;
    OffsetCompares(g as real, d, r as real, 1.0);
    OffsetCompares(g as real, d, r as real, -1.0);
    OffsetCompares(g as real, d, r as real, 0.5);
    OffsetCompares(g as real, d, r as real, -0.5);
    OffsetCompares(g as real, d, r as real, 0.25);
    OffsetCompares(g as real, d, r as real, -0.25);
  }

  lemma OffsetCompares(g: real, d: real, r: real, c: real)
    requires g >= 1.0 && g * d == r
    ensures (d < c <==> r < c * g) && (d == c <==> r == c * g)
  {
    assert d < c ==> g * d < g * c;
    assert d > c ==> g * d > g * c;
  }

  lemma PrintedIsProduct(m: nat, e: nat)
    ensures PrintedMinor(m, e) == JsRound(Product(m, e))
  {
    hide Fl, JsRound;
  }

  lemma PrintedExactlyWhen(m: nat, e: nat)
    requires m <= MAX_SAFE
    ensures PrintedMinor(m, e) == m <==> Survives(m, e)
  {
    hide Product, Drift, Grain, PrintedMinor, JsRound, SmallDrift;
    ProductDrifts(m, e);
    DriftIsBounded(m, e);
    var d := Offset(m, Grain(m, e), Drift(m, e), Product(m, e));
    JsRoundNear(m, d);
    PrintedIsProduct(m, e);
  }

  /** What the reader makes of an accepted text worth `m` minor units. */
  function FloatMinor(m: nat, e: nat): int { JsRound(RoundedProduct(Ratio(m, Pow10(e)), Pow10(e) as real)) }

  lemma ReadIsProduct(m: nat, e: nat)
    ensures FloatMinor(m, e) == JsRound(Fl(Product(m, e)))
  {
    hide Fl, JsRound, Pow10, RoundedProduct;
    ProductIs(Ratio(m, Pow10(e)), Pow10(e) as real, Product(m, e));
  }

  lemma ReadExactlyWhen(m: nat, e: nat)
    requires m <= MAX_SAFE
    ensures FloatMinor(m, e) == m <==> ReadsExactly(m, e)
  {
    hide Product, Drift, Grain, FloatMinor, Fl, JsRound, SmallDrift;
    if m < P51 {
      BelowBound(m, e);
    } else {
      ProductDrifts(m, e);
      DriftIsBounded(m, e);
      ReadIsProduct(m, e);
      var d := Offset(m, Grain(m, e), Drift(m, e), Product(m, e));
      assert SmallDrift(m, Grain(m, e), Drift(m, e));
      ReadOffset(m, Grain(m, e), Drift(m, e), d);
    }
  }

  lemma ReadOffset(m: nat, g: int, r: int, d: real)
    requires P51 <= m <= MAX_SAFE && SmallDrift(m, g, r) && -1.0 < d < 1.0
    requires (d < 0.5 <==> 2 * r < g) && (d == 0.5 <==> 2 * r == g)
    requires (d < -0.5 <==> 2 * r < -g) && (d == -0.5 <==> 2 * r == -g)
    requires (d <= 0.25 <==> 4 * r <= g) && (d <= -0.25 <==> 4 * r <= -g)
    ensures m as real + d >= 0.0
    ensures JsRound(Fl(m as real + d)) == m <==> Reads(m, r, g)
  {
    hide Fl, JsRound;
    if m < P52 {
      ReadBetween(m, d);
    } else {
      ReadAbove(m, d);
    }
  }

  lemma BelowBound(m: nat, e: nat)
    requires m < P51
    ensures FloatMinor(m, e) == m
  {
    hide Fl;
    RatioIsExact(m, Pow10(e));
  }

  /** A safe amount survives the draft editor's print and read exactly when `Survives` says so. */
  lemma DraftRoundTripExactly(m: nat, e: nat)
    requires m <= MAX_SAFE
    ensures ParseMajor(FormatMajor(Some(m), e), e) == Some(m) <==> Survives(m, e)
  {
    hide Survives, PrintedMinor, ParseMajor, FormatMajor;
    PrintedExactlyWhen(m, e);
    FormattedReadsBack(m, e);
  }

  /**
   Every accepted text of a safe worth, whatever its zeros, is read through floating point as that worth
   exactly when `ReadsExactly` says so; the two text readers always read it as that worth.
   */
  lemma FloatReaderExactly(value: string, e: nat, d: Decimal)
    requires Match(Trim(value), e) == Some(d) && Worth(d, e) <= MAX_SAFE
    ensures ToMinorUnits(value, e) == Some(Worth(d, e)) <==> ReadsExactly(Worth(d, e), e)
    ensures ParseMajor(value, e) == MajorToMinor(value, e) == Some(Worth(d, e))
  {
    hide Match, ReadsExactly, Worth, Ratio, RoundedProduct, JsRound, Pow10;
    ReadExactlyWhen(Worth(d, e), e);
    TextReadersOfMatched(value, e, d);
  }

  lemma TextReadersOfMatched(value: string, e: nat, d: Decimal)
    requires Match(Trim(value), e) == Some(d) && Worth(d, e) <= MAX_SAFE
    ensures ParseMajor(value, e) == MajorToMinor(value, e) == Some(Worth(d, e))
  {
    hide Worth;
    MatchIsTheLanguage(Trim(value), e, d);
    NoCommasToRemove(Trim(value));
    TextReadersAreExact(value, e);
  }

  /** In particular every safe amount, as the billing printer shows it. */
  lemma PrintedReadsExactly(m: nat, e: nat)
    requires m <= MAX_SAFE
    ensures ToMinorUnits(MinorToMajorInput(m, e), e) == Some(m) <==> ReadsExactly(m, e)
  {
    hide ReadsExactly, ToMinorUnits, ParseMajor, MajorToMinor, Worth, InputDecimal, MinorToMajorInput;
    DivMod(m, Pow10(e));
    var d := InputDecimal(m / Pow10(e), m % Pow10(e), e);
    PrintedAsDecimal(m, e, m / Pow10(e), m % Pow10(e));
    FloatReaderExactly(MinorToMajorInput(m, e), e, d);
  }

  lemma PrintedAsDecimal(m: nat, e: nat, whole: nat, rest: nat)
    requires m <= MAX_SAFE && rest < Pow10(e) && m == whole * Pow10(e) + rest
    ensures var d := InputDecimal(whole, rest, e);
            WellFormed(d, e) && Worth(d, e) == m && Match(Trim(MinorToMajorInput(m, e)), e) == Some(d)
  {
    hide Worth, InputDecimal, MinorToMajorInput, Match, Pow10;
    InputShowsDecimal(m, e, whole, rest);
    InputDecimalIsWorth(whole, rest, e);
    MatchOfShown(InputDecimal(whole, rest, e), e);
  }

  // ---------------------------------------------------------------------------------------
  // The usual currencies, by remainders

  lemma {:induction false} DoublingsIs(m: int, q: int, j: nat)
    requires m > 0 && q * P52 <= m * Pow2(j) < q * P53
    ensures Doublings(m, q) == j
    decreases j
  {
    if j > 0 {
      var p := Pow2(j - 1);
      assert m * (2 * p) == 2 * m * p;
      DoublingsIs(2 * m, q, j - 1);
    }
  }

  lemma SmallPowers()
    ensures Pow2(4) == 16 && Pow2(5) == 32 && Pow2(6) == 64 && Pow2(7) == 128 && Pow2(8) == 256
    ensures Fives(0) == 1 && Fives(2) == 25 && Fives(3) == 125
  {
    assert Pow2(2) == 4 && Fives(1) == 5;
  }

  lemma DriftAt(m: nat, e: nat, j: nat)
    requires 0 < m && Fives(e) * P52 <= m * Pow2(j) < Fives(e) * P53
    ensures Grain(m, e) == Pow2(j) && Drift(m, e) == Miss(m * Pow2(j), Fives(e))
  {
    hide Miss, Pow2, Fives;
    DoublingsIs(m, Fives(e), j);
  }

  lemma SurvivesBelow(m: nat, e: nat)
    requires m <= P52
    ensures Survives(m, e)
  {
    hide Drift, Grain;
    DriftIsBounded(m, e);
  }

  /** 100 * 2^45 and 100 * 2^46, where the grain of a quotient by 25 changes. */
  const LOW2: nat := 3518437208883200
  const TOP2: nat := 7036874417766400

  /** Two decimals: from some size on, what is lost are ranges of a remainder modulo 25. */
  lemma TwoDecimals(m: nat)
    requires m <= MAX_SAFE
    ensures Survives(m, 2) <==> m < TOP2 || !(9 <= 16 * m % 25 <= 17)
    ensures ReadsExactly(m, 2) <==>
              if m < LOW2 then true
              else if m < P52 then !(13 <= 32 * m % 25 <= 16)
              else if m < TOP2 then true
              else !(9 <= 16 * m % 25 <= 16) && (m % 2 == 1 ==> 16 * m % 25 != 8 && 16 * m % 25 != 17)
  {
    hide Pow2, Fives, Drift, Grain;
    SmallPowers();
    if m <= P52 { SurvivesBelow(m, 2); }
    if m >= TOP2 {
      DriftAt(m, 2, 4);
    } else if m >= LOW2 {
      DriftAt(m, 2, 5);
      MissIsSmall(32 * m, 25);
    } else if m >= P51 {
      DriftAt(m, 2, 6);
      MissIsSmall(64 * m, 25);
    }
  }

  /** 1000 * 2^42 and 1000 * 2^43. */
  const LOW3: nat := 4398046511104000
  const TOP3: nat := 8796093022208000

  /** Three decimals, the same modulo 125. */
  lemma ThreeDecimals(m: nat)
    requires m <= MAX_SAFE
    ensures Survives(m, 3) <==> m < TOP3 || !(33 <= 64 * m % 125 <= 93)
    ensures ReadsExactly(m, 3) <==>
              if m < LOW3 then true
              else if m < P52 then !(63 <= 128 * m % 125 <= 92)
              else if m < TOP3 then true
              else !(33 <= 64 * m % 125 <= 92) && (m % 2 == 1 ==> 64 * m % 125 != 32 && 64 * m % 125 != 93)
  {
    hide Pow2, Fives, Drift, Grain;
    SmallPowers();
    if m <= P52 { SurvivesBelow(m, 3); }
    if m >= TOP3 {
      DriftAt(m, 3, 6);
    } else if m >= LOW3 {
      DriftAt(m, 3, 7);
      MissIsSmall(128 * m, 125);
    } else if m >= P51 {
      DriftAt(m, 3, 8);
      MissIsSmall(256 * m, 125);
    }
  }

  /** Without decimals there is nothing to lose: every safe amount is read, and printed, exactly. */
  lemma WholeUnitsAreExact(value: string, d: Decimal, m: nat)
    requires Match(Trim(value), 0) == Some(d) && Worth(d, 0) <= MAX_SAFE && m <= MAX_SAFE
    ensures ToMinorUnits(value, 0) == Some(Worth(d, 0))
    ensures ParseMajor(FormatMajor(Some(m), 0), 0) == Some(m)
  {
    hide Match, Worth, ToMinorUnits, ParseMajor, MajorToMinor, FormatMajor;
    NoDrift(Worth(d, 0));
    NoDrift(m);
    FloatReaderExactly(value, 0, d);
    DraftRoundTripExactly(m, 0);
  }

  lemma NoDrift(m: nat)
    ensures Drift(m, 0) == 0 && Survives(m, 0) && ReadsExactly(m, 0)
  {
    hide Grain;
    assert Fives(0) == 1;
  }

  // ---------------------------------------------------------------------------------------
  // A text that is misread

  lemma ReadHigh(m: nat, e: nat)
    requires P51 <= m < P52 && 4 * Drift(m, e) > Grain(m, e)
    ensures FloatMinor(m, e) == m + 1
  {
    hide Product, Drift, Grain, FloatMinor, Fl, JsRound;
    ProductDrifts(m, e);
    DriftIsBounded(m, e);
    ReadIsProduct(m, e);
    var d := Offset(m, Grain(m, e), Drift(m, e), Product(m, e));
    ReadBetween(m, d);
  }

  lemma FloatReaderRoundsUp(d: Decimal)
    requires WellFormed(d, 2) && Worth(d, 2) == 3518437208883202
    ensures ToMinorUnits(Show(d), 2) == Some(3518437208883203)
  {
    hide Match, Worth, Show, Ratio, RoundedProduct, JsRound, Pow10, Fives, Pow2, Grain, Drift;
    SmallPowers();
    DriftAt(Worth(d, 2), 2, 5);
    ReadHigh(Worth(d, 2), 2);
    MatchOfShown(d, 2);
  }

  /** "35184372088832.02" is read one minor unit too high through floating point, not by the others. */
  lemma FloatReaderFailsAbove()
    ensures var text := Show(Decimal(Digits(35184372088832), Fixed(2, 2)));
            && ToMinorUnits(text, 2) == Some(3518437208883203)
            && ParseMajor(text, 2) == Some(3518437208883202)
  {
    assert Pow10(2) == 100 by { assert Pow10(1) == 10; }
    WorthOfFixed(35184372088832, 2, 2);
    var d := Decimal(Digits(35184372088832), Fixed(2, 2));
    FloatReaderRoundsUp(d);
    ReadersOfShown(d, 2, 3518437208883202);
  }
}
