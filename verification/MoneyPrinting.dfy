/**
 The two printers of amounts, and the round trips through the readers of `MoneyText`.
 */
module MoneyPrinting {
  import opened Text
  import opened Binary64
  import opened MoneyText

  // ---------------------------------------------------------------------------------------
  // billing.ts: whole and remainder

  /** `Math.floor(m / scale)` in floating point. */
  function FloorOfQuotient(m: nat, scale: nat): (q: int)
    requires scale >= 1
  {
    Quotient(m, scale);
    Fl(m as real / scale as real).Floor
  }

  /** Adding one over the scale to a quotient cannot pass the next whole number. */
  lemma QuotientGap(m: nat, scale: nat)
    requires scale >= 1 && m <= MAX_SAFE
    ensures (m / scale) as real <= m as real / scale as real
    ensures m as real / scale as real + 1.0 / scale as real <= (m / scale + 1) as real
    ensures (m as real / scale as real) / TWO53 < 1.0 / scale as real
  {
    DivMod(m, scale);
    var q, r := m / scale, m % scale;
    NaturalProduct(q, scale);
    Quotient(m, scale);
    GapOf(m as real / scale as real, q as real, r as real, scale as real);
    SmallShare(m as real, scale as real);
  }

  lemma GapOf(x: real, q: real, r: real, s: real)
    requires s >= 1.0 && 0.0 <= r <= s - 1.0 && x * s == q * s + r
    ensures q <= x && x + 1.0 / s <= q + 1.0
  {
    var u := 1.0 / s;
    assert u * s == 1.0;
    assert (x - q) * s == r;
    SignOfFactor(x - q, s);
    assert (q + 1.0 - x - u) * s == q * s + s - x * s - u * s;
    SignOfFactor(q + 1.0 - x - u, s);
  }

  lemma SignOfFactor(d: real, s: real)
    requires s >= 1.0 && d * s >= 0.0
    ensures d >= 0.0
  {
    assert d < 0.0 ==> d * s < 0.0;
  }

  lemma SmallShare(m: real, s: real)
    requires 0.0 <= m < TWO53 && s >= 1.0
    ensures (m / s) / TWO53 < 1.0 / s
  {
    assert (m / s) / TWO53 == (m / TWO53) / s;
    assert m / TWO53 < 1.0;
  }

  /** The floor of the rounded quotient of a safe amount is the exact integer quotient. */
  lemma FloorOfQuotientIsExact(m: nat, scale: nat)
    requires scale >= 1 && m <= MAX_SAFE
    ensures FloorOfQuotient(m, scale) == m / scale
  {
    Quotient(m, scale);
    QuotientGap(m, scale);
    var x := m as real / scale as real;
    RelativeError(x);
    WholeBelow(m / scale, x);
  }

  /** A value with a whole number below it still has that number below it once rounded. */
  lemma WholeBelow(n: nat, x: real)
    requires n <= MAX_SAFE && n as real <= x
    ensures n as real <= Fl(x)
  {
    IntegersAreExact(n);
    Monotone(n as real, x);
  }

  function MinorToMajorInput(m: nat, e: nat): string {
    if e == 0 then Digits(m)
    else
      var scale := Pow10(e);
      var whole := FloorOfQuotient(m, scale);
      var fraction := m % scale;
      var shown := if whole < 0 then "" else Digits(whole);
      if fraction == 0 then shown else shown + "." + PadStart(Digits(fraction), e)
  }

  lemma MatchOfShown(d: Decimal, e: nat)
    requires WellFormed(d, e)
    ensures Match(Trim(Show(d)), e) == Some(d)
  {
    TrimKeeps(Show(d));
    MatchIsTheLanguage(Show(d), e, d);
  }

  /** Printed text is read as its own decimal: it has no spaces and no commas to lose. */
  lemma ReadingOfShown(d: Decimal, e: nat)
    requires WellFormed(d, e)
    ensures Reading(Show(d), e) == if Worth(d, e) <= MAX_SAFE then Some(Worth(d, e)) else None
  {
    hide Worth, RemoveCommas;
    TrimKeeps(Show(d));
    NoCommasToRemove(Show(d));
    MatchIsTheLanguage(Show(d), e, d);
  }

  /** All the readers on a shown decimal of a safe worth. */
  lemma ReadersOfShown(d: Decimal, e: nat, m: nat)
    requires WellFormed(d, e) && Worth(d, e) == m <= MAX_SAFE
    ensures MajorToMinor(Show(d), e) == ParseMajor(Show(d), e) == Some(m)
  {
    ReadingOfShown(d, e);
    TextReadersAreExact(Show(d), e);
  }

  lemma FloatReaderOfShown(d: Decimal, e: nat)
    requires WellFormed(d, e) && Worth(d, e) < TWO51.Floor
    ensures ToMinorUnits(Show(d), e) == Some(Worth(d, e))
  {
    MatchOfShown(d, e);
    FloatReaderIsExact(Show(d), e, d);
  }

  lemma WorthOfWhole(n: nat, e: nat)
    ensures Worth(Decimal(Digits(n), ""), e) == n * Pow10(e)
  {
    ValueOfDigits(n);
    assert PadEnd("", e) == Zeros(e);
    ValueOfZeros(e);
  }

  lemma WorthOfFixed(n: nat, f: nat, e: nat)
    requires f < Pow10(e)
    ensures Worth(Decimal(Digits(n), Fixed(f, e)), e) == n * Pow10(e) + f
  {
    ValueOfDigits(n);
    ValueOfFixed(f, e);
  }

  /** The decimal the billing printer shows for a whole part and a remainder. */
  function InputDecimal(whole: nat, rest: nat, e: nat): Decimal {
    Decimal(Digits(whole), if rest == 0 then "" else Fixed(rest, e))
  }

  lemma InputDecimalIsWorth(whole: nat, rest: nat, e: nat)
    requires rest < Pow10(e)
    ensures WellFormed(InputDecimal(whole, rest, e), e)
    ensures Worth(InputDecimal(whole, rest, e), e) == whole * Pow10(e) + rest
  {
    WorthOfWhole(whole, e);
    WorthOfFixed(whole, rest, e);
  }

  lemma DivMod(m: nat, p: nat)
    requires p >= 1
    ensures m / p >= 0 && 0 <= m % p < p && m == (m / p) * p + m % p
  {
  }

  /** The billing printer shows the exact quotient and remainder of every safe amount. */
  lemma InputShowsDecimal(m: nat, e: nat, whole: nat, rest: nat)
    requires m <= MAX_SAFE && rest < Pow10(e) && m == whole * Pow10(e) + rest
    ensures MinorToMajorInput(m, e) == Show(InputDecimal(whole, rest, e))
  {
    var p := Pow10(e);
    DivMod(m, p);
    SameQuotient(p, whole, rest, m / p, m % p);
    if e > 0 {
      FloorOfQuotientIsExact(m, p);
      if rest > 0 { PaddedDigitsAreFixed(rest, e); }
    }
  }

  lemma SameQuotient(p: nat, q: nat, r: nat, q': nat, r': nat)
    requires q * p + r == q' * p + r' && r < p && r' < p
    ensures q == q' && r == r'
  {
    var d := q - q';
    assert d * p == r' - r;
    OnlyZeroMultiple(d, p);
  }

  lemma OnlyZeroMultiple(d: int, p: int)
    requires -p < d * p < p
    ensures d == 0
  {
    assert d >= 1 ==> d * p >= p;
    assert d <= -1 ==> d * p <= -p;
  }

  /** Every safe amount printed for an input field is read back as itself, by all three rules. */
  lemma BillingRoundTrip(m: nat, e: nat)
    requires m <= MAX_SAFE
    ensures MajorToMinor(MinorToMajorInput(m, e), e) == Some(m)
    ensures ParseMajor(MinorToMajorInput(m, e), e) == Some(m)
    ensures m < TWO51.Floor ==> ToMinorUnits(MinorToMajorInput(m, e), e) == Some(m)
  {
    var p := Pow10(e);
    DivMod(m, p);
    InputShowsDecimal(m, e, m / p, m % p);
    InputDecimalIsWorth(m / p, m % p, e);
    ReadersOfShown(InputDecimal(m / p, m % p, e), e, m);
    if m < TWO51.Floor { FloatReaderOfShown(InputDecimal(m / p, m % p, e), e); }
  }

  /** The printed form: the whole part, and `e` more digits, zeros included, unless they are all zero. */
  lemma BillingForm(m: nat, e: nat, whole: nat, rest: nat)
    requires m <= MAX_SAFE && m == whole * Pow10(e) + rest && rest < Pow10(e)
    ensures MinorToMajorInput(m, e) == Digits(whole) + if rest == 0 then "" else "." + Fixed(rest, e)
  {
    hide MinorToMajorInput, Digits, Fixed, Pow10;
    InputShowsDecimal(m, e, whole, rest);
    HasDigits(rest, e);
  }

  lemma HasDigits(n: nat, e: nat)
    requires n < Pow10(e)
    ensures n != 0 ==> Fixed(n, e) != ""
  {
  }

  /** The printed form is canonical: two readable texts print alike exactly when they are worth the same. */
  lemma CanonicalForm(s: string, t: string, e: nat)
    requires MajorToMinor(s, e).Some? && MajorToMinor(t, e).Some?
    ensures var m, n := MajorToMinor(s, e).value, MajorToMinor(t, e).value;
            var c := MinorToMajorInput(m, e);
            && (MinorToMajorInput(n, e) == c <==> m == n)
            && MajorToMinor(c, e) == Some(m)
  {
    TextReadersAreExact(s, e);
    TextReadersAreExact(t, e);
    BillingRoundTrip(MajorToMinor(s, e).value, e);
    BillingRoundTrip(MajorToMinor(t, e).value, e);
  }

  // ---------------------------------------------------------------------------------------
  // fee-schedule-draft.ts: toFixed

  /** The last `e` digits as the fraction. */
  function CutOf(s: string, e: nat): Decimal {
    if |s| < e then Decimal(s, "") else Decimal(s[..|s| - e], s[|s| - e..])
  }

  /** `x.toFixed(e)`: the integer nearest to `x * 10^e`, the larger of two, with the point put in. */
  function FixedDecimal(n: nat, e: nat): Decimal {
    if e == 0 then Decimal(Digits(n), "")
    else
      CutOf(PadStart(Digits(n), e + 1), e)
  }

  /** Cutting a digit string before its last `e` digits divides its value by 10^e. */
  lemma WorthOfCut(s: string, e: nat)
    requires AllDigits(s) && |s| > e
    ensures WellFormed(CutOf(s, e), e) && Worth(CutOf(s, e), e) == Value(s)
  {
    hide Value, Pow10;
    var a, b := s[..|s| - e], s[|s| - e..];
    assert s == a + b;
    ValueOfConcat(a, b);
    assert |b| == e && PadEnd(b, e) == b;
    assert CutOf(s, e) == Decimal(a, b);
  }

  lemma FixedDecimalIsWorth(n: nat, e: nat)
    ensures WellFormed(FixedDecimal(n, e), e) && Worth(FixedDecimal(n, e), e) == n
  {
    ValueOfDigits(n);
    if e == 0 {
      WorthOfWhole(n, 0);
    } else {
      ValueOfPadStart(Digits(n), e + 1);
      WorthOfCut(PadStart(Digits(n), e + 1), e);
    }
  }

  /** The integer `toFixed` prints for an amount: it works from the rounded quotient. */
  function PrintedMinor(m: nat, e: nat): nat {
    Quotient(m, Pow10(e));
    PrintedFrom(Fl(m as real / Pow10(e) as real), Pow10(e) as real)
  }

  function PrintedFrom(x: real, p: real): nat
    requires x >= 0.0 && p >= 0.0
  {
    ProductSign(x, p);
    JsRound(x * p)
  }

  /** Null prints as nothing; a negative amount prints with its sign. */
  function FormatMajor(minor: Option<int>, e: nat): string {
    match minor
    case None => ""
    case Some(m) =>
      if m >= 0 then Show(FixedDecimal(PrintedMinor(m, e), e))
      else "-" + Show(FixedDecimal(PrintedMinor(-m, e), e))
  }

  /** One relative error of 2^-53 stays under half a unit up to 2^52 units. */
  lemma PrintedExactly(m: nat, e: nat)
    requires m < TWO52.Floor
    ensures PrintedMinor(m, e) == m
  {
    Quotient(m, Pow10(e));
    var q := m as real / Pow10(e) as real;
    RelativeError(q);
    PrintedFromNear(m, Pow10(e) as real, q, Fl(q));
  }

  lemma PrintedFromNear(m: nat, p: real, q: real, x: real)
    requires m < TWO52.Floor && p >= 1.0 && q * p == m as real && x >= 0.0
    requires x - q <= q / TWO53 && q - x <= q / TWO53
    ensures PrintedFrom(x, p) == m
  {
    OneError(m as real, p, q, x);
    NearestIs(x * p, m);
  }

  lemma NearestIs(y: real, n: int)
    requires n as real - 0.5 <= y < n as real + 0.5
    ensures JsRound(y) == n
  {
  }

  lemma OneError(m: real, p: real, q: real, x: real)
    requires 0.0 <= m <= TWO52 - 1.0 && p >= 1.0 && q * p == m
    requires x - q <= q / TWO53 && q - x <= q / TWO53
    ensures m - 0.5 <= x * p < m + 0.5
  {
    assert (q / TWO53) * p == m / TWO53;
    assert x * p - m == (x - q) * p;
    assert (x - q) * p <= (q / TWO53) * p;
    assert (q - x) * p <= (q / TWO53) * p;
  }

  /** What the draft editor reads back is exactly the integer `toFixed` printed. */
  lemma FormattedReadsBack(m: nat, e: nat)
    ensures ParseMajor(FormatMajor(Some(m), e), e)
         == if PrintedMinor(m, e) <= MAX_SAFE then Some(PrintedMinor(m, e)) else None
  {
    var n := PrintedMinor(m, e);
    FixedDecimalIsWorth(n, e);
    ReadingOfShown(FixedDecimal(n, e), e);
    TextReadersAreExact(FormatMajor(Some(m), e), e);
  }

  /** Every amount below 2^52 minor units survives the draft editor's print and read. */
  lemma DraftRoundTrip(m: nat, e: nat)
    requires m < TWO52.Floor
    ensures ParseMajor(FormatMajor(Some(m), e), e) == Some(m)
  {
    PrintedExactly(m, e);
    FormattedReadsBack(m, e);
  }

  /** What `toFixed` shows always has exactly `e` decimals; nothing is shown as nothing, and a sign comes first. */
  lemma DraftForm(m: nat, e: nat)
    ensures FormatMajor(None, e) == ""
    ensures m > 0 ==> FormatMajor(Some(-(m as int)), e) == "-" + FormatMajor(Some(m), e)
    ensures exists d :: FormatMajor(Some(m), e) == Show(d) && WellFormed(d, e) && |d.fraction| == e
  {
    hide PrintedMinor, FixedDecimal;
    FixedDecimalIsWorth(PrintedMinor(m, e), e);
    HasDecimals(PrintedMinor(m, e), e);
    var d := FixedDecimal(PrintedMinor(m, e), e);
    assert FormatMajor(Some(m), e) == Show(d);
  }

  lemma HasDecimals(n: nat, e: nat)
    ensures |FixedDecimal(n, e).fraction| == e
  {
    hide Value, Digits;
    ValueOfPadStart(Digits(n), e + 1);
  }
}
