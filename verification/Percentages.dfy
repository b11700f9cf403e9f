/**
 Percentages typed by a person, as basis points. Three files read them, each with its own
 arithmetic; all three agree.
 */
module Percentages {
  import opened Text
  import opened Binary64
  import opened MoneyText
  import opened MoneyPrinting

  /** What a percentage field means: 0.01 to 100, as basis points. */
  ghost function PercentReading(raw: string): Option<nat> {
    match Match(Trim(raw), 2)
    case None => None
    case Some(d) => if 1 <= Worth(d, 2) <= 10_000 then Some(Worth(d, 2)) else None
  }

  /** fee-schedule-draft.ts */
  function DraftPercentToBps(raw: string): Option<nat> {
    match Match(Trim(raw), 2)
    case None => None
    case Some(d) =>
      var bps := JsRound(RoundedProduct(NumberOfDecimal(d, 2), 100.0));
      if 1 <= bps <= 10_000 then Some(bps) else None
  }

  /** billing.ts */
  function BillingPercentToBps(input: string): Option<nat> {
    match Match(Trim(input), 2)
    case None => None
    case Some(d) =>
      var bps := RoundedSum(RoundedProduct(Number(d.whole), 100.0), Number(PadEnd(d.fraction, 2)));
      if bps < 1.0 || bps > 10_000.0 then None else Some(bps.Floor)
  }

  /** fee-policies.ts, with the range `draftToTerms` then demands. */
  function PolicyPercentToBps(value: string): Option<nat> {
    match Match(Trim(value), 2)
    case None => None
    case Some(d) =>
      var bps := JsRound(RoundedProduct(NumberOfDecimal(d, 2), 100.0));
      if bps <= 0 || bps > 10_000 then None else Some(bps)
  }

  lemma HundredIsPow10()
    ensures Pow10(2) == 100
  {
    assert Pow10(1) == 10;
  }

  /** Rounding twice keeps order. */
  lemma TwiceRoundedMonotone(q: real, r: real)
    requires 0.0 <= q <= r
    ensures RoundedProduct(Fl(q), 100.0) <= RoundedProduct(Fl(r), 100.0)
  {
    Monotone(q, r);
    Monotone(Fl(q) * 100.0, Fl(r) * 100.0);
  }

  lemma PercentAboveHundred(q: real)
    requires q >= 100.01
    ensures RoundedProduct(Fl(q), 100.0) >= 10_000.5
  {
    TwiceRounded(10_001.0, 100.0, 100.01);
    TwiceRoundedMonotone(100.01, q);
  }

  /** In range the floating-point conversion is exact; out of range it stays out of range. */
  lemma PercentByRounding(d: Decimal)
    requires WellFormed(d, 2)
    ensures var bps := JsRound(RoundedProduct(NumberOfDecimal(d, 2), 100.0));
            if Worth(d, 2) <= 10_000 then bps == Worth(d, 2) else bps > 10_000
  {
    HundredIsPow10();
    if Worth(d, 2) <= 10_000 {
      FloatReaderOfDecimal(d, 2);
    } else {
      PercentAboveHundred(Worth(d, 2) as real / 100.0);
    }
  }

  /** The exact sum of whole and fraction, when it is in range. */
  lemma PercentBySum(d: Decimal)
    requires WellFormed(d, 2)
    ensures var bps := RoundedSum(RoundedProduct(Number(d.whole), 100.0), Number(PadEnd(d.fraction, 2)));
            if Worth(d, 2) <= MAX_SAFE then bps == Worth(d, 2) as real else bps >= TWO53
  {
    HundredIsPow10();
    ProductOfNaturals(Value(d.whole), 100);
    SumOfNaturals(RoundedProduct(Number(d.whole), 100.0), Value(d.whole) * 100, Value(PadEnd(d.fraction, 2)));
  }

  /** The three readers of percentages give the same answer on every string, and it is the exact one. */
  lemma PercentReadersAgree(raw: string)
    ensures DraftPercentToBps(raw) == PercentReading(raw)
    ensures BillingPercentToBps(raw) == PercentReading(raw)
    ensures PolicyPercentToBps(raw) == PercentReading(raw)
  {
    var m := Match(Trim(raw), 2);
    if m.Some? {
      PercentByRounding(m.value);
      PercentBySum(m.value);
    }
  }

  /**
   `String(bps / 100)`: the shortest decimal that denotes the quotient, which for a whole number of
   basis points is the quotient itself without trailing zeros.
   */
  function PercentText(bps: nat): string {
    PercentTextOf(bps / 100, bps % 100)
  }

  function PercentTextOf(whole: nat, rest: nat): string {
    Show(PercentDecimal(whole, rest))
  }

  function PercentDecimal(whole: nat, rest: nat): Decimal {
    Decimal(Digits(whole), if rest == 0 then "" else if rest % 10 == 0 then Fixed(rest / 10, 1) else Fixed(rest, 2))
  }

  lemma PercentDecimalIsWorth(whole: nat, rest: nat)
    requires rest < 100
    ensures WellFormed(PercentDecimal(whole, rest), 2)
    ensures Worth(PercentDecimal(whole, rest), 2) == whole * 100 + rest
  {
    HundredIsPow10();
    if rest == 0 {
      WorthOfWhole(whole, 2);
    } else if rest % 10 == 0 {
      var f := Fixed(rest / 10, 1);
      ValueOfDigits(whole);
      assert Pow10(1) == 10;
      ValueOfFixed(rest / 10, 1);
      assert PadEnd(f, 2) == f + Zeros(1);
      ValueOfConcat(f, Zeros(1));
      ValueOfZeros(1);
    } else {
      WorthOfFixed(whole, rest, 2);
    }
  }

  lemma PercentOfShown(d: Decimal)
    requires WellFormed(d, 2) && 1 <= Worth(d, 2) <= 10_000
    ensures DraftPercentToBps(Show(d)) == Some(Worth(d, 2))
  {
    MatchOfShown(d, 2);
    PercentReadersAgree(Show(d));
  }

  /** A percentage printed into the form is read back as the same number of basis points. */
  lemma PercentRoundTrip(bps: nat)
    requires 1 <= bps <= 10_000
    ensures DraftPercentToBps(PercentText(bps)) == Some(bps)
  {
    hide DraftPercentToBps, PercentTextOf;
    PercentPartsRoundTrip(bps / 100, bps % 100);
  }

  lemma PercentPartsRoundTrip(whole: nat, rest: nat)
    requires rest < 100 && 1 <= whole * 100 + rest <= 10_000
    ensures DraftPercentToBps(PercentTextOf(whole, rest)) == Some(whole * 100 + rest)
  {
    hide DraftPercentToBps;
    PercentDecimalIsWorth(whole, rest);
    PercentOfShown(PercentDecimal(whole, rest));
  }

  /** All three overlook the spaces around the text. */
  lemma PercentSpacesAreIgnored(u: string, t: string, v: string)
    requires AllSpaces(u) && AllSpaces(v) && IsTidy(t)
    ensures DraftPercentToBps(u + t + v) == DraftPercentToBps(t)
    ensures BillingPercentToBps(u + t + v) == BillingPercentToBps(t)
    ensures PolicyPercentToBps(u + t + v) == PolicyPercentToBps(t)
  {
    hide Match;
    TrimStrips(u, t, v);
    TrimKeeps(t);
  }

  /** The printed percentage is the shortest: no zero ends its decimals, and a whole number has none. */
  lemma PercentTextIsShortest(bps: nat)
    ensures var d := PercentDecimal(bps / 100, bps % 100);
            && PercentText(bps) == Show(d) && WellFormed(d, 2) && Worth(d, 2) == bps
            && (d.fraction != "" ==> d.fraction[|d.fraction| - 1] != '0')
  {
    hide Worth, Show;
    PercentDecimalIsWorth(bps / 100, bps % 100);
    var rest := bps % 100;
    if rest % 10 == 0 && rest != 0 {
      LastDigit(rest / 10, 1);
    } else if rest != 0 {
      LastDigit(rest, 2);
    }
  }

  lemma LastDigit(n: nat, k: nat)
    requires k >= 1
    ensures Fixed(n, k)[k - 1] == DigitChar(n % 10)
    ensures n % 10 != 0 ==> Fixed(n, k)[k - 1] != '0'
  {
  }
}
