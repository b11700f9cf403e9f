/**
 The three readers of typed amounts in the admin console. Arithmetic is binary floating point, as the
 source's is; what is proved is when it is exact. `e` is the currency's number of decimal places.
 */
module MoneyText {
  import opened Text
  import opened Binary64

  /** The two groups of an amount: the digits before the point and the digits after it. */
  datatype Decimal = Decimal(whole: string, fraction: string)

  ghost predicate WellFormed(d: Decimal, e: nat) {
    AllDigits(d.whole) && |d.whole| >= 1 && AllDigits(d.fraction) && |d.fraction| <= e
  }

  function Show(d: Decimal): string {
    d.whole + if d.fraction == "" then "" else "." + d.fraction
  }

  /** Matching one of the patterns `^\d+$` (no decimals) or `^\d+(\.\d{1,e})?$`. */
  function Match(text: string, e: nat): (r: Option<Decimal>)
    ensures r.Some? ==> WellFormed(r.value, e)
  {
    var dot := IndexOf(text, '.', 0);
    if dot == 0 || !AllDigits(text[..dot]) then None
    else if dot == |text| then Some(Decimal(text, ""))
    else
      var fraction := text[dot + 1..];
      if 1 <= |fraction| <= e && AllDigits(fraction) then Some(Decimal(text[..dot], fraction)) else None
  }

  /** The pattern accepts exactly the shown forms of well-formed decimals, and recovers the groups. */
  lemma MatchIsTheLanguage(text: string, e: nat, d: Decimal)
    ensures Match(text, e) == Some(d) <==> WellFormed(d, e) && text == Show(d)
  {
    var dot := IndexOf(text, '.', 0);
    if WellFormed(d, e) && text == Show(d) {
      if d.fraction == "" {
        assert text == d.whole;
        assert dot == |text|;
        assert text[..dot] == text;
      } else {
        assert text[|d.whole|] == '.';
        assert forall j :: 0 <= j < |d.whole| ==> text[j] == d.whole[j];
        assert dot == |d.whole|;
        assert text[..dot] == d.whole && text[dot + 1..] == d.fraction;
      }
    }
    if Match(text, e) == Some(d) {
      if dot == |text| {
        assert text[..dot] == text;
      } else {
        assert text == text[..dot] + "." + text[dot + 1..];
      }
    }
  }

  /** The exact worth of a decimal in minor units. */
  function Worth(d: Decimal, e: nat): nat
    requires AllDigits(d.whole) && AllDigits(d.fraction)
  {
    Value(d.whole) * Pow10(e) + Value(PadEnd(d.fraction, e))
  }

  /** What an amount field means: its exact worth, when that is a safe integer. */
  ghost function Reading(raw: string, e: nat): Option<nat> {
    match Match(RemoveCommas(Trim(raw)), e)
    case None => None
    case Some(d) => if Worth(d, e) <= MAX_SAFE then Some(Worth(d, e)) else None
  }

  /** `Number(s)` of a string of digits. */
  function Number(s: string): (x: real)
    requires AllDigits(s)
    ensures x >= 0.0
  {
    Fl(Value(s) as real)
  }

  /** `Number(v)` of a decimal. */
  function NumberOfDecimal(d: Decimal, e: nat): (x: real)
    requires AllDigits(d.whole) && AllDigits(d.fraction)
    ensures x >= 0.0
  {
    Ratio(Worth(d, e), Pow10(e))
  }

  function Ratio(m: nat, p: nat): (x: real)
    requires p >= 1
    ensures x >= 0.0
  {
    Quotient(m, p);
    Fl(m as real / p as real)
  }

  /** `x * p`, and below `x + y`, in floating point. */
  function RoundedProduct(x: real, p: real): (r: real)
    requires x >= 0.0 && p >= 0.0
    ensures r >= 0.0
  {
    ProductSign(x, p);
    Fl(x * p)
  }

  lemma ProductSign(x: real, y: real)
    requires x >= 0.0 && y >= 0.0
    ensures x * y >= 0.0
  {
  }

  function RoundedSum(x: real, y: real): (r: real)
    requires x >= 0.0 && y >= 0.0
    ensures r >= 0.0
  {
    Fl(x + y)
  }

  function SafeOrNull(x: real): Option<nat>
    requires x >= 0.0
  {
    if IsSafeInteger(x) then Some(x.Floor) else None
  }

  // ---------------------------------------------------------------------------------------
  // Readers

  /** billing.ts: whole and padded fraction joined as text, then one conversion. */
  function MajorToMinor(input: string, e: nat): Option<nat> {
    match Match(RemoveCommas(Trim(input)), e)
    case None => None
    case Some(d) => SafeOrNull(Number(d.whole + PadEnd(d.fraction, e)))
  }

  /** fee-schedule-draft.ts: two conversions, one product and one sum. */
  function ParseMajor(raw: string, e: nat): Option<nat> {
    var text := RemoveCommas(Trim(raw));
    if text == "" then None else
    match Match(text, e)
    case None => None
    case Some(d) =>
      var padded := PadEnd(d.fraction, e);
      var cents := Number(if padded == "" then "0" else padded);
      SafeOrNull(RoundedSum(RoundedProduct(Number(d.whole), Pow10(e) as real), cents))
  }

  /** fee-policies.ts: through binary floating point; no commas are removed and no bound is checked. */
  function ToMinorUnits(value: string, e: nat): Option<int> {
    match Match(Trim(value), e)
    case None => None
    case Some(d) => Some(JsRound(RoundedProduct(NumberOfDecimal(d, e), Pow10(e) as real)))
  }

  /** A rounded natural number is a safe integer exactly when the number itself is one. */
  lemma SafeExactly(n: nat)
    ensures IsSafeInteger(Fl(n as real)) <==> n <= MAX_SAFE
    ensures n <= MAX_SAFE ==> Fl(n as real) == n as real
    ensures n > MAX_SAFE ==> Fl(n as real) >= TWO53
  {
    if n <= MAX_SAFE {
      IntegersAreExact(n);
    } else {
      IntegersAreExact(MAX_SAFE + 1);
      Monotone(TWO53, n as real);
    }
  }

  /** Rounding a value at or above 2^53 stays there. */
  lemma LargeStaysLarge(x: real)
    requires x >= TWO53
    ensures Fl(x) >= TWO53
  {
    AtLeastTwo52(x);
  }

  lemma NaturalProduct(w: nat, p: nat)
    requires p >= 1
    ensures w <= w * p
    ensures w as real * p as real == (w * p) as real
  {
  }

  lemma Enlarges(a: real, p: real)
    requires a >= 0.0 && p >= 1.0
    ensures a * p >= a
  {
    assert a * (p - 1.0) >= 0.0;
  }

  lemma ProductOfLarge(a: real, p: real)
    requires a >= TWO53 && p >= 1.0
    ensures RoundedProduct(a, p) >= TWO53
  {
    Enlarges(a, p);
    LargeStaysLarge(a * p);
  }

  /** A product of naturals, rounded at each step: exact when it is safe, else at least 2^53. */
  lemma ProductOfNaturals(w: nat, p: nat)
    requires p >= 1
    ensures var b := RoundedProduct(Fl(w as real), p as real);
            if w * p <= MAX_SAFE then b == (w * p) as real else b >= TWO53
  {
    hide Fl;
    NaturalProduct(w, p);
    SafeExactly(w);
    if w > MAX_SAFE {
      ProductOfLarge(Fl(w as real), p as real);
    } else {
      SafeExactly(w * p);
      ProductIs(Fl(w as real), p as real, (w * p) as real);
    }
  }

  lemma ProductIs(x: real, p: real, n: real)
    requires x >= 0.0 && p >= 0.0 && x * p == n
    ensures n >= 0.0 && RoundedProduct(x, p) == Fl(n)
  {
    ProductSign(x, p);
  }

  /** The same for a sum whose left part is exact or already too large. */
  lemma SumOfNaturals(b: real, n: nat, f: nat)
    requires b >= 0.0
    requires if n <= MAX_SAFE then b == n as real else b >= TWO53
    ensures var c := RoundedSum(b, Fl(f as real));
            if n + f <= MAX_SAFE then c == (n + f) as real else c >= TWO53
  {
    SafeExactly(f);
    if n > MAX_SAFE || f > MAX_SAFE {
      LargeStaysLarge(b + Fl(f as real));
    } else {
      assert b + Fl(f as real) == (n + f) as real;
      SafeExactly(n + f);
    }
  }

  lemma PaddedFractionLength(s: string, e: nat)
    requires AllDigits(s) && |s| <= e
    ensures |PadEnd(s, e)| == e
  {
  }

  lemma ZeroText()
    ensures Value("0") == Value("") == 0
  {
    assert "0"[..0] == "";
  }

  /** Joining the digits, or multiplying and adding, gives the same rounded number. */
  lemma JoinedOrSummed(whole: string, padded: string)
    requires AllDigits(whole) && AllDigits(padded)
    ensures var n := Value(whole) * Pow10(|padded|) + Value(padded);
            var exact := if n <= MAX_SAFE then Some(n) else None;
            && AllDigits(whole + padded) && SafeOrNull(Number(whole + padded)) == exact
            && SafeOrNull(RoundedSum(RoundedProduct(Number(whole), Pow10(|padded|) as real), Number(padded))) == exact
  {
    hide Fl, Value, RoundedProduct, RoundedSum, Pow10;
    var w, p, f := Value(whole), Pow10(|padded|), Value(padded);
    ValueOfConcat(whole, padded);
    SafeExactly(w * p + f);
    ProductOfNaturals(w, p);
    SumOfNaturals(RoundedProduct(Number(whole), p as real), w * p, f);
  }

  /** What the readers compute once the pattern has split the text. */
  lemma ReadersOfDecimal(d: Decimal, e: nat)
    requires WellFormed(d, e)
    ensures var padded := PadEnd(d.fraction, e);
            var exact := if Worth(d, e) <= MAX_SAFE then Some(Worth(d, e)) else None;
            && SafeOrNull(Number(d.whole + padded)) == exact
            && SafeOrNull(RoundedSum(RoundedProduct(Number(d.whole), Pow10(e) as real),
                                     Number(if padded == "" then "0" else padded))) == exact
  {
    PaddedFractionLength(d.fraction, e);
    ZeroText();
    JoinedOrSummed(d.whole, PadEnd(d.fraction, e));
  }

  /** The two text readers give the exact reading of every string there is, null included. */
  lemma TextReadersAreExact(raw: string, e: nat)
    ensures MajorToMinor(raw, e) == Reading(raw, e)
    ensures ParseMajor(raw, e) == Reading(raw, e)
  {
    var text := RemoveCommas(Trim(raw));
    var m := Match(text, e);
    if m.Some? {
      MatchIsTheLanguage(text, e, m.value);
      ReadersOfDecimal(m.value, e);
    }
  }

  /** Two relative errors of at most 2^-53 amount to less than half a unit below 2^51 units. */
  lemma ErrorChain(m: real, p: real, q: real, x: real, y: real)
    requires 0.0 <= m <= TWO51 - 1.0 && p >= 1.0 && q * p == m && x >= 0.0
    requires x - q <= q / TWO53 && q - x <= q / TWO53
    requires y - x * p <= (x * p) / TWO53 && x * p - y <= (x * p) / TWO53
    ensures m - 0.5 <= y < m + 0.5
  {
    var z := x * p;
    assert (q / TWO53) * p == m / TWO53;
    assert z - m == (x - q) * p;
    assert (x - q) * p <= (q / TWO53) * p;
    assert (q - x) * p <= (q / TWO53) * p;
  }

  lemma Quotient(m: nat, p: nat)
    requires p >= 1
    ensures m as real / p as real >= 0.0
    ensures (m as real / p as real) * p as real == m as real
  {
  }

  lemma RoundedProductError(x: real, p: real)
    requires x >= 0.0 && p >= 0.0
    ensures RoundedProduct(x, p) - x * p <= (x * p) / TWO53
    ensures x * p - RoundedProduct(x, p) <= (x * p) / TWO53
  {
    ProductSign(x, p);
    RelativeError(x * p);
  }

  lemma TwiceRounded(m: real, p: real, q: real)
    requires 0.0 <= m <= TWO51 - 1.0 && p >= 1.0 && q >= 0.0 && q * p == m
    ensures m - 0.5 <= RoundedProduct(Fl(q), p) < m + 0.5
  {
    var x := Fl(q);
    RelativeError(q);
    RoundedProductError(x, p);
    ErrorChain(m, p, q, x, RoundedProduct(x, p));
  }

  lemma RatioIsExact(m: nat, p: nat)
    requires p >= 1 && m < TWO51.Floor
    ensures JsRound(RoundedProduct(Ratio(m, p), p as real)) == m
  {
    Quotient(m, p);
    TwiceRounded(m as real, p as real, m as real / p as real);
  }

  /** The floating-point reader on a decimal worth less than 2^51 minor units. */
  lemma FloatReaderOfDecimal(d: Decimal, e: nat)
    requires AllDigits(d.whole) && AllDigits(d.fraction)
    requires Worth(d, e) < TWO51.Floor
    ensures JsRound(RoundedProduct(NumberOfDecimal(d, e), Pow10(e) as real)) == Worth(d, e)
  {
    RatioIsExact(Worth(d, e), Pow10(e));
  }

  /**
   The floating-point reader gives the exact worth of every accepted text worth less than 2^51
   minor units, and so the same answer as both text readers.
   */
  lemma FloatReaderIsExact(value: string, e: nat, d: Decimal)
    requires Match(Trim(value), e) == Some(d)
    requires Worth(d, e) < TWO51.Floor
    ensures ToMinorUnits(value, e) == Some(Worth(d, e))
    ensures ParseMajor(value, e) == MajorToMinor(value, e) == Some(Worth(d, e))
  {
    FloatReaderOfDecimal(d, e);
    MatchIsTheLanguage(Trim(value), e, d);
    NoCommasToRemove(Trim(value));
    TextReadersAreExact(value, e);
  }

  /** On text without commas the three readers accept and refuse alike, the safe bound apart. */
  lemma ReadersAcceptAlike(value: string, e: nat)
    requires ',' !in Trim(value)
    ensures ToMinorUnits(value, e).None? ==> ParseMajor(value, e).None? && MajorToMinor(value, e).None?
    ensures ToMinorUnits(value, e).Some? && ParseMajor(value, e).None? ==>
              Worth(Match(Trim(value), e).value, e) > MAX_SAFE
  {
    NoCommasToRemove(Trim(value));
    TextReadersAreExact(value, e);
  }

  // ---------------------------------------------------------------------------------------
  // What the readers overlook, and what they do not

  /** The text readers overlook commas wherever they stand. */
  lemma CommasAreIgnored(a: string, b: string, e: nat)
    requires IsTidy(a + b)
    ensures MajorToMinor(a + "," + b, e) == MajorToMinor(a + b, e)
    ensures ParseMajor(a + "," + b, e) == ParseMajor(a + b, e)
  {
    hide Match;
    var s, t := a + "," + b, a + b;
    assert IsTidy(s) by {
      if a != "" { assert s[0] == t[0]; }
      if b != "" { assert s[|s| - 1] == t[|t| - 1]; }
    }
    TrimKeeps(s);
    TrimKeeps(t);
    CommaVanishes(a, b);
  }

  /** All three overlook the spaces around the text. */
  lemma SpacesAreIgnored(u: string, t: string, v: string, e: nat)
    requires AllSpaces(u) && AllSpaces(v) && IsTidy(t)
    ensures MajorToMinor(u + t + v, e) == MajorToMinor(t, e)
    ensures ParseMajor(u + t + v, e) == ParseMajor(t, e)
    ensures ToMinorUnits(u + t + v, e) == ToMinorUnits(t, e)
  {
    hide Match, RemoveCommas;
    TrimStrips(u, t, v);
    TrimKeeps(t);
  }

  /** The reader through floating point takes exactly the shown decimals, and so no comma. */
  lemma FloatReaderAccepts(value: string, e: nat)
    ensures ToMinorUnits(value, e).Some? <==> exists d :: WellFormed(d, e) && Trim(value) == Show(d)
    ensures ',' in Trim(value) ==> ToMinorUnits(value, e).None?
  {
    hide Trim;
    var m := Match(Trim(value), e);
    if m.Some? { MatchIsTheLanguage(Trim(value), e, m.value); }
    if d :| WellFormed(d, e) && Trim(value) == Show(d) {
      MatchIsTheLanguage(Trim(value), e, d);
      NoCommaShown(d, e);
    }
  }

  lemma NoCommaShown(d: Decimal, e: nat)
    requires WellFormed(d, e)
    ensures ',' !in Show(d)
  {
    forall i | 0 <= i < |Show(d)| ensures Show(d)[i] != ',' {
      if i < |d.whole| { assert IsDigit(d.whole[i]); }
      if i > |d.whole| { assert IsDigit(d.fraction[i - |d.whole| - 1]); }
    }
  }
}
