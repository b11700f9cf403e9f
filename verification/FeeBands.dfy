/**
 The draft fee schedule editor: bands shown as rows of text, rows read back as bands, and the
 row the editor offers next. `e` is the currency's number of decimal places.
 */
module FeeBands {
  import opened Text
  import opened Binary64
  import opened MoneyText
  import opened MoneyPrinting
  import opened FloatExactness
  import opened Percentages

  datatype FeeType = FLAT | PERCENT | COMBINED | FIXED_PER_TICKET

  datatype Band = Band(
    key: string, sourceId: Option<string>, minMinor: int, maxMinor: Option<int>, feeType: FeeType, feeMinor: int,
    feePercentBps: Option<int>, minFeeMinor: Option<int>, maxFeeMinor: Option<int>,
    country: string, region: string, active: bool)

  datatype Row = Row(
    key: string, sourceId: Option<string>, from: string, to: string, feeType: FeeType, fee: string,
    percent: string, minFee: string, maxFee: string, country: string, region: string, active: bool)

  datatype Problem = Missing(what: string) | NotAnAmount(what: string) | NotAPercentage | EndNotAboveStart

  // ---------------------------------------------------------------------------------------
  // Band to row

  function BpsText(bps: Option<int>): string {
    match bps
    case None => ""
    case Some(n) => if n >= 0 then PercentText(n) else "-" + PercentText(-n)
  }

  function RowFromBand(b: Band, e: nat): Row {
    Row(b.key, b.sourceId, FormatMajor(Some(b.minMinor), e), FormatMajor(b.maxMinor, e), b.feeType,
        if b.feeType == PERCENT then "" else FormatMajor(Some(b.feeMinor), e),
        BpsText(b.feePercentBps), FormatMajor(b.minFeeMinor, e), FormatMajor(b.maxFeeMinor, e),
        b.country, b.region, b.active)
  }

  // ---------------------------------------------------------------------------------------
  // Row to band

  /** The value of an amount field; an empty field has none. */
  function Amount(raw: string, e: nat): Option<int> {
    if Trim(raw) == "" then None else ParseMajor(raw, e)
  }

  function AmountProblems(raw: string, what: string, optional: bool, e: nat): seq<Problem> {
    if Trim(raw) == "" then (if optional then [] else [Missing(what)])
    else if ParseMajor(raw, e).None? then [NotAnAmount(what)]
    else []
  }

  predicate NeedsFee(t: FeeType) { t != PERCENT }
  predicate NeedsPercent(t: FeeType) { t == PERCENT || t == COMBINED }
  predicate HasLimits(t: FeeType) { t != FLAT }

  predicate EndTooLow(row: Row, e: nat) {
    && Amount(row.from, e).Some? && Amount(row.to, e).Some?
    && Amount(row.to, e).value <= Amount(row.from, e).value
  }

  /** Everything wrong with a row, in the order the form says it. */
  function Problems(row: Row, e: nat): seq<Problem> {
    AmountProblems(row.from, "the starting amount", false, e)
    + AmountProblems(row.to, "the end amount", true, e)
    + (if NeedsFee(row.feeType) then AmountProblems(row.fee, "the fee", false, e) else [])
    + (if NeedsPercent(row.feeType) && DraftPercentToBps(row.percent).None? then [NotAPercentage] else [])
    + (if HasLimits(row.feeType) then AmountProblems(row.minFee, "the minimum fee", true, e) else [])
    + (if HasLimits(row.feeType) then AmountProblems(row.maxFee, "the maximum fee", true, e) else [])
    + (if EndTooLow(row, e) then [EndNotAboveStart] else [])
  }

  function OrAnywhere(place: string): string { if place == "" then "*" else place }

  /** The band a row stands for, once nothing is wrong with it. */
  function BandOf(row: Row, e: nat): Option<Band> {
    var fee := if NeedsFee(row.feeType) then Amount(row.fee, e) else Some(0);
    if Problems(row, e) != [] || Amount(row.from, e).None? || fee.None? then None
    else
      Some(Band(row.key, row.sourceId, Amount(row.from, e).value, Amount(row.to, e), row.feeType, fee.value,
                if NeedsPercent(row.feeType) then DraftPercentToBps(row.percent) else None,
                if HasLimits(row.feeType) then Amount(row.minFee, e) else None,
                if HasLimits(row.feeType) then Amount(row.maxFee, e) else None,
                OrAnywhere(row.country), OrAnywhere(row.region), row.active))
  }

  method ReadAmount(raw: string, what: string, optional: bool, e: nat, problems: seq<Problem>)
    returns (value: Option<int>, after: seq<Problem>)
    ensures value == Amount(raw, e)
    ensures after == problems + AmountProblems(raw, what, optional, e)
    ensures value.None? && !optional ==> after != []
  {
    after := problems;
    if Trim(raw) == "" {
      if !optional { after := after + [Missing(what)]; }
      return None, after;
    }
    var v := ParseMajor(raw, e);
    if v.None? {
      after := after + [NotAnAmount(what)];
      return None, after;
    }
    value := Some(v.value);
  }

  method BandFromRow(row: Row, e: nat) returns (band: Option<Band>, problems: seq<Problem>)
    ensures band == BandOf(row, e)
    ensures problems == if band.Some? then [] else Problems(row, e)
    ensures band.None? ==> problems != []
  {
    hide DraftPercentToBps, Amount, AmountProblems;
    problems := [];
    var minMinor, maxMinor, feeMinor, minFeeMinor, maxFeeMinor;
    minMinor, problems := ReadAmount(row.from, "the starting amount", false, e, problems);
    maxMinor, problems := ReadAmount(row.to, "the end amount", true, e, problems);
    assert problems == AmountProblems(row.from, "the starting amount", false, e)
                     + AmountProblems(row.to, "the end amount", true, e);
    feeMinor := Some(0);
    ghost var before := problems;
    if NeedsFee(row.feeType) {
      feeMinor, problems := ReadAmount(row.fee, "the fee", false, e, problems);
    }
    assert problems == before + if NeedsFee(row.feeType) then AmountProblems(row.fee, "the fee", false, e) else [];
    var bps := if NeedsPercent(row.feeType) then DraftPercentToBps(row.percent) else None;
    before := problems;
    if NeedsPercent(row.feeType) && bps.None? {
      problems := problems + [NotAPercentage];
    }
    assert problems == before + if NeedsPercent(row.feeType) && bps.None? then [NotAPercentage] else [];
    minFeeMinor, maxFeeMinor := None, None;
    before := problems;
    if HasLimits(row.feeType) {
      minFeeMinor, problems := ReadAmount(row.minFee, "the minimum fee", true, e, problems);
      maxFeeMinor, problems := ReadAmount(row.maxFee, "the maximum fee", true, e, problems);
    }
    assert problems == before
                     + (if HasLimits(row.feeType) then AmountProblems(row.minFee, "the minimum fee", true, e) else [])
                     + (if HasLimits(row.feeType) then AmountProblems(row.maxFee, "the maximum fee", true, e) else []);
    before := problems;
    if minMinor.Some? && maxMinor.Some? && maxMinor.value <= minMinor.value {
      problems := problems + [EndNotAboveStart];
    }
    assert problems == before + if EndTooLow(row, e) then [EndNotAboveStart] else [];
    if |problems| > 0 || minMinor.None? || feeMinor.None? {
      return None, problems;
    }
    band := Some(Band(row.key, row.sourceId, minMinor.value, maxMinor, row.feeType, feeMinor.value, bps,
                      minFeeMinor, maxFeeMinor, OrAnywhere(row.country), OrAnywhere(row.region), row.active));
    problems := [];
  }

  /** Every row as a band, or nothing while one cannot be read. */
  function AllBands(rows: seq<Row>, e: nat): Option<seq<Band>> {
    if rows == [] then Some([])
    else
      var n := |rows| - 1;
      var before, last := AllBands(rows[..n], e), BandOf(rows[n], e);
      if before.None? || last.None? then None else Some(before.value + [last.value])
  }

  lemma {:induction false} UnreadableRow(rows: seq<Row>, e: nat, i: nat)
    requires i < |rows| && BandOf(rows[i], e).None?
    ensures AllBands(rows, e).None?
  {
    hide BandOf;
    var n := |rows| - 1;
    if i < n { UnreadableRow(rows[..n], e, i); }
  }

  method BandsFromRows(rows: seq<Row>, e: nat) returns (out: Option<seq<Band>>)
    ensures out == AllBands(rows, e)
  {
    hide BandOf;
    var bands: seq<Band> := [];
    for i := 0 to |rows|
      invariant AllBands(rows[..i], e) == Some(bands)
    {
      var band, problems := BandFromRow(rows[i], e);
      if band.None? {
        UnreadableRow(rows, e, i);
        return None;
      }
      assert rows[..i + 1][..i] == rows[..i];
      bands := bands + [band.value];
    }
    assert rows[..|rows|] == rows;
    out := Some(bands);
  }

  // ---------------------------------------------------------------------------------------
  // They undo each other

  /** The bands the form can hold, in terms of the band alone. */
  predicate Editable(b: Band) {
    && 0 <= b.minMinor && (b.maxMinor.Some? ==> b.minMinor < b.maxMinor.value)
    && (if b.feeType == PERCENT then b.feeMinor == 0 else b.feeMinor >= 0)
    && (if NeedsPercent(b.feeType) then b.feePercentBps.Some? && 1 <= b.feePercentBps.value <= 10_000
        else b.feePercentBps.None?)
    && (if HasLimits(b.feeType) then NotNegative(b.minFeeMinor) && NotNegative(b.maxFeeMinor)
        else b.minFeeMinor.None? && b.maxFeeMinor.None?)
    && b.country != "" && b.region != ""
  }

  predicate NotNegative(m: Option<int>) { m.Some? ==> m.value >= 0 }

  /** Amounts are safe integers. */
  predicate Safe(m: Option<int>) {
    m.Some? ==> -MAX_SAFE <= m.value <= MAX_SAFE
  }

  predicate AllSafe(b: Band) {
    && Safe(Some(b.minMinor)) && Safe(b.maxMinor) && Safe(Some(b.feeMinor))
    && Safe(b.minFeeMinor) && Safe(b.maxFeeMinor)
  }

  /** The printer keeps the amount, as it does every one below 2^52. */
  predicate Printable(m: Option<int>, e: nat) { m.Some? && m.value >= 0 ==> Survives(m.value, e) }

  predicate AllPrintable(b: Band, e: nat) {
    && Printable(Some(b.minMinor), e) && Printable(b.maxMinor, e) && Printable(Some(b.feeMinor), e)
    && Printable(b.minFeeMinor, e) && Printable(b.maxFeeMinor, e)
  }

  lemma SmallIsPrintable(m: Option<int>, e: nat)
    requires m.Some? ==> m.value <= P52
    ensures Printable(m, e)
  {
    hide Survives;
    if m.Some? && m.value >= 0 { SurvivesBelow(m.value, e); }
  }

  /** A minus sign makes any text unreadable. */
  lemma SignedTextIsRefused(s: string, e: nat)
    requires s != "" && !IsSpace(s[|s| - 1])
    ensures Trim("-" + s) == "-" + s
    ensures ParseMajor("-" + s, e).None? && DraftPercentToBps("-" + s).None?
  {
    var t := "-" + s;
    TrimKeeps(t);
    assert RemoveCommas(t)[0] == '-';
    assert !IsDigit('-');
    SignedIsNoMatch(t, e);
    SignedIsNoMatch(t, 2);
    SignedIsNoMatch(RemoveCommas(t), e);
  }

  lemma SignedIsNoMatch(t: string, e: nat)
    requires t != "" && t[0] == '-'
    ensures Match(t, e).None?
  {
    var dot := IndexOf(t, '.', 0);
    assert dot > 0;
    assert t[..dot][0] == '-';
  }

  lemma ShownIsTidy(d: Decimal, e: nat)
    requires WellFormed(d, e)
    ensures Show(d) != "" && Trim(Show(d)) == Show(d) && !IsSpace(Show(d)[|Show(d)| - 1])
  {
    TrimKeeps(Show(d));
  }

  /** A printed amount is read back exactly when it is not negative and the printer keeps it. */
  lemma AmountOfPrinted(m: Option<int>, e: nat, what: string, optional: bool)
    requires Safe(m)
    ensures var s := FormatMajor(m, e);
            && (Amount(s, e) == m <==> NotNegative(m) && Printable(m, e))
            && (Amount(s, e) == m ==> (AmountProblems(s, what, optional, e) == [] <==> m.Some? || optional))
  {
    hide Survives, PrintedMinor, ParseMajor;
    match m
    case None =>
    case Some(n) =>
      if n >= 0 {
        FixedDecimalIsWorth(PrintedMinor(n, e), e);
        ShownIsTidy(FixedDecimal(PrintedMinor(n, e), e), e);
        DraftRoundTripExactly(n, e);
      } else {
        FixedDecimalIsWorth(PrintedMinor(-n, e), e);
        ShownIsTidy(FixedDecimal(PrintedMinor(-n, e), e), e);
        SignedTextIsRefused(Show(FixedDecimal(PrintedMinor(-n, e), e)), e);
      }
  }

  /** A shown percentage and the same with a minus sign. */
  lemma PercentOfDecimal(d: Decimal)
    requires WellFormed(d, 2)
    ensures DraftPercentToBps(Show(d)) == if 1 <= Worth(d, 2) <= 10_000 then Some(Worth(d, 2)) else None
    ensures DraftPercentToBps("-" + Show(d)) == None
  {
    ShownIsTidy(d, 2);
    SignedTextIsRefused(Show(d), 2);
    MatchOfShown(d, 2);
    PercentReadersAgree(Show(d));
  }

  lemma PercentOfParts(whole: nat, rest: nat)
    requires rest < 100
    ensures var n, text := whole * 100 + rest, PercentTextOf(whole, rest);
            && DraftPercentToBps(text) == (if 1 <= n <= 10_000 then Some(n) else None)
            && DraftPercentToBps("-" + text) == None
  {
    hide DraftPercentToBps, PercentDecimal, Worth, Show, WellFormed;
    PercentDecimalIsWorth(whole, rest);
    PercentOfDecimal(PercentDecimal(whole, rest));
  }

  lemma EmptyIsNoPercentage()
    ensures DraftPercentToBps("") == None
  {
  }

  /** A printed percentage is read back exactly when it is between 0.01 and 100. */
  lemma PercentOfPrinted(bps: Option<int>)
    ensures DraftPercentToBps(BpsText(bps))
         == if bps.Some? && 1 <= bps.value <= 10_000 then bps else None
  {
    hide PercentTextOf, DraftPercentToBps;
    match bps
    case None => EmptyIsNoPercentage();
    case Some(n) =>
      var a := if n >= 0 then n else -n;
      PercentOfParts(a / 100, a % 100);
  }

  /** A band survives being shown and read exactly when the form can hold it and the printer keeps its amounts. */
  lemma BandSurvivesExactly(b: Band, e: nat)
    requires AllSafe(b)
    ensures BandOf(RowFromBand(b, e), e) == Some(b) <==> Editable(b) && AllPrintable(b, e)
    ensures Editable(b) && AllPrintable(b, e) ==> Problems(RowFromBand(b, e), e) == []
  {
    hide FormatMajor, ParseMajor, DraftPercentToBps, Trim, BpsText, Amount, AmountProblems, Survives;
    AmountOfPrinted(Some(b.minMinor), e, "the starting amount", false);
    AmountOfPrinted(b.maxMinor, e, "the end amount", true);
    AmountOfPrinted(Some(b.feeMinor), e, "the fee", false);
    AmountOfPrinted(b.minFeeMinor, e, "the minimum fee", true);
    AmountOfPrinted(b.maxFeeMinor, e, "the maximum fee", true);
    PercentOfPrinted(b.feePercentBps);
    SmallIsPrintable(Some(0), e);
  }

  function RowsFromBands(bs: seq<Band>, e: nat): (rows: seq<Row>) {
    seq(|bs|, i requires 0 <= i < |bs| => RowFromBand(bs[i], e))
  }

  /** Reading a list of rows gives this list of bands exactly when it gives all but the last, and then the last. */
  lemma AllBandsSplit(rows: seq<Row>, bs: seq<Band>, e: nat)
    requires |rows| == |bs| > 0
    ensures var n := |bs| - 1;
            AllBands(rows, e) == Some(bs) <==>
              AllBands(rows[..n], e) == Some(bs[..n]) && BandOf(rows[n], e) == Some(bs[n])
  {
    hide BandOf;
    var n := |bs| - 1;
    var before, last := AllBands(rows[..n], e), BandOf(rows[n], e);
    if before.Some? && last.Some? { SplitLast(before.value, last.value, bs); }
  }

  lemma SplitLast(xs: seq<Band>, x: Band, ys: seq<Band>)
    requires ys != []
    ensures xs + [x] == ys <==> xs == ys[..|ys| - 1] && x == ys[|ys| - 1]
  {
    if xs + [x] == ys {
      assert xs == (xs + [x])[..|xs|];
    }
  }

  predicate AllKept(bs: seq<Band>, e: nat) {
    forall i :: 0 <= i < |bs| ==> Editable(bs[i]) && AllPrintable(bs[i], e)
  }

  lemma KeptSplit(bs: seq<Band>, e: nat)
    requires bs != []
    ensures var n := |bs| - 1;
            AllKept(bs, e) <==> AllKept(bs[..n], e) && Editable(bs[n]) && AllPrintable(bs[n], e)
  {
    hide Editable, AllPrintable;
    assert bs == bs[..|bs| - 1] + [bs[|bs| - 1]];
  }

  /** A whole schedule survives exactly when each of its bands does. */
  lemma {:induction false} ScheduleSurvivesExactly(bs: seq<Band>, e: nat)
    requires forall i :: 0 <= i < |bs| ==> AllSafe(bs[i])
    ensures AllBands(RowsFromBands(bs, e), e) == Some(bs) <==> AllKept(bs, e)
    decreases |bs|
  {
    hide BandOf, RowFromBand, Editable, AllPrintable, AllKept, AllSafe;
    var rows := RowsFromBands(bs, e);
    if bs == [] {
      assert rows == [] && AllKept([], e) by { NoneIsKept(e); }
    } else {
      hide AllBands;
      var n := |bs| - 1;
      assert rows[..n] == RowsFromBands(bs[..n], e) && rows[n] == RowFromBand(bs[n], e);
      ScheduleSurvivesExactly(bs[..n], e);
      BandSurvivesExactly(bs[n], e);
      AllBandsSplit(rows, bs, e);
      KeptSplit(bs, e);
    }
  }

  lemma NoneIsKept(e: nat)
    ensures AllKept([], e)
  {
  }

  // ---------------------------------------------------------------------------------------
  // What rows, problems and bands say

  /** A row shows every field of its band; only a percentage band's amount is left empty. */
  lemma RowShows(b: Band, e: nat)
    ensures var row := RowFromBand(b, e);
            && row.key == b.key && row.sourceId == b.sourceId && row.feeType == b.feeType
            && row.country == b.country && row.region == b.region && row.active == b.active
            && (row.fee == "" <==> b.feeType == PERCENT)
            && (row.to == "" <==> b.maxMinor.None?) && (row.percent == "" <==> b.feePercentBps.None?)
            && (row.minFee == "" <==> b.minFeeMinor.None?) && (row.maxFee == "" <==> b.maxFeeMinor.None?)
  {
    hide FormatMajor, BpsText;
    ShownAmount(b.maxMinor, e);
    ShownAmount(b.minFeeMinor, e);
    ShownAmount(b.maxFeeMinor, e);
    ShownAmount(Some(b.feeMinor), e);
    ShownPercent(b.feePercentBps);
  }

  lemma ShownAmount(m: Option<int>, e: nat)
    ensures FormatMajor(m, e) == "" <==> m.None?
  {
    hide PrintedMinor, FixedDecimal;
    match m
    case None =>
    case Some(n) => FixedDecimalIsWorth(PrintedMinor(if n >= 0 then n else -n, e), e);
  }

  lemma ShownPercent(bps: Option<int>)
    ensures BpsText(bps) == "" <==> bps.None?
  {
    match bps
    case None =>
    case Some(n) => PercentDecimalIsWorth((if n >= 0 then n else -n) / 100, (if n >= 0 then n else -n) % 100);
  }

  /** A problem of one amount field: it is missing though needed, or filled with something unreadable. */
  predicate IsOf(p: Problem, raw: string, what: string, optional: bool, e: nat) {
    || (p == Missing(what) && !optional && Trim(raw) == "")
    || (p == NotAnAmount(what) && Trim(raw) != "" && ParseMajor(raw, e).None?)
  }

  lemma FieldProblem(p: Problem, raw: string, what: string, optional: bool, e: nat)
    ensures p in AmountProblems(raw, what, optional, e) <==> IsOf(p, raw, what, optional, e)
  {
    hide ParseMajor, Trim;
  }

  /**
   A row has a problem for each field its fee type needs that is missing or unreadable, for a percentage
   it needs and lacks, for an end that is not above its start, and no other.
   */
  lemma ProblemsExactly(row: Row, e: nat, p: Problem)
    ensures var t, from, to := row.feeType, ParseMajor(row.from, e), ParseMajor(row.to, e);
            p in Problems(row, e) <==>
              || IsOf(p, row.from, "the starting amount", false, e)
              || IsOf(p, row.to, "the end amount", true, e)
              || (t != PERCENT && IsOf(p, row.fee, "the fee", false, e))
              || (p == NotAPercentage && (t == PERCENT || t == COMBINED) && DraftPercentToBps(row.percent).None?)
              || (t != FLAT && IsOf(p, row.minFee, "the minimum fee", true, e))
              || (t != FLAT && IsOf(p, row.maxFee, "the maximum fee", true, e))
              || (p == EndNotAboveStart && Trim(row.from) != "" && Trim(row.to) != ""
                  && from.Some? && to.Some? && to.value <= from.value)
  {
    hide ParseMajor, Trim, DraftPercentToBps, AmountProblems, IsOf;
    FieldProblem(p, row.from, "the starting amount", false, e);
    FieldProblem(p, row.to, "the end amount", true, e);
    FieldProblem(p, row.fee, "the fee", false, e);
    FieldProblem(p, row.minFee, "the minimum fee", true, e);
    FieldProblem(p, row.maxFee, "the maximum fee", true, e);
  }

  /** A row gives a band exactly when nothing is wrong with it, and the band holds what its fields mean. */
  lemma BandMeansItsRow(row: Row, e: nat)
    ensures BandOf(row, e).Some? <==> Problems(row, e) == []
    ensures BandOf(row, e).Some? ==>
              var b, t := BandOf(row, e).value, row.feeType;
              && b.key == row.key && b.sourceId == row.sourceId && b.feeType == t && b.active == row.active
              && ParseMajor(row.from, e) == Some(b.minMinor)
              && b.maxMinor == (if Trim(row.to) == "" then None else ParseMajor(row.to, e))
              && (if t == PERCENT then b.feeMinor == 0 else ParseMajor(row.fee, e) == Some(b.feeMinor))
              && b.feePercentBps == (if t == PERCENT || t == COMBINED then DraftPercentToBps(row.percent) else None)
              && b.minFeeMinor == (if t == FLAT || Trim(row.minFee) == "" then None else ParseMajor(row.minFee, e))
              && b.maxFeeMinor == (if t == FLAT || Trim(row.maxFee) == "" then None else ParseMajor(row.maxFee, e))
              && b.country == (if row.country == "" then "*" else row.country)
              && b.region == (if row.region == "" then "*" else row.region)
  {
    hide ParseMajor, Trim, DraftPercentToBps;
  }
}
