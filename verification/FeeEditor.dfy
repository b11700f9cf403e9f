/**
 The schedule editor over a whole editing session: rows are added one at a time, each starting
 where `newRow` offers, and the rows of one place tile the order totals from zero up.
 */
module FeeEditor {
  import opened Text
  import opened Binary64
  import opened MoneyText
  import opened MoneyPrinting
  import opened FloatExactness
  import opened FeeBands

  predicate InPlace(row: Row, country: string) { row.country == country && row.region == "*" }

  /** The end amounts filled so far in one place. */
  function Ends(rows: seq<Row>, country: string, e: nat): seq<nat> {
    if rows == [] then []
    else
      var n := |rows| - 1;
      var to := ParseMajor(rows[n].to, e);
      Ends(rows[..n], country, e) + if InPlace(rows[n], country) && to.Some? then [to.value] else []
  }

  function Highest(ns: seq<nat>): (m: nat)
    requires ns != []
    ensures m in ns && forall n :: n in ns ==> n <= m
  {
    if |ns| == 1 then ns[0]
    else
      var m := Highest(ns[..|ns| - 1]);
      assert forall n :: n in ns ==> n in ns[..|ns| - 1] || n == ns[|ns| - 1];
      if m >= ns[|ns| - 1] then m else ns[|ns| - 1]
  }

  /** One minor unit after the highest end in the place, or zero. */
  function NewStart(rows: seq<Row>, country: string, e: nat): nat {
    var ends := Ends(rows, country, e);
    if ends == [] then 0 else Highest(ends) + 1
  }

  function NewRow(rows: seq<Row>, country: string, key: string, e: nat): Row {
    Row(key, None, FormatMajor(Some(NewStart(rows, country, e)), e), "", FLAT, "", "", "", "", country, "*", true)
  }

  /** What the person does next: fill in the offered row, or work on a row of another place. */
  datatype Edit = Add(filled: Row) | Elsewhere(row: Row)

  function Apply(rows: seq<Row>, edit: Edit, country: string, e: nat): seq<Row> {
    match edit
    case Elsewhere(row) => rows + [row]
    case Add(filled) =>
      var offered := NewRow(rows, country, filled.key, e);
      rows + [filled.(sourceId := None, from := offered.from, country := offered.country, region := offered.region)]
  }

  function Build(edits: seq<Edit>, country: string, e: nat): seq<Row> {
    if edits == [] then []
    else Apply(Build(edits[..|edits| - 1], country, e), edits[|edits| - 1], country, e)
  }

  /** Whether a row of the place has been left open ("and above"). */
  predicate Open(rows: seq<Row>, country: string) {
    rows != [] &&
    (Open(rows[..|rows| - 1], country) ||
     (InPlace(rows[|rows| - 1], country) && Trim(rows[|rows| - 1].to) == ""))
  }

  /** A start the offered row shows as it is. */
  predicate Shown(start: nat, e: nat) { start <= MAX_SAFE && Survives(start, e) }

  /**
   Each row of the place gets an end above its start, from which the next start can be shown, except that
   the last may be left open.
   */
  ghost predicate ValidSession(edits: seq<Edit>, country: string, e: nat) {
    edits == [] ||
    var n := |edits| - 1;
    var rows := Build(edits[..n], country, e);
    && ValidSession(edits[..n], country, e)
    && match edits[n]
       case Elsewhere(row) => !InPlace(row, country)
       case Add(filled) =>
         && !Open(rows, country)
         && (Trim(filled.to) == "" ||
             (&& Amount(filled.to, e).Some?
              && NewStart(rows, country, e) < Amount(filled.to, e).value
              && Shown(Amount(filled.to, e).value + 1, e)))
  }

  /** Whether an order total falls in the band a row describes. */
  predicate Covers(row: Row, total: nat, e: nat) {
    && Amount(row.from, e).Some? && Amount(row.from, e).value <= total
    && (Trim(row.to) == "" || (Amount(row.to, e).Some? && total <= Amount(row.to, e).value))
  }

  /** How many rows of the place an order total falls in. */
  function Count(rows: seq<Row>, country: string, total: nat, e: nat): nat {
    if rows == [] then 0
    else
      var n := |rows| - 1;
      Count(rows[..n], country, total, e)
      + if InPlace(rows[n], country) && Covers(rows[n], total, e) then 1 else 0
  }

  lemma EmptyTextReadsNothing(raw: string, e: nat)
    ensures Trim(raw) == "" ==> ParseMajor(raw, e).None?
  {
  }

  lemma MaxOfLonger(ns: seq<nat>, n: nat)
    ensures Highest(ns + [n]) == if ns == [] || Highest(ns) < n then n else Highest(ns)
  {
    assert (ns + [n])[..|ns|] == ns;
  }

  lemma NewStartAfter(rows: seq<Row>, row: Row, country: string, e: nat)
    ensures var to := ParseMajor(row.to, e);
            var start := NewStart(rows, country, e);
            NewStart(rows + [row], country, e)
            == if InPlace(row, country) && to.Some? && start <= to.value then to.value + 1 else start
  {
    hide ParseMajor, Highest;
    var all := rows + [row];
    assert all[..|rows|] == rows && all[|rows|] == row;
    var to := ParseMajor(row.to, e);
    var ends := Ends(rows, country, e);
    if InPlace(row, country) && to.Some? {
      MaxOfLonger(ends, to.value);
      assert Ends(all, country, e) == ends + [to.value];
    } else {
      assert Ends(all, country, e) == ends;
    }
  }

  /** Appending a row to the count and to the open test. */
  lemma AfterRow(rows: seq<Row>, row: Row, country: string, total: nat, e: nat)
    ensures Count(rows + [row], country, total, e)
         == Count(rows, country, total, e) + if InPlace(row, country) && Covers(row, total, e) then 1 else 0
    ensures Open(rows + [row], country) <==> Open(rows, country) || (InPlace(row, country) && Trim(row.to) == "")
  {
    assert (rows + [row])[..|rows|] == rows;
  }

  /** The next start is one above the highest readable end of the same country with no region, or zero. */
  lemma NewStartIsNext(rows: seq<Row>, country: string, e: nat)
    ensures forall i :: 0 <= i < |rows| && rows[i].country == country && rows[i].region == "*"
                        && ParseMajor(rows[i].to, e).Some? ==>
              ParseMajor(rows[i].to, e).value < NewStart(rows, country, e)
    ensures NewStart(rows, country, e) == 0 ||
            exists i :: 0 <= i < |rows| && rows[i].country == country && rows[i].region == "*"
                        && ParseMajor(rows[i].to, e) == Some(NewStart(rows, country, e) - 1)
    decreases |rows|
  {
    hide ParseMajor, NewStart;
    if rows == [] {
      NothingYet(country, 0, e);
    } else {
      var n := |rows| - 1;
      assert rows == rows[..n] + [rows[n]];
      NewStartIsNext(rows[..n], country, e);
      NewStartAfter(rows[..n], rows[n], country, e);
      var before := NewStart(rows[..n], country, e);
      if NewStart(rows, country, e) == before && before != 0 {
        var i :| 0 <= i < n && rows[..n][i].country == country && rows[..n][i].region == "*"
                 && ParseMajor(rows[..n][i].to, e) == Some(before - 1);
        assert ParseMajor(rows[i].to, e) == Some(before - 1);
      }
      forall i | 0 <= i < |rows| && rows[i].country == country && rows[i].region == "*"
                 && ParseMajor(rows[i].to, e).Some?
        ensures ParseMajor(rows[i].to, e).value < NewStart(rows, country, e)
      {
        if i < n { assert rows[..n][i] == rows[i]; }
      }
    }
  }

  /** The offered row is a blank flat band of the place, without an end. */
  lemma OfferedIsBlank(rows: seq<Row>, country: string, key: string, e: nat)
    ensures var row := NewRow(rows, country, key, e);
            && row.country == country && row.region == "*" && row.key == key && row.sourceId.None?
            && row.to == row.fee == row.percent == row.minFee == row.maxFee == "" && row.feeType == FLAT && row.active
            && row.from == FormatMajor(Some(NewStart(rows, country, e)), e)
  {
  }

  /** The offered row starts where it should exactly when the printer keeps that amount. */
  lemma OfferedStartExactly(rows: seq<Row>, country: string, key: string, e: nat)
    requires NewStart(rows, country, e) <= MAX_SAFE
    ensures var start := NewStart(rows, country, e);
            ParseMajor(NewRow(rows, country, key, e).from, e) == Some(start) <==> Survives(start, e)
  {
    hide ParseMajor, FormatMajor, Survives;
    DraftRoundTripExactly(NewStart(rows, country, e), e);
  }

  /** The row offered at `start` covers everything from there to its end. */
  lemma OfferedCovers(row: Row, start: nat, total: nat, e: nat)
    requires Shown(start, e) && row.from == FormatMajor(Some(start), e)
    ensures Covers(row, total, e) <==>
              start <= total && (Trim(row.to) == "" || (Amount(row.to, e).Some? && total <= Amount(row.to, e).value))
  {
    hide ParseMajor, Trim, FormatMajor, Survives;
    DraftRoundTripExactly(start, e);
    EmptyTextReadsNothing(row.from, e);
  }

  /** The next start can always be shown, so the offered row starts exactly there. */
  lemma {:induction false} StartIsShown(edits: seq<Edit>, country: string, e: nat)
    requires ValidSession(edits, country, e)
    ensures Shown(NewStart(Build(edits, country, e), country, e), e)
    decreases |edits|
  {
    hide ParseMajor, Trim, FormatMajor, Survives;
    if edits == [] {
      SurvivesBelow(0, e);
    } else {
      var n := |edits| - 1;
      StartIsShown(edits[..n], country, e);
      var rows := Build(edits[..n], country, e);
      var all := Build(edits, country, e);
      NewStartAfter(rows, all[|rows|], country, e);
      assert all == rows + [all[|rows|]];
      EmptyTextReadsNothing(all[|rows|].to, e);
    }
  }

  /**
   After any editing session every order total below the next start, or every total there is once
   a row has been left open, falls in exactly one row of the place, and the others in none.
   */
  lemma {:induction false} SessionTiles(edits: seq<Edit>, country: string, e: nat, total: nat)
    requires ValidSession(edits, country, e)
    ensures var rows := Build(edits, country, e);
            Count(rows, country, total, e)
            == if Open(rows, country) || total < NewStart(rows, country, e) then 1 else 0
    decreases |edits|
  {
    hide ParseMajor, Trim, FormatMajor, Count, Open, Covers, Ends, Highest, NewStart, Shown;
    if edits == [] {
      NothingYet(country, total, e);
    } else {
      var n := |edits| - 1;
      SessionTiles(edits[..n], country, e, total);
      StartIsShown(edits[..n], country, e);
      var rows := Build(edits[..n], country, e);
      var row := Build(edits, country, e)[|rows|];
      assert Build(edits, country, e) == rows + [row];
      NewStartAfter(rows, row, country, e);
      EmptyTextReadsNothing(row.to, e);
      AfterRow(rows, row, country, total, e);
      if edits[n].Add? {
        OfferedCovers(row, NewStart(rows, country, e), total, e);
      }
    }
  }

  lemma NothingYet(country: string, total: nat, e: nat)
    ensures Count([], country, total, e) == 0 && !Open([], country) && NewStart([], country, e) == 0
  {
  }

  /** How many of the bands sent to the API, read from rows of the place, hold an order total. */
  function BandCount(rows: seq<Row>, bands: seq<Band>, country: string, total: nat): nat
    requires |rows| == |bands|
  {
    if rows == [] then 0
    else
      var n := |rows| - 1;
      BandCount(rows[..n], bands[..n], country, total)
      + if InPlace(rows[n], country) && bands[n].minMinor <= total
           && (bands[n].maxMinor.None? || total <= bands[n].maxMinor.value) then 1 else 0
  }

  lemma {:induction false} BandsCountAsRows(rows: seq<Row>, bands: seq<Band>, country: string, total: nat, e: nat)
    requires AllBands(rows, e) == Some(bands)
    ensures |rows| == |bands| && BandCount(rows, bands, country, total) == Count(rows, country, total, e)
    decreases |rows|
  {
    hide BandOf;
    if rows != [] {
      var n := |rows| - 1;
      var before := AllBands(rows[..n], e).value;
      BandsCountAsRows(rows[..n], before, country, total, e);
      assert bands[..n] == before;
      BandCoversAsRow(rows[n], bands[n], total, e);
    }
  }

  lemma BandCoversAsRow(row: Row, band: Band, total: nat, e: nat)
    requires BandOf(row, e) == Some(band)
    ensures Covers(row, total, e) <==>
              band.minMinor <= total && (band.maxMinor.None? || total <= band.maxMinor.value)
  {
    hide ParseMajor, Trim;
    assert AmountProblems(row.to, "the end amount", true, e) == [];
  }

  /** A finished session sends bands that hold every order total from zero up exactly once. */
  lemma FinishedScheduleIsWhole(edits: seq<Edit>, bands: seq<Band>, country: string, e: nat, total: nat)
    requires ValidSession(edits, country, e)
    requires Open(Build(edits, country, e), country)
    requires AllBands(Build(edits, country, e), e) == Some(bands)
    ensures |bands| == |Build(edits, country, e)|
    ensures BandCount(Build(edits, country, e), bands, country, total) == 1
  {
    hide ValidSession, AllBands, BandCount, Count;
    SessionTiles(edits, country, e, total);
    BandsCountAsRows(Build(edits, country, e), bands, country, total, e);
  }
}
