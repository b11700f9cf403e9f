/**
 The days the admin calendar draws, and where Previous and Next lead.
 */
module CalendarViews {
  import opened Text
  import opened Gregorian

  datatype View = Month | Week | Agenda

  const AGENDA_DAYS := 14

  // ---------------------------------------------------------------------------------------
  // Day arithmetic

  /** Throws on an invalid date. */
  function AddDays(day: string, n: int): string
    requires Read(day).Some?
  {
    Iso(Read(day).value + n)
  }

  /** Monday 0 to Sunday 6; 1970-01-01 was a Thursday. */
  function Weekday(n: int): int { (n + 3) % 7 }

  function WeekdayIndex(day: string): int
    requires IsDay(day)
  {
    Weekday(ToNumber(day))
  }

  function StartOfWeek(day: string): string
    requires IsDay(day)
  {
    AddDays(day, -WeekdayIndex(day))
  }

  /** The year and month of a day, as text. */
  function MonthText(day: string): string
    requires IsDay(day)
  {
    day[..7]
  }

  function FirstOfMonth(day: string): string
    requires IsDay(day)
  {
    MonthText(day) + "-01"
  }

  /** Months counted from January of year 0. */
  function MonthIndex(n: int): int {
    var d := DateOf(n);
    12 * d.year + d.month - 1
  }

  function MonthStart(i: int): int { Number(Date(i / 12, i % 12 + 1, 1)) }

  /** Going one month on and taking its day 0. */
  function LastOfMonth(day: string): string
    requires IsDay(day)
  {
    Iso(MonthStart(MonthIndex(ToNumber(day)) + 1) - 1)
  }

  /** A month's first day, and that the next month starts where it ends. */
  lemma MonthSpan(n: int)
    ensures var i := MonthIndex(n);
            MonthStart(i) <= n < MonthStart(i + 1) && 28 <= MonthStart(i + 1) - MonthStart(i) <= 31
  {
    hide DateOf, DayFromYear;
    var d := DateOf(n);
    var i := MonthIndex(n);
    assert i / 12 == d.year && i % 12 + 1 == d.month;
    if d.month == 12 {
      YearLength(d.year);
      assert (i + 1) / 12 == d.year + 1 && (i + 1) % 12 == 0;
    } else {
      assert (i + 1) / 12 == d.year && (i + 1) % 12 + 1 == d.month + 1;
    }
  }

  lemma MonthIndexOfStart(i: int)
    ensures MonthIndex(MonthStart(i)) == i
  {
    DateOfNumber(Date(i / 12, i % 12 + 1, 1));
  }

  lemma FirstOfMonthFields(day: string)
    requires IsDay(day)
    ensures var s := FirstOfMonth(day);
            && |s| == 10 && s[..4] == day[..4] && s[5..7] == day[5..7] && s[8..] == "01"
            && s[4] == '-' && s[7] == '-' && s[..7] == MonthText(day)
  {
    hide Value, IsDate;
  }

  /** Text and number agree on the first of the month. */
  lemma FirstOfMonthIsStart(day: string)
    requires IsDay(day)
    ensures IsDay(FirstOfMonth(day)) && ToNumber(FirstOfMonth(day)) == MonthStart(MonthIndex(ToNumber(day)))
  {
    hide DateOf, Value, Number, FirstOfMonth;
    FirstOfMonthFields(day);
    ValueOfFirst();
    var d := Date(Value(day[..4]), Value(day[5..7]), Value(day[8..]));
    DateOfNumber(d);
    var i := MonthIndex(ToNumber(day));
    assert i / 12 == d.year && i % 12 + 1 == d.month;
  }

  /** `addDays(day, 1)` is the next day of the month while there is one, else the first of the next month. */
  lemma AddOneDay(day: string)
    requires IsDay(day) && ToNumber(day) < MAX
    ensures IsDay(AddDays(day, 1)) && Fields(AddDays(day, 1)) == NextDate(Fields(day))
  {
    hide IsDay, ToNumber, Iso, IsShort, IsSigned, Fields, NextDate;
    NextString(day);
  }

  /** Adding days one at a time or together is the same, forwards and back. */
  lemma AddDaysAdds(day: string, i: int, j: int)
    requires IsDay(day) && IsDay(AddDays(day, i))
    ensures AddDays(AddDays(day, i), j) == AddDays(day, i + j)
    ensures AddDays(day, 0) == day
  {
    hide IsDay, ToNumber, Iso, IsShort, IsSigned;
    NumberOfDay(day);
    NoDayOutside(ToNumber(day) + i);
    DayOfNumber(ToNumber(day) + i);
  }

  /** Weekdays follow one another, from Thursday 1970-01-01. */
  lemma WeekdaysFollow(day: string)
    requires IsDay(day) && ToNumber(day) < MAX
    ensures IsDay(AddDays(day, 1)) && WeekdayIndex(AddDays(day, 1)) == (WeekdayIndex(day) + 1) % 7
    ensures Iso(0) == "1970-01-01" && IsDay(Iso(0)) && WeekdayIndex(Iso(0)) == 3
  {
    hide IsDay, ToNumber, Iso, IsShort, IsSigned;
    NumberOfDay(day);
    DayOfNumber(ToNumber(day) + 1);
    Epoch();
    DayOfNumber(0);
  }

  // ---------------------------------------------------------------------------------------
  // Every day from first to last

  /** The strings of consecutive day numbers, both ends included. */
  function Span(a: int, b: int): (days: seq<string>)
    ensures |days| == if a <= b then b - a + 1 else 0
  {
    if a > b then [] else seq(b - a + 1, i requires 0 <= i < b - a + 1 => Iso(a + i))
  }

  /** The loop's variable after `k` rounds, or nothing once `addDays` has thrown. */
  function Nth(first: string, k: nat): Option<string> {
    if k == 0 then Some(first)
    else
      var d := Nth(first, k - 1);
      if d.None? || Read(d.value).None? then None else Some(AddDays(d.value, 1))
  }

  /** The loop condition holds in round `k`. */
  predicate GoesOn(first: string, last: string, k: nat) {
    Nth(first, k).Some? && !Less(last, Nth(first, k).value)
  }

  ghost predicate NeverEnds(first: string, last: string) { forall k: nat :: GoesOn(first, last, k) }

  /** The loop ends having pushed `days`. */
  ghost predicate Draws(first: string, last: string, days: seq<string>) {
    && (forall k: nat :: k < |days| ==> GoesOn(first, last, k) && Nth(first, k) == Some(days[k]))
    && Nth(first, |days|).Some? && Less(last, Nth(first, |days|).value)
  }

  /** It cannot both end and go on for ever, nor end in two ways. */
  lemma OneOutcome(first: string, last: string, days: seq<string>, other: seq<string>)
    requires Draws(first, last, days)
    ensures !NeverEnds(first, last)
    ensures Draws(first, last, other) ==> days == other
  {
    hide Nth, Less;
    assert !GoesOn(first, last, |days|);
    if Draws(first, last, other) {
      NotLonger(first, last, days, other);
      NotLonger(first, last, other, days);
      assert forall k: nat :: k < |days| ==> Some(days[k]) == Nth(first, k) == Some(other[k]);
    }
  }

  lemma NotLonger(first: string, last: string, days: seq<string>, other: seq<string>)
    requires Draws(first, last, days) && Draws(first, last, other)
    ensures |days| <= |other|
  {
    hide Nth, Less;
    assert !GoesOn(first, last, |other|);
  }

  ghost predicate Ends(first: string, last: string) { exists days :: Draws(first, last, days) }

  /** The loop of `daysBetween`, from any text to any text from which it ends. */
  method DaysBetween(first: string, last: string) returns (out: seq<string>)
    requires Ends(first, last)
    ensures Draws(first, last, out)
  {
    hide Iso, Read, Less;
    ghost var days :| Draws(first, last, days);
    out := [];
    var d := first;
    while !Less(last, d)
      invariant |out| <= |days| && out == days[..|out|]
      invariant Nth(first, |out|) == Some(d)
      decreases |days| - |out|
    {
      assert |out| != |days|;
      assert GoesOn(first, last, |out|) && days[|out|] == d;
      NextRound(first, last, days, |out|);
      out := out + [d];
      d := AddDays(d, 1);
    }
    assert !GoesOn(first, last, |out|);
    assert out == days;
  }

  lemma NextRound(first: string, last: string, days: seq<string>, k: nat)
    requires Draws(first, last, days) && k < |days|
    ensures Nth(first, k + 1).Some?
  {
    hide Nth, Less;
    if k + 1 < |days| { assert GoesOn(first, last, k + 1); }
  }

  // ---------------------------------------------------------------------------------------
  // Around the four-digit years

  /** What the last month before year 0 and the first after year 9999 are cut to. */
  const BEFORE: string := "-" + Fixed(1, 6) + "-" + Fixed(12, 2)
  const AFTER: string := "+" + Fixed(10_000, 6) + "-" + Fixed(1, 2)

  lemma OutsideDates(n: int)
    ensures MIN - 31 <= n < MIN ==> DateOf(n) == Date(-1, 12, n - MIN + 32)
    ensures MAX < n <= MAX + 31 ==> DateOf(n) == Date(10_000, 1, n - MAX)
  {
    hide DateOf, DayFromYear;
    Bounds();
    YearLength(-1);
    if MIN - 31 <= n < MIN {
      DateOfNumber(Date(-1, 12, n - MIN + 32));
    } else if MAX < n <= MAX + 31 {
      DateOfNumber(Date(10_000, 1, n - MAX));
    }
  }

  lemma OutsideStrings(n: int)
    ensures MIN - 31 <= n < MIN ==> Iso(n) == BEFORE
    ensures MAX < n <= MAX + 31 ==> Iso(n) == AFTER
  {
    hide DateOf, Fixed;
    OutsideDates(n);
  }

  lemma CutParts(sign: char, y: string, m: string)
    requires |y| == 6 && |m| == 2 && AllDigits(y) && AllDigits(m)
    ensures var s := [sign] + y + "-" + m;
            |s| == 10 && s[0] == sign && s[7] == '-' && s[1..7] == y && s[8..] == m
  {
  }

  lemma SixDigits()
    ensures Pow10(6) == 1_000_000 && Pow10(2) == 100
  {
    assert Pow10(1) == 10 && Pow10(3) == 1000 && Pow10(5) == 100_000;
  }

  /** Both are read as the first day of their month. */
  lemma ReadOutside()
    ensures !IsDay(BEFORE) && !IsDay(AFTER)
    ensures Read(BEFORE) == Some(MIN - 31) && Read(AFTER) == Some(MAX + 1)
  {
    hide Value, Fixed, Iso, DayFromYear;
    OutsideStrings(MIN - 1);
    OutsideStrings(MAX + 1);
    NoDayOutside(MIN - 1);
    NoDayOutside(MAX + 1);
    SixDigits();
    ValueOfFixed(1, 6);
    ValueOfFixed(10_000, 6);
    ValueOfFixed(12, 2);
    ValueOfFixed(1, 2);
    CutParts('-', Fixed(1, 6), Fixed(12, 2));
    CutParts('+', Fixed(10_000, 6), Fixed(1, 2));
    Bounds();
    YearLength(-1);
  }

  lemma {:induction false} StuckOutside(k: nat)
    ensures Nth(BEFORE, k) == Some(BEFORE) && Nth(AFTER, k) == Some(AFTER)
    decreases k
  {
    hide Iso, Read, BEFORE, AFTER;
    ReadOutside();
    if k > 0 {
      StuckOutside(k - 1);
      OutsideStrings(MIN - 30);
      OutsideStrings(MAX + 2);
    }
  }

  /** Signs come before digits, and plus before minus. */
  lemma OutsideOrder(n: int)
    requires MIN <= n <= MAX
    ensures Less(BEFORE, Iso(n)) && !Less(Iso(n), BEFORE) && Less(AFTER, Iso(n)) && !Less(Iso(n), AFTER)
    ensures !Less(BEFORE, BEFORE)
  {
    hide Value, Fixed, Number, DateOf;
    DayOfNumber(n);
    assert Iso(n)[..4][0] == Iso(n)[0];
    LessIrreflexive(BEFORE);
  }

  // ---------------------------------------------------------------------------------------
  // What the loop draws

  lemma NextDay(n: int)
    requires MIN <= n <= MAX
    ensures Read(Iso(n)).Some? && AddDays(Iso(n), 1) == if n < MAX then Iso(n + 1) else AFTER
    ensures Read(AFTER).Some? && AddDays(AFTER, 1) == AFTER
  {
    hide Iso, IsDay, ToNumber, IsShort, IsSigned, BEFORE, AFTER;
    DayOfNumber(n);
    ReadOutside();
    OutsideStrings(MAX + 1);
    OutsideStrings(MAX + 2);
  }

  /** From a day on, the rounds are the days that follow, up to the end of the calendar, and then stay put. */
  lemma {:induction false} Rounds(f: int, k: nat)
    requires MIN <= f <= MAX
    ensures Nth(Iso(f), k) == Some(if f + k <= MAX then Iso(f + k) else AFTER)
    decreases k
  {
    hide Iso, Read, AddDays, BEFORE, AFTER;
    if k > 0 {
      Rounds(f, k - 1);
      NextDay(if f + k - 1 <= MAX then f + k - 1 else MAX);
    }
  }

  lemma DrawsSpan(f: int, l: int)
    requires MIN <= f <= MAX && MIN <= l < MAX
    ensures Draws(Iso(f), Iso(l), Span(f, l))
  {
    hide Iso, Less, Nth, BEFORE, AFTER;
    var days := Span(f, l);
    forall k: nat | k < |days| ensures GoesOn(Iso(f), Iso(l), k) && Nth(Iso(f), k) == Some(days[k]) {
      Rounds(f, k);
      DayOrder(l, f + k);
    }
    Rounds(f, |days|);
    DayOrder(l, f + |days|);
  }

  /** Up to 9999-12-31 there is no end: the string after it is below it, for ever. */
  lemma PassesTheEnd(f: int)
    requires MIN <= f <= MAX
    ensures NeverEnds(Iso(f), Iso(MAX))
  {
    hide Iso, Less, Nth, BEFORE, AFTER;
    forall k: nat ensures GoesOn(Iso(f), Iso(MAX), k) {
      Rounds(f, k);
      OutsideOrder(MAX);
      if f + k <= MAX { DayOrder(MAX, f + k); }
    }
  }

  /** From before year 0 there is none either: the same string is pushed for ever. */
  lemma NeverReachesYearZero(last: string)
    requires !Less(last, BEFORE)
    ensures NeverEnds(BEFORE, last)
  {
    hide Less, Nth, BEFORE, AFTER;
    forall k: nat ensures GoesOn(BEFORE, last, k) { StuckOutside(k); }
  }

  /** A last day beyond year 9999 is below every day, so nothing is drawn. */
  lemma DrawsNothing(f: int)
    requires MIN <= f <= MAX
    ensures Draws(Iso(f), AFTER, [])
  {
    hide Iso, Less;
    OutsideOrder(f);
  }

  /** With 9999-12-31 as the last day the loop ends from no day. */
  lemma LoopPassesTheEnd(first: string)
    requires IsDay(first)
    ensures NeverEnds(first, Iso(MAX))
  {
    hide Iso, IsDay, ToNumber;
    NumberOfDay(first);
    PassesTheEnd(ToNumber(first));
  }

  // ---------------------------------------------------------------------------------------
  // Views

  function WeekStart(n: int): int { n - Weekday(n) }

  function ViewFirst(view: View, n: int): int {
    match view
    case Week => WeekStart(n)
    case Agenda => n
    case Month => WeekStart(MonthStart(MonthIndex(n)))
  }

  function ViewLast(view: View, n: int): int {
    match view
    case Week => WeekStart(n) + 6
    case Agenda => n + AGENDA_DAYS - 1
    case Month => WeekStart(MonthStart(MonthIndex(n) + 1) - 1) + 6
  }

  /** The view lies in the four-digit years, with a day to spare at the end. */
  predicate InCalendar(view: View, n: int) {
    MIN <= ViewFirst(view, n) && ViewLast(view, n) < MAX
  }

  /** The two ends the source computes as strings are the days of these numbers, in or out of range. */
  lemma EndsAreNumbers(anchor: string)
    requires IsDay(anchor)
    ensures var n := ToNumber(anchor);
            && StartOfWeek(anchor) == Iso(ViewFirst(Week, n))
            && AddDays(anchor, AGENDA_DAYS - 1) == Iso(ViewLast(Agenda, n))
            && IsDay(FirstOfMonth(anchor)) && StartOfWeek(FirstOfMonth(anchor)) == Iso(ViewFirst(Month, n))
            && LastOfMonth(anchor) == Iso(MonthStart(MonthIndex(n) + 1) - 1)
  {
    hide Iso, IsDay, ToNumber, MonthStart, MonthIndex, FirstOfMonth;
    FirstOfMonthIsStart(anchor);
  }

  /** The last of a month is a day of that month, and so is the Monday before it a day. */
  lemma LastWeekIsADay(anchor: string)
    requires IsDay(anchor)
    ensures IsDay(LastOfMonth(anchor)) && IsDay(StartOfWeek(LastOfMonth(anchor)))
    ensures ToNumber(StartOfWeek(LastOfMonth(anchor))) == ViewLast(Month, ToNumber(anchor)) - 6
    ensures MIN + 21 <= ViewLast(Month, ToNumber(anchor)) - 6 <= MAX
  {
    hide Iso, IsDay, ToNumber, MonthStart, MonthIndex, FirstOfMonth;
    var n := ToNumber(anchor);
    var e := MonthStart(MonthIndex(n) + 1) - 1;
    NumberOfDay(anchor);
    MonthSpan(n);
    FirstOfMonthIsStart(anchor);
    NumberOfDay(FirstOfMonth(anchor));
    LastIsInCalendar(n);
    DayOfNumber(e);
    DayOfNumber(ViewLast(Month, n) - 6);
  }

  lemma LastIsInCalendar(n: int)
    requires MIN <= n <= MAX
    ensures MonthStart(MonthIndex(n) + 1) - 1 <= MAX
  {
    hide DateOf, DayFromYear, IsLeap;
    var d := DateOf(n);
    var e := Date(d.year, d.month, DaysInMonth(d.year, d.month));
    FourDigitYears(n);
    DateOfNumber(e);
    FourDigitYears(Number(e));
    LastDayNumber(d, MonthIndex(n));
  }

  lemma LastDayNumber(d: Date, i: int)
    requires IsDate(d) && i == 12 * d.year + d.month - 1
    ensures MonthStart(i + 1) - 1 == Number(Date(d.year, d.month, DaysInMonth(d.year, d.month)))
  {
    hide DayFromYear, IsLeap;
    if d.month == 12 {
      YearLength(d.year);
      assert (i + 1) / 12 == d.year + 1 && (i + 1) % 12 == 0;
    } else {
      assert (i + 1) / 12 == d.year && (i + 1) % 12 == d.month;
    }
  }

  /** What `atNoon` makes of a string computed near the calendar. */
  lemma ReadNear(n: int)
    requires MIN - 31 <= n <= MAX + 31
    ensures Read(Iso(n)) == Some(if n < MIN then MIN - 31 else if n <= MAX then n else MAX + 1)
  {
    hide Iso, IsDay, ToNumber, IsShort, IsSigned, BEFORE, AFTER;
    OutsideStrings(n);
    ReadOutside();
    if MIN <= n <= MAX { DayOfNumber(n); }
  }

  lemma WeekStartReads(anchor: string)
    requires IsDay(anchor)
    ensures Read(StartOfWeek(anchor)).Some?
  {
    hide Iso, IsDay, ToNumber, IsShort, IsSigned;
    NumberOfDay(anchor);
    ReadNear(ToNumber(anchor) - WeekdayIndex(anchor));
  }

  /** The two strings a view hands to `daysBetween`. */
  function ViewEnds(view: View, anchor: string): (string, string)
    requires IsDay(anchor)
  {
    match view
    case Week => WeekStartReads(anchor); (StartOfWeek(anchor), AddDays(StartOfWeek(anchor), 6))
    case Agenda => (anchor, AddDays(anchor, AGENDA_DAYS - 1))
    case Month =>
      FirstOfMonthIsStart(anchor);
      LastWeekIsADay(anchor);
      (StartOfWeek(FirstOfMonth(anchor)), AddDays(StartOfWeek(LastOfMonth(anchor)), 6))
  }

  /** The ends as strings: days where the numbers are in the calendar, cut strings where they are not. */
  lemma EndStrings(view: View, anchor: string)
    requires IsDay(anchor)
    ensures var n := ToNumber(anchor);
            var f, l := ViewFirst(view, n), ViewLast(view, n);
            && MIN - 31 <= f <= MAX && MIN <= l <= MAX + 31 && f <= l && l - f < 42
            && ViewEnds(view, anchor) == (if f < MIN then BEFORE else Iso(f),
                                          if view == Week && f < MIN then BEFORE
                                          else if l > MAX then AFTER else Iso(l))
  {
    hide Iso, IsDay, ToNumber, IsShort, IsSigned, MonthStart, MonthIndex, FirstOfMonth, BEFORE, AFTER;
    var n := ToNumber(anchor);
    NumberOfDay(anchor);
    EndsAreNumbers(anchor);
    OutsideStrings(ViewFirst(view, n));
    OutsideStrings(ViewLast(view, n));
    if view == Month {
      LastWeekIsADay(anchor);
      MonthViewNumbers(n);
      NumberOfDay(FirstOfMonth(anchor));
      FirstOfMonthIsStart(anchor);
    } else if view == Week {
      ReadNear(ViewFirst(view, n));
      OutsideStrings(MIN - 31 + 6);
    }
  }

  /**
   What each view of each day does, exactly: it draws its days when they lie in the four-digit years
   with a day to spare; it never ends when they begin before year 0 or end on 9999-12-31; and it draws
   nothing when they end later.
   */
  lemma InCalendarExactly(view: View, anchor: string)
    requires IsDay(anchor)
    ensures var n := ToNumber(anchor);
            var (first, last) := ViewEnds(view, anchor);
            && (Draws(first, last, Span(ViewFirst(view, n), ViewLast(view, n))) <==> InCalendar(view, n))
            && (NeverEnds(first, last) <==> ViewFirst(view, n) < MIN || ViewLast(view, n) == MAX)
            && (Draws(first, last, []) <==> ViewLast(view, n) > MAX)
  {
    hide Iso, IsDay, ToNumber, Nth, Less, ViewFirst, ViewLast, ViewEnds, Draws, NeverEnds, BEFORE, AFTER;
    var n := ToNumber(anchor);
    var f, l := ViewFirst(view, n), ViewLast(view, n);
    var (first, last) := ViewEnds(view, anchor);
    EndStrings(view, anchor);
    if f < MIN {
      if last != BEFORE { OutsideOrder(l); }
      OutsideOrder(MIN);
      NeverReachesYearZero(last);
    } else if l > MAX {
      DrawsNothing(f);
      OneOutcome(first, last, [], Span(f, l));
    } else if l == MAX {
      PassesTheEnd(f);
    } else {
      DrawsSpan(f, l);
      OneOutcome(first, last, Span(f, l), []);
    }
    EndlessIsNoEnd(first, last, Span(f, l));
    EndlessIsNoEnd(first, last, []);
  }

  lemma EndlessIsNoEnd(first: string, last: string, days: seq<string>)
    ensures NeverEnds(first, last) ==> !Draws(first, last, days)
  {
    if Draws(first, last, days) { OneOutcome(first, last, days, days); }
  }

  method ViewDays(view: View, anchor: string) returns (days: seq<string>)
    requires IsDay(anchor)
    requires ViewFirst(view, ToNumber(anchor)) >= MIN && ViewLast(view, ToNumber(anchor)) != MAX
    ensures var n := ToNumber(anchor);
            days == if ViewLast(view, n) > MAX then [] else Span(ViewFirst(view, n), ViewLast(view, n))
  {
    hide IsDay, Iso, ToNumber, MonthStart, MonthIndex, FirstOfMonth, Nth, Less, ViewFirst, ViewLast, Draws;
    ghost var n := ToNumber(anchor);
    ghost var drawn := if ViewLast(view, n) > MAX then [] else Span(ViewFirst(view, n), ViewLast(view, n));
    InCalendarExactly(view, anchor);
    assert Draws(ViewEnds(view, anchor).0, ViewEnds(view, anchor).1, drawn);
    if view == Week {
      WeekStartReads(anchor);
      days := DaysBetween(StartOfWeek(anchor), AddDays(StartOfWeek(anchor), 6));
    } else if view == Agenda {
      days := DaysBetween(anchor, AddDays(anchor, AGENDA_DAYS - 1));
    } else {
      FirstOfMonthIsStart(anchor);
      LastWeekIsADay(anchor);
      var first := StartOfWeek(FirstOfMonth(anchor));
      var last := AddDays(StartOfWeek(LastOfMonth(anchor)), 6);
      days := DaysBetween(first, last);
    }
    OneOutcome(ViewEnds(view, anchor).0, ViewEnds(view, anchor).1, drawn, days);
  }

  /** The week view is the seven days from Monday that hold the anchor; the agenda is fourteen days from it. */
  lemma WeekAndAgenda(view: View, anchor: string, days: seq<string>)
    requires view != Month && IsDay(anchor) && InCalendar(view, ToNumber(anchor))
    requires days == Span(ViewFirst(view, ToNumber(anchor)), ViewLast(view, ToNumber(anchor)))
    ensures |days| == if view == Week then 7 else 14
    ensures anchor in days && forall i :: 0 <= i < |days| - 1 ==> IsDay(days[i]) && days[i + 1] == AddDays(days[i], 1)
    ensures IsDay(days[0]) && (if view == Week then WeekdayIndex(days[0]) == 0 else days[0] == anchor)
  {
    hide Iso, IsDay, ToNumber, IsShort, IsSigned;
    var n := ToNumber(anchor);
    var f := ViewFirst(view, n);
    NumberOfDay(anchor);
    assert days[n - f] == anchor;
    forall i | 0 <= i < |days| ensures IsDay(days[i]) && ToNumber(days[i]) == f + i { DayOfNumber(f + i); }
  }

  // ---------------------------------------------------------------------------------------
  // Month views are whole weeks

  /** Every day of the anchor's month carries its first seven characters, and no other day does. */
  lemma SameMonthSameText(a: string, b: string)
    requires IsDay(a) && IsDay(b)
    ensures MonthText(a) == MonthText(b) <==> MonthIndex(ToNumber(a)) == MonthIndex(ToNumber(b))
  {
    FirstOfMonthIsStart(a);
    FirstOfMonthIsStart(b);
    NumberOfDay(FirstOfMonth(a));
    NumberOfDay(FirstOfMonth(b));
    MonthIndexOfStart(MonthIndex(ToNumber(a)));
    MonthIndexOfStart(MonthIndex(ToNumber(b)));
    assert FirstOfMonth(a)[..7] == MonthText(a) && FirstOfMonth(b)[..7] == MonthText(b);
  }

  lemma MonthViewNumbers(n: int)
    ensures var f, l := ViewFirst(Month, n), ViewLast(Month, n);
            && f % 7 == 4 && (l - f + 1) % 7 == 0 && 28 <= l - f + 1 <= 42
            && f <= MonthStart(MonthIndex(n)) && MonthStart(MonthIndex(n) + 1) - 1 <= l
  {
    MonthSpan(n);
    hide MonthStart, MonthIndex;
  }

  /** The month view: 4, 5 or 6 full Monday-to-Sunday weeks in order, holding the whole month. */
  lemma MonthViewIsWholeWeeks(anchor: string, days: seq<string>)
    requires IsDay(anchor) && InCalendar(Month, ToNumber(anchor))
    requires days == Span(ViewFirst(Month, ToNumber(anchor)), ViewLast(Month, ToNumber(anchor)))
    ensures |days| == 28 || |days| == 35 || |days| == 42
    ensures forall i :: 0 <= i < |days| ==> IsDay(days[i]) && WeekdayIndex(days[i]) == i % 7
    ensures forall i, j :: 0 <= i < j < |days| ==> Less(days[i], days[j])
    ensures forall i :: 0 <= i < |days| - 1 ==> IsDay(days[i]) && days[i + 1] == AddDays(days[i], 1)
    ensures forall d :: IsDay(d) && MonthText(d) == MonthText(anchor) ==> d in days
  {
    hide Iso, IsDay, IsShort, IsSigned, ToNumber, MonthStart, MonthIndex, Less;
    var n := ToNumber(anchor);
    var f, l := ViewFirst(Month, n), ViewLast(Month, n);
    MonthViewNumbers(n);
    forall i | 0 <= i < |days|
      ensures IsDay(days[i]) && ToNumber(days[i]) == f + i && WeekdayIndex(days[i]) == i % 7
    {
      DayOfNumber(f + i);
    }
    forall i, j | 0 <= i < j < |days| ensures Less(days[i], days[j]) {
      DayOrder(f + i, f + j);
    }
    forall d | IsDay(d) && MonthText(d) == MonthText(anchor) ensures d in days { MonthViewHolds(anchor, d, days); }
  }

  lemma MonthViewHolds(anchor: string, d: string, days: seq<string>)
    requires IsDay(anchor) && IsDay(d) && MonthText(d) == MonthText(anchor)
    requires days == Span(ViewFirst(Month, ToNumber(anchor)), ViewLast(Month, ToNumber(anchor)))
    ensures d in days
  {
    hide Iso, IsDay, ToNumber, MonthStart, MonthIndex;
    var k := ToNumber(d);
    MonthViewNumbers(ToNumber(anchor));
    SameMonthSameText(d, anchor);
    NumberOfDay(d);
    MonthSpan(k);
    assert days[k - ViewFirst(Month, ToNumber(anchor))] == d;
  }

  /** Days in rows of seven. */
  function ToWeeks(days: seq<string>): seq<seq<string>> {
    seq((|days| + 6) / 7, i requires 0 <= i < (|days| + 6) / 7 =>
      days[7 * i..if 7 * i + 7 <= |days| then 7 * i + 7 else |days|])
  }

  function Flatten(rows: seq<seq<string>>): seq<string> {
    if rows == [] then [] else Flatten(rows[..|rows| - 1]) + rows[|rows| - 1]
  }

  lemma RowsOfHead(days: seq<string>, k: nat)
    requires k < |ToWeeks(days)|
    ensures 7 * k <= |days| && ToWeeks(days[..7 * k]) == ToWeeks(days)[..k]
  {
    var rows, short := ToWeeks(days), ToWeeks(days[..7 * k]);
    assert |short| == k;
    forall i | 0 <= i < k ensures short[i] == rows[i] {
      assert 7 * i + 7 <= 7 * k;
      assert days[..7 * k][7 * i..7 * i + 7] == days[7 * i..7 * i + 7];
    }
  }

  /** Every row has seven days but the last, which has the rest. */
  lemma FullRows(days: seq<string>)
    ensures |days| % 7 == 0 ==> forall i :: 0 <= i < |ToWeeks(days)| ==> |ToWeeks(days)[i]| == 7
    ensures forall i :: 0 <= i < |ToWeeks(days)| ==>
              1 <= |ToWeeks(days)[i]| <= 7 && (i < |ToWeeks(days)| - 1 ==> |ToWeeks(days)[i]| == 7)
  {
  }

  lemma LastRow(days: seq<string>)
    requires days != []
    ensures var rows := ToWeeks(days);
            var k := |rows| - 1;
            k >= 0 && 7 * k < |days| && days == days[..7 * k] + rows[k]
  {
  }

  /** Rows put back end to end are the days; whole weeks make full rows. */
  lemma {:induction false} WeeksFlattenBack(days: seq<string>)
    ensures Flatten(ToWeeks(days)) == days
    ensures |days| % 7 == 0 ==> forall i :: 0 <= i < |ToWeeks(days)| ==> |ToWeeks(days)[i]| == 7
    ensures forall i :: 0 <= i < |ToWeeks(days)| ==>
              1 <= |ToWeeks(days)[i]| <= 7 && (i < |ToWeeks(days)| - 1 ==> |ToWeeks(days)[i]| == 7)
    decreases |days|
  {
    FullRows(days);
    if days == [] {
      assert ToWeeks(days) == [];
    } else {
      hide ToWeeks;
      LastRow(days);
      var k := |ToWeeks(days)| - 1;
      RowsOfHead(days, k);
      WeeksFlattenBack(days[..7 * k]);
    }
  }

  // ---------------------------------------------------------------------------------------
  // Previous and Next

  function ShiftAnchor(view: View, anchor: string, dir: int): string
    requires IsDay(anchor)
  {
    match view
    case Week => AddDays(anchor, 7 * dir)
    case Agenda => AddDays(anchor, AGENDA_DAYS * dir)
    case Month => Iso(MonthStart(MonthIndex(ToNumber(anchor)) + dir))
  }

  function Step(view: View): int
    requires view != Month
  {
    if view == Week then 7 else AGENDA_DAYS
  }

  /** Week and agenda views reached by Previous and Next tile the calendar: each day is in exactly one. */
  lemma ViewsTile(view: View, n: int, m: int) returns (k: int)
    requires view != Month
    ensures ViewFirst(view, n + Step(view) * k) <= m <= ViewLast(view, n + Step(view) * k)
    ensures forall j :: ViewFirst(view, n + Step(view) * j) <= m <= ViewLast(view, n + Step(view) * j) ==> j == k
  {
    var f, s := ViewFirst(view, n), Step(view);
    k := (m - f) / s;
    forall j: int
      ensures ViewFirst(view, n + s * j) == f + s * j && ViewLast(view, n + s * j) == f + s * j + s - 1
    {
    }
  }

  /** Next lands where `ViewsTile` says, and the next view starts the day after this one ends. */
  lemma NextViewFollows(view: View, anchor: string)
    requires view != Month && IsDay(anchor) && IsDay(ShiftAnchor(view, anchor, 1))
    ensures ViewFirst(view, ToNumber(ShiftAnchor(view, anchor, 1))) == ViewLast(view, ToNumber(anchor)) + 1
  {
    hide Iso, IsDay, ToNumber;
    NoDayOutside(ToNumber(anchor) + Step(view));
    DayOfNumber(ToNumber(anchor) + Step(view));
  }

  /** The anchor after `k` presses of Next (`dir` 1) or Previous (-1), while each lands on a day. */
  function Presses(view: View, anchor: string, dir: int, k: nat): (r: Option<string>)
    requires IsDay(anchor)
    ensures r.Some? ==> IsDay(r.value)
  {
    if k == 0 then Some(anchor)
    else
      var before := Presses(view, anchor, dir, k - 1);
      if before.None? || !IsDay(ShiftAnchor(view, before.value, dir)) then None
      else Some(ShiftAnchor(view, before.value, dir))
  }

  function Offset(view: View, dir: int, k: nat): int
    requires view != Month
  {
    if dir == 1 then Step(view) * k else -(Step(view) * k)
  }

  lemma OnePress(view: View, n: int, dir: int)
    requires view != Month && (dir == 1 || dir == -1) && MIN <= n <= MAX
    ensures IsDay(Iso(n)) && ShiftAnchor(view, Iso(n), dir) == Iso(n + Offset(view, dir, 1))
    ensures IsDay(Iso(n + Offset(view, dir, 1))) <==> MIN <= n + Offset(view, dir, 1) <= MAX
  {
    hide Iso, IsDay, ToNumber, IsShort, IsSigned;
    DayOfNumber(n);
    NoDayOutside(n + Offset(view, dir, 1));
  }

  lemma OffsetGrows(view: View, dir: int, k: nat)
    requires view != Month && k > 0
    ensures Offset(view, dir, k) == Offset(view, dir, k - 1) + Offset(view, dir, 1)
    ensures if dir == 1 then Offset(view, dir, k - 1) >= 0 && Offset(view, dir, 1) > 0
            else Offset(view, dir, k - 1) <= 0 && Offset(view, dir, 1) < 0
  {
    assert Step(view) * k == Step(view) * (k - 1) + Step(view);
  }

  /** Repeated presses land a whole number of steps away, for as long as that is in the calendar. */
  lemma {:induction false} PressesAre(view: View, anchor: string, dir: int, k: nat)
    requires view != Month && IsDay(anchor) && (dir == 1 || dir == -1)
    ensures var m := ToNumber(anchor) + Offset(view, dir, k);
            Presses(view, anchor, dir, k) == if MIN <= m <= MAX then Some(Iso(m)) else None
    decreases k
  {
    hide Iso, IsDay, ToNumber, ShiftAnchor, Offset;
    var n := ToNumber(anchor);
    NumberOfDay(anchor);
    if k == 0 {
      assert Offset(view, dir, 0) == 0 by { NoOffset(view, dir); }
    } else {
      PressesAre(view, anchor, dir, k - 1);
      OffsetGrows(view, dir, k);
      var m := n + Offset(view, dir, k - 1);
      if MIN <= m <= MAX { OnePress(view, m, dir); }
    }
  }

  lemma NoOffset(view: View, dir: int)
    requires view != Month
    ensures Offset(view, dir, 0) == 0
  {
  }

  predicate Shows(view: View, anchor: string, day: string)
    requires IsDay(anchor) && IsDay(day)
  {
    ViewFirst(view, ToNumber(anchor)) <= ToNumber(day) <= ViewLast(view, ToNumber(anchor))
  }

  /**
   From any anchor one number of presses leads to the view that shows a given day (unless its anchor
   is off the calendar), and every number of presses that leads to a view showing it leads to that one.
   */
  lemma PressesTile(view: View, anchor: string, day: string) returns (dir: int, k: nat)
    requires view != Month && IsDay(anchor) && IsDay(day)
    ensures dir == 1 || dir == -1
    ensures var there := Presses(view, anchor, dir, k);
            && (there.Some? <==> MIN <= ToNumber(anchor) + Offset(view, dir, k) <= MAX)
            && (there.Some? ==> Shows(view, there.value, day))
    ensures forall d: int, j: nat :: (d == 1 || d == -1) ==>
              var other := Presses(view, anchor, d, j);
              other.Some? && Shows(view, other.value, day) ==> other == Presses(view, anchor, dir, k)
  {
    hide Iso, IsDay, ToNumber, Presses, ViewFirst, ViewLast;
    var n, m := ToNumber(anchor), ToNumber(day);
    var c := ViewsTile(view, n, m);
    dir, k := if c >= 0 then 1 else -1, if c >= 0 then c else -c;
    PressShows(view, anchor, day, dir, k);
    forall d: int, j: nat | d == 1 || d == -1
      ensures var other := Presses(view, anchor, d, j);
              other.Some? && Shows(view, other.value, day) ==> other == Presses(view, anchor, dir, k)
    {
      PressShows(view, anchor, day, d, j);
      var i: int := if d == 1 then j else 0 - j;
      assert Offset(view, d, j) == Step(view) * i;
    }
  }

  lemma PressShows(view: View, anchor: string, day: string, dir: int, k: nat)
    requires view != Month && IsDay(anchor) && IsDay(day) && (dir == 1 || dir == -1)
    ensures var m := ToNumber(anchor) + Offset(view, dir, k);
            var there := Presses(view, anchor, dir, k);
            && (there == if MIN <= m <= MAX then Some(Iso(m)) else None)
            && (there.Some? ==>
                  (Shows(view, there.value, day) <==> ViewFirst(view, m) <= ToNumber(day) <= ViewLast(view, m)))
  {
    hide Iso, IsDay, ToNumber, Presses, ViewFirst, ViewLast, Offset;
    PressesAre(view, anchor, dir, k);
    var m := ToNumber(anchor) + Offset(view, dir, k);
    if MIN <= m <= MAX { DayOfNumber(m); }
  }

  /** One month on, or back, is the first of the neighbouring month; there and back is the first of this one. */
  lemma MonthThereAndBack(anchor: string, dir: int)
    requires IsDay(anchor) && IsDay(ShiftAnchor(Month, anchor, dir))
    ensures var next := ShiftAnchor(Month, anchor, dir);
            && MonthIndex(ToNumber(next)) == MonthIndex(ToNumber(anchor)) + dir
            && next == FirstOfMonth(next)
            && ShiftAnchor(Month, next, -dir) == FirstOfMonth(anchor)
  {
    hide MonthStart, MonthIndex, Iso, ToNumber, IsDay;
    var i := MonthIndex(ToNumber(anchor));
    var next := ShiftAnchor(Month, anchor, dir);
    NoDayOutside(MonthStart(i + dir));
    DayOfNumber(MonthStart(i + dir));
    MonthIndexOfStart(i + dir);
    FirstOfMonthIsStart(next);
    NumberOfDay(FirstOfMonth(next));
    FirstOfMonthIsStart(anchor);
    NumberOfDay(FirstOfMonth(anchor));
  }
}
