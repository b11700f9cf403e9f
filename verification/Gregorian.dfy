/**
 Days of the proleptic Gregorian calendar as numbers and as `YYYY-MM-DD` strings. A day number
 counts from 1970-01-01 (section 21.4.1 of ECMA-262).
 */
module Gregorian {
  import opened Text

  datatype Date = Date(year: int, month: int, day: int)

  predicate IsLeap(y: int) { y % 4 == 0 && (y % 100 != 0 || y % 400 == 0) }

  /** The number of the first day of a year. */
  function DayFromYear(y: int): int {
    365 * (y - 1970) + (y - 1969) / 4 - (y - 1901) / 100 + (y - 1601) / 400
  }

  /** Days before a month in its year; month 13 stands for the whole year. */
  function DaysBeforeMonth(leap: bool, m: int): int
    requires 1 <= m <= 13
  {
    [0, 31, 59, 90, 120, 151, 181, 212, 243, 273, 304, 334, 365][m - 1] + if leap && m > 2 then 1 else 0
  }

  function DaysInMonth(y: int, m: int): (n: int)
    requires 1 <= m <= 12
    ensures 28 <= n <= 31
  {
    DaysBeforeMonth(IsLeap(y), m + 1) - DaysBeforeMonth(IsLeap(y), m)
  }

  predicate IsDate(d: Date) { 1 <= d.month <= 12 && 1 <= d.day <= DaysInMonth(d.year, d.month) }

  function Number(d: Date): int
    requires IsDate(d)
  {
    DayFromYear(d.year) + DaysBeforeMonth(IsLeap(d.year), d.month) + d.day - 1
  }

  lemma FourYearStep(y: int)
    ensures (y - 1968) / 4 == (y - 1969) / 4 + if y % 4 == 0 then 1 else 0
  {
    assert y - 1968 == 4 * (y / 4 - 492) + y % 4;
  }

  lemma CenturyStep(y: int)
    ensures (y - 1900) / 100 == (y - 1901) / 100 + if y % 100 == 0 then 1 else 0
  {
    assert y - 1900 == 100 * (y / 100 - 19) + y % 100;
  }

  lemma FourCenturyStep(y: int)
    ensures (y - 1600) / 400 == (y - 1601) / 400 + if y % 400 == 0 then 1 else 0
  {
    assert y - 1600 == 400 * (y / 400 - 4) + y % 400;
  }

  lemma Divisors(y: int)
    ensures y % 400 == 0 ==> y % 100 == 0
    ensures y % 100 == 0 ==> y % 4 == 0
  {
    var j, k := 4 * (y / 400) - y / 100, 25 * (y / 100) - y / 4;
    if y % 400 == 0 { assert y % 100 == 100 * j; }
    if y % 100 == 0 { assert y % 4 == 4 * k; }
  }

  /** The leap days counted by `DayFromYear` grow by one over a leap year. */
  lemma LeapStep(y: int)
    ensures DayFromYear(y + 1) == DayFromYear(y) + 365 + if IsLeap(y) then 1 else 0
  {
    FourYearStep(y);
    CenturyStep(y);
    FourCenturyStep(y);
    Divisors(y);
  }

  lemma YearLength(y: int)
    ensures DayFromYear(y + 1) == DayFromYear(y) + DaysBeforeMonth(IsLeap(y), 13)
  {
    hide DayFromYear, IsLeap;
    LeapStep(y);
  }

  /** The year holding a day: the largest whose first day is not after it, searched from `y`. */
  function YearOf(n: int, y: int): (r: int)
    ensures DayFromYear(r) <= n < DayFromYear(r + 1)
    decreases n < DayFromYear(y), if n < DayFromYear(y) then DayFromYear(y) - n else n - DayFromYear(y)
  {
    YearLength(y - 1);
    YearLength(y);
    if n < DayFromYear(y) then YearOf(n, y - 1)
    else if n >= DayFromYear(y + 1) then YearOf(n, y + 1)
    else y
  }

  lemma {:induction false} YearsInOrder(a: int, b: int)
    requires a <= b
    ensures DayFromYear(a) + 365 * (b - a) <= DayFromYear(b)
    decreases b - a
  {
    if a < b {
      YearsInOrder(a, b - 1);
      YearLength(b - 1);
    }
  }

  function MonthOf(leap: bool, k: int): (m: int)
    requires 0 <= k < DaysBeforeMonth(leap, 13)
    ensures 1 <= m <= 12 && DaysBeforeMonth(leap, m) <= k < DaysBeforeMonth(leap, m + 1)
  {
    MonthFrom(leap, k, 1)
  }

  function MonthFrom(leap: bool, k: int, m: int): (r: int)
    requires 1 <= m <= 12 && DaysBeforeMonth(leap, m) <= k < DaysBeforeMonth(leap, 13)
    ensures m <= r <= 12 && DaysBeforeMonth(leap, r) <= k < DaysBeforeMonth(leap, r + 1)
    decreases 12 - m
  {
    if k < DaysBeforeMonth(leap, m + 1) then m else MonthFrom(leap, k, m + 1)
  }

  function DateOf(n: int): (d: Date)
    ensures IsDate(d) && Number(d) == n
  {
    var y := YearOf(n, 1970);
    YearLength(y);
    var k := n - DayFromYear(y);
    var m := MonthOf(IsLeap(y), k);
    Date(y, m, k - DaysBeforeMonth(IsLeap(y), m) + 1)
  }

  /** Months in order, so that a day number fixes its date. */
  lemma MonthsInOrder(leap: bool, a: int, b: int)
    requires 1 <= a < b <= 13
    ensures DaysBeforeMonth(leap, a) + 28 <= DaysBeforeMonth(leap, b)
  {
  }

  /** Calendar order on dates is order of their numbers, and different dates have different numbers. */
  lemma DateOrder(a: Date, b: Date)
    requires IsDate(a) && IsDate(b)
    ensures Number(a) < Number(b) <==>
              a.year < b.year || (a.year == b.year && (a.month < b.month || (a.month == b.month && a.day < b.day)))
    ensures Number(a) == Number(b) <==> a == b
  {
    if a.year < b.year {
      NextYearIsLater(a, b);
    } else if b.year < a.year {
      NextYearIsLater(b, a);
    } else {
      MonthsWithinYear(a, b);
      MonthsWithinYear(b, a);
    }
  }

  lemma NextYearIsLater(a: Date, b: Date)
    requires IsDate(a) && IsDate(b) && a.year < b.year
    ensures Number(a) < Number(b)
  {
    YearLength(a.year);
    YearsInOrder(a.year + 1, b.year);
    DayOfYearBounds(a);
    DayOfYearBounds(b);
  }

  lemma DayOfYearBounds(d: Date)
    requires IsDate(d)
    ensures DayFromYear(d.year) <= Number(d) < DayFromYear(d.year) + DaysBeforeMonth(IsLeap(d.year), 13)
  {
    if d.month < 12 { MonthsInOrder(IsLeap(d.year), d.month + 1, 13); }
    if d.month > 1 { MonthsInOrder(IsLeap(d.year), 1, d.month); }
  }

  lemma MonthsWithinYear(a: Date, b: Date)
    requires IsDate(a) && IsDate(b) && a.year == b.year
    ensures a.month < b.month ==> Number(a) < Number(b)
  {
    if a.month + 1 < b.month { MonthsInOrder(IsLeap(a.year), a.month + 1, b.month); }
  }

  /** Dates and day numbers are in bijection. */
  lemma DateOfNumber(d: Date)
    requires IsDate(d)
    ensures DateOf(Number(d)) == d
  {
    DateOrder(DateOf(Number(d)), d);
  }

  // ---------------------------------------------------------------------------------------
  // Strings

  /** 0000-01-01 and 9999-12-31. */
  const MIN: int := -719528
  const MAX: int := 2932896

  lemma Bounds()
    ensures MIN == DayFromYear(0) && MAX + 1 == DayFromYear(10_000)
  {
  }

  /** A real calendar day with a four-digit year, which is what `parseDay` accepts. */
  predicate IsDay(s: string) {
    && |s| == 10 && s[4] == '-' && s[7] == '-'
    && AllDigits(s[..4]) && AllDigits(s[5..7]) && AllDigits(s[8..])
    && IsDate(Date(Value(s[..4]), Value(s[5..7]), Value(s[8..])))
  }

  function ToNumber(s: string): int
    requires IsDay(s)
  {
    Number(Date(Value(s[..4]), Value(s[5..7]), Value(s[8..])))
  }

  /**
   `toISOString().slice(0, 10)`. Years outside 0 to 9999 are written with a sign and six digits,
   so for them the cut keeps the sign, the year and the month.
   */
  function Iso(n: int): (s: string) {
    var d := DateOf(n);
    if 0 <= d.year <= 9999 then Fixed(d.year, 4) + "-" + Fixed(d.month, 2) + "-" + Fixed(d.day, 2)
    else if d.year < 0 then "-" + Fixed(-d.year, 6) + "-" + Fixed(d.month, 2)
    else "+" + Fixed(d.year, 6) + "-" + Fixed(d.month, 2)
  }

  lemma FourDigitYears(n: int)
    ensures MIN <= n <= MAX <==> 0 <= DateOf(n).year <= 9999
  {
    hide Number, DateOf, DayFromYear, IsLeap, DaysBeforeMonth;
    var d := DateOf(n);
    Bounds();
    DayOfYearBounds(d);
    YearLength(d.year);
    if d.year < 0 { YearsInOrder(d.year + 1, 0); } else { YearsInOrder(0, d.year); }
    if d.year <= 9999 { YearsInOrder(d.year + 1, 10_000); } else { YearsInOrder(10_000, d.year); }
  }

  lemma SmallPowers()
    ensures Pow10(2) == 100 && Pow10(4) == 10_000
  {
    assert Pow10(1) == 10 && Pow10(3) == 1000;
  }

  lemma Cut(y: string, m: string, d: string)
    requires |y| == 4 && |m| == 2 && |d| == 2
    ensures var s := y + "-" + m + "-" + d;
            |s| == 10 && s[4] == '-' && s[7] == '-' && s[..4] == y && s[5..7] == m && s[8..] == d
  {
  }

  /** Every day number in range has a day string, which names it. */
  lemma DayOfNumber(n: int)
    requires MIN <= n <= MAX
    ensures IsDay(Iso(n)) && ToNumber(Iso(n)) == n
  {
    FourDigitYears(n);
    var d := DateOf(n);
    SmallPowers();
    ValueOfFixed(d.year, 4);
    ValueOfFixed(d.month, 2);
    ValueOfFixed(d.day, 2);
    Cut(Fixed(d.year, 4), Fixed(d.month, 2), Fixed(d.day, 2));
  }

  /** Every day string is the string of its number, which is in range. */
  lemma NumberOfDay(s: string)
    requires IsDay(s)
    ensures MIN <= ToNumber(s) <= MAX && Iso(ToNumber(s)) == s
  {
    hide Number, DateOf, Value, Fixed, Pow10, DaysInMonth;
    var d := Date(Value(s[..4]), Value(s[5..7]), Value(s[8..]));
    DateOfNumber(d);
    ValueBound(s[..4]);
    SmallPowers();
    FourDigitYears(Number(d));
    FixedOfValue(s[..4]);
    FixedOfValue(s[5..7]);
    FixedOfValue(s[8..]);
    assert s == s[..4] + "-" + s[5..7] + "-" + s[8..];
  }

  /** Outside the four-digit years the cut string is not a day at all. */
  lemma NoDayOutside(n: int)
    ensures IsDay(Iso(n)) <==> MIN <= n <= MAX
  {
    FourDigitYears(n);
    if MIN <= n <= MAX {
      DayOfNumber(n);
    } else {
      assert !IsDigit(Iso(n)[0]);
      assert |Iso(n)| == 10 ==> Iso(n)[..4][0] == Iso(n)[0];
    }
  }

  lemma LessOfPair(y: string, x: string, y': string, x': string)
    requires |y| == |y'|
    ensures Less(y + "-" + x, y' + "-" + x') <==> Less(y, y') || (y == y' && Less(x, x'))
  {
    hide Less;
    LessOfConcat(y + "-", x, y' + "-", x');
    LessOfConcat(y, "-", y', "-");
    LessIrreflexive("-");
    assert (y + "-")[..|y|] == y && (y' + "-")[..|y|] == y';
  }

  lemma LessOfThree(y: string, m: string, d: string, y': string, m': string, d': string)
    requires |y| == |y'| && |m| == |m'|
    ensures Less(y + "-" + m + "-" + d, y' + "-" + m' + "-" + d') <==>
              Less(y, y') || (y == y' && (Less(m, m') || (m == m' && Less(d, d'))))
  {
    hide Less;
    LessOfPair(m, d, m', d');
    LessOfPair(y, m + "-" + d, y', m' + "-" + d');
    assert y + "-" + m + "-" + d == y + "-" + (m + "-" + d);
    assert y' + "-" + m' + "-" + d' == y' + "-" + (m' + "-" + d');
  }

  /** String order on days is numeric order on their numbers. */
  lemma DayOrder(a: int, b: int)
    requires MIN <= a <= MAX && MIN <= b <= MAX
    ensures Less(Iso(a), Iso(b)) <==> a < b
    ensures Iso(a) == Iso(b) <==> a == b
  {
    hide Less, Fixed, Value, Number, Pow10;
    FourDigitYears(a);
    FourDigitYears(b);
    var d, d' := DateOf(a), DateOf(b);
    DateOrder(d, d');
    SmallPowers();
    FixedOrder(d.year, d'.year, 4);
    FixedOrder(d.month, d'.month, 2);
    FixedOrder(d.day, d'.day, 2);
    LessOfThree(Fixed(d.year, 4), Fixed(d.month, 2), Fixed(d.day, 2),
                Fixed(d'.year, 4), Fixed(d'.month, 2), Fixed(d'.day, 2));
    DayOfNumber(a);
    DayOfNumber(b);
  }

  // ---------------------------------------------------------------------------------------
  // Reading date texts

  /** A year, or a year and a month. */
  predicate IsShort(s: string) {
    && (|s| == 4 || |s| == 7) && AllDigits(s[..4])
    && (|s| == 7 ==> s[4] == '-' && AllDigits(s[5..]) && 1 <= Value(s[5..]) <= 12)
  }

  /** Its first day. */
  function ShortDay(s: string): string
    requires IsShort(s)
  {
    s + if |s| == 4 then "-01-01" else "-01"
  }

  /** A year of six digits with its sign, alone or with a month. "-000000" is no year. */
  predicate IsSigned(s: string) {
    && (|s| == 7 || |s| == 10) && (s[0] == '+' || s[0] == '-') && AllDigits(s[1..7])
    && !(s[0] == '-' && Value(s[1..7]) == 0)
    && (|s| == 10 ==> s[7] == '-' && AllDigits(s[8..]) && 1 <= Value(s[8..]) <= 12)
  }

  function SignedFirst(s: string): Date
    requires IsSigned(s)
  {
    var y: int := Value(s[1..7]);
    Date(if s[0] == '-' then -y else y, if |s| == 7 then 1 else Value(s[8..]), 1)
  }

  /** The days a time value reaches. */
  function InTime(n: int): Option<int> { if -100_000_000 <= n <= 100_000_000 then Some(n) else None }

  /**
   The day `Date` reads from a date text of at most ten characters, followed by a time and `Z` (section
   21.4.1 of ECMA-262): a day is itself, a month or a year its first day. Anything else is invalid.
   */
  function Read(s: string): Option<int> {
    if IsDay(s) then Some(ToNumber(s))
    else if IsShort(s) then ShortDayIsDay(s); Some(ToNumber(ShortDay(s)))
    else if IsSigned(s) then InTime(Number(SignedFirst(s)))
    else None
  }

  lemma ValueOfFirst()
    ensures AllDigits("01") && Value("01") == 1
  {
    assert "01"[..1] == "0" && "0"[..0] == "";
  }

  lemma ShortFields(s: string)
    requires IsShort(s)
    ensures var d := ShortDay(s);
            && |d| == 10 && d[4] == '-' && d[7] == '-' && d[..4] == s[..4] && d[8..] == "01"
            && d[5..7] == (if |s| == 4 then "01" else s[5..]) && d[..|s|] == s && d == s + d[|s|..]
  {
    hide Value;
  }

  lemma ShortDayIsDay(s: string)
    requires IsShort(s)
    ensures IsDay(ShortDay(s))
  {
    hide Value;
    ShortFields(s);
    ValueOfFirst();
  }

  /** No day that begins with a short text comes before its first day. */
  lemma ShortIsFirst(s: string, d: string)
    requires IsShort(s) && IsDay(d) && d[..|s|] == s
    ensures IsDay(ShortDay(s)) && ToNumber(ShortDay(s)) <= ToNumber(d)
  {
    hide Value, Number;
    ShortDayIsDay(s);
    ShortFields(s);
    ValueOfFirst();
    assert d[..|s|][..4] == d[..4];
    if |s| == 7 { assert d[..7][5..] == d[5..7]; }
    var e := ShortDay(s);
    DateOrder(Date(Value(e[..4]), Value(e[5..7]), Value(e[8..])), Date(Value(d[..4]), Value(d[5..7]), Value(d[8..])));
  }

  /** String order between a day and a short text: the text stands just before its first day. */
  lemma ShortOrder(d: string, s: string)
    requires IsDay(d) && IsShort(s)
    ensures IsDay(ShortDay(s))
    ensures Less(d, s) <==> ToNumber(d) < ToNumber(ShortDay(s))
    ensures Less(s, d) <==> ToNumber(ShortDay(s)) <= ToNumber(d)
  {
    hide Value, Less, IsDay, ToNumber, Iso, IsShort, ShortDay;
    ShortDayIsDay(s);
    var e := ShortDay(s);
    ShortParts(s, d);
    var n := |s|;
    LessOfConcat(d[..n], d[n..], s, e[n..]);
    LessOfConcat(s, e[n..], d[..n], d[n..]);
    LessOfConcat(d[..n], d[n..], s, "");
    LessOfConcat(s, "", d[..n], d[n..]);
    EmptyIsLeast(d[n..]);
    DaysInStringOrder(d, e);
    if d[..n] == s { ShortIsFirst(s, d); }
  }

  lemma ShortParts(s: string, d: string)
    requires IsDay(d) && IsShort(s)
    ensures |s| < |d| && d == d[..|s|] + d[|s|..] && d[|s|..] != "" && s + "" == s
    ensures |ShortDay(s)| == |d| && ShortDay(s) == s + ShortDay(s)[|s|..]
  {
    hide Value;
    ShortFields(s);
  }

  lemma EmptyIsLeast(t: string)
    ensures !Less(t, "") && (t != "" ==> Less("", t))
    ensures !Less("", "")
  {
  }

  lemma DaysInStringOrder(c: string, d: string)
    requires IsDay(c) && IsDay(d)
    ensures Less(c, d) <==> ToNumber(c) < ToNumber(d)
    ensures Less(d, c) <==> ToNumber(d) < ToNumber(c)
    ensures c == d <==> ToNumber(c) == ToNumber(d)
  {
    hide IsDay, ToNumber, Iso, Less;
    NumberOfDay(c);
    NumberOfDay(d);
    DayOrder(ToNumber(c), ToNumber(d));
    DayOrder(ToNumber(d), ToNumber(c));
  }

  /** A day, month or year without a sign. */
  predicate IsPlain(s: string) { IsDay(s) || IsShort(s) }

  /** String order between a day and a plain text, in numbers. */
  lemma ReadOrder(d: string, s: string)
    requires IsDay(d) && IsPlain(s)
    ensures Read(s).Some? && MIN <= Read(s).value <= MAX
    ensures Less(d, s) <==> ToNumber(d) < Read(s).value
    ensures Less(s, d) <==> Read(s).value < ToNumber(d) || (Read(s).value == ToNumber(d) && !IsDay(s))
  {
    hide IsDay, ToNumber, Less, IsShort, ShortDay, IsSigned;
    if IsDay(s) {
      DaysInStringOrder(d, s);
      NumberOfDay(s);
    } else {
      ShortOrder(d, s);
      NumberOfDay(ShortDay(s));
    }
  }

  lemma {:induction false} LessOfLonger(a: string, more: string, b: string)
    requires Less(a + more, b)
    ensures Less(a, b)
    decreases |a|
  {
    if a != "" {
      assert (a + more)[1..] == a[1..] + more;
      if a[0] == b[0] { LessOfLonger(a[1..], more, b[1..]); }
    }
  }

  /** Plain texts in string order name days in order. */
  lemma PlainOrder(s: string, t: string)
    requires IsPlain(s) && IsPlain(t) && !Less(t, s)
    ensures Read(s).Some? && Read(t).Some? && Read(s).value <= Read(t).value
  {
    hide IsDay, ToNumber, Less, IsShort, ShortDay, IsSigned;
    if IsDay(t) {
      ReadOrder(t, s);
    } else {
      ShortDayIsDay(t);
      ReadOrder(ShortDay(t), s);
      ShortIsPrefix(t);
      if Less(ShortDay(t), s) { LessOfLonger(t, ShortDay(t)[|t|..], s); }
    }
  }

  lemma ShortIsPrefix(s: string)
    requires IsShort(s)
    ensures |s| <= |ShortDay(s)| && ShortDay(s) == s + ShortDay(s)[|s|..]
  {
    hide Value;
    ShortFields(s);
  }

  // ---------------------------------------------------------------------------------------
  // The calendar as everybody knows it

  /** Thirty days have April, June, September and November; February has 28, or 29 in a leap year. */
  function MonthLength(y: int, m: int): int {
    if m in {4, 6, 9, 11} then 30
    else if m == 2 then (if y % 4 == 0 && (y % 100 != 0 || y % 400 == 0) then 29 else 28)
    else 31
  }

  /** The days before each month agree with the lengths of the months. */
  lemma MonthLengths(y: int, m: int)
    requires 1 <= m <= 12
    ensures DaysInMonth(y, m) == MonthLength(y, m)
  {
  }

  /** From 1 March to the first of the k-th month after it, in the usual closed form. */
  lemma MonthsFromMarch(y: int, k: nat)
    requires k <= 11
    ensures Number(Date(y + (k + 2) / 12, (k + 2) % 12 + 1, 1)) - Number(Date(y, 3, 1)) == (153 * k + 2) / 5
  {
    hide DayFromYear, IsLeap;
    if k >= 10 { YearLength(y); }
  }

  /** The date after a date. */
  function NextDate(d: Date): Date {
    if d.day < MonthLength(d.year, d.month) then Date(d.year, d.month, d.day + 1)
    else if d.month < 12 then Date(d.year, d.month + 1, 1)
    else Date(d.year + 1, 1, 1)
  }

  /** The date after a date has the next number. */
  lemma NextNumber(d: Date)
    requires IsDate(d)
    ensures IsDate(NextDate(d)) && Number(NextDate(d)) == Number(d) + 1
  {
    hide DayFromYear, IsLeap;
    MonthLengths(d.year, d.month);
    if d.month == 12 { YearLength(d.year); }
  }

  /** The year, month and day a day string shows. */
  function Fields(s: string): Date
    requires IsDay(s)
  {
    Date(Value(s[..4]), Value(s[5..7]), Value(s[8..]))
  }

  /** The string after a day shows the date after its date. */
  lemma NextString(s: string)
    requires IsDay(s) && ToNumber(s) < MAX
    ensures var t := Iso(ToNumber(s) + 1);
            IsDay(t) && Fields(t) == NextDate(Fields(s))
  {
    hide Value, Number, Iso, MonthLength;
    NumberOfDay(s);
    NextNumber(Fields(s));
    DayOfNumber(ToNumber(s) + 1);
    var t := Iso(ToNumber(s) + 1);
    DateOrder(Fields(t), NextDate(Fields(s)));
  }

  /** Which texts are days: four digits, two and two, naming a day of that month. */
  lemma DaysExactly(y: nat, m: nat, d: nat)
    requires y <= 9999 && m <= 99 && d <= 99
    ensures IsDay(Fixed(y, 4) + "-" + Fixed(m, 2) + "-" + Fixed(d, 2)) <==>
              1 <= m <= 12 && 1 <= d <= MonthLength(y, m)
  {
    hide Value, Fixed, MonthLength, DaysInMonth;
    SmallPowers();
    ValueOfFixed(y, 4);
    ValueOfFixed(m, 2);
    ValueOfFixed(d, 2);
    Cut(Fixed(y, 4), Fixed(m, 2), Fixed(d, 2));
    if 1 <= m <= 12 { MonthLengths(y, m); }
  }

  /** Numbers count from 1970-01-01. */
  lemma Epoch()
    ensures Iso(0) == "1970-01-01"
  {
    hide DateOf, Fixed;
    assert Number(Date(1970, 1, 1)) == 0;
    DateOfNumber(Date(1970, 1, 1));
    EpochTexts();
  }

  lemma EpochTexts()
    ensures Fixed(1970, 4) == "1970" && Fixed(1, 2) == "01"
  {
    assert Fixed(1, 1) == "1" && Fixed(19, 2) == "19" && Fixed(197, 3) == "197";
  }
}
