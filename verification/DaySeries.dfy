/**
 A sparse day series as every day of its window.

 The order of `localeCompare` is a parameter: `rank` gives each text its place.
 */
module DaySeries {
  import opened Text
  import opened Gregorian
  import opened Sorting

  datatype Point<T> = Point(day: string, value: T)

  /** What the caller asks for: where the window starts and ends, if anywhere, and how long it may be. */
  datatype Request = Request(from: Option<string>, to: Option<string>, maxDays: int)

  /** The API keys points by real UTC days. */
  ghost predicate OnRealDays<T>(s: seq<Point<T>>) { forall p :: p in s ==> IsDay(FirstTen(p.day)) }

  /** `day.slice(0, 10)`, so that a day may carry a time. */
  function FirstTen(s: string): string { if |s| <= 10 then s else s[..10] }

  function Key<T>(p: Point<T>): int { if IsDay(FirstTen(p.day)) then ToNumber(FirstTen(p.day)) else 0 }

  function ByDay<T>(rank: string -> real): (Point<T>, Point<T>) -> bool {
    (p: Point<T>, q: Point<T>) => rank(p.day) <= rank(q.day)
  }

  /** Texts that begin with a day are ranked by it, in the string order that `DayOrder` shows to be day order. */
  ghost predicate DaysInOrder(rank: string -> real) {
    forall x, y :: IsDay(FirstTen(x)) && IsDay(FirstTen(y)) && ToNumber(FirstTen(x)) < ToNumber(FirstTen(y)) ==>
      rank(x) < rank(y)
  }

  lemma ByDayIsOrder<T(!new)>(rank: string -> real)
    ensures Order(ByDay<T>(rank))
  {
  }

  // ---------------------------------------------------------------------------------------
  // The parts of the answer

  /** The points on one day, in order; a map built from the series keeps the last. */
  function On<T>(s: seq<Point<T>>, k: int): seq<Point<T>> {
    if s == [] then []
    else On(s[..|s| - 1], k) + if Key(s[|s| - 1]) == k then [s[|s| - 1]] else []
  }

  function Lookup<T>(s: seq<Point<T>>, k: int, empty: string -> T): Point<T> {
    var on := On(s, k);
    if on == [] then Point(Iso(k), empty(Iso(k))) else on[|on| - 1]
  }

  /** One point for each day from `a` to `b`. */
  function Window<T>(s: seq<Point<T>>, a: int, b: int, empty: string -> T): seq<Point<T>>
    decreases b - a
  {
    if a > b then [] else Window(s, a, b - 1, empty) + [Lookup(s, b, empty)]
  }

  function Beyond<T>(s: seq<Point<T>>, a: int, b: int): seq<Point<T>> {
    if s == [] then []
    else
      var p := s[|s| - 1];
      Beyond(s[..|s| - 1], a, b) + if a <= Key(p) <= b then [] else [p]
  }

  function Within<T>(s: seq<Point<T>>, a: int, b: int): seq<Point<T>> {
    if s == [] then []
    else
      var p := s[|s| - 1];
      Within(s[..|s| - 1], a, b) + if a <= Key(p) <= b then [p] else []
  }

  /** The points whose text is before `start` or after `end`, as the source's second loop compares. */
  function TextBeyond<T>(s: seq<Point<T>>, start: string, end: string): seq<Point<T>> {
    if s == [] then []
    else
      var p := s[|s| - 1];
      TextBeyond(s[..|s| - 1], start, end)
      + if Less(FirstTen(p.day), start) || Less(end, FirstTen(p.day)) then [p] else []
  }

  /** The series with every day of a window, ideally: what lies beyond the window is kept by its day. */
  function Filled<T>(sorted: seq<Point<T>>, a: int, b: int, empty: string -> T, rank: string -> real): seq<Point<T>> {
    Sort(ByDay<T>(rank), Window(sorted, a, b, empty) + Beyond(sorted, a, b))
  }

  /** As the source does it: what lies beyond the window is kept by its text. */
  function FilledBetween<T>(sorted: seq<Point<T>>, start: string, end: string, empty: string -> T, rank: string -> real)
    : seq<Point<T>>
    requires Read(start).Some? && Read(end).Some?
  {
    Sort(ByDay<T>(rank),
         Window(sorted, Read(start).value, Read(end).value, empty) + TextBeyond(sorted, start, end))
  }

  /** Where the window starts and ends: as asked for, else where the series does. */
  function Edge<T>(asked: Option<string>, sorted: seq<Point<T>>, last: bool): string {
    if asked.Some? then FirstTen(asked.value)
    else if sorted == [] then ""
    else FirstTen(sorted[if last then |sorted| - 1 else 0].day)
  }

  predicate Fillable(start: string, end: string, maxDays: int) {
    && start != "" && end != "" && !Less(end, start)
    && Read(start).Some? && Read(end).Some?
    && Read(end).value - Read(start).value + 1 <= maxDays
  }

  function Start<T>(q: Request, sorted: seq<Point<T>>): string { Edge(q.from, sorted, false) }

  function End<T>(q: Request, sorted: seq<Point<T>>): string { Edge(q.to, sorted, true) }

  predicate CanFill<T>(q: Request, sorted: seq<Point<T>>) { Fillable(Start(q, sorted), End(q, sorted), q.maxDays) }

  function Fill<T>(series: seq<Point<T>>, q: Request, empty: string -> T, rank: string -> real): seq<Point<T>> {
    var sorted := Sort(ByDay<T>(rank), series);
    if CanFill(q, sorted) then FilledBetween(sorted, Start(q, sorted), End(q, sorted), empty, rank) else sorted
  }

  // ---------------------------------------------------------------------------------------
  // The source's loops

  /** The map holds each day's last point. */
  ghost predicate MapsDays<T>(byDay: map<string, Point<T>>, sorted: seq<Point<T>>) {
    forall k :: if On(sorted, k) == [] then Iso(k) !in byDay
                else Iso(k) in byDay && byDay[Iso(k)] == On(sorted, k)[|On(sorted, k)| - 1]
  }

  /** Outside the four-digit years there is no point, and no key. */
  lemma NothingOutside<T>(sorted: seq<Point<T>>, k: int)
    requires OnRealDays(sorted) && !(MIN <= k <= MAX)
    ensures On(sorted, k) == [] && !IsDay(Iso(k))
  {
    hide IsDay, ToNumber, Iso, On;
    NoDayOutside(k);
    if On(sorted, k) != [] {
      HasOneOn(sorted, k);
      var i :| 0 <= i < |sorted| && Key(sorted[i]) == k;
      assert sorted[i] in sorted;
      NumberOfDay(FirstTen(sorted[i].day));
    }
  }

  method MapByDay<T>(sorted: seq<Point<T>>) returns (byDay: map<string, Point<T>>)
    requires OnRealDays(sorted)
    ensures MapsDays(byDay, sorted)
  {
    hide Iso, IsDay, ToNumber;
    byDay := map[];
    for i := 0 to |sorted|
      invariant MapsDays(byDay, sorted[..i])
    {
      var p := sorted[i];
      assert sorted[..i + 1][..i] == sorted[..i];
      assert p in sorted;
      forall k ensures Iso(k) == FirstTen(p.day) <==> k == Key(p) { OnlyItsKey(p, k); }
      byDay := byDay[FirstTen(p.day) := p];
    }
    assert sorted[..|sorted|] == sorted;
  }

  lemma OnlyItsKey<T>(p: Point<T>, k: int)
    requires IsDay(FirstTen(p.day))
    ensures Iso(k) == FirstTen(p.day) <==> k == Key(p)
  {
    hide Iso, IsDay, ToNumber;
    NumberOfDay(FirstTen(p.day));
    NoDayOutside(k);
    if MIN <= k <= MAX { DayOrder(k, Key(p)); }
  }

  method EveryDay<T>(byDay: map<string, Point<T>>, ghost sorted: seq<Point<T>>, start: int, last: int,
                     empty: string -> T)
    returns (out: seq<Point<T>>)
    requires MapsDays(byDay, sorted)
    ensures out == Window(sorted, start, last, empty)
  {
    hide Iso, On;
    out := [];
    var cursor := start;
    while cursor <= last
      invariant start <= cursor && (cursor <= last + 1 || cursor == start)
      invariant out == Window(sorted, start, cursor - 1, empty)
    {
      var key := Iso(cursor);
      out := out + [if key in byDay then byDay[key] else Point(key, empty(key))];
      cursor := cursor + 1;
    }
    EmptyWindow(sorted, start, last, cursor - 1, empty);
  }

  lemma EmptyWindow<T>(sorted: seq<Point<T>>, a: int, b: int, c: int, empty: string -> T)
    ensures (b < a && c < a) || b == c ==> Window(sorted, a, b, empty) == Window(sorted, a, c, empty)
  {
  }

  method KeepBeyond<T>(sorted: seq<Point<T>>, start: string, end: string) returns (out: seq<Point<T>>)
    ensures out == TextBeyond(sorted, start, end)
  {
    hide Less;
    out := [];
    for i := 0 to |sorted|
      invariant out == TextBeyond(sorted[..i], start, end)
    {
      var p := sorted[i];
      assert sorted[..i + 1][..i] == sorted[..i];
      if Less(FirstTen(p.day), start) || Less(end, FirstTen(p.day)) {
        out := out + [p];
      }
    }
    assert sorted[..|sorted|] == sorted;
  }

  method FillDays<T>(series: seq<Point<T>>, q: Request, empty: string -> T, rank: string -> real)
    returns (out: seq<Point<T>>)
    requires OnRealDays(series)
    ensures out == Fill(series, q, empty, rank)
  {
    hide Iso, IsDay, Sort, On, Less, TextBeyond, Key, FirstTen, MapsDays, Window, Read;
    var sorted := Sort(ByDay<T>(rank), series);
    SortKeeps(ByDay<T>(rank), series);
    SameElements(sorted, series);
    var start, end := Start(q, sorted), End(q, sorted);
    if start == "" || end == "" || Less(end, start) {
      return sorted;
    }
    var cursor, last := Read(start), Read(end);
    if cursor.None? || last.None? {
      return sorted;
    }
    if last.value - cursor.value + 1 > q.maxDays {
      return sorted;
    }
    var byDay := MapByDay(sorted);
    out := EveryDay(byDay, sorted, cursor.value, last.value, empty);
    var beyond := KeepBeyond(sorted, start, end);
    out := Sort(ByDay<T>(rank), out + beyond);
  }

  // ---------------------------------------------------------------------------------------
  // Sums

  function Sum<T>(f: Point<T> -> int, s: seq<Point<T>>): int {
    if s == [] then 0 else Sum(f, s[..|s| - 1]) + f(s[|s| - 1])
  }

  lemma {:induction false} SumOfConcat<T>(f: Point<T> -> int, s: seq<Point<T>>, t: seq<Point<T>>)
    ensures Sum(f, s + t) == Sum(f, s) + Sum(f, t)
    decreases |t|
  {
    if t == [] {
      assert s + t == s;
    } else {
      assert (s + t)[..|s + t| - 1] == s + t[..|t| - 1];
      SumOfConcat(f, s, t[..|t| - 1]);
    }
  }

  lemma SumOfOne<T>(f: Point<T> -> int, p: Point<T>)
    ensures Sum(f, [p]) == f(p)
  {
    assert [p][..0] == [];
  }

  lemma WithoutAt<T>(f: Point<T> -> int, t: seq<Point<T>>, i: nat)
    requires i < |t|
    ensures multiset(t[..i] + t[i + 1..]) == multiset(t) - multiset{t[i]}
    ensures Sum(f, t) == Sum(f, t[..i] + t[i + 1..]) + f(t[i])
  {
    hide Sum;
    var u, v, m := t[..i], t[i + 1..], [t[i]];
    assert t == u + (m + v);
    SumOfConcat(f, u, v);
    SumOfConcat(f, u, m + v);
    SumOfConcat(f, m, v);
    SumOfOne(f, t[i]);
  }

  lemma {:induction false} SumOfPermutation<T>(f: Point<T> -> int, s: seq<Point<T>>, t: seq<Point<T>>)
    requires multiset(s) == multiset(t)
    ensures Sum(f, s) == Sum(f, t)
    decreases |s|
  {
    hide Sum;
    SameElements(s, t);
    if s == [] {
      assert t == [];
    } else {
      var n := |s| - 1;
      assert s[n] in s;
      var i :| 0 <= i < |t| && t[i] == s[n];
      var u := t[..i] + t[i + 1..];
      WithoutAt(f, t, i);
      WithoutAt(f, s, n);
      assert s[..n] + s[n + 1..] == s[..n];
      SumOfPermutation(f, s[..n], u);
    }
  }

  // ---------------------------------------------------------------------------------------
  // Filling, ideally, is faithful

  ghost predicate DistinctDays<T>(s: seq<Point<T>>) {
    forall i, j :: 0 <= i < j < |s| ==> FirstTen(s[i].day) != FirstTen(s[j].day)
  }

  /** No two points on one day. */
  ghost predicate Apart<T>(s: seq<Point<T>>) { forall k :: |On(s, k)| <= 1 }

  /** The empty points a window needs. */
  function Added<T>(s: seq<Point<T>>, a: int, b: int, empty: string -> T): seq<Point<T>>
    decreases b - a
  {
    if a > b then []
    else Added(s, a, b - 1, empty) + if On(s, b) == [] then [Point(Iso(b), empty(Iso(b)))] else []
  }

  /** How many points share a day does not depend on their order. */
  lemma OnOfPermutation<T>(s: seq<Point<T>>, t: seq<Point<T>>, k: int)
    requires multiset(s) == multiset(t)
    ensures |On(s, k)| == |On(t, k)|
  {
    OnIsSum(s, k);
    OnIsSum(t, k);
    SumOfPermutation(OneIfOn<T>(k), s, t);
  }

  function OneIfOn<T>(k: int): Point<T> -> int { (p: Point<T>) => if Key(p) == k then 1 else 0 }

  lemma {:induction false} OnIsSum<T>(s: seq<Point<T>>, k: int)
    ensures |On(s, k)| == Sum(OneIfOn<T>(k), s)
    decreases |s|
  {
    hide Key;
    if s != [] { OnIsSum(s[..|s| - 1], k); }
  }

  lemma {:induction false} OnOfConcat<T>(s: seq<Point<T>>, t: seq<Point<T>>, k: int)
    ensures On(s + t, k) == On(s, k) + On(t, k)
    decreases |t|
  {
    hide Key;
    if t == [] {
      assert s + t == s;
    } else {
      var n := |t| - 1;
      assert (s + t)[..|s + t| - 1] == s + t[..n];
      OnOfConcat(s, t[..n], k);
    }
  }

  /** A point at position `i` is among those of its day. */
  lemma {:induction false} OnHas<T>(s: seq<Point<T>>, i: nat)
    requires i < |s|
    ensures |On(s, Key(s[i]))| >= 1
    ensures forall j :: i < j < |s| && Key(s[j]) == Key(s[i]) ==> |On(s, Key(s[i]))| >= 2
    decreases |s|
  {
    hide Key;
    var n := |s| - 1;
    if i < n {
      assert s[..n][i] == s[i];
      OnHas(s[..n], i);
      assert forall j :: i < j < n ==> s[..n][j] == s[j];
    }
  }

  lemma {:induction false} OnIsKeyed<T>(s: seq<Point<T>>, k: int)
    ensures forall i :: 0 <= i < |On(s, k)| ==> Key(On(s, k)[i]) == k
    decreases |s|
  {
    hide Key;
    if s != [] { OnIsKeyed(s[..|s| - 1], k); }
  }

  /** Different real days have different numbers. */
  lemma {:induction false} DistinctAreApart<T>(s: seq<Point<T>>, k: int)
    requires OnRealDays(s) && DistinctDays(s)
    ensures |On(s, k)| <= 1
    ensures |On(s, k)| == 1 ==> exists i :: 0 <= i < |s| && Key(s[i]) == k
    decreases |s|
  {
    hide Key, IsDay, ToNumber;
    if s != [] {
      var n := |s| - 1;
      var p := s[n];
      assert s == s[..n] + [p];
      DistinctAreApart(s[..n], k);
      if Key(p) == k && |On(s[..n], k)| == 1 {
        var i :| 0 <= i < |s[..n]| && Key(s[..n][i]) == k;
        assert s[i] in s && p in s;
        SameKeySameDay(s[i], p);
        assert false;
      }
      if Key(p) == k { assert Key(s[n]) == k; }
      if |On(s[..n], k)| == 1 {
        var i :| 0 <= i < |s[..n]| && Key(s[..n][i]) == k;
        assert Key(s[i]) == k;
      }
    }
  }

  lemma SameKeySameDay<T>(p: Point<T>, q: Point<T>)
    requires IsDay(FirstTen(p.day)) && IsDay(FirstTen(q.day)) && Key(p) == Key(q)
    ensures FirstTen(p.day) == FirstTen(q.day)
  {
    hide IsDay, ToNumber, Iso;
    NumberOfDay(FirstTen(p.day));
    NumberOfDay(FirstTen(q.day));
    assert Key(p) == ToNumber(FirstTen(p.day)) && Key(q) == ToNumber(FirstTen(q.day));
  }

  lemma {:induction false} InsideOrBeyond<T>(s: seq<Point<T>>, a: int, b: int)
    ensures multiset(Within(s, a, b)) + multiset(Beyond(s, a, b)) == multiset(s)
    decreases |s|
  {
    hide Key;
    if s != [] {
      var head, p := s[..|s| - 1], s[|s| - 1];
      InsideOrBeyond(head, a, b);
      assert s == head + [p];
      if a <= Key(p) <= b {
        assert Beyond(s, a, b) == Beyond(head, a, b);
      } else {
        assert Within(s, a, b) == Within(head, a, b);
      }
    }
  }

  lemma {:induction false} WithinGrows<T>(s: seq<Point<T>>, a: int, b: int)
    ensures a <= b ==> multiset(Within(s, a, b)) == multiset(Within(s, a, b - 1)) + multiset(On(s, b))
    ensures a > b ==> Within(s, a, b) == []
    decreases |s|
  {
    hide Key;
    if s != [] { WithinGrows(s[..|s| - 1], a, b); }
  }

  /** The window's points are those of the series in it, and the empty ones added. */
  lemma {:induction false} WindowIsWithinAndAdded<T>(s: seq<Point<T>>, a: int, b: int, empty: string -> T)
    requires Apart(s)
    ensures multiset(Window(s, a, b, empty)) == multiset(Within(s, a, b)) + multiset(Added(s, a, b, empty))
    decreases b - a
  {
    hide Key, Within, On, Iso, Lookup, Apart;
    WithinGrows(s, a, b);
    if a <= b {
      WindowIsWithinAndAdded(s, a, b - 1, empty);
      OneLookup(s, b, empty);
    }
  }

  lemma OneLookup<T>(s: seq<Point<T>>, k: int, empty: string -> T)
    requires Apart(s)
    ensures [Lookup(s, k, empty)] == if On(s, k) == [] then [Point(Iso(k), empty(Iso(k)))] else On(s, k)
  {
    hide Key, On, Iso;
    assert |On(s, k)| <= 1;
  }

  /** The filled series is the series and the empty points added, nothing lost and nothing else. */
  lemma FilledIsSeriesAndAdded<T>(s: seq<Point<T>>, a: int, b: int, empty: string -> T, rank: string -> real)
    requires Apart(s)
    ensures multiset(Filled(s, a, b, empty, rank)) == multiset(s) + multiset(Added(s, a, b, empty))
  {
    hide Key, Within, Beyond, On, Window, Added, Sort, Apart;
    SortKeeps(ByDay<T>(rank), Window(s, a, b, empty) + Beyond(s, a, b));
    WindowIsWithinAndAdded(s, a, b, empty);
    InsideOrBeyond(s, a, b);
  }

  lemma KeyOfAdded<T>(k: int, value: T)
    requires MIN <= k <= MAX
    ensures IsDay(Iso(k)) && Key(Point(Iso(k), value)) == k
  {
    DayOfNumber(k);
  }

  lemma {:induction false} AddedOn<T>(s: seq<Point<T>>, a: int, b: int, empty: string -> T, k: int)
    requires MIN <= a && b <= MAX
    ensures |On(Added(s, a, b, empty), k)| == if a <= k <= b && On(s, k) == [] then 1 else 0
    decreases b - a
  {
    hide Key, Iso, IsDay;
    if a <= b {
      AddedOn(s, a, b - 1, empty, k);
      if On(s, b) == [] {
        KeyOfAdded(b, empty(Iso(b)));
        var more := [Point(Iso(b), empty(Iso(b)))];
        OnOfConcat(Added(s, a, b - 1, empty), more, k);
        assert more[..0] == [];
      } else {
        assert Added(s, a, b, empty) == Added(s, a, b - 1, empty);
      }
    }
  }

  /** Each window day occurs exactly once in the answer, and every other day as often as it was given. */
  lemma FilledDays<T>(s: seq<Point<T>>, a: int, b: int, empty: string -> T, k: int, rank: string -> real)
    requires Apart(s) && MIN <= a && b <= MAX
    ensures |On(Filled(s, a, b, empty, rank), k)| == if a <= k <= b then 1 else |On(s, k)|
  {
    hide Key, On, Filled, Added, Iso;
    FilledIsSeriesAndAdded(s, a, b, empty, rank);
    OnOfPermutation(Filled(s, a, b, empty, rank), s + Added(s, a, b, empty), k);
    OnOfConcat(s, Added(s, a, b, empty), k);
    AddedOn(s, a, b, empty, k);
  }

  lemma SortedApartIsStrict<T>(s: seq<Point<T>>, rank: string -> real)
    requires OnRealDays(s) && DaysInOrder(rank) && Sorted(ByDay<T>(rank), s) && Apart(s)
    ensures Strict(ByDay<T>(rank), s)
  {
    hide IsDay, ToNumber, On;
    forall i, j | 0 <= i < j < |s| ensures ByDay<T>(rank)(s[i], s[j]) && !ByDay<T>(rank)(s[j], s[i]) {
      OnHas(s, i);
      assert ByDay<T>(rank)(s[i], s[j]);
      assert |On(s, Key(s[i]))| <= 1;
      assert s[i] in s && s[j] in s;
    }
  }

  lemma FilledIsOnRealDays<T>(s: seq<Point<T>>, a: int, b: int, empty: string -> T, rank: string -> real)
    requires OnRealDays(s) && Apart(s) && MIN <= a && b <= MAX
    ensures OnRealDays(Filled(s, a, b, empty, rank))
  {
    hide Key, On, IsDay, Filled, Added, Apart;
    var t := Filled(s, a, b, empty, rank);
    FilledIsSeriesAndAdded(s, a, b, empty, rank);
    forall p | p in t ensures IsDay(FirstTen(p.day)) {
      assert p in multiset(t);
      if p !in s {
        assert p in multiset(Added(s, a, b, empty));
        AddedAreInWindow(s, a, b, empty, p);
      }
    }
  }

  lemma {:induction false} AddedAreInWindow<T>(s: seq<Point<T>>, a: int, b: int, empty: string -> T, p: Point<T>)
    requires MIN <= a && b <= MAX && p in Added(s, a, b, empty)
    ensures IsDay(FirstTen(p.day)) && a <= Key(p) <= b
    decreases b - a
  {
    hide Key, On, IsDay, Iso;
    if p in Added(s, a, b - 1, empty) {
      AddedAreInWindow(s, a, b - 1, empty, p);
    } else {
      KeyOfAdded(b, empty(Iso(b)));
    }
  }

  /** The answer runs in strictly increasing order of days. */
  lemma FilledIsStrict<T(!new)>(s: seq<Point<T>>, a: int, b: int, empty: string -> T, rank: string -> real)
    requires OnRealDays(s) && DaysInOrder(rank) && Apart(s) && MIN <= a && b <= MAX
    ensures Strict(ByDay<T>(rank), Filled(s, a, b, empty, rank)) && Apart(Filled(s, a, b, empty, rank))
  {
    hide Key, On, Iso, IsDay, Window, Beyond, Sort, DaysInOrder;
    FilledIsSorted(s, a, b, empty, rank);
    FilledIsOnRealDays(s, a, b, empty, rank);
    forall k ensures |On(Filled(s, a, b, empty, rank), k)| <= 1 { FilledDays(s, a, b, empty, k, rank); }
    SortedApartIsStrict(Filled(s, a, b, empty, rank), rank);
  }

  lemma {:induction false} SumOfAdded<T>(f: Point<T> -> int, s: seq<Point<T>>, a: int, b: int, empty: string -> T)
    requires forall d :: f(Point(d, empty(d))) == 0
    ensures Sum(f, Added(s, a, b, empty)) == 0
    decreases b - a
  {
    hide On, Iso;
    if a <= b {
      SumOfAdded(f, s, a, b - 1, empty);
      var before := Added(s, a, b - 1, empty);
      if On(s, b) == [] {
        assert Added(s, a, b, empty)[..|before|] == before;
      } else {
        assert Added(s, a, b, empty) == before;
      }
    }
  }

  /** Any sum in which an empty point counts zero is unchanged by filling. */
  lemma FilledSum<T>(f: Point<T> -> int, s: seq<Point<T>>, a: int, b: int, empty: string -> T, rank: string -> real)
    requires Apart(s) && forall d :: f(Point(d, empty(d))) == 0
    ensures Sum(f, Filled(s, a, b, empty, rank)) == Sum(f, s)
  {
    hide Sum, Filled, Added, Apart;
    FilledIsSeriesAndAdded(s, a, b, empty, rank);
    SumOfPermutation(f, Filled(s, a, b, empty, rank), s + Added(s, a, b, empty));
    SumOfConcat(f, s, Added(s, a, b, empty));
    SumOfAdded(f, s, a, b, empty);
  }

  lemma {:induction false} NothingAdded<T>(s: seq<Point<T>>, a: int, b: int, empty: string -> T)
    requires forall k :: a <= k <= b ==> |On(s, k)| == 1
    ensures Added(s, a, b, empty) == []
    decreases b - a
  {
    hide On, Iso;
    if a <= b {
      NothingAdded(s, a, b - 1, empty);
      assert |On(s, b)| == 1;
    }
  }

  /** The same window filled twice is filled once. */
  lemma FilledTwice<T(!new)>(s: seq<Point<T>>, a: int, b: int, empty: string -> T, rank: string -> real)
    requires OnRealDays(s) && DaysInOrder(rank) && Apart(s) && MIN <= a && b <= MAX
    ensures Filled(Filled(s, a, b, empty, rank), a, b, empty, rank) == Filled(s, a, b, empty, rank)
  {
    hide Key, On, Iso, IsDay, Filled, Strict, Sorted, ByDay, DaysInOrder;
    var t := Filled(s, a, b, empty, rank);
    FilledIsStrict(s, a, b, empty, rank);
    forall k | a <= k <= b ensures |On(t, k)| == 1 { FilledDays(s, a, b, empty, k, rank); }
    NothingAdded(t, a, b, empty);
    FilledIsSeriesAndAdded(t, a, b, empty, rank);
    FilledIsSorted(t, a, b, empty, rank);
    SortedIsUnique(ByDay<T>(rank), t, Filled(t, a, b, empty, rank));
  }

  lemma FilledIsSorted<T(!new)>(s: seq<Point<T>>, a: int, b: int, empty: string -> T, rank: string -> real)
    ensures Sorted(ByDay<T>(rank), Filled(s, a, b, empty, rank))
  {
    hide Window, Beyond, Sort;
    ByDayIsOrder<T>(rank);
    SortSorts(ByDay<T>(rank), Window(s, a, b, empty) + Beyond(s, a, b));
  }

  lemma {:induction false} HasOneOn<T>(s: seq<Point<T>>, k: int)
    requires |On(s, k)| >= 1
    ensures exists i :: 0 <= i < |s| && Key(s[i]) == k
    decreases |s|
  {
    hide Key;
    var n := |s| - 1;
    if Key(s[n]) != k {
      HasOneOn(s[..n], k);
      var i :| 0 <= i < n && Key(s[..n][i]) == k;
      assert Key(s[i]) == k;
    }
  }

  // ---------------------------------------------------------------------------------------
  // Windows that end in a month or a year

  /** Whether a day counts as beyond the window by its text: a short end text stands before its own day. */
  predicate IsBeyond(k: int, a: int, b: int, end: string) { k < a || k > b || (k == b && !IsDay(end)) }

  lemma BeyondByText<T>(p: Point<T>, start: string, end: string)
    requires IsDay(FirstTen(p.day)) && IsPlain(start) && IsPlain(end)
    ensures Read(start).Some? && Read(end).Some?
    ensures Less(FirstTen(p.day), start) || Less(end, FirstTen(p.day))
       <==> IsBeyond(Key(p), Read(start).value, Read(end).value, end)
  {
    hide IsDay, ToNumber, Less, Read, IsPlain;
    ReadOrder(FirstTen(p.day), start);
    ReadOrder(FirstTen(p.day), end);
  }

  /** With a full day as its end, or no point on the end's day, the source keeps what it should. */
  lemma {:induction false} TextBeyondIsBeyond<T>(s: seq<Point<T>>, start: string, end: string)
    requires OnRealDays(s) && IsPlain(start) && IsPlain(end)
    ensures Read(start).Some? && Read(end).Some?
    ensures IsDay(end) || On(s, Read(end).value) == [] ==>
              TextBeyond(s, start, end) == Beyond(s, Read(start).value, Read(end).value)
    decreases |s|
  {
    hide IsDay, Less, Read, IsPlain, Key;
    PlainReads(start);
    PlainReads(end);
    if s != [] {
      var n := |s| - 1;
      assert s == s[..n] + [s[n]] && s[n] in s;
      TextBeyondIsBeyond(s[..n], start, end);
      BeyondByText(s[n], start, end);
    }
  }

  lemma PlainReads(s: string)
    requires IsPlain(s)
    ensures s != "" && Read(s).Some? && MIN <= Read(s).value <= MAX
  {
    hide Iso, ToNumber, IsShort, ShortDay;
    if IsDay(s) {
      NumberOfDay(s);
    } else {
      ShortDayIsDay(s);
      NumberOfDay(ShortDay(s));
      ShortIsNotEmpty(s);
    }
  }

  lemma ShortIsNotEmpty(s: string)
    requires IsShort(s)
    ensures s != ""
  {
  }

  lemma OnAfter<T>(s: seq<Point<T>>, p: Point<T>, k: int)
    ensures |On(s + [p], k)| == |On(s, k)| + if Key(p) == k then 1 else 0
  {
    hide Key;
    assert (s + [p])[..|s|] == s;
  }

  lemma {:induction false} TextBeyondOn<T>(s: seq<Point<T>>, start: string, end: string, k: int)
    requires OnRealDays(s) && IsPlain(start) && IsPlain(end)
    ensures Read(start).Some? && Read(end).Some?
    ensures |On(TextBeyond(s, start, end), k)|
         == if IsBeyond(k, Read(start).value, Read(end).value, end) then |On(s, k)| else 0
    decreases |s|
  {
    hide IsDay, Less, Read, IsPlain, Key, FirstTen, IsBeyond, On;
    PlainReads(start);
    PlainReads(end);
    if s == [] {
      NoneOn<T>(k);
    } else {
      var n := |s| - 1;
      var head, p := s[..n], s[n];
      var few := TextBeyond(head, start, end);
      assert s == head + [p] && p in s;
      TextBeyondOn(head, start, end, k);
      BeyondByText(p, start, end);
      OnAfter(head, p, k);
      if Less(FirstTen(p.day), start) || Less(end, FirstTen(p.day)) {
        OnAfter(few, p, k);
      } else {
        assert TextBeyond(s, start, end) == few;
      }
    }
  }

  lemma NoneOn<T>(k: int)
    ensures On<T>([], k) == []
  {
  }

  lemma {:induction false} WindowOn<T>(s: seq<Point<T>>, a: int, b: int, empty: string -> T, k: int)
    requires MIN <= a && b <= MAX
    ensures |On(Window(s, a, b, empty), k)| == if a <= k <= b then 1 else 0
    decreases b - a
  {
    hide Key, Iso, Lookup;
    if a <= b {
      WindowOn(s, a, b - 1, empty, k);
      LookupKey(s, b, empty);
      var p := Lookup(s, b, empty);
      OnOfConcat(Window(s, a, b - 1, empty), [p], k);
      assert [p][..0] == [];
    }
  }

  lemma LookupKey<T>(s: seq<Point<T>>, k: int, empty: string -> T)
    requires MIN <= k <= MAX
    ensures Key(Lookup(s, k, empty)) == k
    ensures Lookup(s, k, empty) in s || IsDay(FirstTen(Lookup(s, k, empty).day))
  {
    hide Key, Iso, IsDay, On;
    KeyOfAdded(k, empty(Iso(k)));
    OnIsKeyed(s, k);
    OnAreMembers(s, k);
    if On(s, k) != [] { assert Lookup(s, k, empty) in On(s, k); }
  }

  lemma {:induction false} OnAreMembers<T>(s: seq<Point<T>>, k: int)
    ensures forall p :: p in On(s, k) ==> p in s
    decreases |s|
  {
    hide Key;
    if s != [] {
      OnAreMembers(s[..|s| - 1], k);
      assert s == s[..|s| - 1] + [s[|s| - 1]];
    }
  }

  /** How often each day occurs in what the source computes. */
  lemma FilledBetweenDays<T>(s: seq<Point<T>>, start: string, end: string, empty: string -> T, k: int,
                             rank: string -> real)
    requires OnRealDays(s) && IsPlain(start) && IsPlain(end)
    ensures Read(start).Some? && Read(end).Some?
    ensures var a, b := Read(start).value, Read(end).value;
            |On(FilledBetween(s, start, end, empty, rank), k)|
            == (if a <= k <= b then 1 else 0) + (if IsBeyond(k, a, b, end) then |On(s, k)| else 0)
  {
    hide On, Window, TextBeyond, Sort, Read, IsPlain, IsDay;
    PlainReads(start);
    PlainReads(end);
    var w, t := Window(s, Read(start).value, Read(end).value, empty), TextBeyond(s, start, end);
    SortKeeps(ByDay<T>(rank), w + t);
    OnOfPermutation(FilledBetween(s, start, end, empty, rank), w + t, k);
    OnOfConcat(w, t, k);
    WindowOn(s, Read(start).value, Read(end).value, empty, k);
    TextBeyondOn(s, start, end, k);
  }

  // ---------------------------------------------------------------------------------------
  // The whole function

  lemma SortedSeries<T(!new)>(series: seq<Point<T>>, rank: string -> real)
    requires OnRealDays(series)
    ensures var sorted := Sort(ByDay<T>(rank), series);
            && Sorted(ByDay<T>(rank), sorted) && multiset(sorted) == multiset(series)
            && OnRealDays(sorted) && (DistinctDays(series) ==> Apart(sorted))
  {
    hide Key, On, Sort, DistinctDays, IsDay;
    var sorted := Sort(ByDay<T>(rank), series);
    ByDayIsOrder<T>(rank);
    SortSorts(ByDay<T>(rank), series);
    SameElements(sorted, series);
    if DistinctDays(series) {
      forall k ensures |On(sorted, k)| <= 1 {
        DistinctAreApart(series, k);
        OnOfPermutation(sorted, series, k);
      }
    }
  }

  /** The ends asked for carry no sign. */
  predicate Unsigned(q: Request) {
    && (q.from.Some? ==> !IsSigned(FirstTen(q.from.value)))
    && (q.to.Some? ==> !IsSigned(FirstTen(q.to.value)))
  }

  /** Then a window that can be filled has plain ends, in order. */
  lemma PlainEnds<T>(q: Request, sorted: seq<Point<T>>)
    requires Unsigned(q) && OnRealDays(sorted) && CanFill(q, sorted)
    ensures IsPlain(Start(q, sorted)) && IsPlain(End(q, sorted))
    ensures Read(Start(q, sorted)).Some? && Read(End(q, sorted)).Some?
    ensures MIN <= Read(Start(q, sorted)).value <= Read(End(q, sorted)).value <= MAX
    ensures q.from.None? ==> IsDay(Start(q, sorted))
    ensures q.to.None? ==> IsDay(End(q, sorted))
  {
    hide IsDay, ToNumber, Less, IsShort, IsSigned, ShortDay, FirstTen;
    if sorted != [] { assert sorted[0] in sorted && sorted[|sorted| - 1] in sorted; }
    PlainReads(Start(q, sorted));
    PlainReads(End(q, sorted));
    PlainOrder(Start(q, sorted), End(q, sorted));
  }

  /** What a request adds to the series. */
  function AddedBy<T>(q: Request, sorted: seq<Point<T>>, empty: string -> T): seq<Point<T>> {
    if CanFill(q, sorted) then Added(sorted, Read(Start(q, sorted)).value, Read(End(q, sorted)).value, empty) else []
  }

  /** In strictly increasing order, the series and one empty point for each window day it lacks. */
  ghost predicate Faithful<T>(out: seq<Point<T>>, series: seq<Point<T>>, q: Request, empty: string -> T,
                              rank: string -> real)
  {
    && Strict(ByDay<T>(rank), out)
    && multiset(out) == multiset(series) + multiset(AddedBy(q, Sort(ByDay<T>(rank), series), empty))
  }

  /** There is nothing to fill, or the end is a full day, or no point lies on the day that the end names. */
  predicate CleanEnd<T>(q: Request, sorted: seq<Point<T>>) {
    CanFill(q, sorted) ==> IsDay(End(q, sorted)) || On(sorted, Read(End(q, sorted)).value) == []
  }

  lemma CleanIsFilled<T>(sorted: seq<Point<T>>, q: Request, empty: string -> T, rank: string -> real)
    requires OnRealDays(sorted) && Unsigned(q) && CanFill(q, sorted) && CleanEnd(q, sorted)
    ensures FilledBetween(sorted, Start(q, sorted), End(q, sorted), empty, rank)
         == Filled(sorted, Read(Start(q, sorted)).value, Read(End(q, sorted)).value, empty, rank)
  {
    hide On, IsDay, Read, IsPlain, Sort, Window, TextBeyond, Beyond, Start, End;
    PlainEnds(q, sorted);
    TextBeyondIsBeyond(sorted, Start(q, sorted), End(q, sorted));
  }

  lemma CleanIsFaithful<T(!new)>(series: seq<Point<T>>, q: Request, empty: string -> T, rank: string -> real)
    requires OnRealDays(series) && DistinctDays(series) && DaysInOrder(rank) && Unsigned(q)
    requires CleanEnd(q, Sort(ByDay<T>(rank), series))
    ensures Faithful(Fill(series, q, empty, rank), series, q, empty, rank)
  {
    hide Key, On, Iso, IsDay, Sort, Filled, FilledBetween, Added, Strict, Sorted, ByDay, Read, CanFill, Start, End;
    hide CleanEnd, Apart, DistinctDays, DaysInOrder;
    var sorted := Sort(ByDay<T>(rank), series);
    SortedSeries(series, rank);
    if CanFill(q, sorted) {
      PlainEnds(q, sorted);
      var a, b := Read(Start(q, sorted)).value, Read(End(q, sorted)).value;
      CleanIsFilled(sorted, q, empty, rank);
      FilledIsSeriesAndAdded(sorted, a, b, empty, rank);
      FilledIsStrict(sorted, a, b, empty, rank);
    } else {
      SortedApartIsStrict(sorted, rank);
    }
  }

  /** Otherwise the point on the end's day is there twice. */
  lemma UncleanIsNot<T(!new)>(series: seq<Point<T>>, q: Request, empty: string -> T, rank: string -> real)
    requires OnRealDays(series) && Unsigned(q) && !CleanEnd(q, Sort(ByDay<T>(rank), series))
    ensures !Faithful(Fill(series, q, empty, rank), series, q, empty, rank)
  {
    hide Key, On, Iso, IsDay, Sort, FilledBetween, Added, Strict, ByDay, Read, Start, End, DaysInOrder;
    var sorted := Sort(ByDay<T>(rank), series);
    SortedSeries(series, rank);
    PlainEnds(q, sorted);
    var out, b := Fill(series, q, empty, rank), Read(End(q, sorted)).value;
    FilledBetweenDays(sorted, Start(q, sorted), End(q, sorted), empty, b, rank);
    if Faithful(out, series, q, empty, rank) {
      var a := Read(Start(q, sorted)).value;
      OnOfPermutation(out, series + Added(sorted, a, b, empty), b);
      OnOfConcat(series, Added(sorted, a, b, empty), b);
      AddedOn(sorted, a, b, empty, b);
      OnOfPermutation(sorted, series, b);
    }
  }

  /**
   `fillDays` on a series with distinct real days, for every request without signed years: the answer is
   faithful if and only if the window cannot be filled, or ends in a full day, or holds no point on the
   day its end names; and then a sum in which empty points count zero is the series' own.
   */
  lemma FillIsFaithful<T(!new)>(series: seq<Point<T>>, q: Request, empty: string -> T, rank: string -> real,
                                f: Point<T> -> int)
    requires OnRealDays(series) && DistinctDays(series) && DaysInOrder(rank) && Unsigned(q)
    requires forall d :: f(Point(d, empty(d))) == 0
    ensures var out := Fill(series, q, empty, rank);
            && (Faithful(out, series, q, empty, rank) <==> CleanEnd(q, Sort(ByDay<T>(rank), series)))
            && (Faithful(out, series, q, empty, rank) ==> Sum(f, out) == Sum(f, series))
  {
    hide Fill, CleanEnd, DistinctDays, DaysInOrder, Sum, Added, Sort, Unsigned, Read, Strict;
    var out, sorted := Fill(series, q, empty, rank), Sort(ByDay<T>(rank), series);
    if CleanEnd(q, sorted) {
      CleanIsFaithful(series, q, empty, rank);
      SumOfPermutation(f, out, series + AddedBy(q, sorted, empty));
      SumOfConcat(f, series, AddedBy(q, sorted, empty));
      SumOfAddedBy(f, q, sorted, empty);
    } else {
      UncleanIsNot(series, q, empty, rank);
    }
  }

  lemma SumOfAddedBy<T>(f: Point<T> -> int, q: Request, sorted: seq<Point<T>>, empty: string -> T)
    requires forall d :: f(Point(d, empty(d))) == 0
    ensures Sum(f, AddedBy(q, sorted, empty)) == 0
  {
    hide Added, Read;
    if CanFill(q, sorted) {
      SumOfAdded(f, sorted, Read(Start(q, sorted)).value, Read(End(q, sorted)).value, empty);
    }
  }

  /**
   Every day of the window is in the answer once, and the end's day once more for each point on it when
   the end is not a full day.
   */
  lemma FillHoldsTheWindow<T(!new)>(series: seq<Point<T>>, q: Request, empty: string -> T, rank: string -> real, k: int)
    requires OnRealDays(series) && Unsigned(q)
    requires var sorted := Sort(ByDay<T>(rank), series);
             CanFill(q, sorted) && Read(Start(q, sorted)).value <= k <= Read(End(q, sorted)).value
    ensures var end := End(q, Sort(ByDay<T>(rank), series));
            |On(Fill(series, q, empty, rank), k)|
            == if k == Read(end).value && !IsDay(end) then 1 + |On(series, k)| else 1
  {
    hide Key, On, Iso, IsDay, Sort, FilledBetween, ByDay, Read, Start, End;
    var sorted := Sort(ByDay<T>(rank), series);
    SortedSeries(series, rank);
    PlainEnds(q, sorted);
    FilledBetweenDays(sorted, Start(q, sorted), End(q, sorted), empty, k, rank);
    OnOfPermutation(sorted, series, k);
  }

  // ---------------------------------------------------------------------------------------
  // The whole function again

  lemma {:induction false} WindowIsOnRealDays<T>(s: seq<Point<T>>, a: int, b: int, empty: string -> T, p: Point<T>)
    requires OnRealDays(s) && MIN <= a && b <= MAX && p in Window(s, a, b, empty)
    ensures IsDay(FirstTen(p.day)) && a <= Key(p) <= b
    decreases b - a
  {
    hide Key, IsDay, Lookup;
    if p in Window(s, a, b - 1, empty) {
      WindowIsOnRealDays(s, a, b - 1, empty, p);
    } else {
      LookupKey(s, b, empty);
    }
  }

  lemma {:induction false} BeyondAreMembers<T>(s: seq<Point<T>>, start: string, end: string, p: Point<T>)
    requires p in TextBeyond(s, start, end)
    ensures p in s
    decreases |s|
  {
    hide Less;
    if p in TextBeyond(s[..|s| - 1], start, end) { BeyondAreMembers(s[..|s| - 1], start, end, p); }
  }

  /** What the source computes is on real days, sorted, and from the series or the window. */
  lemma FilledBetweenIs<T(!new)>(s: seq<Point<T>>, start: string, end: string, empty: string -> T, rank: string -> real)
    requires OnRealDays(s) && IsPlain(start) && IsPlain(end)
    ensures Read(start).Some? && Read(end).Some?
    ensures var out := FilledBetween(s, start, end, empty, rank);
            && Sorted(ByDay<T>(rank), out) && OnRealDays(out)
            && forall p :: p in out ==> p in s || Read(start).value <= Key(p) <= Read(end).value
  {
    hide Key, Window, TextBeyond, Sort, Read, IsPlain, IsDay, Sorted;
    PlainReads(start);
    PlainReads(end);
    var w, t := Window(s, Read(start).value, Read(end).value, empty), TextBeyond(s, start, end);
    ByDayIsOrder<T>(rank);
    SortSorts(ByDay<T>(rank), w + t);
    var out := FilledBetween(s, start, end, empty, rank);
    SameElements(out, w + t);
    forall p | p in out
      ensures IsDay(FirstTen(p.day)) && (p in s || Read(start).value <= Key(p) <= Read(end).value)
    {
      if p in w {
        WindowIsOnRealDays(s, Read(start).value, Read(end).value, empty, p);
      } else {
        BeyondAreMembers(s, start, end, p);
      }
    }
  }

  /** A sorted series begins and ends with its least and greatest days. */
  lemma SortedKeys<T>(s: seq<Point<T>>, rank: string -> real)
    requires OnRealDays(s) && DaysInOrder(rank) && Sorted(ByDay<T>(rank), s) && s != []
    ensures forall p :: p in s ==> Key(s[0]) <= Key(p) <= Key(s[|s| - 1])
  {
    hide IsDay, ToNumber;
    var n := |s| - 1;
    assert s[0] in s && s[n] in s;
    forall p | p in s ensures Key(s[0]) <= Key(p) <= Key(s[n]) {
      var i :| 0 <= i < |s| && s[i] == p;
      if i > 0 { assert ByDay<T>(rank)(s[0], s[i]); }
      if i < n { assert ByDay<T>(rank)(s[i], s[n]); }
    }
  }

  lemma EdgeIs<T>(s: seq<Point<T>>, last: bool, k: int, rank: string -> real)
    requires OnRealDays(s) && DaysInOrder(rank) && Sorted(ByDay<T>(rank), s) && |On(s, k)| >= 1
    requires forall p :: p in s ==> if last then Key(p) <= k else k <= Key(p)
    ensures Edge(None, s, last) == Iso(k)
  {
    hide IsDay, ToNumber, Iso, On, Sorted, ByDay, DaysInOrder;
    HasOneOn(s, k);
    var i :| 0 <= i < |s| && Key(s[i]) == k;
    SortedKeys(s, rank);
    var e := if last then |s| - 1 else 0;
    assert s[e] in s && s[i] in s;
    NumberOfDay(FirstTen(s[e].day));
  }

  /** Where no end was asked for, filling leaves the ends of the series where they were. */
  lemma EdgesStay<T(!new)>(s: seq<Point<T>>, q: Request, empty: string -> T, rank: string -> real)
    requires OnRealDays(s) && DaysInOrder(rank) && Sorted(ByDay<T>(rank), s) && Unsigned(q) && CanFill(q, s)
    ensures var out := FilledBetween(s, Start(q, s), End(q, s), empty, rank);
            Start(q, out) == Start(q, s) && End(q, out) == End(q, s)
  {
    hide Key, On, Iso, IsDay, FilledBetween, Read, ByDay, DaysInOrder, Sorted, Unsigned, CanFill, FirstTen;
    PlainEnds(q, s);
    var start, end := Start(q, s), End(q, s);
    var a, b := Read(start).value, Read(end).value;
    var out := FilledBetween(s, start, end, empty, rank);
    FilledBetweenIs(s, start, end, empty, rank);
    FilledBetweenDays(s, start, end, empty, a, rank);
    FilledBetweenDays(s, start, end, empty, b, rank);
    if q.from.None? {
      EdgeKey(s, false);
      SortedKeys(s, rank);
      EdgeIs(out, false, a, rank);
    }
    if q.to.None? {
      EdgeKey(s, true);
      SortedKeys(s, rank);
      EdgeIs(out, true, b, rank);
    }
  }

  lemma EdgeKey<T>(s: seq<Point<T>>, last: bool)
    requires IsDay(Edge(None, s, last))
    ensures s != []
    ensures var e := Edge(None, s, last);
            Read(e) == Some(Key(s[if last then |s| - 1 else 0])) && Iso(Read(e).value) == e
  {
    hide Iso, ToNumber, IsShort, IsSigned;
    NumberOfDay(Edge(None, s, last));
  }

  /**
   Filling a filled series again, with the same request, changes nothing if and only if there was nothing
   to fill or the end is a full day; else the end's day gains a point each time.
   */
  lemma FillTwice<T(!new)>(series: seq<Point<T>>, q: Request, empty: string -> T, rank: string -> real)
    requires OnRealDays(series) && DistinctDays(series) && DaysInOrder(rank) && Unsigned(q)
    ensures var out, sorted := Fill(series, q, empty, rank), Sort(ByDay<T>(rank), series);
            Fill(out, q, empty, rank) == out <==> !CanFill(q, sorted) || IsDay(End(q, sorted))
  {
    hide On, Iso, IsDay, Sort, FilledBetween, Sorted, ByDay, Start, End, CanFill, Apart, DaysInOrder, DistinctDays;
    hide Unsigned, Read;
    var sorted := Sort(ByDay<T>(rank), series);
    var out := Fill(series, q, empty, rank);
    SortedSeries(series, rank);
    if !CanFill(q, sorted) {
      SortOfSorted(ByDay<T>(rank), out);
    } else {
      PlainEnds(q, sorted);
      var start, end := Start(q, sorted), End(q, sorted);
      FilledBetweenIs(sorted, start, end, empty, rank);
      SortOfSorted(ByDay<T>(rank), out);
      EdgesStay(sorted, q, empty, rank);
      SameEnds(q, sorted, out);
      if IsDay(end) {
        FilledTwiceBetween(sorted, start, end, empty, rank);
      } else {
        FilledBetweenDays(out, start, end, empty, Read(end).value, rank);
        IsBeyondAt(Read(start).value, Read(end).value, end);
      }
    }
  }

  lemma IsBeyondAt(a: int, b: int, end: string)
    ensures !IsDay(end) ==> IsBeyond(b, a, b, end)
  {
  }

  lemma SameEnds<T>(q: Request, s: seq<Point<T>>, t: seq<Point<T>>)
    requires Start(q, s) == Start(q, t) && End(q, s) == End(q, t)
    ensures CanFill(q, s) <==> CanFill(q, t)
  {
  }

  lemma FilledTwiceBetween<T(!new)>(s: seq<Point<T>>, start: string, end: string, empty: string -> T,
                                    rank: string -> real)
    requires OnRealDays(s) && Apart(s) && DaysInOrder(rank) && IsPlain(start) && IsDay(end)
    ensures Read(start).Some? && Read(end).Some?
    ensures var out := FilledBetween(s, start, end, empty, rank);
            FilledBetween(out, start, end, empty, rank) == out
  {
    hide Key, On, Iso, IsDay, Sort, Window, TextBeyond, Beyond, ByDay, Apart, DaysInOrder, Read;
    PlainReads(start);
    PlainReads(end);
    var a, b := Read(start).value, Read(end).value;
    TextBeyondIsBeyond(s, start, end);
    FilledBetweenIs(s, start, end, empty, rank);
    TextBeyondIsBeyond(FilledBetween(s, start, end, empty, rank), start, end);
    FilledTwice(s, a, b, empty, rank);
  }

  lemma OnlyPoint<T>(p: Point<T>, e: string)
    requires IsDay(FirstTen(p.day)) && e == FirstTen(p.day)[..7] && Value(FirstTen(p.day)[8..]) == 1
    ensures IsShort(e) && !IsDay(e) && !IsSigned(e) && FirstTen(e) == e && Read(e) == Some(Key(p))
    ensures Less(e, FirstTen(p.day)) && !Less(e, e) && e != ""
  {
    hide Number, Less;
    var d := FirstTen(p.day);
    ShortDayIsDay(e);
    ShortFields(e);
    ValueOfFirst();
    assert e[..4] == d[..4] && e[5..] == d[5..7];
    ShortOrder(d, e);
    LessIrreflexive(e);
  }

  /** It happens: asked for a month from itself to itself, a point on its first day comes back twice. */
  lemma MonthEndDuplicates<T(!new)>(p: Point<T>, q: Request, empty: string -> T, rank: string -> real)
    requires IsDay(FirstTen(p.day)) && Value(FirstTen(p.day)[8..]) == 1
    requires q.from == q.to == Some(FirstTen(p.day)[..7]) && q.maxDays >= 1
    ensures Fill([p], q, empty, rank) == [p, p]
  {
    hide Key, IsDay, Value, Read, IsShort, IsSigned, Less, FirstTen;
    var e, k := q.from.value, Key(p);
    OnlyPoint(p, e);
    OneOf(p, k, e, empty);
    assert [p][..0] == [] && [p, p][..1] == [p];
    assert Sort(ByDay<T>(rank), [p]) == [p];
    assert Sort(ByDay<T>(rank), [p, p]) == [p, p];
    assert [p] + [p] == [p, p];
  }

  lemma OneOf<T>(p: Point<T>, k: int, e: string, empty: string -> T)
    requires k == Key(p) && Less(e, FirstTen(p.day))
    ensures Window([p], k, k, empty) == [p] && TextBeyond([p], e, e) == [p]
  {
    hide Key, Less, FirstTen;
    assert [p][..0] == [];
    assert On([p], k) == [p];
    assert Window([p], k, k - 1, empty) == [];
  }

  // ---------------------------------------------------------------------------------------
  // Which windows are filled, and with what

  /** Between two days the window is filled exactly when the end is not before the start and the days are few enough. */
  lemma FillsExactly<T>(q: Request, sorted: seq<Point<T>>, a: int, b: int)
    requires MIN <= a <= MAX && MIN <= b <= MAX && Start(q, sorted) == Iso(a) && End(q, sorted) == Iso(b)
    ensures CanFill(q, sorted) <==> a <= b <= a + q.maxDays - 1
  {
    hide Iso, ToNumber, Less, IsShort, IsSigned, Start, End;
    DayOfNumber(a);
    DayOfNumber(b);
    DayOrder(b, a);
    DayIsNotEmpty(Iso(a));
    DayIsNotEmpty(Iso(b));
  }

  lemma DayIsNotEmpty(s: string)
    requires IsDay(s)
    ensures s != ""
  {
  }

  /** An end that is no text of a date, or is empty, or none to be had, leaves the series as it is, sorted. */
  lemma LeftAlone<T>(series: seq<Point<T>>, q: Request, empty: string -> T, rank: string -> real)
    requires var sorted := Sort(ByDay<T>(rank), series);
             || Read(Start(q, sorted)).None? || Read(End(q, sorted)).None?
             || Less(End(q, sorted), Start(q, sorted))
             || Read(End(q, sorted)).value - Read(Start(q, sorted)).value >= q.maxDays
    ensures Fill(series, q, empty, rank) == Sort(ByDay<T>(rank), series)
  {
    hide Read, Sort, Less, FilledBetween, Start, End;
  }

  /** With no end asked for the window runs from the first day of the series to its last. */
  lemma DefaultWindow<T>(sorted: seq<Point<T>>, maxDays: int, rank: string -> real)
    requires OnRealDays(sorted) && DaysInOrder(rank) && Sorted(ByDay<T>(rank), sorted) && sorted != []
    ensures var q := Request(None, None, maxDays);
            && Read(Start(q, sorted)).Some? && Read(End(q, sorted)).Some?
            && (exists p :: p in sorted && Read(Start(q, sorted)) == Some(Key(p)))
            && (exists p :: p in sorted && Read(End(q, sorted)) == Some(Key(p)))
            && forall p :: p in sorted ==>
                 Read(Start(q, sorted)).value <= Key(p) <= Read(End(q, sorted)).value
  {
    hide IsDay, ToNumber, Sorted, ByDay, DaysInOrder, FirstTen, IsShort, IsSigned;
    SortedKeys(sorted, rank);
    assert sorted[0] in sorted && sorted[|sorted| - 1] in sorted;
  }

  /** A window day shows the last point on it. */
  lemma {:induction false} LookupIsLast<T>(s: seq<Point<T>>, i: nat, empty: string -> T)
    requires i < |s| && forall j :: i < j < |s| ==> Key(s[j]) != Key(s[i])
    ensures On(s, Key(s[i])) != [] && Lookup(s, Key(s[i]), empty) == s[i]
    decreases |s|
  {
    hide Key, Iso;
    var n := |s| - 1;
    if i < n {
      assert s[..n][i] == s[i] && Key(s[n]) != Key(s[i]);
      assert forall j :: i < j < n ==> s[..n][j] == s[j];
      LookupIsLast(s[..n], i, empty);
    }
  }

  /** A window day without a point shows an empty one. */
  lemma LookupIsEmpty<T>(s: seq<Point<T>>, k: int, empty: string -> T)
    requires forall i :: 0 <= i < |s| ==> Key(s[i]) != k
    ensures Lookup(s, k, empty) == Point(Iso(k), empty(Iso(k)))
  {
    hide Key, Iso, On;
    if On(s, k) != [] { HasOneOn(s, k); }
  }
}
