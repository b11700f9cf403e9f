/**
 Which drawn day each session lands on, in its own venue's zone, and the UTC window that is enough
 to fetch.

 A session's zone is modelled by its offset from UTC at its start, in milliseconds. The collation
 order of `localeCompare` is a parameter: `rank` gives each string its place, and strings the
 collation holds equal get the same place.
 */
module SessionPlacement {
  import opened Text
  import opened Gregorian
  import opened CalendarViews
  import opened Sorting

  const DAY_MS := 86_400_000

  /** `startsAt` is nothing when the text is no valid date. */
  datatype Session = Session(id: string, startsAt: Option<int>, offset: int, title: string)

  function LocalMs(s: Session): int
    requires s.startsAt.Some?
  {
    s.startsAt.value + s.offset
  }

  function LocalDay(s: Session): Option<string> {
    if s.startsAt.None? then None else Some(Iso(LocalMs(s) / DAY_MS))
  }

  /** Minutes since midnight on the venue's clock. */
  function MinuteOfDay(s: Session): int
    requires s.startsAt.Some?
  {
    LocalMs(s) % DAY_MS / 60_000
  }

  function UtcDay(s: Session): string
    requires s.startsAt.Some?
  {
    Iso(s.startsAt.value / DAY_MS)
  }

  predicate IsPlaced(s: Session, days: seq<string>) { LocalDay(s).Some? && LocalDay(s).value in days }

  /** The sessions of one day, in the order they were given. */
  function Placed(sessions: seq<Session>, day: string): seq<Session> {
    if sessions == [] then []
    else
      var n := |sessions| - 1;
      Placed(sessions[..n], day) + if LocalDay(sessions[n]) == Some(day) then [sessions[n]] else []
  }

  function Outside(sessions: seq<Session>, days: seq<string>): seq<Session> {
    if sessions == [] then []
    else
      var n := |sessions| - 1;
      Outside(sessions[..n], days) + if IsPlaced(sessions[n], days) then [] else [sessions[n]]
  }

  /** The minute remembered for each id that was placed; a later session with the same id replaces it. */
  function Minutes(sessions: seq<Session>, days: seq<string>): map<string, int> {
    if sessions == [] then map[]
    else
      var n := |sessions| - 1;
      var before := Minutes(sessions[..n], days);
      if IsPlaced(sessions[n], days) then before[sessions[n].id := MinuteOfDay(sessions[n])] else before
  }

  function MinuteFor(minutes: map<string, int>, s: Session): int {
    if s.id in minutes then minutes[s.id] else 0
  }

  /** By minute, then title, then id. */
  predicate Before(minutes: map<string, int>, rank: string -> real, a: Session, b: Session) {
    var m, n := MinuteFor(minutes, a), MinuteFor(minutes, b);
    m < n || (m == n &&
      (rank(a.title) < rank(b.title) || (rank(a.title) == rank(b.title) && rank(a.id) <= rank(b.id))))
  }

  function ReadingOrder(minutes: map<string, int>, rank: string -> real): (Session, Session) -> bool {
    (a, b) => Before(minutes, rank, a, b)
  }

  /** One day's list as the grid shows it. */
  function DayList(sessions: seq<Session>, days: seq<string>, rank: string -> real, day: string): seq<Session> {
    Sort(ReadingOrder(Minutes(sessions, days), rank), Placed(sessions, day))
  }

  /** One more session: what each of the specification's parts gains. */
  lemma OneMore(sessions: seq<Session>, i: nat, days: seq<string>)
    requires i < |sessions|
    ensures var s, now := sessions[i], sessions[..i];
            && (forall d :: Placed(sessions[..i + 1], d)
                  == if LocalDay(s) == Some(d) then Placed(now, d) + [s] else Placed(now, d))
            && |Outside(sessions[..i + 1], days)| == |Outside(now, days)| + (if IsPlaced(s, days) then 0 else 1)
            && Minutes(sessions[..i + 1], days)
               == (if IsPlaced(s, days) then Minutes(now, days)[s.id := MinuteOfDay(s)] else Minutes(now, days))
  {
    hide LocalDay, MinuteOfDay;
    assert sessions[..i + 1][..i] == sessions[..i];
  }

  method EmptyDays(days: seq<string>) returns (byDay: map<string, seq<Session>>)
    ensures forall d :: d in byDay <==> d in days
    ensures forall d :: d in byDay ==> byDay[d] == []
  {
    byDay := map[];
    for i := 0 to |days|
      invariant forall d :: d in byDay <==> d in days[..i]
      invariant forall d :: d in byDay ==> byDay[d] == []
    {
      byDay := byDay[days[i] := []];
    }
    assert days[..|days|] == days;
  }

  method SortDays(placed: map<string, seq<Session>>, days: seq<string>, minutes: map<string, int>, rank: string -> real)
    returns (byDay: map<string, seq<Session>>)
    requires forall d :: d in placed <==> d in days
    ensures forall d :: d in byDay <==> d in days
    ensures forall d :: d in days ==> byDay[d] == Sort(ReadingOrder(minutes, rank), placed[d])
  {
    hide ReadingOrder, Sort;
    byDay := placed;
    for i := 0 to |days|
      invariant forall d :: d in byDay <==> d in days
      invariant forall d :: d in days[i..] && d !in days[..i] ==> byDay[d] == placed[d]
      invariant forall d :: d in days[..i] ==> byDay[d] == Sort(ReadingOrder(minutes, rank), placed[d])
    {
      var d := days[i];
      assert days[..i + 1] == days[..i] + [d] && days[i..] == [d] + days[i + 1..];
      SortTwice(minutes, rank, placed[d]);
      byDay := byDay[d := Sort(ReadingOrder(minutes, rank), byDay[d])];
    }
    assert days[..|days|] == days;
  }

  method PlaceSessions(sessions: seq<Session>, days: seq<string>, rank: string -> real)
    returns (byDay: map<string, seq<Session>>, outside: nat)
    ensures forall d :: d in byDay <==> d in days
    ensures forall d :: d in days ==> byDay[d] == DayList(sessions, days, rank, d)
    ensures outside == |Outside(sessions, days)|
  {
    hide LocalDay, MinuteOfDay, ReadingOrder, Sort, Placed, Outside, Minutes;
    byDay := EmptyDays(days);
    outside := 0;
    var minuteOfDay: map<string, int> := map[];
    NoSessions(days);
    for i := 0 to |sessions|
      invariant forall d :: d in byDay <==> d in days
      invariant forall d :: d in byDay ==> byDay[d] == Placed(sessions[..i], d)
      invariant outside == |Outside(sessions[..i], days)|
      invariant minuteOfDay == Minutes(sessions[..i], days)
    {
      var s := sessions[i];
      OneMore(sessions, i, days);
      var day := LocalDay(s);
      if day.None? || day.value !in byDay {
        outside := outside + 1;
      } else {
        byDay := byDay[day.value := byDay[day.value] + [s]];
        PlacedHasStart(s);
        minuteOfDay := minuteOfDay[s.id := MinuteOfDay(s)];
      }
    }
    assert sessions[..|sessions|] == sessions;
    byDay := SortDays(byDay, days, minuteOfDay, rank);
  }

  lemma NoSessions(days: seq<string>)
    ensures Outside([], days) == [] && Minutes([], days) == map[]
    ensures forall d :: Placed([], d) == []
  {
  }

  lemma PlacedHasStart(s: Session)
    ensures LocalDay(s).Some? <==> s.startsAt.Some?
  {
  }

  /** `ReadingOrder` is a consistent comparator, so sorting a day again changes nothing. */
  lemma ReadingOrderIsOrder(minutes: map<string, int>, rank: string -> real)
    ensures Order(ReadingOrder(minutes, rank))
  {
    var leq := ReadingOrder(minutes, rank);
    forall a, b ensures leq(a, b) || leq(b, a) {}
    forall a, b, c | leq(a, b) && leq(b, c) ensures leq(a, c) {
      assert Before(minutes, rank, a, b) && Before(minutes, rank, b, c);
    }
  }

  lemma SortTwice(minutes: map<string, int>, rank: string -> real, s: seq<Session>)
    ensures var leq := ReadingOrder(minutes, rank); Sort(leq, Sort(leq, s)) == Sort(leq, s)
  {
    ReadingOrderIsOrder(minutes, rank);
    SortSorts(ReadingOrder(minutes, rank), s);
    SortOfSorted(ReadingOrder(minutes, rank), Sort(ReadingOrder(minutes, rank), s));
  }

  // ---------------------------------------------------------------------------------------
  // A sorted partition

  predicate Distinct<T(==)>(s: seq<T>) { forall i, j :: 0 <= i < j < |s| ==> s[i] != s[j] }

  predicate DistinctIds(sessions: seq<Session>) {
    forall i, j :: 0 <= i < j < |sessions| ==> sessions[i].id != sessions[j].id
  }

  /** Everything on the drawn days together. */
  function OnDays(sessions: seq<Session>, days: seq<string>): multiset<Session> {
    if days == [] then multiset{}
    else
      var n := |days| - 1;
      OnDays(sessions, days[..n]) + multiset(Placed(sessions, days[n]))
  }

  lemma {:induction false} OnDaysOfNone(days: seq<string>)
    ensures OnDays([], days) == multiset{}
    decreases |days|
  {
    if days != [] { OnDaysOfNone(days[..|days| - 1]); }
  }

  lemma {:induction false} OnDaysAfter(sessions: seq<Session>, s: Session, days: seq<string>)
    requires Distinct(days)
    ensures OnDays(sessions + [s], days)
         == OnDays(sessions, days) + if IsPlaced(s, days) then multiset{s} else multiset{}
    decreases |days|
  {
    hide LocalDay, Placed;
    if days != [] {
      var n := |days| - 1;
      OnDaysAfter(sessions, s, days[..n]);
      PlacedAfter(sessions, s, days[n]);
      assert forall d :: d in days <==> d in days[..n] || d == days[n];
      assert days[n] !in days[..n];
    }
  }

  lemma PlacedAfter(sessions: seq<Session>, s: Session, day: string)
    ensures multiset(Placed(sessions + [s], day))
         == multiset(Placed(sessions, day)) + if LocalDay(s) == Some(day) then multiset{s} else multiset{}
  {
    hide LocalDay;
    assert (sessions + [s])[..|sessions|] == sessions;
  }

  /** On distinct days every session is on exactly one day's list or outside, exactly as often as it was given. */
  lemma {:induction false} PlacementIsPartition(sessions: seq<Session>, days: seq<string>)
    requires Distinct(days)
    ensures OnDays(sessions, days) + multiset(Outside(sessions, days)) == multiset(sessions)
    decreases |sessions|
  {
    hide LocalDay, IsPlaced, OnDays, Outside;
    if sessions == [] {
      OnDaysOfNone(days);
      NoSessions(days);
    } else {
      var n := |sessions| - 1;
      var head, s := sessions[..n], sessions[n];
      PlacementIsPartition(head, days);
      assert sessions == head + [s];
      OnDaysAfter(head, s, days);
      OutsideAfter(head, s, days);
    }
  }

  lemma OutsideAfter(sessions: seq<Session>, s: Session, days: seq<string>)
    ensures multiset(Outside(sessions + [s], days))
         == multiset(Outside(sessions, days)) + if IsPlaced(s, days) then multiset{} else multiset{s}
  {
    hide IsPlaced;
    assert (sessions + [s])[..|sessions|] == sessions;
  }

  lemma {:induction false} PlacedIsTheDays(sessions: seq<Session>, day: string, s: Session)
    ensures s in Placed(sessions, day) <==> s in sessions && LocalDay(s) == Some(day)
    decreases |sessions|
  {
    hide LocalDay;
    if sessions != [] {
      var n := |sessions| - 1;
      PlacedIsTheDays(sessions[..n], day, s);
      assert sessions == sessions[..n] + [sessions[n]];
    }
  }

  /** With distinct ids the remembered minute is the session's own. */
  lemma {:induction false} MinutesAreOwn(sessions: seq<Session>, days: seq<string>, s: Session)
    requires DistinctIds(sessions) && s in sessions && IsPlaced(s, days)
    ensures MinuteFor(Minutes(sessions, days), s) == MinuteOfDay(s)
    decreases |sessions|
  {
    hide LocalDay, MinuteOfDay;
    var n := |sessions| - 1;
    assert sessions == sessions[..n] + [sessions[n]];
    if s != sessions[n] {
      var i :| 0 <= i < n && sessions[i] == s;
      assert s in sessions[..n];
      MinutesAreOwn(sessions[..n], days, s);
      OwnIdIsRemembered(sessions[..n], days, s);
    }
  }

  lemma {:induction false} OwnIdIsRemembered(sessions: seq<Session>, days: seq<string>, s: Session)
    requires s in sessions && IsPlaced(s, days)
    ensures s.id in Minutes(sessions, days)
    decreases |sessions|
  {
    hide LocalDay, MinuteOfDay;
    var n := |sessions| - 1;
    assert sessions == sessions[..n] + [sessions[n]];
    if s != sessions[n] { OwnIdIsRemembered(sessions[..n], days, s); }
  }

  /** Earlier by venue minute, then title, then id. */
  predicate ReadsBefore(rank: string -> real, a: Session, b: Session)
    requires a.startsAt.Some? && b.startsAt.Some?
  {
    MinuteOfDay(a) < MinuteOfDay(b) || (MinuteOfDay(a) == MinuteOfDay(b) &&
      (rank(a.title) < rank(b.title) || (rank(a.title) == rank(b.title) && rank(a.id) <= rank(b.id))))
  }

  predicate InReadingOrder(rank: string -> real, list: seq<Session>) {
    forall i, j :: 0 <= i < j < |list| ==>
      list[i].startsAt.Some? && list[j].startsAt.Some? && ReadsBefore(rank, list[i], list[j])
  }

  /** Order by remembered minutes is reading order when the remembered minutes are the sessions' own. */
  lemma SortedIsReadingOrder(minutes: map<string, int>, rank: string -> real, list: seq<Session>)
    requires Sorted(ReadingOrder(minutes, rank), list)
    requires forall s :: s in list ==> s.startsAt.Some? && MinuteFor(minutes, s) == MinuteOfDay(s)
    ensures InReadingOrder(rank, list)
  {
    hide MinuteOfDay;
    forall i, j | 0 <= i < j < |list|
      ensures list[i].startsAt.Some? && list[j].startsAt.Some? && ReadsBefore(rank, list[i], list[j])
    {
      assert list[i] in list && list[j] in list;
      assert ReadingOrder(minutes, rank)(list[i], list[j]);
    }
  }

  /** A day's list holds exactly the sessions of that venue-local day, as often as given, in reading order. */
  lemma DayListIsSortedDay(sessions: seq<Session>, days: seq<string>, rank: string -> real, day: string)
    requires DistinctIds(sessions) && day in days
    ensures multiset(DayList(sessions, days, rank, day)) == multiset(Placed(sessions, day))
    ensures forall s :: s in DayList(sessions, days, rank, day) <==> s in sessions && LocalDay(s) == Some(day)
    ensures InReadingOrder(rank, DayList(sessions, days, rank, day))
  {
    hide LocalDay, MinuteOfDay, Sort, Minutes, Placed, ReadingOrder;
    var minutes := Minutes(sessions, days);
    var leq := ReadingOrder(minutes, rank);
    ReadingOrderIsOrder(minutes, rank);
    SortSorts(leq, Placed(sessions, day));
    var list := DayList(sessions, days, rank, day);
    SameElements(list, Placed(sessions, day));
    SameElements(Placed(sessions, day), list);
    forall s ensures s in list <==> s in sessions && LocalDay(s) == Some(day) {
      PlacedIsTheDays(sessions, day, s);
    }
    forall s | s in list ensures s.startsAt.Some? && MinuteFor(minutes, s) == MinuteOfDay(s) {
      PlacedHasStart(s);
      MinutesAreOwn(sessions, days, s);
    }
    SortedIsReadingOrder(minutes, rank, list);
  }

  // ---------------------------------------------------------------------------------------
  // The fetch window

  /** The first and last UTC day to ask for; nothing when `addDays` throws, as it does when no day is drawn. */
  function FetchWindow(days: seq<string>): Option<(string, string)> {
    if days == [] || Read(days[0]).None? || Read(days[|days| - 1]).None? then None
    else Some((AddDays(days[0], -1), AddDays(days[|days| - 1], 1)))
  }

  /** The API's answer to a window: the sessions whose UTC day is in it. */
  predicate Starts(s: Session, window: (string, string)) {
    s.startsAt.Some? && !Less(UtcDay(s), window.0) && !Less(window.1, UtcDay(s))
  }

  function Fetched(sessions: seq<Session>, window: (string, string)): seq<Session> {
    if sessions == [] then []
    else
      var n := |sessions| - 1;
      Fetched(sessions[..n], window) + if Starts(sessions[n], window) then [sessions[n]] else []
  }

  lemma NeighbouringDay(start: int, offset: int)
    requires -DAY_MS < offset < DAY_MS
    ensures (start + offset) / DAY_MS - 1 <= start / DAY_MS <= (start + offset) / DAY_MS + 1
  {
  }

  lemma WindowOfSpan(f: int, l: int, days: seq<string>)
    requires MIN <= f <= l < MAX && days == Span(f, l)
    ensures FetchWindow(days) == Some((Iso(f - 1), Iso(l + 1)))
  {
    hide Iso, IsDay, ToNumber;
    DayOfNumber(f);
    DayOfNumber(l);
  }

  /** A session on a drawn day starts in the window, whatever its zone. */
  lemma DrawnSessionIsFetched(s: Session, f: int, l: int)
    requires MIN <= f <= l < MAX
    requires -DAY_MS < s.offset < DAY_MS && IsPlaced(s, Span(f, l))
    ensures Starts(s, (Iso(f - 1), Iso(l + 1)))
  {
    hide Iso, IsDay, Less, ToNumber, BEFORE, AFTER;
    PlacedHasStart(s);
    var k := LocalMs(s) / DAY_MS;
    var i :| 0 <= i < |Span(f, l)| && Span(f, l)[i] == Iso(k);
    DayOfNumber(f + i);
    NoDayOutside(k);
    DayOrder(k, f + i);
    NeighbouringDay(s.startsAt.value, s.offset);
    var u := s.startsAt.value / DAY_MS;
    if f == MIN {
      OutsideStrings(MIN - 1);
      if u >= MIN { OutsideOrder(u); }
      OutsideOrder(l + 1);
    } else {
      DayOrder(u, f - 1);
    }
    if u >= MIN { DayOrder(l + 1, u); }
  }

  /** Leaving out sessions that are on no drawn day changes no list and no remembered minute. */
  lemma {:induction false} FetchedPlacesAlike(sessions: seq<Session>, days: seq<string>, window: (string, string),
                                              day: string)
    requires day in days
    requires forall s :: s in sessions && IsPlaced(s, days) ==> Starts(s, window)
    ensures Placed(Fetched(sessions, window), day) == Placed(sessions, day)
    ensures Minutes(Fetched(sessions, window), days) == Minutes(sessions, days)
    decreases |sessions|
  {
    hide LocalDay, Starts, MinuteOfDay;
    if sessions != [] {
      var n := |sessions| - 1;
      var s, few := sessions[n], Fetched(sessions[..n], window);
      assert forall t :: t in sessions[..n] ==> t in sessions;
      FetchedPlacesAlike(sessions[..n], days, window, day);
      assert s in sessions;
      assert (few + [s])[..|few|] == few;
      if !Starts(s, window) { assert few + [] == few; }
    }
  }

  /**
   The padded window loses nothing: placing only the sessions that start in it gives, on every
   drawn day, exactly the list that placing all sessions gives.
   */
  lemma WindowLosesNothing(sessions: seq<Session>, f: int, l: int, days: seq<string>, rank: string -> real, day: string)
    requires MIN <= f <= l < MAX && days == Span(f, l) && day in days
    requires forall s :: s in sessions ==> -DAY_MS < s.offset < DAY_MS
    ensures FetchWindow(days).Some?
    ensures DayList(Fetched(sessions, FetchWindow(days).value), days, rank, day) == DayList(sessions, days, rank, day)
  {
    hide Iso, IsDay, Less, LocalDay, Minutes, Placed, Sort, Starts, IsPlaced, ToNumber, ReadingOrder;
    WindowOfSpan(f, l, days);
    forall s | s in sessions && IsPlaced(s, days) ensures Starts(s, FetchWindow(days).value) {
      DrawnSessionIsFetched(s, f, l);
    }
    FetchedPlacesAlike(sessions, days, FetchWindow(days).value, day);
  }

  /** A view that ends has a window to fetch exactly when it draws its days; when it draws none, asking throws. */
  lemma WindowExactly(view: View, anchor: string, days: seq<string>)
    requires IsDay(anchor) && Draws(ViewEnds(view, anchor).0, ViewEnds(view, anchor).1, days)
    ensures FetchWindow(days).Some? <==> InCalendar(view, ToNumber(anchor))
    ensures FetchWindow(days).None? <==> days == []
  {
    hide Iso, IsDay, ToNumber, Draws, NeverEnds, ViewEnds, ViewFirst, ViewLast, Read, AddDays, BEFORE, AFTER;
    var n := ToNumber(anchor);
    var f, l := ViewFirst(view, n), ViewLast(view, n);
    var (first, last) := ViewEnds(view, anchor);
    InCalendarExactly(view, anchor);
    EndStrings(view, anchor);
    OneOutcome(first, last, days, Span(f, l));
    OneOutcome(first, last, days, []);
    if InCalendar(view, n) { WindowOfSpan(f, l, days); }
  }

  // ---------------------------------------------------------------------------------------
  // What a venue's clock shows

  /** A session is on the day, and at the minute, that a clock `offset` ahead of UTC shows when it starts. */
  lemma ClockReading(s: Session, day: int, hour: int, minute: int, ms: int)
    requires 0 <= hour < 24 && 0 <= minute < 60 && 0 <= ms < 60_000
    requires s.startsAt.Some?
    requires s.startsAt.value + s.offset == day * 86_400_000 + hour * 3_600_000 + minute * 60_000 + ms
    ensures LocalDay(s) == Some(Iso(day)) && MinuteOfDay(s) == hour * 60 + minute
  {
    hide Iso;
    var rest := hour * 3_600_000 + minute * 60_000 + ms;
    DividesBy(LocalMs(s), day, rest, DAY_MS);
    DividesBy(rest, hour * 60 + minute, ms, 60_000);
  }

  lemma DividesBy(n: int, q: int, r: int, d: int)
    requires d == 86_400_000 || d == 60_000
    requires n == q * d + r && 0 <= r < d
    ensures n / d == q && n % d == r
  {
    if d == 86_400_000 {
      assert n / 86_400_000 == q;
    } else {
      assert n / 60_000 == q;
    }
  }

  /** The UTC day of a session is the day of a clock that is not ahead at all; without a start there is no day. */
  lemma UtcIsNoOffset(s: Session)
    ensures s.startsAt.Some? ==> LocalDay(s.(offset := 0)) == Some(UtcDay(s))
    ensures s.startsAt.None? ==> LocalDay(s) == None && forall window :: !Starts(s, window)
  {
    hide Iso;
  }
}
