/**
 One mounted checkout screen and the booking server, under taps, stale renders, lost and late
 replies and retries.

 The screen's key is one value for its whole life, so the server's records for that key are
 identified by the actor alone (the signed-in account, or a guest's address); a record keeps a hash
 of the request body.
 */
module Checkout {
  import opened Text

  datatype Status = PENDING_PAYMENT | CONFIRMED | OTHER

  /** What a create call returns. */
  datatype Created = Created(id: nat, status: Status)

  datatype Request = Request(actor: string, body: string)

  datatype Record = Record(body: string, created: Created)

  /** Where one call of `onPay` waits. */
  datatype Phase =
    | Creating(request: Request)
    | Starting(created: Created)
    | Following(created: Created)
    | Reading(created: Created)

  datatype Alert = Unavailable | NotCompleted(read: Option<Status>) | WentWrong

  datatype FollowOutcome = Completed | Dismissed | Failed | Unsupported

  /** The actor each booking was made for, in order; ids are positions. */
  datatype Server = Server(bookings: seq<string>, records: map<string, Record>, released: nat)

  datatype Screen = Screen(
    inFlight: bool, paying: bool,
    data: Option<Created>,            // createBooking.data
    rendered: set<Created>,           // every value some render has closed over
    calls: map<nat, Phase>,           // calls of onPay that have not returned
    nextCall: nat,
    sent: set<Request>,               // create requests that may still reach the server
    payments: seq<Created>,           // payment starts, with the booking as it was returned
    alerts: seq<Alert>, visited: seq<nat>)

  datatype World = World(screen: Screen, server: Server)

  const INITIAL := World(Screen(false, false, None, {}, map[], 0, {}, [], [], []), Server([], map[], 0))

  // ---------------------------------------------------------------------------------------
  // The server

  datatype Handling = Reject | Book(status: Status) | BookAndRelease

  /**
   One create request handled. A known key is replayed or refused without effect. A new one may be
   rejected, booked, or booked with a free confirmation that then fails, which releases the key.
   */
  function Handle(s: Server, r: Request, how: Handling): Server {
    if r.actor in s.records then s
    else match how
      case Reject => s
      case Book(status) =>
        s.(bookings := s.bookings + [r.actor],
           records := s.records[r.actor := Record(r.body, Created(|s.bookings|, status))])
      case BookAndRelease => s.(bookings := s.bookings + [r.actor], released := s.released + 1)
  }

  // ---------------------------------------------------------------------------------------
  // The screen, between awaits

  datatype Event =
    | Tap(booking: Option<Created>, valid: bool, request: Request)  // with the values its render closed over
    | Arrive(request: Request, how: Handling)                       // any sent request, at any time, however often
    | CreateReplied(call: nat)
    | StartReplied(call: nat)
    | Followed(call: nat, outcome: FollowOutcome)
    | StatusRead(call: nat, status: Option<Status>)
    | CallFailed(call: nat)                                         // any awaited call rejects

  /** `finally`: the latch is released and the call returns. */
  function Return(s: Screen, call: nat): Screen {
    s.(inFlight := false, paying := false, calls := s.calls - {call})
  }

  /** The booking in hand: done if the server says so, else start the payment. */
  function Proceed(s: Screen, call: nat, created: Created): Screen {
    if created.status == CONFIRMED then Return(s, call).(visited := s.visited + [created.id])
    else s.(calls := s.calls[call := Starting(created)], payments := s.payments + [created])
  }

  function OnTap(s: Screen, booking: Option<Created>, valid: bool, request: Request): Screen {
    if s.inFlight || !valid then s
    else
      var latched := s.(inFlight := true, paying := true, nextCall := s.nextCall + 1);
      match booking
      case Some(created) => Proceed(latched, s.nextCall, created)
      case None => latched.(calls := s.calls[s.nextCall := Creating(request)], data := None, sent := s.sent + {request})
  }

  function OnStatus(s: Screen, call: nat, created: Created, status: Option<Status>): Screen {
    if status.Some? && status.value != PENDING_PAYMENT then Return(s, call).(visited := s.visited + [created.id])
    else Return(s, call).(alerts := s.alerts + [NotCompleted(status)])
  }

  function OnFollowed(s: Screen, call: nat, created: Created, outcome: FollowOutcome): Screen {
    match outcome
    case Unsupported => Return(s, call).(alerts := s.alerts + [Unavailable])
    case Completed => Return(s, call).(visited := s.visited + [created.id])
    case _ => s.(calls := s.calls[call := Reading(created)])
  }

  function OnFailed(s: Screen, call: nat): Screen { Return(s, call).(alerts := s.alerts + [WentWrong]) }

  /** The server's answer to a create request: the record of its key, if it is for the same body. */
  predicate Answered(server: Server, r: Request) { r.actor in server.records && server.records[r.actor].body == r.body }

  function OnCreated(s: Screen, call: nat, created: Created): Screen {
    Proceed(s.(data := Some(created), rendered := s.rendered + {created}), call, created)
  }

  predicate Enabled(w: World, e: Event) {
    var s := w.screen;
    match e
    case Tap(booking, _, _) => booking.Some? ==> booking.value in s.rendered
    case Arrive(request, _) => request in s.sent
    case CreateReplied(call) => call in s.calls && s.calls[call].Creating? && Answered(w.server, s.calls[call].request)
    case StartReplied(call) => call in s.calls && s.calls[call].Starting?
    case Followed(call, _) => call in s.calls && s.calls[call].Following?
    case StatusRead(call, _) => call in s.calls && s.calls[call].Reading?
    case CallFailed(call) => call in s.calls && !s.calls[call].Reading?
  }

  function Step(w: World, e: Event): World
    requires Enabled(w, e)
  {
    var s := w.screen;
    match e
    case Tap(booking, valid, request) => w.(screen := OnTap(s, booking, valid, request))
    case Arrive(request, how) => w.(server := Handle(w.server, request, how))
    case CreateReplied(call) => w.(screen := OnCreated(s, call, w.server.records[s.calls[call].request.actor].created))
    case StartReplied(call) => w.(screen := s.(calls := s.calls[call := Following(s.calls[call].created)]))
    case Followed(call, outcome) => w.(screen := OnFollowed(s, call, s.calls[call].created, outcome))
    case StatusRead(call, status) => w.(screen := OnStatus(s, call, s.calls[call].created, status))
    case CallFailed(call) => w.(screen := OnFailed(s, call))
  }

  ghost predicate Next(before: World, e: Event, after: World) { Enabled(before, e) && after == Step(before, e) }

  /** Every state some interleaving reaches. */
  ghost predicate Reaches(events: seq<Event>, w: World)
    decreases |events|, 1
  {
    if events == [] then w == INITIAL else ReachesBy(events[..|events| - 1], events[|events| - 1], w)
  }

  ghost predicate ReachesBy(events: seq<Event>, e: Event, w: World)
    decreases |events|, 2
  {
    exists before :: Reaches(events, before) && Next(before, e, w)
  }

  // ---------------------------------------------------------------------------------------
  // The screen's own form: a latch in a ref, state set around awaited calls

  class CheckoutScreen {
    var screen: Screen

    constructor ()
      ensures screen == INITIAL.screen
    {
      screen := INITIAL.screen;
    }

    /** `onPay` up to its first await. */
    method OnPay(booking: Option<Created>, valid: bool, request: Request)
      modifies this
      ensures screen == OnTap(old(screen), booking, valid, request)
    {
      if screen.inFlight { return; }
      if !valid { return; }
      var call := screen.nextCall;
      screen := screen.(inFlight := true, paying := true, nextCall := call + 1);
      if booking.Some? {
        CreatedInHand(call, booking.value);
      } else {
        screen := screen.(calls := screen.calls[call := Creating(request)], data := None,
                          sent := screen.sent + {request});
      }
    }

    method CreatedInHand(call: nat, created: Created)
      modifies this
      ensures screen == Proceed(old(screen), call, created)
    {
      if created.status == CONFIRMED {
        screen := screen.(visited := screen.visited + [created.id]);
        Release(call);
        return;
      }
      screen := screen.(calls := screen.calls[call := Starting(created)], payments := screen.payments + [created]);
    }

    method AfterCreate(call: nat, created: Created)
      modifies this
      ensures screen == OnCreated(old(screen), call, created)
    {
      screen := screen.(data := Some(created), rendered := screen.rendered + {created});
      CreatedInHand(call, created);
    }

    method AfterFollow(call: nat, created: Created, outcome: FollowOutcome)
      modifies this
      ensures screen == OnFollowed(old(screen), call, created, outcome)
    {
      if outcome == Unsupported {
        screen := screen.(alerts := screen.alerts + [Unavailable]);
        Release(call);
      } else if outcome == Completed {
        screen := screen.(visited := screen.visited + [created.id]);
        Release(call);
      } else {
        screen := screen.(calls := screen.calls[call := Reading(created)]);
      }
    }

    method AfterStatus(call: nat, created: Created, status: Option<Status>)
      modifies this
      ensures screen == OnStatus(old(screen), call, created, status)
    {
      if status.Some? && status.value != PENDING_PAYMENT {
        screen := screen.(visited := screen.visited + [created.id]);
      } else {
        screen := screen.(alerts := screen.alerts + [NotCompleted(status)]);
      }
      Release(call);
    }

    method AfterError(call: nat)
      modifies this
      ensures screen == OnFailed(old(screen), call)
    {
      screen := screen.(alerts := screen.alerts + [WentWrong]);
      Release(call);
    }

    method Release(call: nat)
      modifies this
      ensures screen == Return(old(screen), call)
    {
      screen := screen.(inFlight := false, paying := false, calls := screen.calls - {call});
    }
  }

  // ---------------------------------------------------------------------------------------
  // Safety of the screen

  /** The latch is up exactly while one call is under way, and never two are. */
  ghost predicate OneCall(s: Screen) {
    && s.paying == s.inFlight
    && (s.inFlight <==> s.calls != map[])
    && (forall c, d :: c in s.calls && d in s.calls ==> c == d)
  }

  /** What the server has on record for an actor: a booking made for that actor, by a request that was sent. */
  ghost predicate RecordsSound(w: World) {
    forall a :: a in w.server.records ==>
      var record := w.server.records[a];
      && record.created.id < |w.server.bookings|
      && w.server.bookings[record.created.id] == a
      && Request(a, record.body) in w.screen.sent
  }

  ghost predicate OnRecord(server: Server, created: Created) {
    exists a :: a in server.records && server.records[a].created == created
  }

  /** A payment is only ever started on a booking that is on record and was not returned confirmed. */
  ghost predicate PaymentsSound(w: World) {
    && (forall i :: 0 <= i < |w.screen.payments| ==>
          w.screen.payments[i].status != CONFIRMED && w.screen.payments[i] in w.screen.rendered)
    && (forall c :: c in w.screen.rendered ==> OnRecord(w.server, c))
  }

  /** Bookings are those on record and those whose key was released. */
  ghost predicate BookingsSound(w: World) {
    |w.server.bookings| == |w.server.records| + w.server.released
  }

  /** The call under way is creating, with nothing in hand, or it is on the payment started last. */
  ghost predicate CallsSound(s: Screen) {
    && (forall c :: c in s.calls ==> c < s.nextCall)
    && (forall c :: c in s.calls && s.calls[c].Creating? ==> s.data == None && s.calls[c].request in s.sent)
    && (forall c :: c in s.calls && !s.calls[c].Creating? ==>
          s.payments != [] && s.calls[c].created == s.payments[|s.payments| - 1])
  }

  /** Some booking the screen was given has this id. */
  ghost predicate Rendered(rendered: set<Created>, id: nat) { exists c :: c in rendered && c.id == id }

  /** Every call so far is under way or returned with exactly one page opened or one alert shown. */
  ghost predicate Accounted(s: Screen) {
    && |s.visited| + |s.alerts| + |s.calls| == s.nextCall
    && (forall i :: 0 <= i < |s.visited| ==> Rendered(s.rendered, s.visited[i]))
    && (s.data.Some? ==> s.data.value in s.rendered)
  }

  ghost predicate Sound(w: World) {
    && OneCall(w.screen) && CallsSound(w.screen) && Accounted(w.screen)
    && PaymentsSound(w) && RecordsSound(w) && BookingsSound(w)
  }

  lemma HandleIsSound(w: World, r: Request, how: Handling)
    requires Sound(w) && r in w.screen.sent
    ensures Sound(w.(server := Handle(w.server, r, how)))
  {
    var t := Handle(w.server, r, how);
    forall c | c in w.screen.rendered ensures OnRecord(t, c) {
      var a :| a in w.server.records && w.server.records[a].created == c;
      assert a in t.records && t.records[a].created == c;
    }
  }

  /** Returning from the one call leaves the screen idle; moving it on leaves it the one call. */
  lemma CallMovesOn(s: Screen, call: nat, phase: Phase)
    requires OneCall(s) && call in s.calls
    ensures OneCall(Return(s, call)) && |Return(s, call).calls| + 1 == |s.calls|
    ensures OneCall(s.(calls := s.calls[call := phase])) && |s.calls[call := phase]| == |s.calls|
  {
    assert s.calls - {call} == map[];
    assert s.calls == map[call := s.calls[call]];
    assert s.calls[call := phase] == map[call := phase];
  }

  /** A call that returns leaves one page opened, or one alert. */
  lemma ReturnIsSound(w: World, call: nat, visits: seq<nat>, alerts: seq<Alert>)
    requires Sound(w) && call in w.screen.calls && |visits| + |alerts| == 1
    requires forall i :: 0 <= i < |visits| ==> Rendered(w.screen.rendered, visits[i])
    ensures Sound(w.(screen := Return(w.screen, call).(visited := w.screen.visited + visits,
                                                       alerts := w.screen.alerts + alerts)))
  {
    CallMovesOn(w.screen, call, w.screen.calls[call]);
    var t := Return(w.screen, call).(visited := w.screen.visited + visits, alerts := w.screen.alerts + alerts);
    assert Accounted(t) by { hide Rendered; }
    hide Accounted;
  }

  lemma MoveIsSound(w: World, call: nat, phase: Phase)
    requires Sound(w) && call in w.screen.calls && !w.screen.calls[call].Creating?
    requires !phase.Creating? && phase.created == w.screen.calls[call].created
    ensures Sound(w.(screen := w.screen.(calls := w.screen.calls[call := phase])))
  {
    CallMovesOn(w.screen, call, phase);
  }

  /** A tap that begins a call is one that asks for a booking, or goes on with the one it has. */
  lemma TapIsSound(w: World, booking: Option<Created>, valid: bool, request: Request)
    requires Sound(w) && (booking.Some? ==> booking.value in w.screen.rendered)
    ensures Sound(w.(screen := OnTap(w.screen, booking, valid, request)))
  {
    var s := w.screen;
    if !s.inFlight && valid {
      assert s.calls == map[];
      if booking.Some? {
        TapWithBooking(w, booking.value, request);
      } else {
        assert s.nextCall in s.calls[s.nextCall := Creating(request)];
        hide OnRecord, Rendered;
      }
    }
  }

  lemma TapWithBooking(w: World, created: Created, request: Request)
    requires Sound(w) && !w.screen.inFlight && created in w.screen.rendered
    ensures Sound(w.(screen := OnTap(w.screen, Some(created), true, request)))
  {
    var s := w.screen;
    var t := OnTap(s, Some(created), true, request);
    assert Rendered(s.rendered, created.id);
    hide OnRecord, Rendered;
    assert s.calls == map[] && s.calls - {s.nextCall} == map[];
    assert OneCall(t) by { assert s.nextCall in s.calls[s.nextCall := Starting(created)]; }
    hide OneCall;
    assert CallsSound(t) by { hide Accounted; }
    hide CallsSound;
  }

  lemma CallStepIsSound(w: World, e: Event)
    requires Sound(w) && Enabled(w, e) && !e.Tap? && !e.Arrive? && !e.CreateReplied?
    ensures Sound(Step(w, e))
  {
    var s := w.screen;
    if e.CallFailed? {
      AppendNothing(s.visited);
      ReturnIsSound(w, e.call, [], [WentWrong]);
    } else {
      var created := s.calls[e.call].created;
      assert created in s.rendered by { assert created == s.payments[|s.payments| - 1]; }
      AppendNothing(s.visited);
      AppendNothing(s.alerts);
      hide Sound;
      match e {
        case StartReplied(call) => MoveIsSound(w, call, Following(created));
        case Followed(call, outcome) =>
          match outcome {
            case Unsupported => ReturnIsSound(w, call, [], [Unavailable]);
            case Completed =>
              assert Rendered(s.rendered, created.id);
              ReturnIsSound(w, call, [created.id], []);
            case _ => MoveIsSound(w, call, Reading(created));
          }
        case StatusRead(call, status) =>
          if status.Some? && status.value != PENDING_PAYMENT {
            assert Rendered(s.rendered, created.id);
            ReturnIsSound(w, call, [created.id], []);
          } else {
            ReturnIsSound(w, call, [], [NotCompleted(status)]);
          }
      }
    }
  }

  lemma AppendedIs<T>(s: seq<T>, added: seq<T>, x: T)
    ensures s + added == s + [x] <==> added == [x]
    ensures s <= s + added && |s + added| == |s| + |added|
  {
    if s + added == s + [x] { assert added == (s + added)[|s|..] == (s + [x])[|s|..] == [x]; }
  }

  lemma AppendNothing<T>(s: seq<T>)
    ensures s + [] == s
  {
  }

  lemma StepIsSound(w: World, e: Event)
    requires Sound(w) && Enabled(w, e)
    ensures Sound(Step(w, e))
  {
    match e {
      case Arrive(r, how) => HandleIsSound(w, r, how);
      case Tap(booking, valid, request) => TapIsSound(w, booking, valid, request);
      case CreateReplied(call) => CreatedIsSound(w, call);
      case _ => CallStepIsSound(w, e);
    }
  }

  lemma CreatedIsSound(w: World, call: nat)
    requires Sound(w) && Enabled(w, CreateReplied(call))
    ensures Sound(Step(w, CreateReplied(call)))
  {
    // While the reply is taken in the call no longer waits for a booking.
    var s := w.screen;
    var created := w.server.records[s.calls[call].request.actor].created;
    CallMovesOn(s, call, Starting(created));
    assert OnRecord(w.server, created);
    var t := Step(w, CreateReplied(call)).screen;
    assert t.visited == s.visited || t.visited == s.visited + [created.id];
  }

  /** Over every interleaving the screen and server stay sound. */
  lemma {:induction false} EveryRunIsSound(events: seq<Event>, w: World)
    requires Reaches(events, w)
    ensures Sound(w)
    decreases |events|
  {
    hide Sound, Step, Enabled;
    if events == [] {
      InitialIsSound();
    } else {
      var n := |events| - 1;
      var before :| Reaches(events[..n], before) && Next(before, events[n], w);
      EveryRunIsSound(events[..n], before);
      StepIsSound(before, events[n]);
    }
  }

  lemma InitialIsSound()
    ensures Sound(INITIAL)
  {
  }

  /** So two payment starts are never in flight together. */
  lemma OnePaymentStartInFlight(events: seq<Event>, w: World, c: nat, d: nat)
    requires Reaches(events, w)
    requires c in w.screen.calls && d in w.screen.calls && w.screen.calls[c].Starting? && w.screen.calls[d].Starting?
    ensures c == d && w.screen.inFlight
  {
    EveryRunIsSound(events, w);
  }

  // ---------------------------------------------------------------------------------------
  // What the buyer sees, over whole runs

  /** The alert an event ends its call with. */
  ghost function Told(e: Event): (r: seq<Alert>) {
    match e
    case CallFailed(_) => [WentWrong]
    case Followed(_, Unsupported) => [Unavailable]
    case StatusRead(_, None) => [NotCompleted(None)]
    case StatusRead(_, Some(PENDING_PAYMENT)) => [NotCompleted(Some(PENDING_PAYMENT))]
    case _ => []
  }

  ghost function AllTold(events: seq<Event>): (r: seq<Alert>) {
    if events == [] then [] else AllTold(events[..|events| - 1]) + Told(events[|events| - 1])
  }

  /** The alerts of every run are those of its failures, unsupported steps and unpaid statuses, in order. */
  lemma {:induction false} AlertsAreTold(events: seq<Event>, w: World)
    requires Reaches(events, w)
    ensures w.screen.alerts == AllTold(events)
    decreases |events|
  {
    if events != [] {
      var n := |events| - 1;
      var before :| Reaches(events[..n], before) && Next(before, events[n], w);
      AlertsAreTold(events[..n], before);
      hide Reaches;
      assert w.screen.alerts == before.screen.alerts + Told(events[n]);
    }
  }

  /** A booking comes to hand: a tap is accepted with it, or the create call under way is answered with it. */
  ghost predicate InHand(w: World, e: Event, created: Created) {
    || (e.Tap? && e.valid && w.screen.calls == map[] && e.booking == Some(created))
    || (e.CreateReplied? && e.call in w.screen.calls && w.screen.calls[e.call].Creating?
        && Request(w.screen.calls[e.call].request.actor, w.screen.calls[e.call].request.body) in w.screen.sent
        && w.screen.calls[e.call].request.actor in w.server.records
        && w.server.records[w.screen.calls[e.call].request.actor]
           == Record(w.screen.calls[e.call].request.body, created))
  }

  /** The buyer finished the steps, or the server no longer awaits the payment. */
  ghost predicate Finished(e: Event) {
    (e.Followed? && e.outcome == Completed) || (e.StatusRead? && e.status in {Some(CONFIRMED), Some(OTHER)})
  }

  /** The payment started last is for this booking. */
  ghost predicate PayingFor(s: Screen, id: nat) { s.payments != [] && s.payments[|s.payments| - 1].id == id }

  /**
   At every point of every run: a booking's page is opened exactly when it comes to hand confirmed, or
   when the payment started last is finished and is for it.
   */
  lemma OpensExactly(events: seq<Event>, w: World, e: Event, id: nat)
    requires Reaches(events, w) && Enabled(w, e)
    ensures Step(w, e).screen.visited == w.screen.visited + [id] <==>
              InHand(w, e, Created(id, CONFIRMED)) || (Finished(e) && PayingFor(w.screen, id))
    ensures w.screen.visited <= Step(w, e).screen.visited
    ensures |Step(w, e).screen.visited| <= |w.screen.visited| + 1
  {
    EveryRunIsSound(events, w);
    hide Reaches, Rendered, OnRecord, PaymentsSound, Accounted, RecordsSound, BookingsSound;
    if e.Tap? || e.CreateReplied? { OpensInHand(w, e, id); } else { OpensFinished(w, e, id); }
  }

  lemma OpensInHand(w: World, e: Event, id: nat)
    requires Enabled(w, e) && (e.Tap? || e.CreateReplied?) && OneCall(w.screen) && CallsSound(w.screen)
    ensures Step(w, e).screen.visited == w.screen.visited + [id] <==> InHand(w, e, Created(id, CONFIRMED))
    ensures w.screen.visited <= Step(w, e).screen.visited
    ensures |Step(w, e).screen.visited| <= |w.screen.visited| + 1
  {
    var visited := w.screen.visited;
    AppendNothing(visited);
    AppendedIs(visited, [], id);
    if e.CreateReplied? {
      AppendedIs(visited, [w.server.records[w.screen.calls[e.call].request.actor].created.id], id);
    } else if e.booking.Some? {
      AppendedIs(visited, [e.booking.value.id], id);
    }
  }

  lemma OpensFinished(w: World, e: Event, id: nat)
    requires Enabled(w, e) && !e.Tap? && !e.CreateReplied? && CallsSound(w.screen)
    ensures Step(w, e).screen.visited == w.screen.visited + [id] <==> Finished(e) && PayingFor(w.screen, id)
    ensures w.screen.visited <= Step(w, e).screen.visited
    ensures |Step(w, e).screen.visited| <= |w.screen.visited| + 1
  {
    var visited := w.screen.visited;
    AppendNothing(visited);
    AppendedIs(visited, [], id);
    if e.Followed? || e.StatusRead? { AppendedIs(visited, [w.screen.calls[e.call].created.id], id); }
  }

  /** A payment is started exactly when a booking comes to hand that is not confirmed, and it is for that booking. */
  lemma PaysExactly(events: seq<Event>, w: World, e: Event, created: Created)
    requires Reaches(events, w) && Enabled(w, e)
    ensures Step(w, e).screen.payments == w.screen.payments + [created] <==>
              InHand(w, e, created) && created.status != CONFIRMED
    ensures w.screen.payments <= Step(w, e).screen.payments
    ensures |Step(w, e).screen.payments| <= |w.screen.payments| + 1
  {
    EveryRunIsSound(events, w);
    hide Reaches, Rendered, OnRecord, PaymentsSound;
    var s := w.screen;
    var added := Step(w, e).screen.payments[|s.payments|..];
    AppendNothing(s.payments);
    AppendedIs(s.payments, added, created);
    if e.Tap? && e.booking.Some? {
      var c := e.booking.value;
      assert added == if e.valid && !s.inFlight && c.status != CONFIRMED then [c] else [];
    } else if e.CreateReplied? {
      var c := w.server.records[s.calls[e.call].request.actor].created;
      assert added == if c.status != CONFIRMED then [c] else [];
    } else {
      assert added == [];
    }
  }

  /** A call begins exactly on a valid tap while none is under way; it asks for a booking exactly without one. */
  lemma BeginsExactly(events: seq<Event>, w: World, e: Event, request: Request)
    requires Reaches(events, w) && Enabled(w, e)
    ensures var begins := e.Tap? && e.valid && w.screen.calls == map[];
            && Step(w, e).screen.nextCall == w.screen.nextCall + (if begins then 1 else 0)
            && (request in Step(w, e).screen.sent <==>
                  request in w.screen.sent || (begins && e.booking == None && e.request == request))
  {
    EveryRunIsSound(events, w);
  }

  /** The booking the screen holds: the one the last create call was answered with, until another one begins. */
  lemma HoldsExactly(events: seq<Event>, w: World, e: Event, created: Created)
    requires Reaches(events, w) && Enabled(w, e)
    ensures var asks := e.Tap? && e.valid && w.screen.calls == map[] && e.booking == None;
            && (Step(w, e).screen.data == Some(created) <==>
                  (e.CreateReplied? && InHand(w, e, created)) || (w.screen.data == Some(created) && !asks))
            && (created in Step(w, e).screen.rendered <==>
                  (e.CreateReplied? && InHand(w, e, created)) || created in w.screen.rendered)
  {
    EveryRunIsSound(events, w);
    hide Reaches, Rendered, OnRecord, PaymentsSound, Accounted, RecordsSound, BookingsSound;
  }

  /** Its status is read exactly after steps that were dismissed or failed. */
  lemma ReadsExactly(events: seq<Event>, w: World, e: Event, call: nat)
    requires Reaches(events, w) && Enabled(w, e)
    ensures var s, t := w.screen.calls, Step(w, e).screen.calls;
            call in t && t[call].Reading? <==>
              || (e.Followed? && e.call == call && e.outcome in {Dismissed, Failed})
              || (call in s && s[call].Reading? && !e.StatusRead?)
  {
    assert OneCall(w.screen) by { EveryRunIsSound(events, w); }
    hide Reaches, Proceed;
    CallIsFree(w.screen, call);
    if e.Tap? || e.CreateReplied? { OthersStay(w, e, call); }
  }

  /** The steps of a payment are followed exactly after it was started. */
  lemma FollowsExactly(events: seq<Event>, w: World, e: Event, call: nat)
    requires Reaches(events, w) && Enabled(w, e)
    ensures var s, t := w.screen.calls, Step(w, e).screen.calls;
            call in t && t[call].Following? <==>
              || (e.StartReplied? && e.call == call)
              || (call in s && s[call].Following? && !e.Followed? && !e.CallFailed?)
  {
    assert OneCall(w.screen) by { EveryRunIsSound(events, w); }
    hide Reaches, Proceed;
    CallIsFree(w.screen, call);
    if e.Tap? || e.CreateReplied? { OthersStay(w, e, call); }
  }

  /** A tap and a created booking leave only calls that were there, are being created or started. */
  lemma OthersStay(w: World, e: Event, call: nat)
    requires OneCall(w.screen) && (e.Tap? || e.CreateReplied?) && Enabled(w, e)
    ensures var s, t := w.screen.calls, Step(w, e).screen.calls;
            && (call in t && !t[call].Creating? && !t[call].Starting? ==> call in s && s[call] == t[call])
            && (call in s && !s[call].Creating? ==> call in t && s[call] == t[call])
  {
    CallIsFree(w.screen, call);
  }

  /** A call under way is the only one. */
  lemma CallIsFree(s: Screen, call: nat)
    requires OneCall(s)
    ensures call in s.calls ==> s.inFlight && s.calls.Keys == {call}
  {
  }

  /** In every run each call is under way or returned with exactly one page opened or one alert shown. */
  lemma EveryCallIsAccounted(events: seq<Event>, w: World)
    requires Reaches(events, w)
    ensures |w.screen.visited| + |w.screen.alerts| + (if w.screen.inFlight then 1 else 0) == w.screen.nextCall
    ensures w.screen.inFlight <==> w.screen.calls != map[]
  {
    EveryRunIsSound(events, w);
    if w.screen.inFlight {
      var call :| call in w.screen.calls;
      CallMovesOn(w.screen, call, w.screen.calls[call]);
      assert w.screen.calls - {call} == map[];
    }
  }

  // ---------------------------------------------------------------------------------------
  // What the server keeps

  /** A record is kept for good, and made only for a new actor whose booking is kept. */
  lemma RecordsExactly(events: seq<Event>, w: World, e: Event, a: string, record: Record)
    requires Reaches(events, w) && Enabled(w, e)
    ensures var s, t := w.server, Step(w, e).server;
            a in t.records && t.records[a] == record <==>
              || (a in s.records && s.records[a] == record)
              || (a !in s.records && e.Arrive? && e.how.Book? && e.request == Request(a, record.body)
                  && record.created == Created(|s.bookings|, e.how.status))
  {
  }

  /** A booking is made exactly for a new actor's request that is not rejected; a failed free one releases the key. */
  lemma BooksExactly(events: seq<Event>, w: World, e: Event, a: string)
    requires Reaches(events, w) && Enabled(w, e)
    ensures var s, t := w.server, Step(w, e).server;
            && (t.bookings == s.bookings + [a] <==>
                  e.Arrive? && e.request.actor == a && a !in s.records && e.how != Reject)
            && s.bookings <= t.bookings && |t.bookings| <= |s.bookings| + 1
            && |t.bookings| + |s.records| + s.released == |s.bookings| + |t.records| + t.released
  {
    var s := w.server;
    AppendNothing(s.bookings);
    if e.Arrive? { AppendedIs(s.bookings, [e.request.actor], a); }
  }

  /**
   Every page opened and every payment started, in any run, is for a booking on the server's record,
   made for an actor by a request of this screen.
   */
  lemma ScreenShowsRecords(events: seq<Event>, w: World, id: nat)
    requires Reaches(events, w)
    requires id in w.screen.visited || exists c :: c in w.screen.payments && c.id == id
    ensures id < |w.server.bookings|
    ensures exists a :: a in w.server.records && w.server.records[a].created.id == id
                     && w.server.bookings[id] == a && Request(a, w.server.records[a].body) in w.screen.sent
  {
    EveryRunIsSound(events, w);
    if id in w.screen.visited {
      var i :| 0 <= i < |w.screen.visited| && w.screen.visited[i] == id;
      assert Rendered(w.screen.rendered, w.screen.visited[i]);
    } else {
      var i :| 0 <= i < |w.screen.payments| && w.screen.payments[i].id == id;
      assert w.screen.payments[i] in w.screen.rendered;
    }
    var c :| c in w.screen.rendered && c.id == id;
    assert OnRecord(w.server, c);
    var a :| a in w.server.records && w.server.records[a].created == c;
    assert w.server.bookings[id] == a;
  }

  // ---------------------------------------------------------------------------------------
  // How many bookings

  lemma {:induction false} FewerThanActors(records: map<string, Record>, actors: set<string>)
    requires records.Keys <= actors
    ensures |records| <= |actors|
    decreases |actors|
  {
    if records != map[] {
      var a :| a in records;
      FewerThanActors(records - {a}, actors - {a});
      assert |records.Keys| == |records|;
      assert (records - {a}).Keys == records.Keys - {a};
    }
  }

  /** One screen makes at most one booking per actor that ever sent its key, and one more per released key. */
  lemma BookingsAreBounded(events: seq<Event>, w: World)
    requires Reaches(events, w)
    ensures |w.server.bookings| <= |set r | r in w.screen.sent :: r.actor| + w.server.released
  {
    EveryRunIsSound(events, w);
    var actors := set r | r in w.screen.sent :: r.actor;
    forall a | a in w.server.records ensures a in actors {
      assert Request(a, w.server.records[a].body) in w.screen.sent;
    }
    FewerThanActors(w.server.records, actors);
  }

  /** At most one booking, when the account stays the same and no free confirmation fails. */
  lemma AtMostOneBooking(events: seq<Event>, w: World, actor: string)
    requires Reaches(events, w) && w.server.released == 0
    requires forall r :: r in w.screen.sent ==> r.actor == actor
    ensures |w.server.bookings| <= 1
  {
    BookingsAreBounded(events, w);
    var actors := set r | r in w.screen.sent :: r.actor;
    assert actors <= {actor};
    if actors != {} { assert actors == {actor}; }
  }

  lemma Extend(events: seq<Event>, before: World, e: Event)
    requires Reaches(events, before) && Enabled(before, e)
    ensures Reaches(events + [e], Step(before, e))
  {
    assert (events + [e])[..|events|] == events;
    assert Next(before, e, Step(before, e));
  }

  /** A tap whose create reply is lost: the request is out and the screen is idle again. */
  lemma LostCreate(events: seq<Event>, w: World, request: Request, how: Handling) returns (after: seq<Event>, t: World)
    requires Reaches(events, w) && !w.screen.inFlight && request.actor !in w.server.records
    ensures Reaches(after, t) && !t.screen.inFlight
    ensures t.server == Handle(w.server, request, how) && t.screen.sent == w.screen.sent + {request}
  {
    hide Reaches;
    var call := w.screen.nextCall;
    var e1, e2, e3 := Tap(None, true, request), Arrive(request, how), CallFailed(call);
    var w1 := Step(w, e1);
    var w2 := Step(w1, e2);
    Extend(events, w, e1);
    Extend(events + [e1], w1, e2);
    Extend(events + [e1] + [e2], w2, e3);
    after, t := events + [e1] + [e2] + [e3], Step(w2, e3);
  }

  /**
   Both conditions are needed. If the reply is lost and the account changes before the retry, the same
   key makes a second booking; so does a retry after a released key.
   */
  lemma TwoBookingsOtherwise(a: string, b: string, body: string, free: bool) returns (events: seq<Event>, w: World)
    requires if free then a == b else a != b
    ensures Reaches(events, w) && w.screen.sent == {Request(a, body), Request(b, body)}
    ensures |w.server.bookings| == 2 && w.server.released == if free then 1 else 0
  {
    hide Reaches;
    assert Reaches([], INITIAL) by { NothingHappened(); }
    var first, v := LostCreate([], INITIAL, Request(a, body), if free then BookAndRelease else Book(PENDING_PAYMENT));
    events, w := LostCreate(first, v, Request(b, body), Book(PENDING_PAYMENT));
  }

  lemma NothingHappened()
    ensures Reaches([], INITIAL)
  {
  }
}
