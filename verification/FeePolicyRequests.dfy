/**
 Sending one fee-policy request: one silent session refresh on 401, one step-up on
 MFA_STEP_UP_REQUIRED, and no other repeat.
 */
module FeePolicyRequests {
  datatype Reply<T> = Good(data: T) | Bad(status: int, code: string) | Unreachable

  /**
   What the world answers at the n-th fetch: the reply, whether a refresh token is held, whether the
   refresh works, and whether the person completes the step-up.
   */
  datatype Answer<T> = Answer(reply: Reply<T>, hasRefreshToken: bool, refreshWorks: bool, stepsUp: bool)

  datatype Outcome<T> = Returned(data: T) | Thrown(status: int, code: string) | FetchFailed

  datatype Sent<T> = Sent(outcome: Outcome<T>, fetches: nat, refreshes: nat, stepUps: nat, setupReports: nat)

  predicate WantsRefresh<T>(a: Answer<T>, refreshed: bool) {
    a.reply.Bad? && a.reply.status == 401 && !refreshed && a.hasRefreshToken
  }

  predicate WantsStepUp<T>(a: Answer<T>, steppedUp: bool) {
    a.reply.Bad? && a.reply.status == 403 && a.reply.code == "MFA_STEP_UP_REQUIRED" && !steppedUp
  }

  predicate ReportsSetup<T>(a: Answer<T>) {
    && a.reply.Bad? && a.reply.status == 403
    && (a.reply.code == "MFA_SETUP_REQUIRED" || a.reply.code == "MFA_NOT_CONFIGURED")
  }

  /** `send`: its two flags only ever go from false to true. `n` numbers the fetches. */
  method Send<T>(world: nat -> Answer<T>, n: nat, refreshed: bool, steppedUp: bool) returns (sent: Sent<T>)
    ensures sent == Sending(world, n, refreshed, steppedUp)
    decreases !refreshed, !steppedUp
  {
    var a := world(n);
    if a.reply.Unreachable? {
      return Sent(FetchFailed, 1, 0, 0, 0);
    }
    if a.reply.Good? {
      return Sent(Returned(a.reply.data), 1, 0, 0, 0);
    }
    var refreshes, stepUps := 0, 0;
    if a.reply.status == 401 && !refreshed && a.hasRefreshToken {
      refreshes := 1;
      if a.refreshWorks {
        var rest := Send(world, n + 1, true, steppedUp);
        return rest.(fetches := rest.fetches + 1, refreshes := rest.refreshes + 1);
      }
    }
    if a.reply.status == 403 && a.reply.code == "MFA_STEP_UP_REQUIRED" && !steppedUp {
      stepUps := 1;
      if a.stepsUp {
        var rest := Send(world, n + 1, refreshed, true);
        return rest.(fetches := rest.fetches + 1, stepUps := rest.stepUps + 1);
      }
    }
    var reports := if ReportsSetup(a) then 1 else 0;
    sent := Sent(Thrown(a.reply.status, a.reply.code), 1, refreshes, stepUps, reports);
  }

  function Sending<T>(world: nat -> Answer<T>, n: nat, refreshed: bool, steppedUp: bool): Sent<T>
    decreases !refreshed, !steppedUp
  {
    var a := world(n);
    match a.reply
    case Unreachable => Sent(FetchFailed, 1, 0, 0, 0)
    case Good(data) => Sent(Returned(data), 1, 0, 0, 0)
    case Bad(status, code) =>
      if WantsRefresh(a, refreshed) && a.refreshWorks then
        var rest := Sending(world, n + 1, true, steppedUp);
        rest.(fetches := rest.fetches + 1, refreshes := rest.refreshes + 1)
      else if WantsStepUp(a, steppedUp) && a.stepsUp then
        var rest := Sending(world, n + 1, refreshed, true);
        rest.(fetches := rest.fetches + 1, stepUps := rest.stepUps + 1)
      else
        Sent(Thrown(status, code), 1, if WantsRefresh(a, refreshed) then 1 else 0,
             if WantsStepUp(a, steppedUp) then 1 else 0, if ReportsSetup(a) then 1 else 0)
  }

  /**
   Whatever the world answers: at most one fetch more than the flags still down, the refresh and the
   dialog each tried at most once, and no fetch repeated without one of them.
   */
  lemma {:induction false} SendIsBounded<T>(world: nat -> Answer<T>, n: nat, refreshed: bool, steppedUp: bool)
    ensures var sent := Sending(world, n, refreshed, steppedUp);
            && 1 <= sent.fetches <= 1 + (if refreshed then 0 else 1) + (if steppedUp then 0 else 1)
            && sent.refreshes <= (if refreshed then 0 else 1) && sent.stepUps <= (if steppedUp then 0 else 1)
            && sent.fetches <= 1 + sent.refreshes + sent.stepUps
    decreases !refreshed, !steppedUp
  {
    var a := world(n);
    if a.reply.Bad? {
      if WantsRefresh(a, refreshed) && a.refreshWorks {
        SendIsBounded(world, n + 1, true, steppedUp);
      } else if WantsStepUp(a, steppedUp) && a.stepsUp {
        SendIsBounded(world, n + 1, refreshed, true);
      }
    }
  }

  /** The last fetch a send makes. */
  function Last<T>(world: nat -> Answer<T>, n: nat, refreshed: bool, steppedUp: bool): Answer<T> {
    SendIsBounded(world, n, refreshed, steppedUp);
    world(n + Sending(world, n, refreshed, steppedUp).fetches - 1)
  }

  /** What a send's outcome says about the last reply. */
  predicate Decided<T(==)>(sent: Sent<T>, last: Answer<T>, refreshed: bool, steppedUp: bool) {
    && (match last.reply
        case Unreachable => sent.outcome == FetchFailed
        case Good(data) => sent.outcome == Returned(data)
        case Bad(status, code) =>
          // an error, and no permitted repeat was left
          && sent.outcome == Thrown(status, code)
          && (WantsRefresh(last, false) && last.refreshWorks ==> refreshed || sent.refreshes == 1)
          && (WantsStepUp(last, false) && last.stepsUp ==> steppedUp || sent.stepUps == 1))
    && (sent.setupReports == 1 <==> ReportsSetup(last))
  }

  /** One fetch: the outcome is decided here, or the rest of the sends decide it. */
  lemma OneFetch<T>(world: nat -> Answer<T>, n: nat, refreshed: bool, steppedUp: bool)
    ensures var sent, a := Sending(world, n, refreshed, steppedUp), world(n);
            var last := Last(world, n, refreshed, steppedUp);
            if WantsRefresh(a, refreshed) && a.refreshWorks then
              var rest := Sending(world, n + 1, true, steppedUp);
              && sent == rest.(fetches := rest.fetches + 1, refreshes := rest.refreshes + 1)
              && last == Last(world, n + 1, true, steppedUp)
            else if WantsStepUp(a, steppedUp) && a.stepsUp then
              var rest := Sending(world, n + 1, refreshed, true);
              && sent == rest.(fetches := rest.fetches + 1, stepUps := rest.stepUps + 1)
              && last == Last(world, n + 1, refreshed, true)
            else last == a && Decided(sent, a, refreshed, steppedUp)
  {
  }

  /** The last fetch alone decides the outcome. */
  lemma {:induction false} LastReplyDecides<T>(world: nat -> Answer<T>, n: nat, refreshed: bool, steppedUp: bool)
    ensures Decided(Sending(world, n, refreshed, steppedUp), Last(world, n, refreshed, steppedUp), refreshed, steppedUp)
    decreases !refreshed, !steppedUp
  {
    hide Sending, Last;
    OneFetch(world, n, refreshed, steppedUp);
    var a := world(n);
    if WantsRefresh(a, refreshed) && a.refreshWorks {
      LastReplyDecides(world, n + 1, true, steppedUp);
      SendIsBounded(world, n + 1, true, steppedUp);
    } else if WantsStepUp(a, steppedUp) && a.stepsUp {
      LastReplyDecides(world, n + 1, refreshed, true);
      SendIsBounded(world, n + 1, refreshed, true);
    }
  }

  predicate AsksRefresh<T>(a: Answer<T>) { a.reply.Bad? && a.reply.status == 401 && a.hasRefreshToken }

  predicate AsksStepUp<T>(a: Answer<T>) {
    a.reply.Bad? && a.reply.status == 403 && a.reply.code == "MFA_STEP_UP_REQUIRED"
  }

  /** The refresh and the dialog are tried exactly when some reply asks for them and their flag is still down. */
  lemma {:induction false} TriedExactly<T>(world: nat -> Answer<T>, n: nat, refreshed: bool, steppedUp: bool)
    ensures var sent := Sending(world, n, refreshed, steppedUp);
            && (sent.refreshes == 1 <==>
                  !refreshed && exists i: nat :: n <= i < n + sent.fetches && AsksRefresh(world(i)))
            && (sent.stepUps == 1 <==>
                  !steppedUp && exists i: nat :: n <= i < n + sent.fetches && AsksStepUp(world(i)))
    decreases !refreshed, !steppedUp
  {
    hide Sending, Last;
    var a := world(n);
    OneTry(world, n, refreshed, steppedUp);
    SendIsBounded(world, n, refreshed, steppedUp);
    if WantsRefresh(a, refreshed) && a.refreshWorks {
      TriedExactly(world, n + 1, true, steppedUp);
      SendIsBounded(world, n + 1, true, steppedUp);
    } else if WantsStepUp(a, steppedUp) && a.stepsUp {
      TriedExactly(world, n + 1, refreshed, true);
      SendIsBounded(world, n + 1, refreshed, true);
    }
  }

  lemma OneTry<T>(world: nat -> Answer<T>, n: nat, refreshed: bool, steppedUp: bool)
    ensures var sent, a := Sending(world, n, refreshed, steppedUp), world(n);
            if WantsRefresh(a, refreshed) && a.refreshWorks then
              var rest := Sending(world, n + 1, true, steppedUp);
              sent == rest.(fetches := rest.fetches + 1, refreshes := rest.refreshes + 1)
            else if WantsStepUp(a, steppedUp) && a.stepsUp then
              var rest := Sending(world, n + 1, refreshed, true);
              sent == rest.(fetches := rest.fetches + 1, stepUps := rest.stepUps + 1)
            else
              && sent.fetches == 1
              && (sent.refreshes == 1 <==> !refreshed && AsksRefresh(a))
              && (sent.stepUps == 1 <==> !steppedUp && AsksStepUp(a))
  {
  }

  /** Setup is reported once at most, exactly when the last reply says that a second factor is not set up. */
  lemma ReportsExactly<T>(world: nat -> Answer<T>, n: nat, refreshed: bool, steppedUp: bool)
    ensures var sent, reply := Sending(world, n, refreshed, steppedUp), Last(world, n, refreshed, steppedUp).reply;
            && sent.setupReports <= 1
            && (sent.setupReports == 1 <==>
                  && reply.Bad? && reply.status == 403
                  && reply.code in {"MFA_SETUP_REQUIRED", "MFA_NOT_CONFIGURED"})
  {
    LastReplyDecides(world, n, refreshed, steppedUp);
    AtMostOneReport(world, n, refreshed, steppedUp);
    hide Sending;
  }

  lemma {:induction false} AtMostOneReport<T>(world: nat -> Answer<T>, n: nat, refreshed: bool, steppedUp: bool)
    ensures Sending(world, n, refreshed, steppedUp).setupReports <= 1
    decreases !refreshed, !steppedUp
  {
    if !refreshed { AtMostOneReport(world, n + 1, true, steppedUp); }
    if !steppedUp { AtMostOneReport(world, n + 1, refreshed, true); }
  }
}
