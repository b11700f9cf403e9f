/**
 The step-up dialog as a machine of promises. Any request that needs a fresh code calls `ask`; the
 person submits codes or closes the dialog; replies come back in any order, late or never.
 */
module StepUp {
  import opened Text

  /**
   `settle` names the promise whose resolver the ref holds; `settled` records every call of a
   resolver, in order; `submits` which promise was held when each code was submitted. Promises and
   submits are numbered as they are made.
   */
  datatype Dialog = Dialog(settle: Option<nat>, open: bool, busy: bool, error: bool, asked: nat,
                           settled: seq<(nat, bool)>, submits: seq<Option<nat>>)

  /** A reply names the submit it answers; the dialog does not look. */
  datatype Event = Ask | Submit | Accepted(submit: nat) | Refused(submit: nat) | Close

  const INITIAL := Dialog(None, false, false, false, 0, [], [])

  /** Calling the held resolver, if there is one. */
  function Resolve(d: Dialog, ok: bool): Dialog {
    if d.settle.None? then d else d.(settled := d.settled + [(d.settle.value, ok)])
  }

  function Finish(d: Dialog, ok: bool): Dialog { Resolve(d, ok).(open := false, settle := None) }

  function Step(d: Dialog, e: Event): Dialog {
    match e
    case Ask => Resolve(d, false).(settle := Some(d.asked), asked := d.asked + 1, open := true, error := false)
    case Submit => d.(busy := true, error := false, submits := d.submits + [d.settle])
    case Accepted(_) => Finish(d, true).(busy := false)
    case Refused(_) => d.(error := true, busy := false)
    case Close => Finish(d, false)
  }

  function Run(events: seq<Event>): Dialog {
    if events == [] then INITIAL else Step(Run(events[..|events| - 1]), events[|events| - 1])
  }

  class StepUpProvider {
    var settle: Option<nat>
    var open: bool
    var busy: bool
    var error: bool
    var asked: nat
    var settled: seq<(nat, bool)>
    var submits: seq<Option<nat>>

    function View(): Dialog
      reads this
    {
      Dialog(settle, open, busy, error, asked, settled, submits)
    }

    constructor ()
      ensures View() == INITIAL
    {
      settle, open, busy, error, asked, settled, submits := None, false, false, false, 0, [], [];
    }

    /** The promise executor: an unsettled earlier request is answered no before it is replaced. */
    method AskForCode() returns (promise: nat)
      modifies this
      ensures View() == Step(old(View()), Ask)
      ensures promise == old(asked) && settle == Some(promise)
    {
      if settle.Some? {
        settled := settled + [(settle.value, false)];
      }
      promise := asked;
      asked := asked + 1;
      settle := Some(promise);
      error := false;
      open := true;
    }

    method FinishWith(ok: bool)
      modifies this
      ensures View() == Finish(old(View()), ok)
    {
      open := false;
      if settle.Some? {
        settled := settled + [(settle.value, ok)];
      }
      settle := None;
    }

    /** Up to the await. */
    method SubmitCode() returns (submit: nat)
      modifies this
      ensures View() == Step(old(View()), Submit)
      ensures submit == old(|submits|) && submits[submit] == old(settle)
    {
      submit := |submits|;
      submits := submits + [settle];
      busy := true;
      error := false;
    }

    /** From the await on: the API accepted the code, or refused it. */
    method SubmitReturned(submit: nat, accepted: bool)
      modifies this
      ensures View() == Step(old(View()), if accepted then Accepted(submit) else Refused(submit))
    {
      if accepted {
        FinishWith(true);
      } else {
        error := true;
      }
      busy := false;
    }

    method CloseDialog()
      modifies this
      ensures View() == Step(old(View()), Close)
    {
      FinishWith(false);
    }
  }

  // ---------------------------------------------------------------------------------------
  // Settlement

  predicate IsSettled(d: Dialog, p: nat) { exists i :: 0 <= i < |d.settled| && d.settled[i].0 == p }

  /** Each promise settled at most once; all settled but the one held, which is the newest; open means one is held. */
  ghost predicate Sound(d: Dialog) {
    && (forall i, j :: 0 <= i < j < |d.settled| ==> d.settled[i].0 != d.settled[j].0)
    && (forall i :: 0 <= i < |d.settled| ==> d.settled[i].0 < d.asked)
    && (d.settle.Some? ==> d.asked > 0 && d.settle.value == d.asked - 1 && !IsSettled(d, d.settle.value))
    && (forall p: nat :: p < d.asked && d.settle != Some(p) ==> IsSettled(d, p))
    && (d.open <==> d.settle.Some?)
  }

  lemma ResolveSettles(d: Dialog, ok: bool)
    requires Sound(d)
    ensures var r := Resolve(d, ok);
            && (forall i, j :: 0 <= i < j < |r.settled| ==> r.settled[i].0 != r.settled[j].0)
            && (forall i :: 0 <= i < |r.settled| ==> r.settled[i].0 < d.asked)
            && (forall p: nat :: p < d.asked ==> IsSettled(r, p))
  {
    var r := Resolve(d, ok);
    forall p: nat | p < d.asked ensures IsSettled(r, p) {
      if d.settle == Some(p) {
        assert r.settled[|r.settled| - 1].0 == p;
      } else {
        assert IsSettled(d, p);
        var i :| 0 <= i < |d.settled| && d.settled[i].0 == p;
        assert r.settled[i].0 == p;
      }
    }
  }

  lemma StepIsSound(d: Dialog, e: Event)
    requires Sound(d)
    ensures Sound(Step(d, e))
  {
    ResolveSettles(d, false);
    ResolveSettles(d, true);
    var r := Step(d, e);
    forall p: nat | p < r.asked && r.settle != Some(p) ensures IsSettled(r, p) {
      match e {
        case Submit => assert IsSettled(d, p);
        case Refused(_) => assert IsSettled(d, p);
        case Ask => assert IsSettled(Resolve(d, false), p);
        case Close => assert IsSettled(Resolve(d, false), p);
        case Accepted(_) => assert IsSettled(Resolve(d, true), p);
      }
    }
  }

  /** Over every interleaving: at most one settlement each, and every request but the newest already answered. */
  lemma {:induction false} EveryRunIsSound(events: seq<Event>)
    ensures Sound(Run(events))
    decreases |events|
  {
    if events != [] {
      EveryRunIsSound(events[..|events| - 1]);
      StepIsSound(Run(events[..|events| - 1]), events[|events| - 1]);
    }
  }

  /** What one event adds to the answers. */
  lemma NewYes(d: Dialog, e: Event, k: nat)
    requires k < |Step(d, e).settled| && Step(d, e).settled[k].1
    ensures k < |d.settled| ==> d.settled[k] == Step(d, e).settled[k]
    ensures k >= |d.settled| ==> e.Accepted? && d.settle == Some(Step(d, e).settled[k].0)
  {
  }

  /** A request is answered yes only by an accepted code that arrived while that very request was held. */
  lemma {:induction false} YesNeedsAnAcceptedCode(events: seq<Event>, k: nat) returns (at: nat)
    requires k < |Run(events).settled| && Run(events).settled[k].1
    ensures at < |events| && events[at].Accepted?
    ensures Run(events[..at]).settle == Some(Run(events).settled[k].0)
    decreases |events|
  {
    hide Step;
    var n := |events| - 1;
    var before := Run(events[..n]);
    NewYes(before, events[n], k);
    if k < |before.settled| {
      at := YesNeedsAnAcceptedCode(events[..n], k);
      assert events[..n][..at] == events[..at];
    } else {
      at := n;
    }
  }

  // ---------------------------------------------------------------------------------------
  // Which request a code answers

  /** Nothing between `s` and `i` that settles a promise. */
  ghost predicate Quiet(events: seq<Event>, s: nat, i: nat)
    requires i <= |events|
  {
    forall j :: s < j < i ==> events[j].Submit? || events[j].Refused?
  }

  /** A request after `s` that nothing has settled before `i`, unless by a later request. */
  ghost predicate Reasked(events: seq<Event>, s: nat, i: nat)
    requires i <= |events|
  {
    exists j :: s < j < i && events[j].Ask? && forall l :: j < l < i ==> !events[l].Close? && !events[l].Accepted?
  }

  /** What is held some time after a code was submitted: the same promise, a newer one, or none. */
  lemma {:induction false} HeldSince(events: seq<Event>, s: nat, i: nat)
    requires s < i <= |events| && events[s].Submit? && Run(events[..s]).settle.Some?
    ensures var start, now := Run(events[..s]), Run(events[..i]);
            && now.asked >= start.asked && |now.submits| > |start.submits|
            && now.submits[|start.submits|] == start.settle
            && if Quiet(events, s, i) then now.settle == start.settle
               else if Reasked(events, s, i) then now.settle.Some? && now.settle.value >= start.asked
               else now.settle.None?
    decreases i
  {
    assert events[..i][..i - 1] == events[..i - 1] && events[..i][i - 1] == events[i - 1];
    if i - 1 > s {
      HeldSince(events, s, i - 1);
      SegmentGrows(events, s, i);
    }
  }

  /** How one more event changes the two conditions. */
  lemma SegmentGrows(events: seq<Event>, s: nat, i: nat)
    requires s < i - 1 < i <= |events|
    ensures var e := events[i - 1];
            && (Quiet(events, s, i) <==> Quiet(events, s, i - 1) && (e.Submit? || e.Refused?))
            && (Reasked(events, s, i) <==> e.Ask? || (Reasked(events, s, i - 1) && !e.Close? && !e.Accepted?))
  {
    var e := events[i - 1];
    if Reasked(events, s, i - 1) && !e.Close? && !e.Accepted? {
      var j :| s < j < i - 1 && events[j].Ask?
               && forall l :: j < l < i - 1 ==> !events[l].Close? && !events[l].Accepted?;
      assert forall l :: j < l < i ==> !events[l].Close? && !events[l].Accepted?;
    }
    if e.Ask? { assert Reasked(events, s, i); }
  }

  /**
   A code submitted at `s`, while a request was held, and accepted at `at` answers that request if and
   only if nothing but submits and refusals came between; it answers a newer request yes if and only if
   one came between and nothing has settled it; otherwise it answers nobody.
   */
  lemma AnswersItsRequestExactly(events: seq<Event>, s: nat, at: nat)
    requires s < at < |events| && events[s].Submit? && Run(events[..s]).settle.Some?
    requires events[at] == Accepted(|Run(events[..s]).submits|)
    ensures var before, after := Run(events[..at]), Run(events[..at + 1]);
            var request := Run(events[..s]).settle;
            && |before.submits| > events[at].submit && before.submits[events[at].submit] == request
            && (after.settled == before.settled + [(request.value, true)] <==> Quiet(events, s, at))
            && ((exists p: nat :: p > request.value && after.settled == before.settled + [(p, true)])
                <==> Reasked(events, s, at))
            && (after.settled == before.settled <==> !Quiet(events, s, at) && !Reasked(events, s, at))
  {
    hide Quiet, Reasked;
    var start, before, after := Run(events[..s]), Run(events[..at]), Run(events[..at + 1]);
    HeldSince(events, s, at);
    EveryRunIsSound(events[..s]);
    assert events[..at + 1][..at] == events[..at];
    assert after.settled
        == if before.settle.None? then before.settled else before.settled + [(before.settle.value, true)];
    QuietIsNotReasked(events, s, at);
    LastOf(before.settled, after.settled);
    if Reasked(events, s, at) { assert after.settled == before.settled + [(before.settle.value, true)]; }
  }

  lemma QuietIsNotReasked(events: seq<Event>, s: nat, i: nat)
    requires i <= |events|
    ensures !(Quiet(events, s, i) && Reasked(events, s, i))
  {
  }

  lemma LastOf(a: seq<(nat, bool)>, b: seq<(nat, bool)>)
    ensures forall x, y :: b == a + [x] && b == a + [y] ==> x == y
    ensures forall x :: b == a + [x] ==> b != a
  {
    forall x, y | b == a + [x] && b == a + [y] ensures x == y {
      assert b[|a|] == x && b[|a|] == y;
    }
  }

  /** It happens: a code submitted for the first request answers the second yes. */
  lemma CodeAnswersAnother()
    ensures var d := Run([Ask, Submit, Ask, Accepted(0)]);
            d.submits == [Some(0)] && d.settled == [(0, false), (1, true)]
  {
    var all := [Ask, Submit, Ask, Accepted(0)];
    assert all[..3] == [Ask, Submit, Ask] && [Ask, Submit, Ask][..2] == [Ask, Submit] && [Ask, Submit][..1] == [Ask];
    assert [Ask][..0] == [];
    assert Run([Ask]).settle == Some(0);
    assert Run([Ask, Submit]).submits == [Some(0)];
    assert Run([Ask, Submit, Ask]).settle == Some(1);
  }

  /** The latest submit has no reply since. */
  ghost predicate Waiting(events: seq<Event>) {
    exists j :: 0 <= j < |events| && events[j].Submit?
                && forall l :: j < l < |events| ==> !events[l].Accepted? && !events[l].Refused?
  }

  /** The latest of request, submit and refusal is a refusal. */
  ghost predicate Complaining(events: seq<Event>) {
    exists j :: 0 <= j < |events| && events[j].Refused?
                && forall l :: j < l < |events| ==> !events[l].Ask? && !events[l].Submit?
  }

  lemma WaitingGrows(before: seq<Event>, e: Event)
    ensures Waiting(before + [e]) <==> e.Submit? || (Waiting(before) && !e.Accepted? && !e.Refused?)
  {
    var all := before + [e];
    assert all[|before|] == e && forall j :: 0 <= j < |before| ==> all[j] == before[j];
    if Waiting(before) && !e.Accepted? && !e.Refused? {
      var j :| 0 <= j < |before| && before[j].Submit?
               && forall l :: j < l < |before| ==> !before[l].Accepted? && !before[l].Refused?;
      assert all[j].Submit?;
    }
    if Waiting(all) && !e.Submit? {
      var j :| 0 <= j < |all| && all[j].Submit?
               && forall l :: j < l < |all| ==> !all[l].Accepted? && !all[l].Refused?;
      assert before[j].Submit?;
    }
  }

  lemma ComplainingGrows(before: seq<Event>, e: Event)
    ensures Complaining(before + [e]) <==> e.Refused? || (Complaining(before) && !e.Ask? && !e.Submit?)
  {
    var all := before + [e];
    assert all[|before|] == e && forall j :: 0 <= j < |before| ==> all[j] == before[j];
    if Complaining(before) && !e.Ask? && !e.Submit? {
      var j :| 0 <= j < |before| && before[j].Refused?
               && forall l :: j < l < |before| ==> !before[l].Ask? && !before[l].Submit?;
      assert all[j].Refused?;
    }
    if Complaining(all) && !e.Refused? {
      var j :| 0 <= j < |all| && all[j].Refused?
               && forall l :: j < l < |all| ==> !all[l].Ask? && !all[l].Submit?;
      assert before[j].Refused?;
    }
  }

  /** The form is busy, and shows an error, exactly then. */
  lemma {:induction false} BusyAndErrorExactly(events: seq<Event>)
    ensures Run(events).busy <==> Waiting(events)
    ensures Run(events).error <==> Complaining(events)
    decreases |events|
  {
    if events != [] {
      hide Waiting, Complaining;
      var n := |events| - 1;
      BusyAndErrorExactly(events[..n]);
      assert events == events[..n] + [events[n]];
      WaitingGrows(events[..n], events[n]);
      ComplainingGrows(events[..n], events[n]);
    }
  }
}
