/**
 Acknowledging a reset or a deep link through the in-app marker: its counters advance with every reset
 and every URL, and start again at zero, under a new boot token, whenever the app is relaunched.
 */
module HooksAck {
  import opened Wrappers

  /** What happens to the app between two readings of its marker. */
  datatype Event = Reset | UrlOpened | Relaunch(boot: string)

  datatype App = App(boot: string, epoch: nat, nav: nat)

  function Apply(app: App, event: Event): App {
    match event
    case Reset => app.(epoch := app.epoch + 1)
    case UrlOpened => app.(nav := app.nav + 1)
    case Relaunch(boot) => App(boot, 0, 0)
  }

  function After(app: App, events: seq<Event>): App {
    if events == [] then app else Apply(After(app, events[..|events| - 1]), events[|events| - 1])
  }

  /** How many of `events` are `bump`, in the process running at the end. */
  function InProcess(events: seq<Event>, bump: Event): nat {
    if events == [] then 0
    else
      var last := events[|events| - 1];
      if last.Relaunch? then 0 else InProcess(events[..|events| - 1], bump) + (if last == bump then 1 else 0)
  }

  predicate Relaunched(events: seq<Event>) {
    exists i | 0 <= i < |events| :: events[i].Relaunch?
  }

  /** Every process has a boot token of its own. */
  predicate FreshBoots(app: App, events: seq<Event>) {
    forall i | 0 <= i < |events| && events[i].Relaunch? :: events[i].boot != app.boot
  }

  // ---------------------------------------------------------------- one reading against another

  /** The source's `hooksAcknowledged`, which `waitForHooksNav` repeats for its counter. */
  predicate Acknowledged(count: nat, boot: Option<string>, countBefore: nat, bootBefore: Option<string>) {
    if bootBefore.Some? && boot.Some? && boot != bootBefore then count >= 1 else count > countBefore
  }

  /** A marker may leave the boot token out, but never shows another process's. */
  predicate Shows(boot: Option<string>, app: App) {
    boot.None? || boot.value == app.boot
  }

  /** The counter that `bump` advances. */
  function CountOf(app: App, bump: Event): nat
    requires bump.Reset? || bump.UrlOpened?
  {
    if bump.Reset? then app.epoch else app.nav
  }

  /** What a counter says after a run: what this process did, on top of the old count if it is the same process. */
  lemma {:induction false} CountAfter(app: App, events: seq<Event>, bump: Event)
    requires bump.Reset? || bump.UrlOpened?
    ensures CountOf(After(app, events), bump) ==
      InProcess(events, bump) + (if Relaunched(events) then 0 else CountOf(app, bump))
    ensures !Relaunched(events) ==> After(app, events).boot == app.boot
    ensures Relaunched(events) && FreshBoots(app, events) ==> After(app, events).boot != app.boot
  {
    if events != [] {
      var before := events[..|events| - 1];
      CountAfter(app, before, bump);
      assert events == before + [events[|events| - 1]];
    }
  }

  lemma {:induction false} InProcessNeedsOne(events: seq<Event>, bump: Event)
    requires InProcess(events, bump) > 0
    ensures bump in events
  {
    var before := events[..|events| - 1];
    assert events == before + [events[|events| - 1]];
    if events[|events| - 1] != bump {
      InProcessNeedsOne(before, bump);
    }
  }

  /**
   Exactly when a reading counts as an acknowledgement, for any run of events and whether or not either
   reading had a boot token. With both, it is when the process now running has done it since the first.
   */
  lemma AcknowledgedIff(app: App, events: seq<Event>, bump: Event, bootBefore: Option<string>, boot: Option<string>)
    requires bump.Reset? || bump.UrlOpened?
    requires Shows(bootBefore, app) && Shows(boot, After(app, events)) && FreshBoots(app, events)
    ensures Acknowledged(CountOf(After(app, events), bump), boot, CountOf(app, bump), bootBefore) <==>
      if Relaunched(events) && (bootBefore.None? || boot.None?)
      then InProcess(events, bump) > CountOf(app, bump)
      else InProcess(events, bump) > 0
  {
    CountAfter(app, events, bump);
  }

  /** An acknowledged counter was bumped after the first reading: even without tokens, even with equal ones. */
  lemma AcknowledgedIsSound(app: App, events: seq<Event>, bump: Event, bootBefore: Option<string>, boot: Option<string>)
    requires bump.Reset? || bump.UrlOpened?
    requires Shows(bootBefore, app) && Shows(boot, After(app, events))
    requires Acknowledged(CountOf(After(app, events), bump), boot, CountOf(app, bump), bootBefore)
    ensures bump in events
  {
    CountAfter(app, events, bump);
    if InProcess(events, bump) > 0 {
      InProcessNeedsOne(events, bump);
    }
  }

  /** Without a token a relaunch can hide a reset that did run. */
  lemma MissingBootHidesReset()
    ensures var app, events := App("a", 3, 0), [Relaunch("b"), Reset];
      InProcess(events, Reset) > 0
      && !Acknowledged(After(app, events).epoch, None, app.epoch, Some(app.boot))
  {
    var app, events := App("a", 3, 0), [Relaunch("b"), Reset];
    assert events[..1] == [Relaunch("b")] && events[..1][..0] == [];
    assert After(app, events[..1]) == App("b", 0, 0);
    assert InProcess(events, Reset) == InProcess(events[..1], Reset) + 1;
  }

  // ---------------------------------------------------------------- polling for it

  datatype Marker = Marker(epoch: nat, nav: Option<nat>, boot: Option<string>, err: Option<string>)

  /** One turn of a polling loop: the clock, whether a system dialog was there to accept, the marker in the tree. */
  datatype Poll = Poll(now: real, dialogAccepted: bool, marker: Option<Marker>)

  const SLEEP: real := 0.2

  /** Turns are at least the sleep between them apart. */
  ghost predicate Advances(poll: nat -> Poll) {
    forall i: nat :: poll(i).now + SLEEP <= poll(i + 1).now
  }

  datatype Outcome = AcknowledgedAt(epoch: nat) | HookError(message: string) | TimedOut

  /** Whether turn `p` ends the wait for a reset, and how. */
  function EpochOutcome(p: Poll, epochBefore: nat, bootBefore: Option<string>): Option<Outcome> {
    if p.dialogAccepted || p.marker.None? then None
    else
      var m := p.marker.value;
      if !Acknowledged(m.epoch, m.boot, epochBefore, bootBefore) then None
      else if m.err.Some? then Some(HookError(m.err.value)) else Some(AcknowledgedAt(m.epoch))
  }

  /** Turn `i` is in time and the first that decides. */
  ghost predicate DecidesAt(
    poll: nat -> Poll, deadline: real, epochBefore: nat, bootBefore: Option<string>, outcome: Outcome, i: nat)
  {
    poll(i).now < deadline && EpochOutcome(poll(i), epochBefore, bootBefore) == Some(outcome)
    && forall j: nat :: j < i ==> EpochOutcome(poll(j), epochBefore, bootBefore).None?
  }

  /** The outcome of the first turn that decides, if one does in time. */
  ghost predicate IsFirstOutcome(
    poll: nat -> Poll, deadline: real, epochBefore: nat, bootBefore: Option<string>, outcome: Outcome)
  {
    if outcome.TimedOut? then
      forall i: nat :: poll(i).now < deadline ==> EpochOutcome(poll(i), epochBefore, bootBefore).None?
    else exists i: nat :: DecidesAt(poll, deadline, epochBefore, bootBefore, outcome, i)
  }

  /** The source's loop; `turns` is how often it looks. */
  method WaitForHooksEpoch(poll: nat -> Poll, deadline: real, epochBefore: nat, bootBefore: Option<string>)
    returns (outcome: Outcome, ghost turns: nat)
    requires Advances(poll)
    ensures IsFirstOutcome(poll, deadline, epochBefore, bootBefore, outcome)
    ensures turns > 0 ==> (turns - 1) as real < 5.0 * (deadline - poll(0).now)
  {
    var i: nat := 0;
    while poll(i).now < deadline
      invariant forall j: nat :: j < i ==> EpochOutcome(poll(j), epochBefore, bootBefore).None?
      invariant i > 0 ==> poll(i - 1).now < deadline
      decreases 5.0 * (deadline - poll(i).now)
    {
      var decided := EpochOutcome(poll(i), epochBefore, bootBefore);
      if decided.Some? {
        LaterTurn(poll, 0, i);
        assert DecidesAt(poll, deadline, epochBefore, bootBefore, decided.value, i);
        return decided.value, i + 1;
      }
      i := i + 1;
    }
    if i > 0 {
      LaterTurn(poll, 0, i - 1);
    }
    NoneInTime(poll, deadline, epochBefore, bootBefore, i);
    return TimedOut, i;
  }

  lemma NoneInTime(poll: nat -> Poll, deadline: real, epochBefore: nat, bootBefore: Option<string>, turns: nat)
    requires Advances(poll) && poll(turns).now >= deadline
    requires forall j: nat :: j < turns ==> EpochOutcome(poll(j), epochBefore, bootBefore).None?
    ensures IsFirstOutcome(poll, deadline, epochBefore, bootBefore, TimedOut)
  {
    forall i: nat | poll(i).now < deadline ensures EpochOutcome(poll(i), epochBefore, bootBefore).None? {
      if i >= turns {
        LaterTurn(poll, turns, i);
      }
    }
  }

  predicate NavAcknowledged(p: Poll, navBefore: nat, bootBefore: Option<string>) {
    !p.dialogAccepted && p.marker.Some? && p.marker.value.nav.Some?
    && Acknowledged(p.marker.value.nav.value, p.marker.value.boot, navBefore, bootBefore)
  }

  method WaitForHooksNav(
    poll: nat -> Poll, deadline: real, navBefore: nat, bootBefore: Option<string>)
    returns (acknowledged: bool)
    requires Advances(poll)
    ensures acknowledged <==> exists i: nat :: NavAcknowledged(poll(i), navBefore, bootBefore) && poll(i).now < deadline
  {
    var i: nat := 0;
    while poll(i).now < deadline
      invariant forall j: nat :: j < i ==> !NavAcknowledged(poll(j), navBefore, bootBefore)
      decreases 5.0 * (deadline - poll(i).now)
    {
      if NavAcknowledged(poll(i), navBefore, bootBefore) {
        return true;
      }
      i := i + 1;
    }
    forall j: nat | poll(j).now < deadline ensures !NavAcknowledged(poll(j), navBefore, bootBefore) {
      if j >= i {
        LaterTurn(poll, i, j);
      }
    }
    return false;
  }

  lemma {:induction false} LaterTurn(poll: nat -> Poll, i: nat, j: nat)
    requires Advances(poll) && i <= j
    ensures poll(i).now + SLEEP * (j - i) as real <= poll(j).now
    decreases j
  {
    if i < j {
      LaterTurn(poll, i, j - 1);
    }
  }

  // ---------------------------------------------------------------- opening a deep link

  /** Every marker read shows the app as it is after the events so far. */
  ghost predicate Observes(poll: nat -> Poll, app: App, log: nat -> seq<Event>) {
    forall i: nat :: poll(i).marker.Some? ==>
      var m, now := poll(i).marker.value, After(app, log(i));
      m.epoch == now.epoch && (m.nav.Some? ==> m.nav.value == now.nav) && Shows(m.boot, now)
  }

  datatype Reply =
    | Success(epochAfter: Option<nat>)
    | NotRendering
    | ResetFailed(message: string)
    | NotAcknowledged
    | NotDeclared

  /** The acknowledgement branches of `openDeepLink`; only warm delivery looks at the pixels once more. */
  method Acknowledge(poll: nat -> Poll, deadline: real, epochBefore: Option<nat>, navBefore: Option<nat>,
                     bootBefore: Option<string>, isWarm: bool, displayIsBlack: bool,
                     ghost app: App, ghost log: nat -> seq<Event>) returns (reply: Reply)
    requires Advances(poll) && Observes(poll, app, log) && Shows(bootBefore, app)
    requires epochBefore.Some? ==> epochBefore.value == app.epoch
    requires navBefore.Some? ==> navBefore.value == app.nav
    // A success answers a declared reset with a reset, and a declared link with a link, since the reading.
    ensures reply.Success? && epochBefore.Some? ==> reply.epochAfter.Some?
    ensures reply.Success? && epochBefore.Some? ==>
      exists i: nat :: poll(i).now < deadline && Reset in log(i) && reply.epochAfter == Some(After(app, log(i)).epoch)
    ensures reply.Success? && epochBefore.None? && navBefore.Some? ==> reply.epochAfter.None?
    ensures reply.Success? && epochBefore.None? && navBefore.Some? ==>
      exists i: nat :: poll(i).now < deadline && UrlOpened in log(i)
    ensures reply.ResetFailed? ==> epochBefore.Some? && exists i: nat :: poll(i).now < deadline && Reset in log(i)
    ensures reply.NotRendering? ==> isWarm && displayIsBlack
    ensures reply.Success? ==> !(isWarm && displayIsBlack)
    ensures reply.NotDeclared? <==> epochBefore.None? && navBefore.None?
    // A refusal means no reading before the deadline was an acknowledgement.
    ensures reply.NotAcknowledged? && epochBefore.Some? ==>
      IsFirstOutcome(poll, deadline, app.epoch, bootBefore, TimedOut)
    ensures reply.NotAcknowledged? && epochBefore.None? ==>
      forall i: nat :: poll(i).now < deadline ==> !NavAcknowledged(poll(i), app.nav, bootBefore)
  {
    if epochBefore.Some? {
      var outcome, turns := WaitForHooksEpoch(poll, deadline, epochBefore.value, bootBefore);
      if outcome.TimedOut? {
        return NotAcknowledged;
      }
      ghost var i: nat :| DecidesAt(poll, deadline, app.epoch, bootBefore, outcome, i);
      AcknowledgedIsSound(app, log(i), Reset, bootBefore, poll(i).marker.value.boot);
      match outcome
      case HookError(message) => return ResetFailed(message);
      case AcknowledgedAt(epoch) => return if isWarm && displayIsBlack then NotRendering else Success(Some(epoch));
    }
    if navBefore.Some? {
      var acknowledged := WaitForHooksNav(poll, deadline, navBefore.value, bootBefore);
      if !acknowledged {
        return NotAcknowledged;
      }
      ghost var i: nat :| NavAcknowledged(poll(i), app.nav, bootBefore) && poll(i).now < deadline;
      AcknowledgedIsSound(app, log(i), UrlOpened, bootBefore, poll(i).marker.value.boot);
      return if isWarm && displayIsBlack then NotRendering else Success(None);
    }
    return NotDeclared;
  }
}
