/**
 A touch planned, then held back until its target stops changing, and planned again if it was seen to
 change. What comes of it when the target can no longer be sampled.
 */
module SettledTouch {
  import opened Wrappers
  import opened Geometry
  import opened OcclusionAnalyzer
  import opened TouchPlan
  import Clock = TouchPlanClock
  import Settle = TouchSettle

  /** The screen as each stage finds it, and the time between the stages. */
  datatype World<!T> = World(
    first: nat -> Pass,
    watch: nat -> Settle.Sampling<T>,
    second: nat -> Pass,
    pause: nat -> NonNeg)

  datatype Command = Command(started: real, timeoutMs: int, readDeadline: Option<real>, reserve: NonNeg)

  /** What came of it: the first plan, how watching the target ended and when, and the second plan if one was made. */
  datatype Touch = Touch(plan: Plan, first: Run, outcome: Settle.Outcome, watchedUntil: real, again: Option<Run>)

  predicate IsTouch(plan: Plan) {
    plan.HittableElement? || plan.TouchAt?
  }

  function FirstLimits<T>(w: World<T>, c: Command): Limits {
    Limits(c.started + w.pause(0), c.timeoutMs, c.readDeadline, c.reserve)
  }

  function WatchDeadline<T>(w: World<T>, c: Command, first: Run): real {
    Settle.Deadline(first.end + w.pause(1), c.readDeadline, c.reserve)
  }

  function WatchStart<T>(w: World<T>, first: Run): real {
    first.end + w.pause(1) + w.pause(2)
  }

  /** What is left of the budget, in whole milliseconds. */
  function RemainingMs<T>(w: World<T>, c: Command, watchedUntil: real): int {
    var elapsed := Truncate((watchedUntil + w.pause(3) - c.started) * 1000.0);
    if c.timeoutMs - elapsed > 0 then c.timeoutMs - elapsed else 0
  }

  function SecondLimits<T>(w: World<T>, c: Command, watchedUntil: real): Limits {
    Limits(watchedUntil + w.pause(3) + w.pause(4), RemainingMs(w, c, watchedUntil), c.readDeadline, c.reserve)
  }

  /** `touch` is what the two plans and the wait between them make of the world; `samples` were taken in the wait. */
  ghost predicate IsSettledTouch<T(!new)>(w: World<T>, c: Command, touch: Touch, samples: nat) {
    IsPlanned(w.first, FirstLimits(w, c), touch.first)
    && (if IsTouch(touch.first.plan) then
          Settle.EndedBy(w.watch, WatchStart(w, touch.first), WatchDeadline(w, c, touch.first), touch.outcome, samples)
          && touch.watchedUntil == Settle.EndOf(w.watch, WatchStart(w, touch.first), touch.outcome, samples)
        else touch.outcome.Unreadable? && samples == 0 && touch.watchedUntil == touch.first.end)
    && (if touch.again.Some? then
          touch.first.plan.TouchAt? && touch.outcome.SawChange() && touch.plan == touch.again.value.plan
          && IsPlanned(w.second, SecondLimits(w, c, touch.watchedUntil), touch.again.value)
        else touch.plan == touch.first.plan && !(touch.first.plan.TouchAt? && touch.outcome.SawChange()))
  }

  method PlanSettledTouch<T(!new,==)>(w: World<T>, c: Command) returns (touch: Touch)
    ensures exists samples :: IsSettledTouch(w, c, touch, samples)
  {
    var first := PlanTouch(w.first, FirstLimits(w, c));
    if !IsTouch(first.plan) {
      touch := Touch(first.plan, first, Settle.Unreadable, first.end, None);
      assert IsSettledTouch(w, c, touch, 0);
      return;
    }
    var deadline := WatchDeadline(w, c, first);
    var outcome, watchedUntil, samples := Settle.Wait(w.watch, WatchStart(w, first), deadline);
    if !first.plan.TouchAt? || !outcome.SawChange() {
      touch := Touch(first.plan, first, outcome, watchedUntil, None);
    } else {
      var again := PlanTouch(w.second, SecondLimits(w, c, watchedUntil));
      touch := Touch(again.plan, first, outcome, watchedUntil, Some(again));
    }
    assert IsSettledTouch(w, c, touch, samples);
  }

  /** The touch goes to a point planned before a change that was seen while the target was watched. */
  ghost predicate IsStale<T(!new)>(w: World<T>, touch: Touch, samples: nat) {
    touch.plan.TouchAt? && touch.again.None? && Settle.Changed(w.watch, samples)
  }

  /** The screen lets two samples or more be taken, each unlike the last, and then refuses one ahead of the deadline. */
  ghost predicate SamplingBreaks<T(!new)>(w: World<T>, c: Command, first: Run) {
    exists n: nat :: n >= 2 && Settle.BreaksOff(w.watch, WatchStart(w, first), WatchDeadline(w, c, first), n)
  }

  /** Exactly when that happens: a point was planned, and sampling breaks off after the target was seen to change. */
  lemma StaleIff<T(!new)>(w: World<T>, c: Command, touch: Touch, samples: nat)
    requires IsSettledTouch(w, c, touch, samples)
    ensures IsStale(w, touch, samples) <==> touch.first.plan.TouchAt? && SamplingBreaks(w, c, touch.first)
  {
    var start, deadline := WatchStart(w, touch.first), WatchDeadline(w, c, touch.first);
    if IsTouch(touch.first.plan) {
      Settle.SawChangeIff(w.watch, start, deadline, touch.outcome, samples);
      if n: nat :| n >= 2 && Settle.BreaksOff(w.watch, start, deadline, n) {
        Settle.EndIsUnique(w.watch, start, deadline, touch.outcome, samples, Settle.Unreadable, n);
      }
    }
  }

  /** It does happen: a target that changes and then cannot be sampled is touched where it was. */
  lemma StaleTouch()
    ensures exists w: World<int>, c, touch, samples ::
      IsSettledTouch(w, c, touch, samples) && IsStale(w, touch, samples)
  {
    var spot := Rect(0.0, 0.0, 10.0, 10.0);
    var clear := Pass(Some(Clear(Point(5.0, 5.0), spot)), true, 0.0, 0.0, 0.0);
    var screen := (i: nat) => clear;
    var watch := (i: nat) =>
      Settle.Sampling(if i == 0 then Some(1) else if i == 1 then Some(2) else None, 0.0, 0.1, 0.0);
    var w := World(screen, watch, screen, (i: nat) => 0.0);
    var c := Command(0.0, 1000, None, 0.0);
    var first := Run(TouchAt(Point(5.0, 5.0), spot), 0, 0.0, 0.0);
    var touch := Touch(first.plan, first, Settle.Unreadable, 0.3, None);
    assert PlanAt(screen, FirstLimits(w, c), 0) == Some(first.plan);
    assert Settle.CheckedAt(watch, 0.0, 0) == 0.0 && Settle.CheckedAt(watch, 0.0, 1) == 0.1;
    assert Settle.CheckedAt(watch, 0.0, 2) == 0.2;
    assert Settle.Differs(watch, 1);
    assert IsSettledTouch(w, c, touch, 2) && IsStale(w, touch, 2);
  }

  /** The last check of `run` allowed the touch, and ended in time for the daemon to hear of it. */
  predicate Endorses(c: Command, check: Pass, run: Run, plan: Plan)
    requires plan.TouchAt?
  {
    (check.verdict == Some(Clear(plan.point, plan.visible))
     || check.verdict == Some(Unlocated(plan.point, plan.visible)))
    && (c.readDeadline.Some? ==> run.checkedAt <= c.readDeadline.value - c.reserve - Clock.READ_DEADLINE_MARGIN)
  }

  /** Check `again` of the second plan began once the watch was over, and so after every sample of it. */
  ghost predicate BeganAfterWatch<T(!new)>(w: World<T>, c: Command, touch: Touch, samples: nat, again: Run) {
    var began := PassStart(w.second, SecondLimits(w, c, touch.watchedUntil), again.pass);
    began >= touch.watchedUntil
    && forall i: nat :: i < samples ==> Settle.TakenAt(w.watch, WatchStart(w, touch.first), i) <= began
  }

  /**
   The touch that is made: a check allowed its point, in time for the daemon, and unless sampling broke
   off that check began after the last change seen while the target was watched.
   */
  lemma SettledTouchIsSafe<T(!new)>(w: World<T>, c: Command, touch: Touch, samples: nat)
    requires IsSettledTouch(w, c, touch, samples) && touch.plan.TouchAt?
    ensures touch.again.None? ==> Endorses(c, w.first(touch.first.pass), touch.first, touch.plan)
    ensures touch.again.Some? ==> Endorses(c, w.second(touch.again.value.pass), touch.again.value, touch.plan)
    ensures touch.again.Some? ==> BeganAfterWatch(w, c, touch, samples, touch.again.value)
    ensures !SamplingBreaks(w, c, touch.first) && Settle.Changed(w.watch, samples) ==> touch.again.Some?
  {
    StaleIff(w, c, touch, samples);
    if touch.again.Some? {
      PassesSleep(w.second, SecondLimits(w, c, touch.watchedUntil), touch.again.value.pass);
      forall i: nat | i < samples
        ensures Settle.TakenAt(w.watch, WatchStart(w, touch.first), i) <= touch.watchedUntil
      {
        Settle.EndsAfterSamples(
          w.watch, WatchStart(w, touch.first), WatchDeadline(w, c, touch.first), touch.outcome, samples, i);
      }
    }
  }

  /**
   Planning again does not start the budget over. What is left is counted in whole milliseconds, so a second
   plan with any budget ends at the command's own deadline, less than a millisecond past it, and the time it
   took to start; one with none has a single moment.
   */
  lemma BudgetIsShared<T(!new)>(w: World<T>, c: Command, touch: Touch, samples: nat)
    requires IsSettledTouch(w, c, touch, samples) && touch.again.Some?
    ensures var limits, own := SecondLimits(w, c, touch.watchedUntil), c.started + Clock.Seconds(c.timeoutMs);
      if limits.Budget() > 0 then own <= limits.Deadline() - w.pause(4) < own + 0.001
      else limits.Deadline() == limits.start && own <= limits.start - w.pause(4)
  {
    var elapsed := (touch.watchedUntil + w.pause(3) - c.started) * 1000.0;
    PassesSleep(w.first, FirstLimits(w, c), touch.first.pass);
    WatchEndsLater(w, c, touch, samples);
    assert elapsed >= 0.0;
    assert Truncate(elapsed) as real <= elapsed < Truncate(elapsed) as real + 1.0;
  }

  lemma WatchEndsLater<T(!new)>(w: World<T>, c: Command, touch: Touch, samples: nat)
    requires IsSettledTouch(w, c, touch, samples)
    ensures touch.first.end <= touch.watchedUntil
  {
    if IsTouch(touch.first.plan) {
      Settle.EndsAfterStart(
        w.watch, WatchStart(w, touch.first), WatchDeadline(w, c, touch.first), touch.outcome, samples);
    }
  }
}
