/**
 Deciding where a touch may land: the screen is checked again and again until nothing covers the target,
 time is up, or the target is gone; then the target is watched until it stops changing.
 */
module TouchPlan {
  import opened Wrappers
  import opened Geometry
  import opened OcclusionAnalyzer
  import opened TouchPlanClock

  /**
   One check of the screen: what the hit test and the tree said (no verdict when no tree could be read),
   how long the check took, and the time between the three clock readings after it.
   */
  datatype Pass = Pass(verdict: Option<Verdict>, isHittable: bool, took: NonNeg, lag: NonNeg, pause: NonNeg)

  datatype Plan =
    | HittableElement
    | TouchAt(point: Point, visible: Rect)
    | NotOnScreen
    | TooLateToAct
    | WentAway
    | StillCovered(cover: Cover)
    | NoTree

  /** The pass a plan was made in, when that pass's check ended, and the clock once it was made. */
  datatype Run = Run(plan: Plan, pass: nat, checkedAt: real, end: real)

  /** When planning starts and what limits it. */
  datatype Limits = Limits(start: real, timeoutMs: int, readDeadline: Option<real>, reserve: NonNeg) {
    function Deadline(): real { start + Seconds(timeoutMs) }

    /** The budget in milliseconds, a negative one counting as none. */
    function Budget(): nat { if timeoutMs > 0 then timeoutMs else 0 }
  }

  predicate IsUnlocated(p: Pass) {
    p.verdict.Some? && p.verdict.value.Unlocated?
  }

  // ---------------------------------------------------------------- the clock, pass by pass

  /** When pass `i` begins, if all before it end in a sleep. */
  function PassStart(screen: nat -> Pass, limits: Limits, i: nat): real
    decreases i, 0
  {
    if i == 0 then limits.start
    else
      var read := SleepRead(screen, limits, i - 1);
      if IsUnlocated(screen(i - 1)) then read + screen(i - 1).pause + POLL
      else read + Min(POLL, limits.Deadline() - read)
  }

  /** The clock when the check of pass `i` has ended. */
  function CheckedAt(screen: nat -> Pass, limits: Limits, i: nat): real
    decreases i, 1
  {
    PassStart(screen, limits, i) + screen(i).took
  }

  /** The clock when pass `i` works out how long it may sleep. */
  function SleepRead(screen: nat -> Pass, limits: Limits, i: nat): real
    decreases i, 2
  {
    CheckedAt(screen, limits, i) + screen(i).lag
  }

  /** The clock when pass `i`, an unlocated one, asks whether the target has had its time to settle. */
  function MissRead(screen: nat -> Pass, limits: Limits, i: nat): real {
    SleepRead(screen, limits, i) + screen(i).pause
  }

  /** The first unlocated pass among the first `count`. */
  function FirstMiss(screen: nat -> Pass, count: nat): (r: Option<nat>)
    ensures r.Some? ==> r.value < count && IsUnlocated(screen(r.value))
    ensures r.Some? ==> forall i: nat :: i < r.value ==> !IsUnlocated(screen(i))
    ensures r.None? ==> forall i: nat :: i < count ==> !IsUnlocated(screen(i))
  {
    if count == 0 then None
    else
      var earlier := FirstMiss(screen, count - 1);
      if earlier.Some? then earlier else if IsUnlocated(screen(count - 1)) then Some(count - 1) else None
  }

  /** When the settle window opens, if one of the first `count` passes opens it. */
  function WindowStart(screen: nat -> Pass, limits: Limits, count: nat): Option<real> {
    var miss := FirstMiss(screen, count);
    if miss.None? then None else Some(MissRead(screen, limits, miss.value))
  }

  lemma WindowOpens(screen: nat -> Pass, limits: Limits, i: nat)
    ensures var before, after := WindowStart(screen, limits, i), WindowStart(screen, limits, i + 1);
      if IsUnlocated(screen(i)) then (
        after == (if before.Some? then before else Some(MissRead(screen, limits, i)))
        && (HasSettled(screen, limits, i) <==> MissRead(screen, limits, i) - after.value >= UNLOCATED_SETTLE))
      else after == before && !HasSettled(screen, limits, i)
  {
  }

  /** Pass `i` is unlocated, a settle window or more after the first that was. */
  predicate HasSettled(screen: nat -> Pass, limits: Limits, i: nat) {
    IsUnlocated(screen(i)) && WindowStart(screen, limits, i + 1).Some?
    && MissRead(screen, limits, i) - WindowStart(screen, limits, i + 1).value >= UNLOCATED_SETTLE
  }

  /** What a check in time leads to, `timeIsUp` saying the budget is spent, `hasSettled` the settle window. */
  function Concluded(p: Pass, timeIsUp: bool, hasSettled: bool): Option<Plan> {
    match p.verdict
    case None => if p.isHittable then Some(HittableElement) else if timeIsUp then Some(NoTree) else None
    case Some(Clear(point, visible)) => Some(TouchAt(point, visible))
    case Some(Unlocated(point, visible)) => if hasSettled then Some(TouchAt(point, visible)) else None
    case Some(OffScreen) => Some(NotOnScreen)
    case Some(Gone) => Some(WentAway)
    case Some(Covered(cover)) => if timeIsUp then Some(StillCovered(cover)) else None
  }

  /** The plan pass `i` ends with, if it ends planning at all. */
  function PlanAt(screen: nat -> Pass, limits: Limits, i: nat): Option<Plan> {
    if TooLate(CheckedAt(screen, limits, i), limits.Deadline(), limits.timeoutMs, limits.readDeadline, limits.reserve)
    then Some(TooLateToAct)
    else Concluded(screen(i), SleepRead(screen, limits, i) >= limits.Deadline(), HasSettled(screen, limits, i))
  }

  /** No pass before `count` ended planning. */
  ghost predicate GoesOn(screen: nat -> Pass, limits: Limits, count: nat) {
    forall i: nat :: i < count ==> PlanAt(screen, limits, i).None?
  }

  /** The plan of the first pass that ended planning. */
  ghost predicate IsPlanned(screen: nat -> Pass, limits: Limits, run: Run) {
    GoesOn(screen, limits, run.pass) && PlanAt(screen, limits, run.pass) == Some(run.plan)
    && run.checkedAt == CheckedAt(screen, limits, run.pass) && run.checkedAt <= run.end
  }

  // ---------------------------------------------------------------- how many passes there can be

  /** How many of the first `count` passes were unlocated. */
  function Misses(screen: nat -> Pass, count: nat): (r: nat)
    ensures r <= count
    ensures r == 0 <==> FirstMiss(screen, count).None?
  {
    if count == 0 then 0 else Misses(screen, count - 1) + (if IsUnlocated(screen(count - 1)) then 1 else 0)
  }

  /**
   Every pass sleeps the poll interval or up to the deadline, after which only unlocated passes go on,
   and those only for a settle window.
   */
  lemma {:induction false} PassesSleep(screen: nat -> Pass, limits: Limits, count: nat)
    requires GoesOn(screen, limits, count)
    ensures var now, waits := PassStart(screen, limits, count), count - Misses(screen, count);
      (limits.start + POLL * waits as real <= now || limits.Deadline() <= now)
      && (waits > 0 ==> POLL * (waits - 1) as real < Seconds(limits.timeoutMs))
    ensures limits.start <= PassStart(screen, limits, count)
  {
    if count > 0 {
      PassesSleep(screen, limits, count - 1);
      assert PlanAt(screen, limits, count - 1).None?;
    }
  }

  lemma {:induction false} MissesSettle(screen: nat -> Pass, limits: Limits, count: nat)
    requires GoesOn(screen, limits, count) && FirstMiss(screen, count).Some?
    ensures MissRead(screen, limits, FirstMiss(screen, count).value) + POLL * Misses(screen, count) as real
      <= PassStart(screen, limits, count)
    ensures Misses(screen, count) <= 4
  {
    assert PlanAt(screen, limits, count - 1).None?;
    if FirstMiss(screen, count - 1).Some? {
      MissesSettle(screen, limits, count - 1);
    }
  }

  /** Planning takes a bounded number of passes: at most the polls that fit the budget, and five more. */
  lemma PassesAreBounded(screen: nat -> Pass, limits: Limits, count: nat)
    requires GoesOn(screen, limits, count)
    ensures 250 * count < limits.Budget() + 1250
  {
    PassesSleep(screen, limits, count);
    if FirstMiss(screen, count).Some? {
      MissesSettle(screen, limits, count);
    }
    var waits := count - Misses(screen, count);
    if waits > 0 {
      assert 0.25 * (waits - 1) as real * 1000.0 < limits.Budget() as real;
      assert (250 * (waits - 1)) as real < limits.Budget() as real;
    }
  }

  // ---------------------------------------------------------------- the loop

  /**
   What the last check has to say for a plan: nothing over the point, or a target that could not be placed
   for a whole settle window, or no tree at all and a hit test that passed. A cover or a missing tree is
   reported only once the budget is spent. A check that was acted on ended early enough for the touch, its
   hold and the answer to reach the daemon before it gives up.
   */
  predicate IsJustified(screen: nat -> Pass, limits: Limits, run: Run) {
    var check := screen(run.pass);
    && (run.plan.TouchAt? ==>
          check.verdict == Some(Clear(run.plan.point, run.plan.visible))
          || (check.verdict == Some(Unlocated(run.plan.point, run.plan.visible))
              && HasSettled(screen, limits, run.pass)))
    && (run.plan.HittableElement? ==> check.verdict.None? && check.isHittable)
    && (run.plan.StillCovered? ==> check.verdict == Some(Covered(run.plan.cover)))
    && (run.plan.NoTree? ==> check.verdict.None? && !check.isHittable)
    && (run.plan.StillCovered? || run.plan.NoTree? ==> SleepRead(screen, limits, run.pass) >= limits.Deadline())
    && (run.plan != TooLateToAct && limits.readDeadline.Some? ==>
          run.checkedAt <= limits.readDeadline.value - limits.reserve - READ_DEADLINE_MARGIN)
    && (run.plan != TooLateToAct && limits.readDeadline.None? && limits.timeoutMs > 0 ==>
          run.checkedAt <= limits.Deadline() + LATE)
  }

  lemma PlannedIsJustified(screen: nat -> Pass, limits: Limits, run: Run)
    requires IsPlanned(screen, limits, run)
    ensures IsJustified(screen, limits, run)
  {
  }

  /**
   Pass `i` could not have been acted on: it was covered, unlocated, or a blind and unhittable one, and there
   was time left, up to the deadline or, for an unlocated one, in the settle window the first such one opened.
   */
  predicate OnlyWaits(screen: nat -> Pass, limits: Limits, i: nat) {
    if IsUnlocated(screen(i)) then
      WindowStart(screen, limits, i + 1).Some?
      && MissRead(screen, limits, i) - WindowStart(screen, limits, i + 1).value < UNLOCATED_SETTLE
    else
      (if screen(i).verdict.None? then !screen(i).isHittable else screen(i).verdict.value.Covered?)
      && SleepRead(screen, limits, i) < limits.Deadline()
  }

  lemma GoingOnWaits(screen: nat -> Pass, limits: Limits, count: nat)
    requires GoesOn(screen, limits, count)
    ensures forall i: nat :: i < count ==> OnlyWaits(screen, limits, i)
  {
    forall i: nat | i < count ensures OnlyWaits(screen, limits, i) {
      assert PlanAt(screen, limits, i).None?;
    }
  }

  /** The source's `planTouch`. */
  method PlanTouch(screen: nat -> Pass, limits: Limits) returns (run: Run)
    ensures IsPlanned(screen, limits, run) && IsJustified(screen, limits, run)
    ensures forall i: nat :: i < run.pass ==> OnlyWaits(screen, limits, i)
    ensures 250 * run.pass < limits.Budget() + 1250
  {
    var clock := new Clock(limits.start, limits.timeoutMs, limits.readDeadline, limits.reserve);
    var now := limits.start;
    var i: nat := 0;
    PassesAreBounded(screen, limits, 0);
    while true
      invariant now == PassStart(screen, limits, i)
      invariant GoesOn(screen, limits, i) && 250 * i < limits.Budget() + 1250
      invariant clock.firstUnlocated == WindowStart(screen, limits, i)
      decreases limits.Budget() + 1250 - 250 * i
    {
      var pass := screen(i);
      now := now + pass.took;
      var checkedAt := now;
      assert checkedAt == CheckedAt(screen, limits, i);
      GoingOnWaits(screen, limits, i);
      WindowOpens(screen, limits, i);
      if clock.IsTooLateToAct(now) {
        run := Run(TooLateToAct, i, checkedAt, now);
        PlannedIsJustified(screen, limits, run);
        return;
      }
      now := now + pass.lag;
      assert now == SleepRead(screen, limits, i);
      var sleep := clock.SleepBeforeNextPass(now);
      var fallBack := false;
      if IsUnlocated(pass) {
        now := now + pass.pause;
        fallBack := clock.ShouldFallBackWhenUnlocated(now);
        sleep := Some(POLL);
      }
      assert clock.firstUnlocated == WindowStart(screen, limits, i + 1);
      assert fallBack <==> HasSettled(screen, limits, i);
      var plan := Concluded(pass, sleep.None?, fallBack);
      assert plan == PlanAt(screen, limits, i);
      if plan.Some? {
        run := Run(plan.value, i, checkedAt, now);
        PlannedIsJustified(screen, limits, run);
        return;
      }
      now := now + sleep.value;
      i := i + 1;
      PassesAreBounded(screen, limits, i);
    }
  }
}
