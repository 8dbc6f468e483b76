/** Deadline bookkeeping for one touch plan. */
module TouchPlanClock {
  import opened Wrappers
  import opened Geometry

  const POLL: real := 0.25
  const READ_DEADLINE_MARGIN: real := 1.0
  const LATE: real := 4.0
  const UNLOCATED_SETTLE: real := 1.0

  /** A time span given in milliseconds, negative ones as none. */
  function Seconds(ms: int): (r: real)
    ensures r >= 0.0
  {
    (if ms > 0 then ms else 0) as real / 1000.0
  }

  /** After a check that ended at `now` the touch could not be answered in time. */
  predicate TooLate(now: real, deadline: real, timeoutMs: int, readDeadline: Option<real>, reserve: real) {
    if readDeadline.Some? then now + (reserve + READ_DEADLINE_MARGIN) > readDeadline.value
    else timeoutMs > 0 && now - deadline > LATE
  }

  class Clock {
    const deadline: real
    const timeoutMs: int
    const readDeadline: Option<real>
    const reserve: real
    var firstUnlocated: Option<real>

    constructor (start: real, timeoutMs: int, readDeadline: Option<real>, reserve: real)
      ensures deadline == start + Seconds(timeoutMs) && this.timeoutMs == timeoutMs
      ensures this.readDeadline == readDeadline && this.reserve == reserve && firstUnlocated == None
    {
      this.deadline := start + Seconds(timeoutMs);
      this.timeoutMs := timeoutMs;
      this.readDeadline := readDeadline;
      this.reserve := reserve;
      this.firstUnlocated := None;
    }

    /** Nothing once the deadline has passed; before it, a sleep that does not go beyond it. */
    function SleepBeforeNextPass(now: real): (r: Option<real>)
      ensures r.Some? <==> now < deadline
      ensures r.Some? ==> 0.0 < r.value <= POLL && now + r.value <= deadline
      ensures r.Some? ==> r.value == POLL || now + r.value == deadline
    {
      var remaining := deadline - now;
      if remaining > 0.0 then Some(Min(POLL, remaining)) else None
    }

    predicate IsTooLateToAct(now: real) {
      TooLate(now, deadline, timeoutMs, readDeadline, reserve)
    }

    /** The first call starts the settle window; the answer is whether `now` is past it. */
    method ShouldFallBackWhenUnlocated(now: real) returns (fallBack: bool)
      modifies this
      ensures firstUnlocated == (if old(firstUnlocated).Some? then old(firstUnlocated) else Some(now))
      ensures fallBack <==> now - firstUnlocated.value >= UNLOCATED_SETTLE
    {
      var since := if firstUnlocated.Some? then firstUnlocated.value else now;
      firstUnlocated := Some(since);
      fallBack := now - since >= UNLOCATED_SETTLE;
    }
  }
}
