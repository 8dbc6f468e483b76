/**
 Waiting for a touch target to stop changing on screen: it is sampled until two samples in a row are
 equal, a sample cannot be taken, or time is up.
 */
module TouchSettle {
  import opened Wrappers
  import opened Geometry

  const MAX_WAIT: real := 1.0
  const MIN_SAMPLE_GAP: real := 0.034
  const READ_DEADLINE_MARGIN: real := 1.0

  datatype Outcome = Settled(samples: nat) | StillChanging(samples: nat) | Unreadable | NoTime {
    predicate SawChange() {
      match this
      case Settled(samples) => samples > 2
      case StillChanging(samples) => samples > 1
      case Unreadable => false
      case NoTime => false
    }
  }

  function Deadline(now: real, readDeadline: Option<real>, reserve: real): real {
    if readDeadline.None? then now + MAX_WAIT
    else Min(now + MAX_WAIT, readDeadline.value - (READ_DEADLINE_MARGIN + Max(0.0, reserve)))
  }

  /**
   One sample as the screen gives it, and the time that passes around it: from the deadline check to the
   sample's own clock reading, while it is taken, and after the sleep that keeps samples apart.
   */
  datatype Sampling<T> = Sampling(sample: Option<T>, before: NonNeg, during: NonNeg, after: NonNeg)

  /** When the deadline is checked ahead of sample `i`. */
  function CheckedAt<T>(screen: nat -> Sampling<T>, start: real, i: nat): real {
    if i == 0 then start
    else
      var s := screen(i - 1);
      CheckedAt(screen, start, i - 1) + s.before + Max(s.during, MIN_SAMPLE_GAP) + s.after
  }

  /** When sample `i` had been taken. */
  function TakenAt<T>(screen: nat -> Sampling<T>, start: real, i: nat): real {
    CheckedAt(screen, start, i) + screen(i).before + screen(i).during
  }

  /** Samples 0 to `count - 1` were all taken, each before the deadline and each unlike the one before it. */
  ghost predicate KeptChanging<T(!new)>(screen: nat -> Sampling<T>, start: real, deadline: real, count: nat) {
    (forall i: nat :: i < count ==> IsTaken(screen, start, deadline, i))
    && (forall i: nat :: 0 < i < count ==> Differs(screen, i))
  }

  /** Sample `i` was taken, and in time. */
  predicate IsTaken<T>(screen: nat -> Sampling<T>, start: real, deadline: real, i: nat) {
    screen(i).sample.Some? && CheckedAt(screen, start, i) < deadline
  }

  /** Sample `i` is unlike the one before it. */
  ghost predicate Differs<T>(screen: nat -> Sampling<T>, i: nat)
    requires i > 0
  {
    screen(i).sample != screen(i - 1).sample
  }

  /** What the wait saw when it ended as it did. */
  ghost predicate EndedBy<T(!new)>(
    screen: nat -> Sampling<T>, start: real, deadline: real, outcome: Outcome, count: nat)
  {
    match outcome
    case NoTime => count == 0 && start >= deadline
    case Settled(samples) => (
      samples == count && count >= 2 && KeptChanging(screen, start, deadline, count - 1)
      && IsTaken(screen, start, deadline, count - 1) && !Differs(screen, count - 1))
    case StillChanging(samples) => (
      samples == count && count >= 1 && KeptChanging(screen, start, deadline, count)
      && CheckedAt(screen, start, count) >= deadline)
    case Unreadable => BreaksOff(screen, start, deadline, count)
  }

  /** `count` samples were taken, each unlike the one before it, and then one failed ahead of the deadline. */
  ghost predicate BreaksOff<T(!new)>(screen: nat -> Sampling<T>, start: real, deadline: real, count: nat) {
    KeptChanging(screen, start, deadline, count)
    && CheckedAt(screen, start, count) < deadline && screen(count).sample.None?
  }

  /** The clock when a wait that ended as it did returns. */
  function EndOf<T>(screen: nat -> Sampling<T>, start: real, outcome: Outcome, count: nat): real {
    match outcome
    case NoTime => start
    case Settled(samples) => if samples == 0 then start else TakenAt(screen, start, samples - 1)
    case StillChanging(samples) => CheckedAt(screen, start, samples)
    case Unreadable => TakenAt(screen, start, count)
  }

  /** The source's loop. `end` is the clock when it returns, `count` how many samples it got. */
  method Wait<T(!new,==)>(screen: nat -> Sampling<T>, start: real, deadline: real)
    returns (outcome: Outcome, end: real, ghost count: nat)
    ensures EndedBy(screen, start, deadline, outcome, count) && end == EndOf(screen, start, outcome, count)
    ensures exists n: nat :: EndedBy(screen, start, deadline, outcome, n) && end == EndOf(screen, start, outcome, n)
    // Samples come from different frames, so only so many fit before the deadline.
    ensures count > 0 ==> MIN_SAMPLE_GAP * (count - 1) as real < deadline - start
  {
    if start >= deadline {
      return NoTime, start, 0;
    }
    var now := start + screen(0).before + screen(0).during;
    if screen(0).sample.None? {
      return Unreadable, now, 0;
    }
    var previous := screen(0).sample;
    var taken: nat := 1;
    while true
      invariant taken >= 1 && previous == screen(taken - 1).sample
      invariant KeptChanging(screen, start, deadline, taken)
      invariant now == CheckedAt(screen, start, taken - 1) + screen(taken - 1).before + screen(taken - 1).during
      decreases 30.0 * (deadline - CheckedAt(screen, start, taken - 1))
    {
      FitsInTime(screen, start, deadline, taken - 1);
      var gap := MIN_SAMPLE_GAP - screen(taken - 1).during;
      now := now + Max(gap, 0.0) + screen(taken - 1).after;
      assert now == CheckedAt(screen, start, taken);
      if now >= deadline {
        return StillChanging(taken), now, taken;
      }
      var current := screen(taken).sample;
      now := now + screen(taken).before + screen(taken).during;
      if current.None? {
        return Unreadable, now, taken;
      }
      if current == previous {
        FitsInTime(screen, start, deadline, taken);
        return Settled(taken + 1), now, taken + 1;
      }
      assert IsTaken(screen, start, deadline, taken) && Differs(screen, taken);
      previous := current;
      taken := taken + 1;
    }
  }

  /** Two of the first `count` samples, one right after the other, differed. */
  ghost predicate Changed<T(!new)>(screen: nat -> Sampling<T>, count: nat) {
    exists i: nat :: 0 < i < count && Differs(screen, i)
  }

  /**
   `sawChange` tells the truth except in one case: a sample that could not be taken after at least two
   that could. Then the target was seen to change, and `sawChange` denies it.
   */
  lemma SawChangeIff<T(!new)>(screen: nat -> Sampling<T>, start: real, deadline: real, outcome: Outcome, count: nat)
    requires EndedBy(screen, start, deadline, outcome, count)
    ensures (outcome.SawChange() <==> Changed(screen, count)) <==> !(outcome.Unreadable? && count >= 2)
    ensures outcome.SawChange() ==> Changed(screen, count)
  {
    if count >= 2 && !(outcome.Settled? && count == 2) {
      assert Differs(screen, 1);
    }
  }

  /** The way a wait ends, and after how many samples, is settled by the screen and the clock. */
  lemma EndIsUnique<T(!new)>(
    screen: nat -> Sampling<T>, start: real, deadline: real, o1: Outcome, n1: nat, o2: Outcome, n2: nat)
    requires EndedBy(screen, start, deadline, o1, n1) && EndedBy(screen, start, deadline, o2, n2)
    ensures o1 == o2 && n1 == n2
  {
    if n1 < n2 {
      GoesOn(screen, start, deadline, o2, n2, n1);
    } else if n2 < n1 {
      GoesOn(screen, start, deadline, o1, n1, n2);
    }
  }

  /** What is so at every point before the end. */
  lemma GoesOn<T(!new)>(screen: nat -> Sampling<T>, start: real, deadline: real, outcome: Outcome, count: nat, i: nat)
    requires EndedBy(screen, start, deadline, outcome, count) && i < count
    ensures IsTaken(screen, start, deadline, i) && start < deadline
    ensures i >= 2 ==> Differs(screen, i - 1)
  {
    assert IsTaken(screen, start, deadline, 0) && IsTaken(screen, start, deadline, i);
    if i >= 2 {
      assert Differs(screen, i - 1);
    }
  }

  /** A wait returns after every sample it took. */
  lemma {:induction false} EndsAfterSamples<T(!new)>(
    screen: nat -> Sampling<T>, start: real, deadline: real, outcome: Outcome, count: nat, i: nat)
    requires EndedBy(screen, start, deadline, outcome, count) && i < count
    ensures start <= TakenAt(screen, start, i) <= EndOf(screen, start, outcome, count)
  {
    SamplesAreApart(screen, start, i);
    ChecksInOrder(screen, start, i + 1, count);
    if i + 1 < count {
      ChecksInOrder(screen, start, i + 1, count - 1);
    }
  }

  lemma EndsAfterStart<T(!new)>(
    screen: nat -> Sampling<T>, start: real, deadline: real, outcome: Outcome, count: nat)
    requires EndedBy(screen, start, deadline, outcome, count)
    ensures start <= EndOf(screen, start, outcome, count)
  {
    if count > 0 {
      EndsAfterSamples(screen, start, deadline, outcome, count, 0);
    }
  }

  /** Sample `i` has been taken by the check ahead of a later one. */
  lemma {:induction false} ChecksInOrder<T(!new)>(screen: nat -> Sampling<T>, start: real, i: nat, j: nat)
    requires 0 < i <= j
    ensures TakenAt(screen, start, i - 1) <= CheckedAt(screen, start, i) <= CheckedAt(screen, start, j)
    decreases j
  {
    if i < j {
      ChecksInOrder(screen, start, i, j - 1);
    }
  }

  lemma FitsInTime<T(!new)>(screen: nat -> Sampling<T>, start: real, deadline: real, i: nat)
    requires IsTaken(screen, start, deadline, i)
    ensures MIN_SAMPLE_GAP * i as real < deadline - start
  {
    SamplesAreApart(screen, start, i);
  }

  /** Checks are at least the minimum gap apart. */
  lemma {:induction false} SamplesAreApart<T(!new)>(screen: nat -> Sampling<T>, start: real, i: nat)
    ensures start + MIN_SAMPLE_GAP * i as real <= CheckedAt(screen, start, i)
  {
    if i > 0 {
      SamplesAreApart(screen, start, i - 1);
    }
  }
}
