/**
 Waiting for a navigation stack's push or pop to end before a locator resolves against the tree, and
 remembering the shape that outlasted the wait so that it is not waited for again.
 */
module NavigationTransition {
  import opened Wrappers
  import opened Geometry

  const MAX_WAIT: real := 2.0
  const POLL: real := 0.05
  const READ_DEADLINE_MARGIN: real := 0.25

  /** One more read of the tree, none if it threw; how late it starts after the sleep, and how long it takes. */
  datatype Read<+T> = Read(tree: Option<T>, late: NonNeg, took: NonNeg)

  /**
   One call: the tree at hand, the reads to come, the clock when the cap is worked out and the time from
   there to the first look at the clock, and the daemon's deadline.
   */
  datatype Call<!T> = Call(first: T, next: nat -> Read<T>, start: real, lag: NonNeg, readDeadline: Option<real>) {
    function Cap(): real { start + MAX_WAIT }

    function Deadline(): real {
      if readDeadline.None? then Cap() else Min(Cap(), readDeadline.value - READ_DEADLINE_MARGIN)
    }

    /** The clock at the top of the loop after `i` reads. */
    function CheckedAt(i: nat): real {
      if i == 0 then start + lag else CheckedAt(i - 1) + POLL + next(i - 1).late + next(i - 1).took
    }

    /** When read `i` starts. */
    function ReadAt(i: nat): real {
      CheckedAt(i) + POLL + next(i).late
    }

    /** The last tree after `count` reads that all succeeded. */
    function Latest(count: nat): T
      requires count > 0 ==> next(count - 1).tree.Some?
    {
      if count == 0 then first else next(count - 1).tree.value
    }
  }

  /** A tree with the shape to remember, or nothing when the read threw. */
  datatype Settled<T> = Settled(tree: Option<T>, known: Option<string>)

  /** The first `count` reads were made in time, and gave trees that all show a transition. */
  ghost predicate StillMoving<T(!new)>(c: Call<T>, signature: T -> Option<string>, count: nat) {
    forall i: nat :: i < count ==> MovingAt(c, signature, i)
  }

  ghost predicate MovingAt<T(!new)>(c: Call<T>, signature: T -> Option<string>, i: nat) {
    c.CheckedAt(i) + POLL < c.Deadline() && c.next(i).tree.Some? && signature(c.next(i).tree.value).Some?
  }

  /** How a call ended after `count` reads. */
  ghost predicate Ends<T(!new)>(
    c: Call<T>, signature: T -> Option<string>, known: Option<string>, r: Settled<T>, count: nat)
  {
    if signature(c.first).None? then count == 0 && r == Settled(Some(c.first), None)
    else if signature(c.first) == known then count == 0 && r == Settled(Some(c.first), known)
    else
      OutOfTime(c, signature, known, r, count)
      || Calmed(c, signature, r, count) || Threw(c, signature, known, r, count)
  }

  /** No time for one more read; only a wait that nothing cut short says anything about the shape. */
  ghost predicate OutOfTime<T(!new)>(
    c: Call<T>, signature: T -> Option<string>, known: Option<string>, r: Settled<T>, count: nat)
  {
    StillMoving(c, signature, count)
    && c.CheckedAt(count) + POLL >= c.Deadline()
    && (count > 0 ==> MovingAt(c, signature, count - 1))
    && signature(c.Latest(count)).Some?
    && r == Settled(Some(c.Latest(count)), if c.Deadline() == c.Cap() then signature(c.Latest(count)) else known)
  }

  ghost predicate Calmed<T(!new)>(c: Call<T>, signature: T -> Option<string>, r: Settled<T>, count: nat) {
    count > 0 && StillMoving(c, signature, count - 1)
    && c.CheckedAt(count - 1) + POLL < c.Deadline()
    && c.next(count - 1).tree.Some? && signature(c.next(count - 1).tree.value).None?
    && r == Settled(c.next(count - 1).tree, None)
  }

  ghost predicate Threw<T(!new)>(
    c: Call<T>, signature: T -> Option<string>, known: Option<string>, r: Settled<T>, count: nat)
  {
    count > 0 && StillMoving(c, signature, count - 1)
    && c.CheckedAt(count - 1) + POLL < c.Deadline()
    && c.next(count - 1).tree.None? && r == Settled(None, known)
  }

  /** A tree that still shows a transition is returned only if its shape was known, or time ran out on it. */
  predicate IsExcused<T>(
    c: Call<T>, signature: T -> Option<string>, known: Option<string>, r: Settled<T>, count: nat)
  {
    r.tree.Some? && signature(r.tree.value).Some? ==>
      (signature(r.tree.value) == known && count == 0) || c.CheckedAt(count) + POLL >= c.Deadline()
  }

  /** The source's loop, with the shape it knows handed in and out. */
  method Settle<T(!new)>(c: Call<T>, signature: T -> Option<string>, known: Option<string>)
    returns (r: Settled<T>)
    ensures exists count: nat ::
      Ends(c, signature, known, r, count) && IsExcused(c, signature, known, r, count)
    // A tree at rest leaves nothing known; a read that threw, or a wait cut short, leaves the known shape alone.
    ensures r.tree.Some? && signature(r.tree.value).None? ==> r.known == None
    ensures r.tree.None? ==> r.known == known
    ensures r.tree.Some? && signature(r.tree.value).Some? && c.Deadline() != c.Cap() ==> r.known == known
  {
    var current := signature(c.first);
    if current.None? || current == known {
      r := Settled(Some(c.first), if current.None? then None else known);
      assert Ends(c, signature, known, r, 0);
      return;
    }
    var tree := c.first;
    var now := c.start + c.lag;
    var i: nat := 0;
    while now + POLL < c.Deadline()
      invariant now == c.CheckedAt(i)
      invariant StillMoving(c, signature, i) && (i > 0 ==> MovingAt(c, signature, i - 1))
      invariant tree == c.Latest(i) && current == signature(tree) && current.Some?
      decreases 20.0 * (c.Deadline() - now)
    {
      var read := c.next(i);
      if read.tree.None? {
        r := Settled(None, known);
        assert Threw(c, signature, known, r, i + 1) && Ends(c, signature, known, r, i + 1);
        return;
      }
      tree := read.tree.value;
      current := signature(tree);
      if current.None? {
        r := Settled(Some(tree), None);
        assert Calmed(c, signature, r, i + 1) && Ends(c, signature, known, r, i + 1);
        return;
      }
      assert MovingAt(c, signature, i);
      now := now + POLL + read.late + read.took;
      i := i + 1;
    }
    r := Settled(Some(tree), if c.Deadline() == c.Cap() then current else known);
    assert OutOfTime(c, signature, known, r, i) && Ends(c, signature, known, r, i);
  }

  // ---------------------------------------------------------------- one call

  /** No read starts at or after the deadline when sleeps are exact; otherwise only by as much as one sleep ran over. */
  lemma ReadsStartInTime<T(!new)>(
    c: Call<T>, signature: T -> Option<string>, known: Option<string>, r: Settled<T>, count: nat, i: nat)
    requires Ends(c, signature, known, r, count) && i < count
    ensures c.ReadAt(i) - c.next(i).late < c.Deadline()
    ensures c.next(i).late == 0.0 ==> c.ReadAt(i) < c.Deadline()
  {
    if i < count - 1 || OutOfTime(c, signature, known, r, count) {
      assert MovingAt(c, signature, i);
    }
  }

  lemma {:induction false} ReadsAreApart<T(!new)>(c: Call<T>, i: nat)
    ensures c.start + POLL * i as real <= c.CheckedAt(i)
  {
    if i > 0 {
      ReadsAreApart(c, i - 1);
    }
  }

  /** A call reads the tree fewer than forty times. */
  lemma ReadsAreBounded<T(!new)>(
    c: Call<T>, signature: T -> Option<string>, known: Option<string>, r: Settled<T>, count: nat)
    requires Ends(c, signature, known, r, count)
    ensures count < 40
  {
    if count > 0 {
      ReadsAreApart(c, count - 1);
      assert OutOfTime(c, signature, known, r, count) ==> MovingAt(c, signature, count - 1);
      assert c.CheckedAt(count - 1) + POLL < c.Deadline();
    }
  }

  // ---------------------------------------------------------------- one call after another

  /** A call as it was made and as it ended. */
  datatype Made<!T> = Made(call: Call<T>, result: Settled<T>, count: nat)

  /** Calls made one after the other, each handed the shape the one before left. */
  ghost predicate Follows<T(!new)>(calls: seq<Made<T>>, signature: T -> Option<string>, known: Option<string>) {
    forall k :: 0 <= k < |calls| ==> IsHandedKnown(calls, signature, known, k)
  }

  ghost predicate IsHandedKnown<T(!new)>(
    calls: seq<Made<T>>, signature: T -> Option<string>, known: Option<string>, k: nat)
    requires k < |calls|
  {
    Ends(calls[k].call, signature, KnownBefore(calls, known, k), calls[k].result, calls[k].count)
  }

  function KnownBefore<T>(calls: seq<Made<T>>, known: Option<string>, k: nat): Option<string>
    requires k <= |calls|
  {
    if k == 0 then known else calls[k - 1].result.known
  }

  /**
   What a call says about shapes: nothing, when its read threw or its wait was cut short; that there is no
   transition; or that the shape of the tree it returned outlasted a whole wait.
   */
  function Says<T>(m: Made<T>, signature: T -> Option<string>): Option<Option<string>> {
    if m.result.tree.None? then None
    else
      var shape := signature(m.result.tree.value);
      if shape.None? then Some(None)
      else
        var uncut := m.call.Deadline() == m.call.Cap();
        if uncut && m.call.CheckedAt(m.count) + POLL >= m.call.Deadline() then Some(shape) else None
  }

  /** A call changes what is known exactly when it says something. */
  lemma KnownAfter<T(!new)>(m: Made<T>, signature: T -> Option<string>, known: Option<string>)
    requires Ends(m.call, signature, known, m.result, m.count)
    ensures m.result.known == Says(m, signature).UnwrapOr(known)
  {
  }

  /** While a known shape stays, every call returns at once. */
  lemma {:induction false} KnownShapeIsNotWaitedFor<T(!new)>(
    calls: seq<Made<T>>, signature: T -> Option<string>, shape: string, k: nat)
    requires Follows(calls, signature, Some(shape)) && k <= |calls|
    requires forall j :: 0 <= j < |calls| ==> signature(calls[j].call.first) == Some(shape)
    ensures KnownBefore(calls, Some(shape), k) == Some(shape)
    ensures k > 0 ==> calls[k - 1].count == 0 && calls[k - 1].result.tree == Some(calls[k - 1].call.first)
  {
    if k > 0 {
      KnownShapeIsNotWaitedFor(calls, signature, shape, k - 1);
      assert IsHandedKnown(calls, signature, Some(shape), k - 1);
      KnownReturnsAtOnce(calls[k - 1], signature, shape);
    }
  }

  lemma KnownReturnsAtOnce<T(!new)>(m: Made<T>, signature: T -> Option<string>, shape: string)
    requires Ends(m.call, signature, Some(shape), m.result, m.count) && signature(m.call.first) == Some(shape)
    ensures m.count == 0 && m.result == Settled(Some(m.call.first), Some(shape))
  {
  }

  /** Call `k` said this much, and no call since has said anything. */
  predicate SaidLast(said: seq<Option<Option<string>>>, known: Option<string>, k: nat)
    requires k < |said|
  {
    said[k] == Some(known) && forall j | k < j < |said| :: said[j].None?
  }

  /** What every call of a run said. */
  function Said<T>(calls: seq<Made<T>>, signature: T -> Option<string>): (r: seq<Option<Option<string>>>)
    ensures |r| == |calls|
    ensures forall k :: 0 <= k < |calls| ==> r[k] == Says(calls[k], signature)
  {
    seq(|calls|, k requires 0 <= k < |calls| => Says(calls[k], signature))
  }

  /** What is known once `said` has been said. */
  function KnownFrom(said: seq<Option<Option<string>>>, known: Option<string>): Option<string> {
    if said == [] then known else said[|said| - 1].UnwrapOr(KnownFrom(said[..|said| - 1], known))
  }

  lemma {:induction false} KnownFromIff(said: seq<Option<Option<string>>>, shape: string)
    ensures KnownFrom(said, None) == Some(shape) <==> exists k :: 0 <= k < |said| && SaidLast(said, Some(shape), k)
    decreases |said|
  {
    if said != [] {
      var n := |said| - 1;
      KnownFromIff(said[..n], shape);
      if said[n].None? {
        forall k | 0 <= k < n ensures SaidLast(said, Some(shape), k) <==> SaidLast(said[..n], Some(shape), k) {
        }
      } else if said[n] == Some(Some(shape)) {
        assert SaidLast(said, Some(shape), n);
      }
    }
  }

  lemma {:induction false} KnownIsFromSaid<T(!new)>(calls: seq<Made<T>>, signature: T -> Option<string>, k: nat)
    requires Follows(calls, signature, None) && k <= |calls|
    ensures KnownBefore(calls, None, k) == KnownFrom(Said(calls, signature)[..k], None)
  {
    if k > 0 {
      KnownIsFromSaid(calls, signature, k - 1);
      assert IsHandedKnown(calls, signature, None, k - 1);
      KnownAfter(calls[k - 1], signature, KnownBefore(calls, None, k - 1));
      assert Said(calls, signature)[..k][..k - 1] == Said(calls, signature)[..k - 1];
    }
  }

  /**
   What is known after any run of calls: exactly the shape of the last wait that ran out uncut, as long as
   no call since has returned a tree at rest.
   */
  lemma KnownIff<T(!new)>(calls: seq<Made<T>>, signature: T -> Option<string>, shape: string)
    requires Follows(calls, signature, None)
    ensures KnownBefore(calls, None, |calls|) == Some(shape) <==>
      exists k :: 0 <= k < |calls| && SaidLast(Said(calls, signature), Some(shape), k)
  {
    KnownIsFromSaid(calls, signature, |calls|);
    assert Said(calls, signature)[..|calls|] == Said(calls, signature);
    KnownFromIff(Said(calls, signature), shape);
  }
}
