/**
 Binding a match by its place among a query's results: its index among the matches kept, plus what the query
 returns of the keyboard before it. When that picks the match itself, and when it does not.
 */
module PositionalIndex {
  import opened Wrappers
  import opened Sequences
  import opened Trees
  import opened ElementTypes
  import opened Snapshot
  import opened RowAnchor
  import opened MatchWalk
  import opened MatchWalker
  import opened QueryIndex
  import opened RowResolution

  // ---------------------------------------------------------------- what the walk entered and what it left out

  /** A node as the walk met it: entered, or in a subtree left out, and then whether the selector takes it. */
  datatype Spot =
    | Entered(path: seq<nat>, node: Node)
    | Hidden(path: seq<nat>, node: Node, isTaken: bool)

  datatype Swept = Swept(spots: seq<Spot>, top: Option<real>)

  function HiddenSpots(selector: Selector, t: Tree<Node>, path: seq<nat>, containerLabel: string): seq<Spot>
    decreases t, 1
  {
    [Hidden(path, t.value, selector.test(t.value, false, false, containerLabel))]
    + HiddenForest(selector, t.children, path, 0, ContainerLabel(t.value, containerLabel))
  }

  function HiddenForest(
    selector: Selector, ts: seq<Tree<Node>>, path: seq<nat>, k: nat, containerLabel: string): seq<Spot>
    decreases ts, 0
  {
    if ts == [] then []
    else HiddenSpots(selector, ts[0], path + [k], containerLabel)
         + HiddenForest(selector, ts[1..], path, k + 1, containerLabel)
  }

  /** The nodes of a subtree in pre-order, and the top edge of the keyboard after it. */
  function Sweep(selector: Selector, t: Tree<Node>, path: seq<nat>, ctx: Context, top: Option<real>): Swept
    decreases t, 1
  {
    if ExcludesSubtree(t.value, top) then
      Swept(HiddenSpots(selector, t, path, ctx.containerLabel),
            if ElementType(t.value.typeRaw) == KEYBOARD then Some(t.value.frame.MinY()) else top)
    else
      var isWindow := ElementType(t.value.typeRaw) == WINDOW;
      var below := SweepForest(
        selector, t.children, path, 0, ChildContext(t.value, ctx), if isWindow then None else top);
      Swept([Entered(path, t.value)] + below.spots, if isWindow then top else below.top)
  }

  function SweepForest(
    selector: Selector, ts: seq<Tree<Node>>, path: seq<nat>, k: nat, ctx: Context, top: Option<real>): Swept
    decreases ts, 0
  {
    if ts == [] then Swept([], top)
    else
      var first := Sweep(selector, ts[0], path + [k], ctx, top);
      var rest := SweepForest(selector, ts[1..], path, k + 1, ctx, first.top);
      Swept(first.spots + rest.spots, rest.top)
  }

  /** The same nodes at the same places, those taken being nodes the selector takes in some surroundings. */
  ghost predicate AreSpotsOf(selector: Selector, spots: seq<Spot>, ps: seq<Position<Node>>) {
    |spots| == |ps|
    && forall i :: 0 <= i < |spots| ==>
         spots[i].path == ps[i].path && spots[i].node == ps[i].tree.value
         && (spots[i].Hidden? && spots[i].isTaken ==> IsTested(selector, spots[i].node))
  }

  ghost predicate IsTested(selector: Selector, n: Node) {
    exists inTabBar, inAlert, containerLabel :: selector.test(n, inTabBar, inAlert, containerLabel)
  }

  lemma {:induction false} HiddenIsTree(selector: Selector, t: Tree<Node>, path: seq<nat>, containerLabel: string)
    ensures AreSpotsOf(selector, HiddenSpots(selector, t, path, containerLabel), Positions(t, path))
    decreases t, 1
  {
    HiddenForestIsTree(selector, t.children, path, 0, ContainerLabel(t.value, containerLabel));
  }

  lemma {:induction false} HiddenForestIsTree(
    selector: Selector, ts: seq<Tree<Node>>, path: seq<nat>, k: nat, containerLabel: string)
    ensures AreSpotsOf(selector, HiddenForest(selector, ts, path, k, containerLabel), PositionsForest(ts, path, k))
    decreases ts, 0
  {
    if ts != [] {
      HiddenIsTree(selector, ts[0], path + [k], containerLabel);
      HiddenForestIsTree(selector, ts[1..], path, k + 1, containerLabel);
    }
  }

  lemma {:induction false} SweepIsTree(
    selector: Selector, t: Tree<Node>, path: seq<nat>, ctx: Context, top: Option<real>)
    ensures AreSpotsOf(selector, Sweep(selector, t, path, ctx, top).spots, Positions(t, path))
    decreases t, 1
  {
    if ExcludesSubtree(t.value, top) {
      HiddenIsTree(selector, t, path, ctx.containerLabel);
    } else {
      var isWindow := ElementType(t.value.typeRaw) == WINDOW;
      SweepForestIsTree(selector, t.children, path, 0, ChildContext(t.value, ctx), if isWindow then None else top);
    }
  }

  lemma {:induction false} SweepForestIsTree(
    selector: Selector, ts: seq<Tree<Node>>, path: seq<nat>, k: nat, ctx: Context, top: Option<real>)
    ensures AreSpotsOf(selector, SweepForest(selector, ts, path, k, ctx, top).spots, PositionsForest(ts, path, k))
    decreases ts, 0
  {
    if ts != [] {
      SweepIsTree(selector, ts[0], path + [k], ctx, top);
      SweepForestIsTree(
        selector, ts[1..], path, k + 1, ctx, Sweep(selector, ts[0], path + [k], ctx, top).top);
    }
  }

  // ---------------------------------------------------------------- what a match records of the keyboard

  /** The raw types of the hidden nodes the selector takes. */
  function TypesOf(spots: seq<Spot>): seq<nat> {
    if spots == [] then []
    else (if spots[0].Hidden? && spots[0].isTaken then [spots[0].node.typeRaw] else []) + TypesOf(spots[1..])
  }

  lemma {:induction false} TypesAppend(a: seq<Spot>, b: seq<Spot>)
    ensures TypesOf(a + b) == TypesOf(a) + TypesOf(b)
  {
    if a == [] {
      assert a + b == b;
    } else {
      assert (a + b)[1..] == a[1..] + b;
      TypesAppend(a[1..], b);
    }
  }

  lemma {:induction false} HiddenTypes(selector: Selector, t: Tree<Node>, path: seq<nat>, containerLabel: string)
    ensures TypesOf(HiddenSpots(selector, t, path, containerLabel)) == MatchingTypes(selector, t, containerLabel)
    decreases t, 1
  {
    var label' := ContainerLabel(t.value, containerLabel);
    HiddenForestTypes(selector, t.children, path, 0, label');
    assert HiddenSpots(selector, t, path, containerLabel)[1..] == HiddenForest(selector, t.children, path, 0, label');
  }

  lemma {:induction false} HiddenForestTypes(
    selector: Selector, ts: seq<Tree<Node>>, path: seq<nat>, k: nat, containerLabel: string)
    ensures TypesOf(HiddenForest(selector, ts, path, k, containerLabel))
      == MatchingTypesForest(selector, ts, containerLabel)
    decreases ts, 0
  {
    if ts != [] {
      HiddenTypes(selector, ts[0], path + [k], containerLabel);
      HiddenForestTypes(selector, ts[1..], path, k + 1, containerLabel);
      TypesAppend(HiddenSpots(selector, ts[0], path + [k], containerLabel),
        HiddenForest(selector, ts[1..], path, k + 1, containerLabel));
    }
  }

  /** `m` is the node entered at spot `k`, and has recorded the types hidden before it after those in `start`. */
  predicate RecordedAt(m: Match, spots: seq<Spot>, start: seq<nat>, k: int) {
    0 <= k < |spots| && spots[k] == Entered(m.path, m.node) && m.keyboardMatches == start + TypesOf(spots[..k])
  }

  ghost predicate IsRecorded(m: Match, spots: seq<Spot>, start: seq<nat>) {
    exists k :: RecordedAt(m, spots, start, k)
  }

  /** The selector takes the node in some surroundings. */
  ghost predicate IsSelected(selector: Selector, n: Node) {
    exists ctx :: Selects(selector, n, ctx)
  }

  ghost predicate AllRecorded(selector: Selector, ms: seq<Match>, spots: seq<Spot>, start: seq<nat>) {
    forall m :: m in ms ==> IsRecorded(m, spots, start) && IsSelected(selector, m.node)
  }

  /** A record made in the second part of a sweep, seen from its start. */
  lemma RecordedLater(m: Match, before: seq<Spot>, spots: seq<Spot>, start: seq<nat>)
    requires IsRecorded(m, spots, start + TypesOf(before))
    ensures IsRecorded(m, before + spots, start)
  {
    var k :| RecordedAt(m, spots, start + TypesOf(before), k);
    assert (before + spots)[..|before| + k] == before + spots[..k];
    TypesAppend(before, spots[..k]);
    Associative(start, TypesOf(before), TypesOf(spots[..k]));
    assert RecordedAt(m, before + spots, start, |before| + k);
  }

  lemma RecordedSooner(m: Match, spots: seq<Spot>, after: seq<Spot>, start: seq<nat>)
    requires IsRecorded(m, spots, start)
    ensures IsRecorded(m, spots + after, start)
  {
    var k :| RecordedAt(m, spots, start, k);
    assert (spots + after)[..k] == spots[..k];
    assert RecordedAt(m, spots + after, start, k);
  }

  /** The second part of a sweep takes up the record where the first left it. */
  lemma RecordsJoin(
    selector: Selector, start: seq<nat>, a: seq<Match>, before: seq<Spot>, b: seq<Match>, spots: seq<Spot>)
    requires AllRecorded(selector, a, before, start)
    requires AllRecorded(selector, b, spots, start + TypesOf(before))
    ensures AllRecorded(selector, a + b, before + spots, start)
    ensures (start + TypesOf(before)) + TypesOf(spots) == start + TypesOf(before + spots)
  {
    TypesAppend(before, spots);
    Associative(start, TypesOf(before), TypesOf(spots));
    forall m | m in a + b ensures IsRecorded(m, before + spots, start) && IsSelected(selector, m.node) {
      if m in a {
        RecordedSooner(m, before, spots, start);
      } else {
        RecordedLater(m, before, spots, start);
      }
    }
  }

  /** The walk's own record of the keyboard is what the sweep finds hidden. */
  lemma {:induction false} SweepRecords(
    selector: Selector, counts: Option<map<string, nat>>,
    t: Tree<Node>, path: seq<nat>, ctx: Context, row: Option<RowView>, keyboard: Keyboard)
    ensures var walk := Collect(selector, counts, t, path, ctx, row, keyboard);
      var swept := Sweep(selector, t, path, ctx, keyboard.top);
      walk.keyboard == Keyboard(swept.top, keyboard.matches + TypesOf(swept.spots))
      && AllRecorded(selector, walk.matches, swept.spots, keyboard.matches)
    decreases t, 1
  {
    if ExcludesSubtree(t.value, keyboard.top) {
      HiddenTypes(selector, t, path, ctx.containerLabel);
    } else {
      var inside, childRow := Entering(t.value, keyboard), ChildRow(t, ctx, counts, row);
      var inner, here := ChildContext(t.value, ctx), MatchHere(selector, counts, t, path, ctx, row, keyboard.matches);
      var below := CollectForest(selector, counts, t.children, path, 0, inner, childRow, inside).matches;
      var spots := SweepForest(selector, t.children, path, 0, inner, inside.top).spots;
      HereRecorded(selector, counts, t, path, ctx, row, keyboard.matches);
      ForestRecords(selector, counts, t.children, path, 0, inner, childRow, inside);
      RecordsJoin(selector, keyboard.matches, here, [Entered(path, t.value)], below, spots);
    }
  }

  lemma HereRecorded(
    selector: Selector, counts: Option<map<string, nat>>,
    t: Tree<Node>, path: seq<nat>, ctx: Context, row: Option<RowView>, types: seq<nat>)
    ensures AllRecorded(
      selector, MatchHere(selector, counts, t, path, ctx, row, types), [Entered(path, t.value)], types)
    ensures types + TypesOf([Entered(path, t.value)]) == types
  {
    forall m | m in MatchHere(selector, counts, t, path, ctx, row, types)
      ensures IsRecorded(m, [Entered(path, t.value)], types) && IsSelected(selector, m.node)
    {
      assert RecordedAt(m, [Entered(path, t.value)], types, 0);
      assert Selects(selector, m.node, ctx);
    }
  }

  lemma {:induction false} ForestRecords(
    selector: Selector, counts: Option<map<string, nat>>,
    ts: seq<Tree<Node>>, path: seq<nat>, k: nat, ctx: Context, row: Option<RowView>, keyboard: Keyboard)
    ensures var walk := CollectForest(selector, counts, ts, path, k, ctx, row, keyboard);
      var swept := SweepForest(selector, ts, path, k, ctx, keyboard.top);
      walk.keyboard == Keyboard(swept.top, keyboard.matches + TypesOf(swept.spots))
      && AllRecorded(selector, walk.matches, swept.spots, keyboard.matches)
    decreases ts, 0
  {
    if ts == [] {
      assert keyboard.matches + [] == keyboard.matches;
    } else {
      var first := Collect(selector, counts, ts[0], path + [k], ctx, row, keyboard);
      var passed := Passed(row, PreOrder(ts[0]));
      var rest := CollectForest(selector, counts, ts[1..], path, k + 1, ctx, passed, first.keyboard);
      SweepRecords(selector, counts, ts[0], path + [k], ctx, row, keyboard);
      ForestRecords(selector, counts, ts[1..], path, k + 1, ctx, passed, first.keyboard);
      var a := Sweep(selector, ts[0], path + [k], ctx, keyboard.top);
      var b := SweepForest(selector, ts[1..], path, k + 1, ctx, a.top);
      RecordsJoin(selector, keyboard.matches, first.matches, a.spots, rest.matches, b.spots);
    }
  }

  // ---------------------------------------------------------------- the index, and what it counts

  const ROOT_CONTEXT := Context(false, false, false, "", false)

  /** The nodes of a snapshot, as a walk from its root meets them. */
  function SpotsOf(selector: Selector, root: Tree<Node>): (r: seq<Spot>)
    ensures r != []
  {
    Sweep(selector, root, [], ROOT_CONTEXT, None).spots
  }

  /** Those below the root, which is all a live query returns. */
  function Below(selector: Selector, root: Tree<Node>): seq<Spot> {
    SpotsOf(selector, root)[1..]
  }

  /** Those before the one at `path`. */
  function Earlier(spots: seq<Spot>, path: seq<nat>): seq<Spot> {
    if spots == [] || spots[0].path == path then [] else [spots[0]] + Earlier(spots[1..], path)
  }

  lemma {:induction false} EarlierIs(spots: seq<Spot>, k: nat)
    requires k < |spots| && forall x :: 0 <= x < k ==> spots[x].path != spots[k].path
    ensures Earlier(spots, spots[k].path) == spots[..k]
  {
    if k > 0 {
      assert spots[0].path != spots[k].path;
      EarlierIs(spots[1..], k - 1);
      assert spots[..k] == [spots[0]] + spots[1..][..k - 1];
    }
  }

  function Paths(ms: seq<Match>): (r: seq<seq<nat>>)
    ensures |r| == |ms| && forall i :: 0 <= i < |ms| ==> r[i] == ms[i].path
  {
    seq(|ms|, i requires 0 <= i < |ms| => ms[i].path)
  }

  function IsKept(found: seq<Match>): Spot -> bool {
    (s: Spot) => s.path in Paths(found)
  }

  /** The kept matches whose node passes a test. */
  function IsKeptLike(found: seq<Match>, p: Node -> bool): Spot -> bool {
    (s: Spot) => IsKept(found)(s) && p(s.node)
  }

  function IsKeyboards(scope: nat -> bool): Spot -> bool {
    (s: Spot) => s.Hidden? && s.isTaken && scope(s.node.typeRaw)
  }

  /** What the index counts: the matches kept, and what the selector takes of the keyboard, of the types in scope. */
  function IsCounted(found: seq<Match>, scope: nat -> bool): Spot -> bool {
    (s: Spot) => IsKept(found)(s) || IsKeyboards(scope)(s)
  }

  function IsReturned(q: Node -> bool): Spot -> bool {
    (s: Spot) => q(s.node)
  }

  function Only(a: Spot -> bool, b: Spot -> bool): Spot -> bool {
    (s: Spot) => a(s) && !b(s)
  }

  /** The index a match is bound at: its own among the matches kept, past the keyboard's nodes in scope. */
  function BoundIndex(matchIndex: nat, m: Match, scope: nat -> bool): nat {
    matchIndex + Count(m.keyboardMatches, scope)
  }

  /** Whether the element at `index` of the live query `q` is the node of match `m`. */
  predicate FindsAgain(root: Tree<Node>, q: Node -> bool, index: nat, m: Match) {
    index < |LiveResults(root, q)| && LiveResults(root, q)[index].path == m.path
  }

  // ---------------------------------------------------------------- counting

  lemma {:induction false} CountEither(s: seq<Spot>, p: Spot -> bool, a: Spot -> bool, b: Spot -> bool)
    requires forall x :: x in s ==> (p(x) <==> a(x) || b(x)) && !(a(x) && b(x))
    ensures Count(s, p) == Count(s, a) + Count(s, b)
  {
    if s != [] {
      CountEither(s[1..], p, a, b);
    }
  }

  /** Two tests pass as many iff as many pass only the one as only the other. */
  lemma {:induction false} CountDifference(s: seq<Spot>, a: Spot -> bool, b: Spot -> bool)
    ensures Count(s, a) + Count(s, Only(b, a)) == Count(s, b) + Count(s, Only(a, b))
  {
    if s != [] {
      CountDifference(s[1..], a, b);
    }
  }

  lemma {:induction false} CountTypes(spots: seq<Spot>, scope: nat -> bool)
    ensures Count(TypesOf(spots), scope) == Count(spots, IsKeyboards(scope))
  {
    if spots != [] {
      CountTypes(spots[1..], scope);
      var first := if spots[0].Hidden? && spots[0].isTaken then [spots[0].node.typeRaw] else [];
      CountAppend(first, TypesOf(spots[1..]), scope);
    }
  }

  /** A test of a match that looks at its node alone. */
  function OfNode(p: Node -> bool): Match -> bool {
    (m: Match) => p(m.node)
  }

  /** Of the matches picked at the places `at`, the first `i` stand before place `n`. */
  lemma {:induction false} CountPicked(
    s: seq<Spot>, n: nat, ms: seq<Match>, at: seq<nat>, i: nat, p: Node -> bool, test: Spot -> bool)
    requires n <= |s| && i <= |at| == |ms| && forall j, k :: 0 <= j < k < |at| ==> at[j] < at[k]
    requires forall j :: 0 <= j < |at| ==> at[j] < |s| && s[at[j]].node == ms[j].node
    requires forall j :: 0 <= j < |at| ==> (at[j] < n <==> j < i)
    requires forall x :: 0 <= x < n ==> (test(s[x]) <==> x in at && p(s[x].node))
    ensures Count(s[..n], test) == Count(ms[..i], OfNode(p))
    decreases n
  {
    if n > 0 {
      var last := n - 1;
      CountNext(s, last, test);
      if i > 0 && at[i - 1] == last {
        CountPicked(s, last, ms, at, i - 1, p, test);
        CountNext(ms, i - 1, OfNode(p));
      } else {
        forall j | 0 <= j < |at| ensures at[j] != last {
          assert j < i - 1 ==> at[j] < at[i - 1];
        }
        CountPicked(s, last, ms, at, i, p, test);
      }
    }
  }

  lemma {:induction false} CountAll(ms: seq<Match>, p: Node -> bool)
    requires forall n :: p(n)
    ensures Count(ms, OfNode(p)) == |ms|
  {
    if ms != [] {
      assert p(ms[0].node);
      CountAll(ms[1..], p);
    }
  }

  lemma PicksNext(ms: seq<Match>, ps: seq<Position<Node>>, at: seq<nat>, m: Match, x: nat)
    requires Picks(ms, ps, at) && forall y :: y in at ==> y < x
    requires x < |ps| && ps[x].path == m.path && ps[x].tree.value == m.node
    ensures Picks(ms + [m], ps, at + [x])
  {
    assert forall i :: 0 <= i < |at| ==> at[i] in at;
  }

  /** What suppression keeps is still in tree order. */
  lemma {:induction false} KeptInOrder(results: seq<Match>, ps: seq<Position<Node>>, at: seq<nat>, gone: set<nat>)
    returns (kept: seq<nat>)
    requires Picks(results, ps, at)
    ensures Picks(Kept(results, gone), ps, kept)
    ensures forall x :: x in kept ==> x in at
  {
    kept := [];
    if results != [] {
      var n := |results| - 1;
      kept := KeptInOrder(results[..n], ps, at[..n], gone);
      forall x | x in kept ensures x < at[n] {
        var j :| 0 <= j < n && at[j] == x;
      }
      if n !in gone {
        PicksNext(Kept(results[..n], gone), ps, kept, results[n], at[n]);
        kept := kept + [at[n]];
      } else {
        assert Kept(results, gone) == Kept(results[..n], gone);
      }
    }
  }

  // ---------------------------------------------------------------- when the index is right

  lemma SpotsDistinct(selector: Selector, root: Tree<Node>)
    ensures AreSpotsOf(selector, SpotsOf(selector, root), Positions(root, []))
    ensures forall i, j :: 0 <= i < j < |SpotsOf(selector, root)| ==>
      SpotsOf(selector, root)[i].path != SpotsOf(selector, root)[j].path
  {
    SweepIsTree(selector, root, [], ROOT_CONTEXT, None);
    forall i, j | 0 <= i < j < |SpotsOf(selector, root)|
      ensures SpotsOf(selector, root)[i].path != SpotsOf(selector, root)[j].path
    {
      PathsDistinct(root, [], i, j);
    }
  }

  /** Where a match stands among the spots: below the root, which is none. */
  lemma MatchSpot(selector: Selector, counts: Option<map<string, nat>>, root: Tree<Node>, m: Match) returns (k: nat)
    requires m in AllMatches(selector, counts, root) && ElementType(root.value.typeRaw) == APPLICATION
    ensures var spots := SpotsOf(selector, root);
      0 < k < |spots| && RecordedAt(m, spots, [], k) && spots[0].Entered? && spots[0].path == []
      && Earlier(Below(selector, root), m.path) == spots[1..k]
    ensures IsSelected(selector, m.node)
  {
    var spots := SpotsOf(selector, root);
    SweepRecords(selector, counts, root, [], ROOT_CONTEXT, None, NO_KEYBOARD);
    assert IsRecorded(m, spots, []);
    var k' :| RecordedAt(m, spots, [], k');
    k := k';
    SpotsDistinct(selector, root);
    assert Positions(root, [])[0] == Position([], root);
    assert spots[0].node == root.value;
    assert k > 0;
    assert spots[1..][k - 1] == spots[k] && spots[1..][..k - 1] == spots[1..k];
    EarlierIs(spots[1..], k - 1);
  }

  /** The kept matches before the `i`-th whose node passes a test. */
  lemma KeptBefore(
    selector: Selector, counts: Option<map<string, nat>>, root: Tree<Node>, p: Node -> bool, i: nat, k: nat)
    requires i < |Found(selector, counts, root)| && k < |SpotsOf(selector, root)|
    requires SpotsOf(selector, root)[k].path == Found(selector, counts, root)[i].path
    ensures var found := Found(selector, counts, root);
      Count(SpotsOf(selector, root)[..k], IsKeptLike(found, p)) == Count(found[..i], OfNode(p))
  {
    var spots, ps, found := SpotsOf(selector, root), Positions(root, []), Found(selector, counts, root);
    SpotsDistinct(selector, root);
    var at := CollectInOrder(selector, counts, root, [], ROOT_CONTEXT, None, NO_KEYBOARD);
    var results := AllMatches(selector, counts, root);
    var kept := KeptInOrder(results, ps, at, DroppedSet(selector.matchesInnermostOnly, results));
    assert Picks(found, ps, kept);
    forall j, x | 0 <= j < |kept| && 0 <= x < |spots| && spots[x].path == found[j].path ensures x == kept[j] {
      assert spots[kept[j]].path == spots[x].path;
    }
    assert kept[i] == k;
    forall x | 0 <= x < k ensures IsKept(found)(spots[x]) <==> x in kept {
      if spots[x].path in Paths(found) {
        var j :| 0 <= j < |found| && Paths(found)[j] == spots[x].path;
        assert kept[j] == x;
      }
      if x in kept {
        var j :| 0 <= j < |kept| && kept[j] == x;
        assert Paths(found)[j] == spots[x].path;
      }
    }
    CountPicked(spots, k, found, kept, i, p, IsKeptLike(found, p));
  }

  /** All of them. */
  lemma AllKeptBefore(selector: Selector, counts: Option<map<string, nat>>, root: Tree<Node>, i: nat, k: nat)
    requires i < |Found(selector, counts, root)| && k < |SpotsOf(selector, root)|
    requires SpotsOf(selector, root)[k].path == Found(selector, counts, root)[i].path
    ensures Count(SpotsOf(selector, root)[..k], IsKept(Found(selector, counts, root))) == i
  {
    var spots, found, any := SpotsOf(selector, root), Found(selector, counts, root), (n: Node) => true;
    KeptBefore(selector, counts, root, any, i, k);
    CountAll(found[..i], any);
    CountAgree(spots[..k], IsKept(found), IsKeptLike(found, any));
  }

  lemma FoundIsMatch(selector: Selector, counts: Option<map<string, nat>>, root: Tree<Node>, i: nat)
    requires i < |Found(selector, counts, root)|
    ensures Found(selector, counts, root)[i] in AllMatches(selector, counts, root)
  {
    var results := AllMatches(selector, counts, root);
    KeptMember(results, DroppedSet(selector.matchesInnermostOnly, results), Found(selector, counts, root)[i]);
  }

  /** A kept match is a node the walk entered, below the root. */
  lemma KeptIsEntered(selector: Selector, counts: Option<map<string, nat>>, root: Tree<Node>, x: nat)
    requires x < |SpotsOf(selector, root)| && ElementType(root.value.typeRaw) == APPLICATION
    requires IsKept(Found(selector, counts, root))(SpotsOf(selector, root)[x])
    ensures x > 0 && SpotsOf(selector, root)[x].Entered?
  {
    var spots, found := SpotsOf(selector, root), Found(selector, counts, root);
    var j :| 0 <= j < |found| && Paths(found)[j] == spots[x].path;
    FoundIsMatch(selector, counts, root, j);
    var k := MatchSpot(selector, counts, root, found[j]);
    SpotsDistinct(selector, root);
  }

  /** The index a match is bound at is how many earlier nodes are counted. */
  lemma IndexCounts(
    selector: Selector, counts: Option<map<string, nat>>, root: Tree<Node>, scope: nat -> bool, i: nat)
    requires i < |Found(selector, counts, root)| && ElementType(root.value.typeRaw) == APPLICATION
    ensures var found := Found(selector, counts, root);
      BoundIndex(i, found[i], scope)
        == Count(Earlier(Below(selector, root), found[i].path), IsCounted(found, scope))
  {
    var spots, found := SpotsOf(selector, root), Found(selector, counts, root);
    FoundIsMatch(selector, counts, root, i);
    var k := MatchSpot(selector, counts, root, found[i]);
    AllKeptBefore(selector, counts, root, i, k);
    CountTypes(spots[..k], scope);
    forall x: nat | x < |spots| && IsKept(found)(spots[x]) ensures x > 0 && spots[x].Entered? {
      KeptIsEntered(selector, counts, root, x);
    }
    CountedBelow(spots, k, found, scope);
    assert found[i].keyboardMatches == TypesOf(spots[..k]);
  }

  lemma CountedBelow(spots: seq<Spot>, k: nat, found: seq<Match>, scope: nat -> bool)
    requires 0 < k < |spots| && spots[0].Entered?
    requires forall x: nat :: x < |spots| && IsKept(found)(spots[x]) ==> x > 0 && spots[x].Entered?
    ensures Count(spots[1..k], IsCounted(found, scope))
      == Count(spots[..k], IsKept(found)) + Count(spots[..k], IsKeyboards(scope))
  {
    CountEither(spots[..k], IsCounted(found, scope), IsKept(found), IsKeyboards(scope));
    assert spots[..k] == [spots[0]] + spots[1..k];
    CountAppend([spots[0]], spots[1..k], IsCounted(found, scope));
    assert Count([spots[0]], IsCounted(found, scope)) == 0;
  }

  lemma {:induction false} CountAligned(
    selector: Selector, spots: seq<Spot>, ps: seq<Position<Node>>, q: Node -> bool)
    requires AreSpotsOf(selector, spots, ps)
    ensures Count(spots, IsReturned(q)) == Count(ps, Place(q))
  {
    if spots != [] {
      CountAligned(selector, spots[1..], ps[1..], q);
    }
  }

  /** A query that returns the match has it at as many places on as it returns earlier nodes, and nowhere else. */
  lemma FoundAtCount(
    selector: Selector, counts: Option<map<string, nat>>, root: Tree<Node>, q: Node -> bool, index: nat, m: Match)
    requires m in AllMatches(selector, counts, root) && ElementType(root.value.typeRaw) == APPLICATION && q(m.node)
    ensures FindsAgain(root, q, index, m)
      <==> index == Count(Earlier(Below(selector, root), m.path), IsReturned(q))
  {
    var spots, d := SpotsOf(selector, root), Descendants(Position([], root));
    var k := MatchSpot(selector, counts, root, m);
    BelowIsDescendants(selector, root, k);
    CountAligned(selector, spots[1..k], d[..k - 1], q);
    OnlyPlace(d, k - 1, Place(q), index);
  }

  lemma BelowIsDescendants(selector: Selector, root: Tree<Node>, k: nat)
    requires 0 < k < |SpotsOf(selector, root)|
    ensures var spots, d := SpotsOf(selector, root), Descendants(Position([], root));
      |d| == |spots| - 1 && d[k - 1].path == spots[k].path && d[k - 1].tree.value == spots[k].node
      && AreSpotsOf(selector, spots[1..k], d[..k - 1])
      && forall a, b :: 0 <= a < b < |d| ==> d[a].path != d[b].path
  {
    var d := Descendants(Position([], root));
    SpotsDistinct(selector, root);
    assert d == Positions(root, [])[1..];
    forall a, b | 0 <= a < b < |d| ensures d[a].path != d[b].path {
      ForestPathsDistinct(root.children, [], 0, a, b);
    }
  }

  lemma OnlyPlace(d: seq<Position<Node>>, k: nat, test: Position<Node> -> bool, index: nat)
    requires forall a, b :: 0 <= a < b < |d| ==> d[a].path != d[b].path
    requires k < |d| && test(d[k])
    ensures index < |Filter(d, test)| && Filter(d, test)[index].path == d[k].path <==> index == Count(d[..k], test)
  {
    var place := Count(d[..k], test);
    assert d == d[..k] + [d[k]] + d[k + 1..];
    FilterPicks(d[..k], d[k], d[k + 1..], test);
    if index < |Filter(d, test)| && index != place {
      ResultsDistinct(d, test, if index < place then index else place, if index < place then place else index);
    }
  }

  /** The bound index is right iff as many earlier nodes are returned and not counted as counted and not returned. */
  lemma IndexFindsIff(
    selector: Selector, counts: Option<map<string, nat>>, root: Tree<Node>,
    q: Node -> bool, scope: nat -> bool, i: nat)
    requires i < |Found(selector, counts, root)| && ElementType(root.value.typeRaw) == APPLICATION
    requires q(Found(selector, counts, root)[i].node)
    ensures var found := Found(selector, counts, root);
      var earlier := Earlier(Below(selector, root), found[i].path);
      FindsAgain(root, q, BoundIndex(i, found[i], scope), found[i]) <==>
        Count(earlier, Only(IsReturned(q), IsCounted(found, scope)))
          == Count(earlier, Only(IsCounted(found, scope), IsReturned(q)))
  {
    var found := Found(selector, counts, root);
    FoundIsMatch(selector, counts, root, i);
    IndexCounts(selector, counts, root, scope, i);
    FoundAtCount(selector, counts, root, q, BoundIndex(i, found[i], scope), found[i]);
    CountDifference(Earlier(Below(selector, root), found[i].path), IsReturned(q), IsCounted(found, scope));
  }

  // ---------------------------------------------------------------- a match with an identifier of its own

  function HasIdentifier(id: string): Node -> bool {
    (n: Node) => n.identifier == id
  }

  /** Each match's index among those kept with its identifier. */
  method IdIndices(found: seq<Match>) returns (indices: seq<nat>)
    ensures |indices| == |found|
    ensures forall i :: 0 <= i < |found| ==>
      indices[i] == Count(found[..i], OfNode(HasIdentifier(found[i].node.identifier)))
  {
    var seen: map<string, nat> := map[];
    indices := [];
    for i := 0 to |found|
      invariant |indices| == i
      invariant forall id :: Lookup(seen, id) == Count(found[..i], OfNode(HasIdentifier(id)))
      invariant forall j :: 0 <= j < i ==>
        indices[j] == Count(found[..j], OfNode(HasIdentifier(found[j].node.identifier)))
    {
      var id := found[i].node.identifier;
      var n := Lookup(seen, id);
      indices := indices + [n];
      forall other ensures Count(found[..i + 1], OfNode(HasIdentifier(other)))
        == Count(found[..i], OfNode(HasIdentifier(other))) + if other == id then 1 else 0
      {
        CountNext(found, i, OfNode(HasIdentifier(other)));
      }
      seen := seen[id := n + 1];
    }
  }

  /** A query narrowed to a match's identifier. */
  function Narrowed(q: Node -> bool, id: string): Node -> bool {
    (n: Node) => q(n) && n.identifier == id
  }

  /**
   A match found by its identifier, at its index among the kept matches that share it: right iff as many earlier
   nodes are returned and not kept as kept with that identifier and not returned. The keyboard is not counted.
   */
  lemma IdentifierIndexIff(
    selector: Selector, counts: Option<map<string, nat>>, root: Tree<Node>, q: Node -> bool, i: nat)
    requires i < |Found(selector, counts, root)| && ElementType(root.value.typeRaw) == APPLICATION
    requires q(Found(selector, counts, root)[i].node)
    ensures var found := Found(selector, counts, root);
      var id := found[i].node.identifier;
      var earlier, query := Earlier(Below(selector, root), found[i].path), Narrowed(q, id);
      FindsAgain(root, query, Count(found[..i], OfNode(HasIdentifier(id))), found[i]) <==>
        Count(earlier, Only(IsReturned(query), IsKeptLike(found, HasIdentifier(id))))
          == Count(earlier, Only(IsKeptLike(found, HasIdentifier(id)), IsReturned(query)))
  {
    var found, spots := Found(selector, counts, root), SpotsOf(selector, root);
    var same := HasIdentifier(found[i].node.identifier);
    var query := Narrowed(q, found[i].node.identifier);
    FoundIsMatch(selector, counts, root, i);
    var k := MatchSpot(selector, counts, root, found[i]);
    KeptBefore(selector, counts, root, same, i, k);
    if IsKept(found)(spots[0]) {
      KeptIsEntered(selector, counts, root, 0);
    }
    assert spots[..k] == [spots[0]] + spots[1..k];
    CountAppend([spots[0]], spots[1..k], IsKeptLike(found, same));
    assert Count([spots[0]], IsKeptLike(found, same)) == 0;
    FoundAtCount(selector, counts, root, query, Count(found[..i], OfNode(same)), found[i]);
    CountDifference(spots[1..k], IsReturned(query), IsKeptLike(found, same));
  }

  // ---------------------------------------------------------------- a locator by identifier

  /** `identifier == id`, hooks markers left out: the live query of a locator by test id or id. */
  function IdQuery(id: string): Node -> bool {
    (n: Node) => n.identifier == id && !(HOOKS_MARKER_PREFIX <= n.labelText)
  }

  /** The selector asks for the identifier, if not for that alone. */
  ghost predicate AsksFor(selector: Selector, id: string) {
    forall n, inTabBar, inAlert, containerLabel ::
      selector.test(n, inTabBar, inAlert, containerLabel) ==> n.identifier == id
  }

  /** That query is on any type. */
  function AnyType(): nat -> bool {
    (raw: nat) => true
  }

  /** Nothing the selector takes in the keyboard is a hooks marker. */
  ghost predicate NoHiddenMarker(selector: Selector, root: Tree<Node>) {
    forall s :: s in Below(selector, root) && s.Hidden? && s.isTaken ==> !(HOOKS_MARKER_PREFIX <= s.node.labelText)
  }

  /** Whether the `i`-th match kept is bound to its own node. */
  ghost predicate IsBoundById(
    selector: Selector, counts: Option<map<string, nat>>, root: Tree<Node>, id: string, i: nat)
    requires i < |Found(selector, counts, root)|
  {
    var m := Found(selector, counts, root)[i];
    FindsAgain(root, IdQuery(id), BoundIndex(i, m, AnyType()), m)
  }

  /** A match by identifier is bound to its own node iff every earlier node with that identifier is counted. */
  lemma IdIndexIff(selector: Selector, counts: Option<map<string, nat>>, root: Tree<Node>, id: string, i: nat)
    requires i < |Found(selector, counts, root)| && ElementType(root.value.typeRaw) == APPLICATION
    requires AsksFor(selector, id) && NoHiddenMarker(selector, root)
    ensures var found := Found(selector, counts, root);
      IsBoundById(selector, counts, root, id, i) <==>
        forall s :: s in Earlier(Below(selector, root), found[i].path) && IdQuery(id)(s.node) ==>
          IsCounted(found, AnyType())(s)
  {
    var found, all := Found(selector, counts, root), Below(selector, root);
    var earlier := Earlier(all, found[i].path);
    var counted, returned := IsCounted(found, AnyType()), IsReturned(IdQuery(id));
    FoundIsMatch(selector, counts, root, i);
    MatchIsReturned(selector, counts, root, id, found[i]);
    IndexFindsIff(selector, counts, root, IdQuery(id), AnyType(), i);
    forall s | s in earlier && counted(s) ensures returned(s) {
      EarlierIsPart(all, found[i].path, s);
      CountedIsReturned(selector, counts, root, id, s);
    }
    CountZero(earlier, Only(counted, returned));
    if s :| s in earlier && Only(returned, counted)(s) {
      var x :| 0 <= x < |earlier| && earlier[x] == s;
      CountPositive(earlier, Only(returned, counted), x);
    } else {
      CountZero(earlier, Only(returned, counted));
    }
  }

  lemma {:induction false} EarlierIsPart(spots: seq<Spot>, path: seq<nat>, s: Spot)
    requires s in Earlier(spots, path)
    ensures s in spots
  {
    if s != spots[0] {
      EarlierIsPart(spots[1..], path, s);
    }
  }

  lemma MatchIsReturned(selector: Selector, counts: Option<map<string, nat>>, root: Tree<Node>, id: string, m: Match)
    requires m in AllMatches(selector, counts, root) && ElementType(root.value.typeRaw) == APPLICATION
    requires AsksFor(selector, id)
    ensures IdQuery(id)(m.node)
  {
    var k := MatchSpot(selector, counts, root, m);
  }

  lemma CountedIsReturned(selector: Selector, counts: Option<map<string, nat>>, root: Tree<Node>, id: string, s: Spot)
    requires ElementType(root.value.typeRaw) == APPLICATION && AsksFor(selector, id) && NoHiddenMarker(selector, root)
    requires s in Below(selector, root) && IsCounted(Found(selector, counts, root), AnyType())(s)
    ensures IdQuery(id)(s.node)
  {
    var spots, found := SpotsOf(selector, root), Found(selector, counts, root);
    SpotsDistinct(selector, root);
    var x :| 0 <= x < |spots[1..]| && spots[1..][x] == s;
    assert spots[x + 1] == s;
    if IsKept(found)(s) {
      var j :| 0 <= j < |found| && Paths(found)[j] == s.path;
      FoundIsMatch(selector, counts, root, j);
      MatchIsReturned(selector, counts, root, id, found[j]);
      var k := MatchSpot(selector, counts, root, found[j]);
    }
  }

  /** A match below one that suppression dropped is bound to another node. */
  lemma SuppressionMisbinds(
    selector: Selector, counts: Option<map<string, nat>>, root: Tree<Node>, id: string, j: nat, i: nat)
    requires ElementType(root.value.typeRaw) == APPLICATION
    requires AsksFor(selector, id) && NoHiddenMarker(selector, root)
    requires var results := AllMatches(selector, counts, root);
      j < |results| && Dropped(selector.matchesInnermostOnly, results, j)
      && i < |Found(selector, counts, root)| && results[j].path < Found(selector, counts, root)[i].path
    ensures !IsBoundById(selector, counts, root, id, i)
  {
    var found, dropped := Found(selector, counts, root), AllMatches(selector, counts, root)[j];
    var s := MatchAbove(selector, counts, root, dropped, i);
    DroppedIsNotKept(selector, counts, root, j);
    MatchIsReturned(selector, counts, root, id, dropped);
    IdIndexIff(selector, counts, root, id, i);
    assert !IsKept(found)(s) && !IsKeyboards(AnyType())(s);
  }

  /** A match above another is a node the walk entered earlier. */
  lemma MatchAbove(selector: Selector, counts: Option<map<string, nat>>, root: Tree<Node>, m: Match, i: nat)
    returns (s: Spot)
    requires ElementType(root.value.typeRaw) == APPLICATION
    requires m in AllMatches(selector, counts, root)
    requires i < |Found(selector, counts, root)| && m.path < Found(selector, counts, root)[i].path
    ensures s == Entered(m.path, m.node)
    ensures s in Earlier(Below(selector, root), Found(selector, counts, root)[i].path)
  {
    var spots, below := SpotsOf(selector, root), Found(selector, counts, root)[i];
    FoundIsMatch(selector, counts, root, i);
    var k := MatchSpot(selector, counts, root, below);
    var d := MatchSpot(selector, counts, root, m);
    SpotsDistinct(selector, root);
    PrefixIsStretch(root, [], d, k);
    s := spots[d];
    assert spots[1..k][d - 1] == s;
  }

  /** So whenever suppression drops anything, some match that is kept is bound to another node. */
  lemma SuppressionMisbindsSome(
    selector: Selector, counts: Option<map<string, nat>>, root: Tree<Node>, id: string, j: nat) returns (i: nat)
    requires ElementType(root.value.typeRaw) == APPLICATION
    requires AsksFor(selector, id) && NoHiddenMarker(selector, root)
    requires Dropped(selector.matchesInnermostOnly, AllMatches(selector, counts, root), j)
    ensures i < |Found(selector, counts, root)| && !IsBoundById(selector, counts, root, id, i)
  {
    var k := SurvivorBelow(selector.matchesInnermostOnly, AllMatches(selector, counts, root), j);
    i := SurvivorIsFound(selector, counts, root, k);
    SuppressionMisbinds(selector, counts, root, id, j, i);
  }

  lemma SurvivorIsFound(selector: Selector, counts: Option<map<string, nat>>, root: Tree<Node>, k: nat)
    returns (i: nat)
    requires k < |AllMatches(selector, counts, root)|
    requires !Dropped(selector.matchesInnermostOnly, AllMatches(selector, counts, root), k)
    ensures i < |Found(selector, counts, root)|
    ensures Found(selector, counts, root)[i] == AllMatches(selector, counts, root)[k]
  {
    var results, found := AllMatches(selector, counts, root), Found(selector, counts, root);
    KeptMember(results, DroppedSet(selector.matchesInnermostOnly, results), results[k]);
    i :| i < |found| && found[i] == results[k];
  }

  lemma DroppedIsNotKept(selector: Selector, counts: Option<map<string, nat>>, root: Tree<Node>, j: nat)
    requires j < |AllMatches(selector, counts, root)|
    requires Dropped(selector.matchesInnermostOnly, AllMatches(selector, counts, root), j)
    ensures AllMatches(selector, counts, root)[j].path !in Paths(Found(selector, counts, root))
  {
    var results, found := AllMatches(selector, counts, root), Found(selector, counts, root);
    var gone := DroppedSet(selector.matchesInnermostOnly, results);
    var at := CollectInOrder(selector, counts, root, [], ROOT_CONTEXT, None, NO_KEYBOARD);
    if results[j].path in Paths(found) {
      var x :| 0 <= x < |found| && Paths(found)[x] == results[j].path;
      KeptMember(results, gone, found[x]);
      var y :| 0 <= y < |results| && results[y] == found[x] && y !in gone;
      assert j in gone && y != j;
      PathsDistinct(root, [], if at[y] < at[j] then at[y] else at[j], if at[y] < at[j] then at[j] else at[y]);
      assert false;
    }
  }

  // ---------------------------------------------------------------- so even the first match can be missed

  const WRAPPED := Tree(PLAIN_NODE.(typeRaw := BUTTON, identifier := "x"), [])
  const WRAPPER := Tree(PLAIN_NODE.(identifier := "x"), [WRAPPED])
  const WRAPPER_APP := Tree(PLAIN_NODE.(typeRaw := APPLICATION), [WRAPPER])

  lemma WrapperPositions()
    ensures Positions(WRAPPER_APP, []) ==
      [Position([], WRAPPER_APP), Position([0], WRAPPER), Position([0, 0], WRAPPED)]
  {
    var top: seq<nat> := [];
    var path: seq<nat> := [0];
    assert top + [0] == path && path + [0] == [0, 0];
    assert WRAPPER_APP.children[1..] == [] && WRAPPER.children[1..] == [];
    LeafPositions(WRAPPED, [0, 0]);
    assert PositionsForest(WRAPPER.children, path, 0) == [Position([0, 0], WRAPPED)];
    assert PositionsForest(WRAPPER_APP.children, top, 0) == Positions(WRAPPER, path);
  }

  lemma WrapperCounts()
    ensures IsCellCounts(map[], WRAPPER_APP)
  {
    WrapperPositions();
    forall key ensures Lookup(map[], key) == Count(Positions(WRAPPER_APP, []), CellHolding(key)) {
      CountZero(Positions(WRAPPER_APP, []), CellHolding(key));
    }
  }

  /** Both have the identifier, so both are matches. */
  lemma WrapperMatch(selector: Selector, p: Position<Node>) returns (k: nat)
    requires selector == Selector((n: Node, b, a, l) => n.identifier == "x", false)
    requires p == Position([0], WRAPPER) || p == Position([0, 0], WRAPPED)
    ensures var results := AllMatches(selector, Some(map[]), WRAPPER_APP);
      k < |results| && results[k].path == p.path && results[k].node == p.tree.value
  {
    var results := AllMatches(selector, Some(map[]), WRAPPER_APP);
    WrapperPositions();
    SelectedIsMatched(selector, map[], WRAPPER_APP, [], ROOT_CONTEXT, None, p);
    var m :| m in results && m.path == p.path && m.node == p.tree.value;
    k :| k < |results| && results[k] == m;
  }

  /** The wrapper gives way to the button in it. */
  lemma WrapperIsDropped(selector: Selector) returns (j: nat)
    requires selector == Selector((n: Node, b, a, l) => n.identifier == "x", false)
    ensures var results := AllMatches(selector, Some(map[]), WRAPPER_APP);
      j < |results| && results[j].path == [0] && Dropped(false, results, j)
  {
    var results := AllMatches(selector, Some(map[]), WRAPPER_APP);
    j := WrapperMatch(selector, Position([0], WRAPPER));
    var k := WrapperMatch(selector, Position([0, 0], WRAPPED));
    assert Suppresses(false, WRAPPER.value, WRAPPED.value);
    var at := CollectInOrder(selector, Some(map[]), WRAPPER_APP, [], ROOT_CONTEXT, None, NO_KEYBOARD);
    DroppedIsAnyBelow(false, WRAPPER_APP, results, at, j);
  }

  /** What is kept first is the button. */
  lemma FirstIsWrapped(selector: Selector, j: nat)
    requires var results := AllMatches(selector, Some(map[]), WRAPPER_APP);
      j < |results| && results[j].path == [0] && Dropped(selector.matchesInnermostOnly, results, j)
    ensures |Found(selector, Some(map[]), WRAPPER_APP)| > 0
    ensures Found(selector, Some(map[]), WRAPPER_APP)[0].path == [0, 0]
    ensures NoHiddenMarker(selector, WRAPPER_APP)
  {
    var results, found := AllMatches(selector, Some(map[]), WRAPPER_APP), Found(selector, Some(map[]), WRAPPER_APP);
    SuppressionKeepsSome(selector.matchesInnermostOnly, results, DroppedSet(selector.matchesInnermostOnly, results));
    FoundIsMatch(selector, Some(map[]), WRAPPER_APP, 0);
    var k := MatchSpot(selector, Some(map[]), WRAPPER_APP, found[0]);
    WrapperPositions();
    SpotsDistinct(selector, WRAPPER_APP);
    DroppedIsNotKept(selector, Some(map[]), WRAPPER_APP, j);
    assert Paths(found)[0] == found[0].path;
    forall s | s in Below(selector, WRAPPER_APP) && s.Hidden? ensures !(HOOKS_MARKER_PREFIX <= s.node.labelText) {
      var x :| 0 <= x < |Below(selector, WRAPPER_APP)| && Below(selector, WRAPPER_APP)[x] == s;
      assert SpotsOf(selector, WRAPPER_APP)[x + 1] == s;
    }
  }

  /** Index 0 is wrong for a locator by identifier when a wrapper shares it: the wrapper comes first. */
  lemma FirstIsMisbound()
    ensures exists selector, counts, root, id ::
      AsksFor(selector, id) && IsCellCounts(counts, root) && ElementType(root.value.typeRaw) == APPLICATION
      && |Found(selector, Some(counts), root)| > 0 && !IsBoundById(selector, Some(counts), root, id, 0)
  {
    var selector := Selector((n: Node, b, a, l) => n.identifier == "x", false);
    var counts: map<string, nat> := map[];
    WrapperCounts();
    var j := WrapperIsDropped(selector);
    FirstIsWrapped(selector, j);
    SuppressionMisbinds(selector, Some(counts), WRAPPER_APP, "x", j, 0);
  }
}
