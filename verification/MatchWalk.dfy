/**
 The match walk of the snapshot finder: one pre-order pass that collects the selector's matches,
 drops the ones a matching descendant stands in for, and numbers each match inside its row.
 */
module MatchWalk {
  import opened Wrappers
  import opened Sequences
  import opened Trees
  import opened ElementTypes
  import opened Geometry
  import opened Snapshot
  import opened RowAnchor
  import opened RowBinding
  import TextMatch

  /** What is handed down to a node of what it stands in. */
  datatype Context = Context(
    inTabBar: bool,
    insideSwitch: bool,
    inAlert: bool,
    containerLabel: string,
    listExposesEveryRow: bool)

  /** A selector is any test of a node in its surroundings (in a tab bar, in an alert, container label). */
  datatype Selector = Selector(test: (Node, bool, bool, string) -> bool, matchesInnermostOnly: bool)

  /** A match, with what the walk knows of its row and of the keyboard nodes it left out earlier. */
  datatype Match = Match(
    path: seq<nat>, node: Node, inTabBar: bool, inAlert: bool, tags: Option<Tags>, keyboardMatches: seq<nat>)

  // ---------------------------------------------------------------- what is not the app's

  const HOOKS_MARKER_PREFIX := "tapsmith-hooks:"
  const INPUT_ASSISTANT := "SystemInputAssistantView"

  predicate IsHooksMarker(n: Node) {
    HOOKS_MARKER_PREFIX <= n.labelText || HOOKS_MARKER_PREFIX <= n.title || HOOKS_MARKER_PREFIX <= n.value
  }

  predicate ExcludesNode(n: Node) {
    ElementType(n.typeRaw) == APPLICATION || IsHooksMarker(n)
  }

  predicate ExcludesSubtree(n: Node, keyboardTop: Option<real>) {
    ElementType(n.typeRaw) == KEYBOARD
    || n.identifier == INPUT_ASSISTANT
    || (keyboardTop.Some? && ElementType(n.typeRaw) != WINDOW && n.frame.Height() > 0.0
        && n.frame.MinY() >= keyboardTop.value - 0.5)
  }

  predicate IsSwitchPart(n: Node, insideSwitch: bool) {
    insideSwitch && IsSwitch(ElementType(n.typeRaw))
  }

  predicate Selects(selector: Selector, n: Node, ctx: Context) {
    !ExcludesNode(n) && !IsSwitchPart(n, ctx.insideSwitch)
    && selector.test(n, ctx.inTabBar, ctx.inAlert, ctx.containerLabel)
  }

  function ChildContext(n: Node, ctx: Context): Context {
    var t := ElementType(n.typeRaw);
    Context(
      ctx.inTabBar || n.typeRaw == TAB_BAR,
      ctx.insideSwitch || IsSwitch(t),
      ctx.inAlert || t == ALERT,
      if n.labelText == "" || ExcludesNode(n) then ctx.containerLabel else n.labelText,
      t == TABLE || (t != COLLECTION_VIEW && ctx.listExposesEveryRow))
  }

  // ---------------------------------------------------------------- rows, as values

  /** A row's scope at some point of the walk: what `RowAnchor.Scope` holds. */
  datatype ScopeView = ScopeView(anchor: string, listExposesEveryRow: bool, holdsRows: bool, seen: seq<Node>)

  datatype RowView = RowView(scopes: seq<ScopeView>, listExposesEveryRow: bool, innermostAnchored: bool)

  /** The row after the walk has passed `nodes`. */
  function Passed(row: Option<RowView>, nodes: seq<Node>): Option<RowView> {
    match row
    case None => None
    case Some(r) => Some(r.(scopes := Advance(r.scopes, nodes)))
  }

  function Advance(scopes: seq<ScopeView>, nodes: seq<Node>): (r: seq<ScopeView>)
    ensures |r| == |scopes|
    ensures forall i :: 0 <= i < |scopes| ==> r[i] == scopes[i].(seen := scopes[i].seen + nodes)
  {
    seq(|scopes|, i requires 0 <= i < |scopes| => scopes[i].(seen := scopes[i].seen + nodes))
  }

  lemma PassedTwice(row: Option<RowView>, a: seq<Node>, b: seq<Node>)
    ensures Passed(Passed(row, a), b) == Passed(row, a + b)
  {
    if row.Some? {
      var r := row.value;
      forall i | 0 <= i < |r.scopes|
        ensures Advance(Advance(r.scopes, a), b)[i] == Advance(r.scopes, a + b)[i]
      {
        assert (r.scopes[i].seen + a) + b == r.scopes[i].seen + (a + b);
      }
      assert Advance(Advance(r.scopes, a), b) == Advance(r.scopes, a + b);
    }
  }

  lemma PassedNothing(row: Option<RowView>)
    ensures Passed(row, []) == row
  {
    if row.Some? {
      forall i | 0 <= i < |row.value.scopes|
        ensures Advance(row.value.scopes, [])[i] == row.value.scopes[i]
      {
        assert row.value.scopes[i].seen + [] == row.value.scopes[i].seen;
      }
      assert Advance(row.value.scopes, []) == row.value.scopes;
    }
  }

  /** A node's number in the innermost anchored row around it. */
  function RowIndex(row: Option<RowView>, n: Node): Option<nat> {
    if row.None? || row.value.scopes == [] then None
    else
      var scopes := row.value.scopes;
      Some(Count(scopes[|scopes| - 1].seen, SameCounter(n, IsTyped(n.typeRaw))))
  }

  function OwnScope(t: Tree<Node>, ctx: Context, counts: Option<map<string, nat>>): Option<ScopeView> {
    if !IsCell(t.value) || counts.None? then None
    else match Anchor(t, counts.value)
      case None => None
      case Some(anchor) => Some(ScopeView(anchor, ctx.listExposesEveryRow, HoldsRows(t), []))
  }

  function OwnRow(
    t: Tree<Node>, ctx: Context, counts: Option<map<string, nat>>, row: Option<RowView>): Option<RowView>
  {
    if !IsCell(t.value) then None
    else
      var own := OwnScope(t, ctx, counts);
      Some(RowView(
        (if row.Some? then row.value.scopes else []) + (if own.Some? then [own.value] else []),
        ctx.listExposesEveryRow, own.Some?))
  }

  function EnclosingOf(row: Option<RowView>): Option<Enclosing> {
    if row.None? || row.value.scopes == [] then None
    else
      var s := row.value.scopes[|row.value.scopes| - 1];
      Some(Enclosing(s.anchor, s.listExposesEveryRow, s.holdsRows))
  }

  function RowTags(t: Tree<Node>, ctx: Context, counts: Option<map<string, nat>>, row: Option<RowView>): Option<Tags> {
    var ownRow := OwnRow(t, ctx, counts, row);
    var around := if ownRow.Some? then ownRow else row;
    if around.None? then None
    else
      var own := OwnScope(t, ctx, counts);
      Some(TagsOf(
        if own.Some? then Some(own.value.anchor) else None,
        ctx.listExposesEveryRow, EnclosingOf(row), RowIndex(row, t.value),
        around.value.innermostAnchored, around.value.listExposesEveryRow))
  }

  // ---------------------------------------------------------------- the walk, as a function

  /**
   What the walk knows of keyboards: the top edge of the one met in this window, and the raw types of the nodes
   left out so far, in the keyboard's subtrees, that the selector would have taken.
   */
  datatype Keyboard = Keyboard(top: Option<real>, matches: seq<nat>)

  const NO_KEYBOARD := Keyboard(None, [])

  datatype Walk = Walk(matches: seq<Match>, keyboard: Keyboard)

  function ContainerLabel(n: Node, containerLabel: string): string {
    if n.labelText == "" then containerLabel else n.labelText
  }

  /** The raw types of the nodes of a subtree the selector takes, nothing excluded. */
  function MatchingTypes(selector: Selector, t: Tree<Node>, containerLabel: string): seq<nat>
    decreases t, 1
  {
    (if selector.test(t.value, false, false, containerLabel) then [t.value.typeRaw] else [])
    + MatchingTypesForest(selector, t.children, ContainerLabel(t.value, containerLabel))
  }

  function MatchingTypesForest(selector: Selector, ts: seq<Tree<Node>>, containerLabel: string): seq<nat>
    decreases ts, 0
  {
    if ts == [] then []
    else MatchingTypes(selector, ts[0], containerLabel) + MatchingTypesForest(selector, ts[1..], containerLabel)
  }

  /** After a subtree that is left out. */
  function LeftOut(selector: Selector, t: Tree<Node>, ctx: Context, keyboard: Keyboard): Keyboard {
    Keyboard(if ElementType(t.value.typeRaw) == KEYBOARD then Some(t.value.frame.MinY()) else keyboard.top,
             keyboard.matches + MatchingTypes(selector, t, ctx.containerLabel))
  }

  /** A keyboard's top edge applies within its own window only. */
  function Entering(n: Node, keyboard: Keyboard): Keyboard {
    if ElementType(n.typeRaw) == WINDOW then keyboard.(top := None) else keyboard
  }

  function Leaving(n: Node, before: Keyboard, after: Keyboard): Keyboard {
    if ElementType(n.typeRaw) == WINDOW then after.(top := before.top) else after
  }

  function MatchHere(
    selector: Selector, counts: Option<map<string, nat>>,
    t: Tree<Node>, path: seq<nat>, ctx: Context, row: Option<RowView>, keyboardMatches: seq<nat>): seq<Match>
  {
    MatchWith(selector, t, path, ctx, RowTags(t, ctx, counts, row), keyboardMatches)
  }

  /** The match a node is with these tags, if the selector takes it. */
  function MatchWith(
    selector: Selector, t: Tree<Node>, path: seq<nat>, ctx: Context, tags: Option<Tags>, keyboardMatches: seq<nat>):
    seq<Match>
  {
    if !Selects(selector, t.value, ctx) then []
    else
      var inAlert := ctx.inAlert || ElementType(t.value.typeRaw) == ALERT;
      [Match(path, t.value, ctx.inTabBar, inAlert, tags, keyboardMatches)]
  }

  /** The row the children of `t` are in; `row` has not passed `t` yet. */
  function ChildRow(
    t: Tree<Node>, ctx: Context, counts: Option<map<string, nat>>, row: Option<RowView>): Option<RowView>
  {
    var passed := Passed(row, [t.value]);
    var own := OwnRow(t, ctx, counts, passed);
    if own.Some? then own else passed
  }

  function Collect(
    selector: Selector, counts: Option<map<string, nat>>,
    t: Tree<Node>, path: seq<nat>, ctx: Context, row: Option<RowView>, keyboard: Keyboard): Walk
    decreases t, 1
  {
    if ExcludesSubtree(t.value, keyboard.top) then
      Walk([], LeftOut(selector, t, ctx, keyboard))
    else
      var below := CollectForest(
        selector, counts, t.children, path, 0, ChildContext(t.value, ctx),
        ChildRow(t, ctx, counts, row), Entering(t.value, keyboard));
      Walk(MatchHere(selector, counts, t, path, ctx, row, keyboard.matches) + below.matches,
           Leaving(t.value, keyboard, below.keyboard))
  }

  function CollectForest(
    selector: Selector, counts: Option<map<string, nat>>,
    ts: seq<Tree<Node>>, path: seq<nat>, k: nat, ctx: Context, row: Option<RowView>, keyboard: Keyboard): Walk
    decreases ts, 0
  {
    if ts == [] then Walk([], keyboard)
    else
      var first := Collect(selector, counts, ts[0], path + [k], ctx, row, keyboard);
      var rest := CollectForest(
        selector, counts, ts[1..], path, k + 1, ctx, Passed(row, PreOrder(ts[0])), first.keyboard);
      Walk(first.matches + rest.matches, rest.keyboard)
  }

  lemma {:induction false} CollectedBelow(
    selector: Selector, counts: Option<map<string, nat>>,
    t: Tree<Node>, path: seq<nat>, ctx: Context, row: Option<RowView>, keyboard: Keyboard)
    ensures forall m :: m in Collect(selector, counts, t, path, ctx, row, keyboard).matches ==> path <= m.path
    decreases t, 1
  {
    if !ExcludesSubtree(t.value, keyboard.top) {
      CollectedForestBelow(
        selector, counts, t.children, path, 0, ChildContext(t.value, ctx), ChildRow(t, ctx, counts, row),
        Entering(t.value, keyboard));
    }
  }

  lemma {:induction false} CollectedForestBelow(
    selector: Selector, counts: Option<map<string, nat>>,
    ts: seq<Tree<Node>>, path: seq<nat>, k: nat, ctx: Context, row: Option<RowView>, keyboard: Keyboard)
    ensures forall m :: m in CollectForest(selector, counts, ts, path, k, ctx, row, keyboard).matches ==>
      path < m.path && m.path[|path|] >= k
    decreases ts, 0
  {
    if ts != [] {
      CollectedBelow(selector, counts, ts[0], path + [k], ctx, row, keyboard);
      var first := Collect(selector, counts, ts[0], path + [k], ctx, row, keyboard);
      CollectedForestBelow(
        selector, counts, ts[1..], path, k + 1, ctx, Passed(row, PreOrder(ts[0])), first.keyboard);
      forall m | m in first.matches ensures path < m.path && m.path[|path|] == k {
        assert (path + [k])[|path|] == k && (path + [k])[..|path|] == path;
        assert m.path[..|path| + 1] == path + [k];
      }
    }
  }

  // ---------------------------------------------------------------- pre-order

  /** `matches` are the nodes of `ps` at the places `at`, in that order. */
  ghost predicate Picks(matches: seq<Match>, ps: seq<Position<Node>>, at: seq<nat>) {
    && |at| == |matches|
    && (forall i, j :: 0 <= i < j < |at| ==> at[i] < at[j])
    && (forall i :: 0 <= i < |at| ==>
          at[i] < |ps| && ps[at[i]].path == matches[i].path && ps[at[i]].tree.value == matches[i].node)
  }

  function Shift(at: seq<nat>, d: nat): (r: seq<nat>)
    ensures |r| == |at| && forall i :: 0 <= i < |at| ==> r[i] == at[i] + d
  {
    seq(|at|, i requires 0 <= i < |at| => at[i] + d)
  }

  lemma PicksAppend(
    a: seq<Match>, ps: seq<Position<Node>>, at: seq<nat>, b: seq<Match>, qs: seq<Position<Node>>, bt: seq<nat>)
    requires Picks(a, ps, at) && Picks(b, qs, bt)
    ensures Picks(a + b, ps + qs, at + Shift(bt, |ps|))
  {
  }

  /** Every match is a node of the tree at its own path, and matches come in tree order. */
  lemma {:induction false} CollectInOrder(
    selector: Selector, counts: Option<map<string, nat>>,
    t: Tree<Node>, path: seq<nat>, ctx: Context, row: Option<RowView>, keyboard: Keyboard)
    returns (at: seq<nat>)
    ensures Picks(Collect(selector, counts, t, path, ctx, row, keyboard).matches, Positions(t, path), at)
    decreases t, 1
  {
    at := [];
    if !ExcludesSubtree(t.value, keyboard.top) {
      var here := MatchHere(selector, counts, t, path, ctx, row, keyboard.matches);
      var kids := ForestInOrder(
        selector, counts, t.children, path, 0, ChildContext(t.value, ctx), ChildRow(t, ctx, counts, row),
        Entering(t.value, keyboard));
      var own: seq<nat> := if here == [] then [] else [0];
      PicksAppend(here, [Position(path, t)], own,
        Collect(selector, counts, t, path, ctx, row, keyboard).matches[|here|..],
        PositionsForest(t.children, path, 0), kids);
      at := own + Shift(kids, 1);
    }
  }

  lemma {:induction false} ForestInOrder(
    selector: Selector, counts: Option<map<string, nat>>,
    ts: seq<Tree<Node>>, path: seq<nat>, k: nat, ctx: Context, row: Option<RowView>, keyboard: Keyboard)
    returns (at: seq<nat>)
    ensures Picks(
      CollectForest(selector, counts, ts, path, k, ctx, row, keyboard).matches, PositionsForest(ts, path, k), at)
    decreases ts, 0
  {
    at := [];
    if ts != [] {
      var first := Collect(selector, counts, ts[0], path + [k], ctx, row, keyboard);
      var rest := CollectForest(
        selector, counts, ts[1..], path, k + 1, ctx, Passed(row, PreOrder(ts[0])), first.keyboard);
      var a := CollectInOrder(selector, counts, ts[0], path + [k], ctx, row, keyboard);
      var b := ForestInOrder(
        selector, counts, ts[1..], path, k + 1, ctx, Passed(row, PreOrder(ts[0])), first.keyboard);
      PicksAppend(
        first.matches, Positions(ts[0], path + [k]), a, rest.matches, PositionsForest(ts[1..], path, k + 1), b);
      at := a + Shift(b, |Positions(ts[0], path + [k])|);
    }
  }

  // ---------------------------------------------------------------- suppression

  /** Two frames are one target: equal once truncated to whole points, with some area. */
  predicate SameTarget(a: Frame, b: Frame) {
    a.Width() > 0.0 && a.Height() > 0.0 && WholePoints(a) == WholePoints(b)
  }

  /** The rule: match `outer` gives way to `inner`, a match below it. */
  predicate Suppresses(innermostOnly: bool, outer: Node, inner: Node) {
    var o, i := ElementType(outer.typeRaw), ElementType(inner.typeRaw);
    if innermostOnly then
      !(SameTarget(outer.frame, inner.frame) && TextMatch.Equals(outer.labelText, inner.labelText)
        && (o != OTHER || i == OTHER))
    else
      o == OTHER && i != OTHER
      && (if outer.identifier != "" then outer.identifier == inner.identifier
          else outer.labelText != "" && outer.labelText == inner.labelText)
  }

  /** The quadratic specification: some match below match `k` stands in for it. */
  ghost predicate Dropped(innermostOnly: bool, results: seq<Match>, k: nat) {
    k < |results| && exists j :: DroppedFor(innermostOnly, results, k, j)
  }

  predicate DroppedFor(innermostOnly: bool, results: seq<Match>, k: nat, j: int) {
    k < j < |results| && results[k].path < results[j].path
    && Suppresses(innermostOnly, results[k].node, results[j].node)
  }

  ghost function DroppedSet(innermostOnly: bool, results: seq<Match>): set<nat> {
    set k: nat | k < |results| && Dropped(innermostOnly, results, k)
  }

  /** Every dropped match has a surviving match below it. */
  lemma {:induction false} SurvivorBelow(innermostOnly: bool, results: seq<Match>, k: nat) returns (j: nat)
    requires Dropped(innermostOnly, results, k)
    ensures k < j < |results| && results[k].path < results[j].path
    ensures !Dropped(innermostOnly, results, j)
    decreases |results| - k
  {
    j :| DroppedFor(innermostOnly, results, k, j);
    if Dropped(innermostOnly, results, j) {
      j := SurvivorBelow(innermostOnly, results, j);
    }
  }

  /** On a tree's matches the rule looks at every match below, wherever it stands in the results. */
  lemma DroppedIsAnyBelow(innermostOnly: bool, root: Tree<Node>, results: seq<Match>, at: seq<nat>, k: nat)
    requires Picks(results, Positions(root, []), at) && k < |results|
    ensures Dropped(innermostOnly, results, k) <==>
      exists j :: 0 <= j < |results| && results[k].path < results[j].path
        && Suppresses(innermostOnly, results[k].node, results[j].node)
  {
    forall j | 0 <= j < |results| && results[k].path < results[j].path ensures k < j {
      PrefixIsStretch(root, [], at[k], at[j]);
    }
    if j :| (0 <= j < |results| && results[k].path < results[j].path
             && Suppresses(innermostOnly, results[k].node, results[j].node))
    {
      assert DroppedFor(innermostOnly, results, k, j);
    }
  }

  /** The matches kept, in pre-order. */
  function Kept(results: seq<Match>, suppressed: set<nat>): seq<Match> {
    if results == [] then []
    else
      var n := |results| - 1;
      Kept(results[..n], suppressed) + if n in suppressed then [] else [results[n]]
  }

  lemma {:induction false} KeptMember(results: seq<Match>, suppressed: set<nat>, m: Match)
    ensures m in Kept(results, suppressed) <==> exists i :: 0 <= i < |results| && results[i] == m && i !in suppressed
  {
    if results != [] {
      var n := |results| - 1;
      KeptMember(results[..n], suppressed, m);
      KeptLast(results, suppressed, m);
    }
  }

  /** Kept is kept among all but the last, or kept as the last. */
  lemma KeptLast(results: seq<Match>, suppressed: set<nat>, m: Match)
    requires results != []
    ensures var n := |results| - 1;
      (exists i :: 0 <= i < |results| && results[i] == m && i !in suppressed) <==>
      (exists i :: 0 <= i < n && results[..n][i] == m && i !in suppressed) || (results[n] == m && n !in suppressed)
  {
    var n := |results| - 1;
    if i :| 0 <= i < n && results[..n][i] == m && i !in suppressed {
      assert results[i] == m;
    }
    if i :| 0 <= i < |results| && results[i] == m && i !in suppressed {
      assert i < n ==> results[..n][i] == m;
    }
  }

  /** Suppression never empties a non-empty result. */
  lemma SuppressionKeepsSome(innermostOnly: bool, results: seq<Match>, suppressed: set<nat>)
    requires suppressed == DroppedSet(innermostOnly, results)
    ensures results != [] <==> Kept(results, suppressed) != []
  {
    if results != [] {
      var i := 0;
      if Dropped(innermostOnly, results, 0) {
        i := SurvivorBelow(innermostOnly, results, 0);
      }
      KeptMember(results, suppressed, results[i]);
    }
  }

  // ---------------------------------------------------------------- the ancestor stack

  datatype WrapperAncestor = WrapperAncestor(
    identifier: string, labelText: string, elementType: nat, frame: Frame, resultIndex: nat)

  function Entry(n: Node, index: nat): WrapperAncestor {
    WrapperAncestor(n.identifier, n.labelText, ElementType(n.typeRaw), n.frame, index)
  }

  predicate Pushes(innermostOnly: bool, n: Node) {
    ElementType(n.typeRaw) == OTHER || innermostOnly
  }

  /** The stack the walk should hold when it reaches `path`: the matches above it that can give way. */
  function EntriesAbove(innermostOnly: bool, results: seq<Match>, path: seq<nat>): seq<WrapperAncestor> {
    if results == [] then []
    else
      var n := |results| - 1;
      EntriesAbove(innermostOnly, results[..n], path)
      + if results[n].path < path && Pushes(innermostOnly, results[n].node) then [Entry(results[n].node, n)] else []
  }

  lemma {:induction false} EntriesMember(innermostOnly: bool, results: seq<Match>, path: seq<nat>, e: WrapperAncestor)
    ensures e in EntriesAbove(innermostOnly, results, path) <==>
      e.resultIndex < |results| && results[e.resultIndex].path < path
      && Pushes(innermostOnly, results[e.resultIndex].node) && e == Entry(results[e.resultIndex].node, e.resultIndex)
  {
    if results != [] {
      EntriesMember(innermostOnly, results[..|results| - 1], path, e);
    }
  }

  /** Matches that are not above `path` add nothing to its stack. */
  lemma {:induction false} EntriesSkip(innermostOnly: bool, results: seq<Match>, more: seq<Match>, path: seq<nat>)
    requires forall m :: m in more ==> !(m.path < path)
    ensures EntriesAbove(innermostOnly, results + more, path) == EntriesAbove(innermostOnly, results, path)
  {
    if more == [] {
      assert results + more == results;
    } else {
      var n := |more| - 1;
      assert (results + more)[..|results| + n] == results + more[..n];
      assert (results + more)[|results| + n] == more[n] && more[n] in more;
      EntriesSkip(innermostOnly, results, more[..n], path);
    }
  }

  /** Going down one level from a node without a match leaves its stack as it is. */
  lemma {:induction false} EntriesDown(innermostOnly: bool, results: seq<Match>, path: seq<nat>, i: nat)
    requires forall m :: m in results ==> !(path <= m.path)
    ensures EntriesAbove(innermostOnly, results, path + [i]) == EntriesAbove(innermostOnly, results, path)
  {
    if results != [] {
      var last := results[|results| - 1];
      EntriesDown(innermostOnly, results[..|results| - 1], path, i);
      assert last in results;
      assert (path + [i])[..|path|] == path;
      if last.path < path + [i] {
        assert |last.path| <= |path|;
        assert last.path == path[..|last.path|];
      }
    }
  }

  /** Going down one level from a match pushes it, if it can give way. */
  lemma EntriesPush(innermostOnly: bool, results: seq<Match>, m: Match, i: nat)
    requires forall r :: r in results ==> !(m.path <= r.path)
    ensures EntriesAbove(innermostOnly, results + [m], m.path + [i]) ==
      EntriesAbove(innermostOnly, results, m.path)
      + if Pushes(innermostOnly, m.node) then [Entry(m.node, |results|)] else []
  {
    EntriesDown(innermostOnly, results, m.path, i);
    assert (results + [m])[..|results|] == results;
    assert m.path < m.path + [i];
  }

  /** What a new match adds to the quadratic specification: the matches on its stack it suppresses. */
  lemma DroppedByNew(innermostOnly: bool, results: seq<Match>, m: Match, k: nat)
    ensures Dropped(innermostOnly, results + [m], k) <==>
      Dropped(innermostOnly, results, k)
      || exists e :: e in EntriesAbove(innermostOnly, results, m.path) && e.resultIndex == k < |results|
           && Suppresses(innermostOnly, results[k].node, m.node)
  {
    var all := results + [m];
    if k < |results| {
      EntriesMember(innermostOnly, results, m.path, Entry(results[k].node, k));
      if j :| DroppedFor(innermostOnly, results, k, j) {
        assert DroppedFor(innermostOnly, all, k, j);
      }
      if j :| DroppedFor(innermostOnly, all, k, j) {
        assert j < |results| ==> DroppedFor(innermostOnly, results, k, j);
      }
      if results[k].path < m.path && Suppresses(innermostOnly, results[k].node, m.node) {
        assert DroppedFor(innermostOnly, all, k, |results|);
      }
    }
    forall e | e in EntriesAbove(innermostOnly, results, m.path) && e.resultIndex == k < |results|
      ensures k < |results| && results[k].path < m.path
    {
      EntriesMember(innermostOnly, results, m.path, e);
    }
  }
}
