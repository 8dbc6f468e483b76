/**
 The match walk as the finder runs it: results, the stack of matches above the current node, the set
 of suppressed results and the keyboard's top edge, all updated in place over one pre-order pass.
 */
module MatchWalker {
  import opened Wrappers
  import opened Sequences
  import opened Trees
  import opened ElementTypes
  import opened Geometry
  import opened Snapshot
  import opened RowAnchor
  import opened RowBinding
  import opened MatchWalk
  import TextMatch

  // ---------------------------------------------------------------- the rows a node is in

  /** The rows a node is in: every enclosing row that has an anchor, outermost first. */
  datatype RowContext = RowContext(scopes: seq<Scope>, listExposesEveryRow: bool, innermostAnchored: bool)

  function ScopesOf(row: Option<RowContext>): seq<Scope> {
    if row.Some? then row.value.scopes else []
  }

  ghost function ViewOf(s: Scope): ScopeView
    reads s
  {
    ScopeView(s.anchor, s.listExposesEveryRow, s.holdsRows, s.seen)
  }

  ghost function Views(scopes: seq<Scope>): (r: seq<ScopeView>)
    reads scopes
    ensures |r| == |scopes|
    ensures forall i :: 0 <= i < |scopes| ==> r[i] == ViewOf(scopes[i])
  {
    seq(|scopes|, i requires 0 <= i < |scopes| reads scopes => ViewOf(scopes[i]))
  }

  ghost function View(row: Option<RowContext>): Option<RowView>
    reads ScopesOf(row)
  {
    match row
    case None => None
    case Some(r) => Some(RowView(Views(r.scopes), r.listExposesEveryRow, r.innermostAnchored))
  }

  ghost predicate Usable(scopes: seq<Scope>)
    reads scopes
  {
    && (forall s :: s in scopes ==> s.Valid())
    && (forall i, j :: 0 <= i < j < |scopes| ==> scopes[i] != scopes[j])
  }

  lemma AllAdvanced(before: seq<ScopeView>, after: seq<ScopeView>, nodes: seq<Node>)
    requires |after| == |before|
    requires forall i :: 0 <= i < |after| ==> after[i] == before[i].(seen := before[i].seen + nodes)
    ensures after == Advance(before, nodes)
  {
  }

  /** Record a node in every row around it, and number it in the innermost one. */
  method VisitScopes(scopes: seq<Scope>, n: Node, typed: bool) returns (index: Option<nat>)
    requires Usable(scopes)
    modifies scopes
    ensures Usable(scopes)
    ensures forall i :: 0 <= i < |scopes| ==> scopes[i].seen == old(scopes[i].seen) + [n]
    ensures index == if scopes == [] then None
      else Some(Count(old(scopes[|scopes| - 1].seen), SameCounter(n, typed)))
  {
    index := None;
    for i := 0 to |scopes|
      invariant Usable(scopes)
      invariant forall j :: 0 <= j < i ==> scopes[j].seen == old(scopes[j].seen) + [n]
      invariant forall j :: i <= j < |scopes| ==> scopes[j].seen == old(scopes[j].seen)
      invariant index == if i == 0 then None
        else Some(Count(old(scopes[i - 1].seen), SameCounter(n, typed)))
    {
      var k := scopes[i].Visit(n, typed);
      index := Some(k);
    }
  }

  method VisitSubtrees(scopes: seq<Scope>, t: Tree<Node>)
    requires Usable(scopes)
    modifies scopes
    ensures Usable(scopes)
    ensures forall i :: 0 <= i < |scopes| ==> scopes[i].seen == old(scopes[i].seen) + PreOrder(t)
  {
    for i := 0 to |scopes|
      invariant Usable(scopes)
      invariant forall j :: 0 <= j < i ==> scopes[j].seen == old(scopes[j].seen) + PreOrder(t)
      invariant forall j :: i <= j < |scopes| ==> scopes[j].seen == old(scopes[j].seen)
    {
      scopes[i].VisitSubtree(t);
    }
  }

  /** `VisitScopes`, as a step of the row. */
  method VisitRow(row: Option<RowContext>, n: Node) returns (index: Option<nat>)
    requires Usable(ScopesOf(row))
    modifies ScopesOf(row)
    ensures Usable(ScopesOf(row))
    ensures View(row) == Passed(old(View(row)), [n])
    ensures index == RowIndex(old(View(row)), n)
  {
    ghost var before := Views(ScopesOf(row));
    index := VisitScopes(ScopesOf(row), n, IsTyped(n.typeRaw));
    AllAdvanced(before, Views(ScopesOf(row)), [n]);
  }

  method SkipRow(row: Option<RowContext>, t: Tree<Node>)
    requires Usable(ScopesOf(row))
    modifies ScopesOf(row)
    ensures Usable(ScopesOf(row))
    ensures View(row) == Passed(old(View(row)), PreOrder(t))
  {
    ghost var before := Views(ScopesOf(row));
    VisitSubtrees(ScopesOf(row), t);
    AllAdvanced(before, Views(ScopesOf(row)), PreOrder(t));
  }

  /** The scope of an anchored cell, newly made; none for any other node. */
  method OpenScope(t: Tree<Node>, ctx: Context, counts: Option<map<string, nat>>)
    returns (own: seq<Scope>, ownAnchor: Option<string>)
    ensures fresh(own) && Usable(own)
    ensures var scope := OwnScope(t, ctx, counts);
      Views(own) == (if scope.Some? then [scope.value] else [])
      && ownAnchor == if scope.Some? then Some(scope.value.anchor) else None
  {
    own, ownAnchor := [], None;
    if IsCell(t.value) && counts.Some? {
      ownAnchor := Anchor(t, counts.value);
      if ownAnchor.Some? {
        var scope := new Scope(ownAnchor.value, ctx.listExposesEveryRow, HoldsRows(t));
        own := [scope];
        assert Views(own)[0] == ViewOf(scope);
      }
    }
  }

  /** The row the children of a node are in: a cell's own, or the one around it. */
  method EnterRow(t: Tree<Node>, ctx: Context, counts: Option<map<string, nat>>, row: Option<RowContext>)
    returns (childRow: Option<RowContext>, ownAnchor: Option<string>, ghost own: seq<Scope>)
    requires Usable(ScopesOf(row))
    ensures fresh(own) && Usable(ScopesOf(childRow)) && ScopesOf(childRow) == ScopesOf(row) + own
    ensures View(row) == old(View(row))
    ensures var ownRow := OwnRow(t, ctx, counts, old(View(row)));
      View(childRow) == if ownRow.Some? then ownRow else old(View(row))
    ensures var scope := OwnScope(t, ctx, counts);
      ownAnchor == if scope.Some? then Some(scope.value.anchor) else None
  {
    childRow, own := row, [];
    var scopes;
    scopes, ownAnchor := OpenScope(t, ctx, counts);
    if IsCell(t.value) {
      childRow := Some(RowContext(ScopesOf(row) + scopes, ctx.listExposesEveryRow, ownAnchor.Some?));
      own := scopes;
      assert Views(ScopesOf(childRow)) == Views(ScopesOf(row)) + Views(scopes);
    }
  }

  function EnclosingRow(row: Option<RowContext>): Option<Enclosing> {
    if ScopesOf(row) == [] then None
    else
      var s := ScopesOf(row)[|ScopesOf(row)| - 1];
      Some(Enclosing(s.anchor, s.listExposesEveryRow, s.holdsRows))
  }

  /** Number a node in its row, and make its tags and the row of its children. */
  method EnterNode(t: Tree<Node>, ctx: Context, counts: Option<map<string, nat>>, row: Option<RowContext>)
    returns (childRow: Option<RowContext>, tags: Option<Tags>, ghost own: seq<Scope>)
    requires Usable(ScopesOf(row))
    modifies ScopesOf(row)
    ensures fresh(own) && Usable(ScopesOf(childRow)) && ScopesOf(childRow) == ScopesOf(row) + own
    ensures row.Some? ==> childRow.Some?
    ensures View(row) == Passed(old(View(row)), [t.value])
    ensures View(childRow) == ChildRow(t, ctx, counts, old(View(row)))
    ensures tags == RowTags(t, ctx, counts, old(View(row)))
  {
    ghost var view := View(row);
    var rowIndex := VisitRow(row, t.value);
    var ownAnchor;
    childRow, ownAnchor, own := EnterRow(t, ctx, counts, row);
    EnclosingIs(row);
    tags := MakeTags(ctx, row, childRow, ownAnchor, rowIndex);
    TagsAgree(t, ctx, counts, view);
  }

  lemma EnclosingIs(row: Option<RowContext>)
    ensures EnclosingRow(row) == EnclosingOf(View(row))
  {
  }

  /** A node's tags, in a row or as a row. */
  function MakeTags(
    ctx: Context, row: Option<RowContext>, childRow: Option<RowContext>,
    ownAnchor: Option<string>, rowIndex: Option<nat>)
    : Option<Tags>
    reads ScopesOf(row)
  {
    if childRow.None? then None
    else Some(TagsOf(
      ownAnchor, ctx.listExposesEveryRow, EnclosingRow(row), rowIndex,
      childRow.value.innermostAnchored, childRow.value.listExposesEveryRow))
  }

  /** Passing the children from `i` on is passing child `i`, and then those after it. */
  lemma PassedChild(row: Option<RowView>, ts: seq<Tree<Node>>, i: nat)
    requires i < |ts|
    ensures Passed(row, PreOrderForest(ts[i..])) == Passed(Passed(row, PreOrder(ts[i])), PreOrderForest(ts[i + 1..]))
  {
    assert ts[i..][0] == ts[i] && ts[i..][1..] == ts[i + 1..];
    PassedTwice(row, PreOrder(ts[i]), PreOrderForest(ts[i + 1..]));
  }

  lemma ChildPath(path: seq<nat>, i: nat, q: seq<nat>)
    ensures path + [i] <= q ==> path < q && q[|path|] == i
  {
    if path + [i] <= q {
      assert q[..|path| + 1] == path + [i];
      assert (path + [i])[|path|] == i && (path + [i])[..|path|] == path;
    }
  }

  /** The tags are the same read from the rows before or after they pass the node itself. */
  lemma TagsAgree(t: Tree<Node>, ctx: Context, counts: Option<map<string, nat>>, before: Option<RowView>)
    ensures var after := Passed(before, [t.value]);
      EnclosingOf(after) == EnclosingOf(before)
    ensures var child := ChildRow(t, ctx, counts, before);
      RowTags(t, ctx, counts, before) ==
        if child.None? then None
        else
          var own := OwnScope(t, ctx, counts);
          Some(TagsOf(
            if own.Some? then Some(own.value.anchor) else None,
            ctx.listExposesEveryRow, EnclosingOf(before), RowIndex(before, t.value),
            child.value.innermostAnchored, child.value.listExposesEveryRow))
  {
  }

  /** The scopes of a row stand ahead of those a node in it opens. */
  lemma OuterScopes(row: Option<RowContext>, childRow: Option<RowContext>, own: seq<Scope>)
    requires ScopesOf(childRow) == ScopesOf(row) + own && Usable(ScopesOf(childRow))
    ensures Usable(ScopesOf(row)) && Views(ScopesOf(row)) <= Views(ScopesOf(childRow))
  {
    var outer, all := ScopesOf(row), ScopesOf(childRow);
    assert forall k :: 0 <= k < |outer| ==> outer[k] == all[k];
    assert forall k :: 0 <= k < |outer| ==> Views(outer)[k] == Views(all)[k];
  }

  /** When rows opened later are set aside, the ones around them have still passed `nodes`. */
  lemma AdvancedPart(
    outer: seq<ScopeView>, inner: seq<ScopeView>, outer': seq<ScopeView>, inner': seq<ScopeView>, nodes: seq<Node>)
    requires outer <= inner && outer' <= inner' && |outer'| == |outer| && inner' == Advance(inner, nodes)
    ensures outer' == Advance(outer, nodes)
  {
    assert forall i :: 0 <= i < |outer| ==> outer'[i] == inner'[i] && outer[i] == inner[i];
  }

  /** The walk over several subtrees is the first's, then the rest's. */
  lemma ForestStep(
    selector: Selector, counts: Option<map<string, nat>>, ts: seq<Tree<Node>>, path: seq<nat>, k: nat,
    ctx: Context, row: Option<RowView>, keyboard: Keyboard, found: seq<Match>, whole: Walk)
    requires ts != [] && forall m :: m in found ==> path < m.path && m.path[|path|] < k
    requires var walk := CollectForest(selector, counts, ts, path, k, ctx, row, keyboard);
      found + walk.matches == whole.matches && walk.keyboard == whole.keyboard
    ensures var first := Collect(selector, counts, ts[0], path + [k], ctx, row, keyboard);
      var rest := CollectForest(
        selector, counts, ts[1..], path, k + 1, ctx, Passed(row, PreOrder(ts[0])), first.keyboard);
      (found + first.matches) + rest.matches == whole.matches && rest.keyboard == whole.keyboard
      && forall m :: m in found + first.matches ==> path < m.path && m.path[|path|] < k + 1
  {
    var first := Collect(selector, counts, ts[0], path + [k], ctx, row, keyboard);
    var rest := CollectForest(
      selector, counts, ts[1..], path, k + 1, ctx, Passed(row, PreOrder(ts[0])), first.keyboard);
    Associative(found, first.matches, rest.matches);
    CollectedBelow(selector, counts, ts[0], path + [k], ctx, row, keyboard);
    forall m | m in first.matches ensures path < m.path && m.path[|path|] == k {
      ChildPath(path, k, m.path);
    }
  }

  // ---------------------------------------------------------------- the rule, on stack entries

  predicate GivesWay(anc: WrapperAncestor, n: Node, innermostOnly: bool) {
    if innermostOnly then
      !(SameTarget(anc.frame, n.frame) && TextMatch.Equals(anc.labelText, n.labelText)
        && (anc.elementType != OTHER || ElementType(n.typeRaw) == OTHER))
    else
      ElementType(n.typeRaw) != OTHER
      && (if anc.identifier != "" then anc.identifier == n.identifier
          else anc.labelText != "" && anc.labelText == n.labelText)
  }

  /** The results the stack says give way to `n`. */
  function Marked(stack: seq<WrapperAncestor>, n: Node, innermostOnly: bool): set<nat> {
    set anc | anc in stack && GivesWay(anc, n, innermostOnly) :: anc.resultIndex
  }

  lemma MarkedNext(stack: seq<WrapperAncestor>, i: nat, n: Node, innermostOnly: bool)
    requires i < |stack|
    ensures Marked(stack[..i + 1], n, innermostOnly) ==
      Marked(stack[..i], n, innermostOnly)
      + (if GivesWay(stack[i], n, innermostOnly) then {stack[i].resultIndex} else {})
  {
    assert stack[..i + 1] == stack[..i] + [stack[i]];
  }

  /** The stack names exactly the matches the quadratic rule would drop for the new match. */
  lemma MarkedIsDropped(innermostOnly: bool, results: seq<Match>, m: Match)
    ensures DroppedSet(innermostOnly, results + [m]) ==
      DroppedSet(innermostOnly, results) + Marked(EntriesAbove(innermostOnly, results, m.path), m.node, innermostOnly)
  {
    var stack := EntriesAbove(innermostOnly, results, m.path);
    var marked := Marked(stack, m.node, innermostOnly);
    forall e | e in stack
      ensures e.resultIndex < |results|
      ensures GivesWay(e, m.node, innermostOnly) <==> Suppresses(innermostOnly, results[e.resultIndex].node, m.node)
    {
      EntriesMember(innermostOnly, results, m.path, e);
    }
    forall k: nat
      ensures k in DroppedSet(innermostOnly, results + [m]) <==>
        k in DroppedSet(innermostOnly, results) || k in marked
    {
      DroppedByNew(innermostOnly, results, m, k);
    }
  }

  // ---------------------------------------------------------------- the walk

  class Walker {
    const selector: Selector
    const counts: Option<map<string, nat>>
    var results: seq<Match>
    var matchedAncestors: seq<WrapperAncestor>
    var suppressed: set<nat>
    var keyboardTop: Option<real>
    var keyboardMatches: seq<nat>

    constructor (selector: Selector, counts: Option<map<string, nat>>)
      ensures this.selector == selector && this.counts == counts
      ensures results == [] && matchedAncestors == [] && suppressed == {} && Met() == NO_KEYBOARD
    {
      this.selector, this.counts := selector, counts;
      results, matchedAncestors, suppressed := [], [], {};
      keyboardTop, keyboardMatches := None, [];
    }

    /** Suppression is exact so far: the quadratic specification on the results found. */
    /** What has been met of keyboards so far. */
    ghost function Met(): Keyboard
      reads this
    {
      Keyboard(keyboardTop, keyboardMatches)
    }

    ghost predicate Exact()
      reads this
    {
      suppressed == DroppedSet(selector.matchesInnermostOnly, results)
    }

    /** The stack on reaching `path`: the matches above it that can give way. */
    ghost predicate StackIs(path: seq<nat>)
      reads this
    {
      matchedAncestors == EntriesAbove(selector.matchesInnermostOnly, results, path)
    }

    /** The walk is about to enter the node at `path`: nothing at or below it is recorded yet. */
    ghost predicate IsAt(path: seq<nat>)
      reads this
    {
      Exact() && StackIs(path) && forall m :: m in results ==> !(path <= m.path)
    }

    /** The walk is about to enter the children of the node at `path`: nothing below it is recorded yet. */
    ghost predicate IsBelow(path: seq<nat>)
      reads this
    {
      Exact() && IsStackBelow(matchedAncestors, results, path)
    }

    /** Nothing below `path` is in `found`, and `stack` is what its matches leave for every child. */
    ghost predicate IsStackBelow(stack: seq<WrapperAncestor>, found: seq<Match>, path: seq<nat>) {
      && (forall i: nat :: stack == EntriesAbove(selector.matchesInnermostOnly, found, path + [i]))
      && (forall m :: m in found ==> !(path < m.path))
    }

    /** Mark every match above that gives way to the match `m`, about to be recorded. */
    method Suppress(m: Match)
      requires Exact() && StackIs(m.path)
      modifies this`suppressed
      ensures suppressed == DroppedSet(selector.matchesInnermostOnly, results + [m])
    {
      var innermostOnly := selector.matchesInnermostOnly;
      var elType := ElementType(m.node.typeRaw);
      for i := 0 to |matchedAncestors|
        invariant suppressed == old(suppressed) + Marked(matchedAncestors[..i], m.node, innermostOnly)
      {
        var anc := matchedAncestors[i];
        MarkedNext(matchedAncestors, i, m.node, innermostOnly);
        var gives := false;
        if innermostOnly {
          gives := !(SameTarget(anc.frame, m.node.frame) && TextMatch.Equals(anc.labelText, m.node.labelText)
                     && (anc.elementType != OTHER || elType == OTHER));
        } else if elType != OTHER {
          gives := if anc.identifier != "" then anc.identifier == m.node.identifier
                   else anc.labelText != "" && anc.labelText == m.node.labelText;
        }
        if gives {
          suppressed := suppressed + {anc.resultIndex};
        }
      }
      assert matchedAncestors[..|matchedAncestors|] == matchedAncestors;
      MarkedIsDropped(innermostOnly, results, m);
    }

    /** Record a match, and push it on the stack if a match below it may suppress it. */
    method Record(m: Match) returns (pushed: bool)
      requires IsAt(m.path)
      modifies this`results, this`suppressed, this`matchedAncestors
      ensures Exact() && results == old(results) + [m]
      ensures pushed == Pushes(selector.matchesInnermostOnly, m.node)
      ensures matchedAncestors == old(matchedAncestors) + if pushed then [Entry(m.node, |old(results)|)] else []
      ensures forall i: nat :: StackIs(m.path + [i])
    {
      Suppress(m);
      results := results + [m];
      pushed := ElementType(m.node.typeRaw) == OTHER || selector.matchesInnermostOnly;
      if pushed {
        matchedAncestors := matchedAncestors + [Entry(m.node, |results| - 1)];
      }
      forall i: nat ensures StackIs(m.path + [i]) {
        EntriesPush(selector.matchesInnermostOnly, old(results), m, i);
      }
    }

    /** A node's own turn: recorded when the selector takes it. */
    method RecordIfSelected(t: Tree<Node>, path: seq<nat>, ctx: Context, tags: Option<Tags>) returns (pushed: bool)
      requires IsAt(path)
      modifies this`results, this`suppressed, this`matchedAncestors
      ensures IsBelow(path) && results == old(results) + MatchWith(selector, t, path, ctx, tags, keyboardMatches)
      ensures if pushed
        then |matchedAncestors| > 0 && matchedAncestors[..|matchedAncestors| - 1] == old(matchedAncestors)
        else matchedAncestors == old(matchedAncestors)
    {
      pushed := false;
      if Selects(selector, t.value, ctx) {
        var inAlert := ctx.inAlert || ElementType(t.value.typeRaw) == ALERT;
        pushed := Record(Match(path, t.value, ctx.inTabBar, inAlert, tags, keyboardMatches));
      } else {
        forall i: nat ensures StackIs(path + [i]) {
          EntriesDown(selector.matchesInnermostOnly, results, path, i);
        }
      }
    }

    /** Between two children the stack is again what it was before the first. */
    lemma Resume(start: seq<Match>, found: seq<Match>, path: seq<nat>, i: nat)
      requires results == start + found
      requires Exact() && IsStackBelow(matchedAncestors, start, path)
      requires forall m :: m in found ==> path < m.path && m.path[|path|] < i
      ensures IsAt(path + [i])
    {
      EntriesSkip(selector.matchesInnermostOnly, start, found, path + [i]);
      forall m | m in results
        ensures path + [i] <= m.path ==> path < m.path && m.path[|path|] == i
      {
        ChildPath(path, i, m.path);
      }
    }

    /** The children of `t`, in order, with the stack as `t` left it. */
    method FindBelow(t: Tree<Node>, path: seq<nat>, ctx: Context, row: Option<RowContext>)
      requires Usable(ScopesOf(row))
      requires IsBelow(path)
      modifies this, ScopesOf(row)
      ensures Usable(ScopesOf(row)) && View(row) == Passed(old(View(row)), PreOrderForest(t.children))
      ensures var walk := CollectForest(
          selector, counts, t.children, path, 0, ctx, old(View(row)), Entering(t.value, old(Met())));
        results == old(results) + walk.matches && Met() == Leaving(t.value, old(Met()), walk.keyboard)
      ensures Exact() && matchedAncestors == old(matchedAncestors)
      decreases t, 3
    {
      var outerKeyboardTop := keyboardTop;
      if ElementType(t.value.typeRaw) == WINDOW {
        keyboardTop := None;
      }
      FindEach(t, path, ctx, row);
      if ElementType(t.value.typeRaw) == WINDOW {
        keyboardTop := outerKeyboardTop;
      }
    }

    /** Part way through the children: `found` so far, and the rest of the walk completes `whole`. */
    ghost predicate MidWalk(
      rest: seq<Tree<Node>>, path: seq<nat>, i: nat, ctx: Context, row: Option<RowView>,
      start: seq<Match>, found: seq<Match>, whole: Walk)
      reads this
    {
      && results == start + found
      && (forall m :: m in found ==> path < m.path && m.path[|path|] < i)
      && var walk := CollectForest(selector, counts, rest, path, i, ctx, row, Met());
         found + walk.matches == whole.matches && walk.keyboard == whole.keyboard
    }

    method FindEach(t: Tree<Node>, path: seq<nat>, ctx: Context, row: Option<RowContext>)
      requires Usable(ScopesOf(row))
      requires IsBelow(path)
      modifies this, ScopesOf(row)
      ensures Usable(ScopesOf(row)) && View(row) == Passed(old(View(row)), PreOrderForest(t.children))
      ensures var walk := CollectForest(selector, counts, t.children, path, 0, ctx, old(View(row)), old(Met()));
        results == old(results) + walk.matches && Met() == walk.keyboard
      ensures Exact() && matchedAncestors == old(matchedAncestors)
      decreases t, 2
    {
      ghost var start, view := results, View(row);
      ghost var whole := CollectForest(selector, counts, t.children, path, 0, ctx, view, Met());
      BeforeChildren(t.children, path, ctx, row, whole);
      ghost var found := FindChildren(t, path, ctx, row, view, start, whole);
      PastChildren(t.children, path, ctx, row, view, start, found, whole);
    }

    /** What holds ahead of child `i`: the scopes have passed the children before it, and so has the walk. */
    ghost predicate AtChild(
      ts: seq<Tree<Node>>, i: nat, path: seq<nat>, ctx: Context, row: Option<RowContext>, view: Option<RowView>,
      start: seq<Match>, found: seq<Match>, whole: Walk)
      requires i <= |ts|
      reads this, ScopesOf(row)
    {
      && Usable(ScopesOf(row)) && Exact()
      && Passed(View(row), PreOrderForest(ts[i..])) == Passed(view, PreOrderForest(ts))
      && MidWalk(ts[i..], path, i, ctx, View(row), start, found, whole)
    }

    lemma BeforeChildren(ts: seq<Tree<Node>>, path: seq<nat>, ctx: Context, row: Option<RowContext>, whole: Walk)
      requires Usable(ScopesOf(row)) && Exact()
      requires whole == CollectForest(selector, counts, ts, path, 0, ctx, View(row), Met())
      ensures AtChild(ts, 0, path, ctx, row, View(row), results, [], whole)
    {
      assert ts[0..] == ts;
    }

    lemma PastChildren(
      ts: seq<Tree<Node>>, path: seq<nat>, ctx: Context, row: Option<RowContext>, view: Option<RowView>,
      start: seq<Match>, found: seq<Match>, whole: Walk)
      requires AtChild(ts, |ts|, path, ctx, row, view, start, found, whole)
      ensures Usable(ScopesOf(row)) && Exact() && View(row) == Passed(view, PreOrderForest(ts))
      ensures results == start + whole.matches && Met() == whole.keyboard
    {
      assert ts[|ts|..] == [];
      PassedNothing(View(row));
      assert found + [] == found;
    }

    /** The loop over the children. */
    method FindChildren(
      t: Tree<Node>, path: seq<nat>, ctx: Context, row: Option<RowContext>, ghost view: Option<RowView>,
      ghost start: seq<Match>, ghost whole: Walk)
      returns (ghost found: seq<Match>)
      requires AtChild(t.children, 0, path, ctx, row, view, start, [], whole)
      requires IsStackBelow(matchedAncestors, start, path)
      modifies this, ScopesOf(row)
      ensures matchedAncestors == old(matchedAncestors)
      ensures AtChild(t.children, |t.children|, path, ctx, row, view, start, found, whole)
      decreases t, 1
    {
      found := [];
      for i := 0 to |t.children|
        invariant matchedAncestors == old(matchedAncestors) && IsStackBelow(matchedAncestors, start, path)
        invariant AtChild(t.children, i, path, ctx, row, view, start, found, whole)
      {
        found := FindChild(t, i, path, ctx, row, view, start, found, whole);
      }
    }

    /** One child, and what it adds to the results. */
    method FindChild(
      t: Tree<Node>, i: nat, path: seq<nat>, ctx: Context, row: Option<RowContext>, ghost view: Option<RowView>,
      ghost start: seq<Match>, ghost found: seq<Match>, ghost whole: Walk)
      returns (ghost more: seq<Match>)
      requires i < |t.children| && AtChild(t.children, i, path, ctx, row, view, start, found, whole)
      requires IsStackBelow(matchedAncestors, start, path)
      modifies this, ScopesOf(row)
      ensures matchedAncestors == old(matchedAncestors)
      ensures AtChild(t.children, i + 1, path, ctx, row, view, start, more, whole)
      decreases t, 0
    {
      PassedChild(View(row), t.children, i);
      ghost var first := Collect(selector, counts, t.children[i], path + [i], ctx, View(row), Met()).matches;
      more := found + first;
      ForestStep(selector, counts, t.children[i..], path, i, ctx, View(row), Met(), found, whole);
      assert t.children[i..][0] == t.children[i] && t.children[i..][1..] == t.children[i + 1..];
      Associative(start, found, first);
      Resume(start, found, path, i);
      FindMatches(t.children[i], path + [i], ctx, row);
    }

    ghost function CollectBelow(
      t: Tree<Node>, path: seq<nat>, ctx: Context, row: Option<RowView>, keyboard: Keyboard): Walk
    {
      CollectForest(selector, counts, t.children, path, 0, ChildContext(t.value, ctx), ChildRow(t, ctx, counts, row),
                    Entering(t.value, keyboard))
    }

    lemma CollectIs(t: Tree<Node>, path: seq<nat>, ctx: Context, row: Option<RowView>, keyboard: Keyboard)
      requires !ExcludesSubtree(t.value, keyboard.top)
      ensures var below := CollectBelow(t, path, ctx, row, keyboard);
        Collect(selector, counts, t, path, ctx, row, keyboard) ==
        Walk(MatchHere(selector, counts, t, path, ctx, row, keyboard.matches) + below.matches,
             Leaving(t.value, keyboard, below.keyboard))
    {
    }

    /** `FindBelow`, seen from the row around a node that may have opened a row of its own. */
    method FindInside(
      t: Tree<Node>, path: seq<nat>, ctx: Context,
      row: Option<RowContext>, childRow: Option<RowContext>, ghost own: seq<Scope>)
      requires Usable(ScopesOf(childRow)) && ScopesOf(childRow) == ScopesOf(row) + own
      requires row.Some? ==> childRow.Some?
      requires IsBelow(path)
      modifies this, ScopesOf(childRow)
      ensures Usable(ScopesOf(row)) && View(row) == Passed(old(View(row)), PreOrderForest(t.children))
      ensures var walk := CollectForest(
          selector, counts, t.children, path, 0, ctx, old(View(childRow)), Entering(t.value, old(Met())));
        results == old(results) + walk.matches && Met() == Leaving(t.value, old(Met()), walk.keyboard)
      ensures Exact() && matchedAncestors == old(matchedAncestors)
      decreases t, 4
    {
      ghost var outer, inner := Views(ScopesOf(row)), Views(ScopesOf(childRow));
      OuterScopes(row, childRow, own);
      FindBelow(t, path, ctx, childRow);
      OuterScopes(row, childRow, own);
      if row.Some? {
        AdvancedPart(
          outer, inner, Views(ScopesOf(row)), Views(ScopesOf(childRow)), PreOrderForest(t.children));
      }
    }

    /** A node's own turn: numbered in its row, recorded if selected. */
    method BeginNode(t: Tree<Node>, path: seq<nat>, ctx: Context, row: Option<RowContext>)
      returns (childRow: Option<RowContext>, pushed: bool, ghost own: seq<Scope>)
      requires Usable(ScopesOf(row))
      requires IsAt(path)
      modifies this`results, this`suppressed, this`matchedAncestors, ScopesOf(row)
      ensures fresh(own) && Usable(ScopesOf(childRow)) && ScopesOf(childRow) == ScopesOf(row) + own
      ensures row.Some? ==> childRow.Some?
      ensures View(row) == Passed(old(View(row)), [t.value])
      ensures View(childRow) == ChildRow(t, ctx, counts, old(View(row)))
      ensures IsBelow(path)
      ensures results == old(results) + MatchHere(selector, counts, t, path, ctx, old(View(row)), keyboardMatches)
      ensures if pushed
        then |matchedAncestors| > 0 && matchedAncestors[..|matchedAncestors| - 1] == old(matchedAncestors)
        else matchedAncestors == old(matchedAncestors)
    {
      var tags;
      childRow, tags, own := EnterNode(t, ctx, counts, row);
      assert IsAt(path);
      ghost var passed, inner := View(row), View(childRow);
      pushed := RecordIfSelected(t, path, ctx, tags);
      assert View(row) == passed && View(childRow) == inner;
    }

    /** The node's children, and its entry off the stack again. */
    method FinishNode(
      t: Tree<Node>, path: seq<nat>, ctx: Context, row: Option<RowContext>, childRow: Option<RowContext>,
      pushed: bool, ghost own: seq<Scope>)
      requires Usable(ScopesOf(childRow)) && ScopesOf(childRow) == ScopesOf(row) + own
      requires row.Some? ==> childRow.Some?
      requires IsBelow(path)
      requires pushed ==> |matchedAncestors| > 0
      modifies this, ScopesOf(childRow)
      ensures Usable(ScopesOf(row)) && View(row) == Passed(old(View(row)), PreOrderForest(t.children))
      ensures var walk := CollectForest(
          selector, counts, t.children, path, 0, ctx, old(View(childRow)), Entering(t.value, old(Met())));
        results == old(results) + walk.matches && Met() == Leaving(t.value, old(Met()), walk.keyboard)
      ensures Exact()
      ensures matchedAncestors ==
        if pushed then old(matchedAncestors[..|matchedAncestors| - 1]) else old(matchedAncestors)
      decreases t, 5
    {
      FindInside(t, path, ctx, row, childRow, own);
      if pushed {
        matchedAncestors := matchedAncestors[..|matchedAncestors| - 1];
      }
    }

    /** The raw types of what the selector takes in a subtree that is left out. */
    method TypesOf(t: Tree<Node>, containerLabel: string) returns (types: seq<nat>)
      ensures types == MatchingTypes(selector, t, containerLabel)
      decreases t
    {
      var inner := ContainerLabel(t.value, containerLabel);
      types := if selector.test(t.value, false, false, containerLabel) then [t.value.typeRaw] else [];
      assert t.children[0..] == t.children;
      for i := 0 to |t.children|
        invariant types + MatchingTypesForest(selector, t.children[i..], inner)
          == MatchingTypes(selector, t, containerLabel)
      {
        var more := TypesOf(t.children[i], inner);
        assert t.children[i..][0] == t.children[i] && t.children[i..][1..] == t.children[i + 1..];
        Associative(types, more, MatchingTypesForest(selector, t.children[i + 1..], inner));
        types := types + more;
      }
      assert types + [] == types;
    }

    /** A subtree the walk leaves out is still counted in its row, and for the indices of later matches. */
    method SkipNode(t: Tree<Node>, path: seq<nat>, ctx: Context, row: Option<RowContext>)
      requires Usable(ScopesOf(row)) && ExcludesSubtree(t.value, keyboardTop)
      modifies this`keyboardTop, this`keyboardMatches, ScopesOf(row)
      ensures Usable(ScopesOf(row)) && View(row) == Passed(old(View(row)), PreOrder(t))
      ensures Collect(selector, counts, t, path, ctx, old(View(row)), old(Met())) == Walk([], Met())
    {
      ghost var left := LeftOut(selector, t, ctx, Met());
      CollectSkips(t, path, ctx, View(row), Met());
      if ElementType(t.value.typeRaw) == KEYBOARD {
        keyboardTop := Some(t.value.frame.MinY());
      }
      SkipRow(row, t);
      var types := TypesOf(t, ctx.containerLabel);
      keyboardMatches := keyboardMatches + types;
      assert Met() == left;
    }

    lemma CollectSkips(t: Tree<Node>, path: seq<nat>, ctx: Context, row: Option<RowView>, keyboard: Keyboard)
      requires ExcludesSubtree(t.value, keyboard.top)
      ensures Collect(selector, counts, t, path, ctx, row, keyboard) == Walk([], LeftOut(selector, t, ctx, keyboard))
    {
    }

    /** The subtree at `t`, standing at `path`. */
    method FindMatches(t: Tree<Node>, path: seq<nat>, ctx: Context, row: Option<RowContext>)
      requires Usable(ScopesOf(row))
      requires IsAt(path)
      modifies this, ScopesOf(row)
      ensures Usable(ScopesOf(row)) && View(row) == Passed(old(View(row)), PreOrder(t))
      ensures var walk := Collect(selector, counts, t, path, ctx, old(View(row)), old(Met()));
        results == old(results) + walk.matches && Met() == walk.keyboard
      ensures Exact() && matchedAncestors == old(matchedAncestors)
      decreases t, 7
    {
      if ExcludesSubtree(t.value, keyboardTop) {
        SkipNode(t, path, ctx, row);
      } else {
        FindNode(t, path, ctx, row);
      }
    }

    /** A node the walk enters, and all below it. */
    method FindNode(t: Tree<Node>, path: seq<nat>, ctx: Context, row: Option<RowContext>)
      requires Usable(ScopesOf(row)) && !ExcludesSubtree(t.value, keyboardTop)
      requires IsAt(path)
      modifies this, ScopesOf(row)
      ensures Usable(ScopesOf(row)) && View(row) == Passed(old(View(row)), PreOrder(t))
      ensures var walk := Collect(selector, counts, t, path, ctx, old(View(row)), old(Met()));
        results == old(results) + walk.matches && Met() == walk.keyboard
      ensures Exact() && matchedAncestors == old(matchedAncestors)
      decreases t, 6
    {
      ghost var keyboard := Met();
      NodeAndBelow(t, path, ctx, View(row), keyboard, results);
      var childRow, pushed, own := BeginNode(t, path, ctx, row);
      assert Met() == keyboard;
      FinishNode(t, path, ChildContext(t.value, ctx), row, childRow, pushed, own);
    }

    /** A node's own match and the walk below it make up the walk from it, in the results and for the row. */
    lemma NodeAndBelow(
      t: Tree<Node>, path: seq<nat>, ctx: Context, row: Option<RowView>, keyboard: Keyboard, start: seq<Match>)
      requires !ExcludesSubtree(t.value, keyboard.top)
      ensures var below := CollectBelow(t, path, ctx, row, keyboard);
        var walk := Collect(selector, counts, t, path, ctx, row, keyboard);
        (start + MatchHere(selector, counts, t, path, ctx, row, keyboard.matches)) + below.matches
          == start + walk.matches
        && walk.keyboard == Leaving(t.value, keyboard, below.keyboard)
      ensures Passed(Passed(row, [t.value]), PreOrderForest(t.children)) == Passed(row, PreOrder(t))
    {
      CollectIs(t, path, ctx, row, keyboard);
      PassedTwice(row, [t.value], PreOrderForest(t.children));
      Associative(
        start, MatchHere(selector, counts, t, path, ctx, row, keyboard.matches),
        CollectBelow(t, path, ctx, row, keyboard).matches);
    }
  }

  /** Every match in the tree, in pre-order, before suppression. */
  function AllMatches(selector: Selector, counts: Option<map<string, nat>>, root: Tree<Node>): seq<Match> {
    Collect(selector, counts, root, [], Context(false, false, false, "", false), None, NO_KEYBOARD).matches
  }

  /** Every match less those that give way to a match below them. */
  ghost function Found(selector: Selector, counts: Option<map<string, nat>>, root: Tree<Node>): seq<Match> {
    var found := AllMatches(selector, counts, root);
    Kept(found, DroppedSet(selector.matchesInnermostOnly, found))
  }

  /** The walk of `findElements`: what it finds, less what a match below stands in for. */
  method FindElements(selector: Selector, root: Tree<Node>, register: bool)
    returns (matches: seq<Match>)
    ensures !register ==> matches == Found(selector, None, root)
    ensures register ==> exists counts :: IsCellCounts(counts, root) && matches == Found(selector, Some(counts), root)
  {
    var rowCounts: Option<map<string, nat>> := None;
    if register {
      var c := CellCounts(root);
      rowCounts := Some(c);
    }
    var walker := new Walker(selector, rowCounts);
    walker.FindMatches(root, [], Context(false, false, false, "", false), None);
    assert walker.results == AllMatches(selector, rowCounts, root);
    matches := Compact(walker.results, walker.suppressed);
    assert matches == Found(selector, rowCounts, root);
  }

  /** The results less the suppressed ones. */
  method Compact(results: seq<Match>, suppressed: set<nat>) returns (kept: seq<Match>)
    ensures kept == Kept(results, suppressed)
  {
    if suppressed == {} {
      KeptAll(results);
      return results;
    }
    kept := [];
    for i := 0 to |results|
      invariant kept == Kept(results[..i], suppressed)
    {
      assert results[..i + 1][..i] == results[..i];
      if i !in suppressed {
        kept := kept + [results[i]];
      }
    }
    assert results[..|results|] == results;
  }

  lemma {:induction false} KeptAll(results: seq<Match>)
    ensures Kept(results, {}) == results
  {
    if results != [] {
      KeptAll(results[..|results| - 1]);
    }
  }
}
