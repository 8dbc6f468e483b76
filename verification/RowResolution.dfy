/**
 Finding a match again through its row: the cell that contains the anchor, then the index-th of its
 descendants with the match's type, label and identifier. It is the match itself, on every tree.
 */
module RowResolution {
  import opened Wrappers
  import opened Sequences
  import opened Trees
  import opened ElementTypes
  import Geometry
  import opened Snapshot
  import opened RowAnchor
  import opened RowBinding
  import opened MatchWalk
  import opened MatchWalker

  // ---------------------------------------------------------------- the live queries

  function CellContaining(p: AnchorPredicate): Position<Node> -> bool {
    (c: Position<Node>) => IsCell(c.tree.value) && exists n :: n in PreOrderForest(c.tree.children) && Satisfies(n, p)
  }

  /** `app.descendants(matching: .cell).containing(predicate)`: the root is not among its results. */
  function Rows(root: Tree<Node>, p: AnchorPredicate): seq<Position<Node>> {
    Filter(Descendants(Position([], root)), CellContaining(p))
  }

  function AtQuery(n: Node): Position<Node> -> bool {
    (p: Position<Node>) => RowQuery(n)(p.tree.value)
  }

  /** The query inside the row for a node like `n`. */
  function InRow(row: Position<Node>, n: Node): seq<Position<Node>> {
    Filter(Descendants(row), AtQuery(n))
  }

  /** Where the element of a match with these tags is found, if anywhere. */
  function Resolve(root: Tree<Node>, tags: Tags, n: Node): Option<seq<nat>> {
    if tags.anchor.None? || ParseAnchor(tags.anchor.value).None? then None
    else
      var rows := Rows(root, ParseAnchor(tags.anchor.value).value);
      if rows == [] then None
      else if tags.index.None? then Some(rows[0].path)
      else
        var results := InRow(rows[0], n);
        if tags.index.value < |results| then Some(results[tags.index.value].path) else None
  }

  // ---------------------------------------------------------------- what the tags record

  predicate AnchoredBy(c: Position<Node>, counts: map<string, nat>, anchor: string) {
    IsCell(c.tree.value) && Anchor(c.tree, counts) == Some(anchor)
  }

  /** `x` stands in row `c` after the nodes `before`. */
  ghost predicate StandsIn(
    c: Position<Node>, before: seq<Position<Node>>, x: Position<Node>, after: seq<Position<Node>>)
  {
    Descendants(c) == before + [x] + after
  }

  /** What the tags of a match with an anchor say, of the row `c` and the match's place in it. */
  ghost predicate TagsMean(
    root: Tree<Node>, counts: map<string, nat>, m: Match,
    c: Position<Node>, before: seq<Position<Node>>, x: Position<Node>, after: seq<Position<Node>>)
    requires m.tags.Some? && m.tags.value.anchor.Some?
  {
    var tags := m.tags.value;
    && c in Positions(root, []) && AnchoredBy(c, counts, tags.anchor.value)
    && x.path == m.path && x.tree.value == m.node
    && (tags.index.None? ==> x == c)
    && (tags.index.Some? ==>
          StandsIn(c, before, x, after)
          && tags.index.value == Count(Values(before), SameCounter(m.node, IsTyped(m.node.typeRaw)))
          && tags.nested == HoldsRows(c.tree))
  }

  predicate IsCellAt(p: Position<Node>) {
    IsCell(p.tree.value)
  }

  /** The cells that have an anchor. */
  function AnchoredAt(counts: map<string, nat>): Position<Node> -> bool {
    (p: Position<Node>) => IsCell(p.tree.value) && Anchor(p.tree, counts).Some?
  }

  /** A node that passes `test` is above `path`. */
  ghost predicate Under(root: Tree<Node>, test: Position<Node> -> bool, path: seq<nat>) {
    exists c :: c in Positions(root, []) && test(c) && c.path < path
  }

  /** The node at `path` is in an anchored row, or is one. */
  ghost predicate IsInAnchoredRow(root: Tree<Node>, counts: map<string, nat>, path: seq<nat>) {
    exists c :: c in Positions(root, []) && AnchoredAt(counts)(c) && c.path <= path
  }

  /**
   The row the walk carries: some row iff it is inside a cell, and a scope, one at most, iff that cell or
   one around it is anchored. The scope is that of the anchored cell `c`, which has seen the cell's nodes in
   `before` and has `rest` to come.
   */
  ghost predicate RowIs(
    root: Tree<Node>, counts: map<string, nat>, row: Option<RowView>, inside: bool, anchored: bool,
    c: Position<Node>, before: seq<Position<Node>>, rest: seq<Position<Node>>)
  {
    && (row.Some? <==> inside)
    && (row.Some? && row.value.scopes != [] <==> anchored)
    && (row.Some? ==> |row.value.scopes| <= 1)
    && (row.Some? && row.value.scopes != [] ==>
          var s := row.value.scopes[0];
          c in Positions(root, []) && AnchoredBy(c, counts, s.anchor)
          && Descendants(c) == before + rest && s.seen == Values(before)
          && s.holdsRows == HoldsRows(c.tree)
          && (!row.value.innermostAnchored ==> HoldsRows(c.tree)))
  }

  predicate HasAnchor(m: Match) {
    m.tags.Some? && m.tags.value.anchor.Some?
  }

  /** A match carries an anchor iff it is in an anchored row, and then its tags mean what they say. */
  ghost predicate Tagged(root: Tree<Node>, counts: map<string, nat>, m: Match) {
    (HasAnchor(m) <==> IsInAnchoredRow(root, counts, m.path))
    && (HasAnchor(m) ==> exists c, before, x, after :: TagsMean(root, counts, m, c, before, x, after))
  }

  /** The row the walk carries on reaching `path`. */
  ghost predicate RowAt(
    root: Tree<Node>, counts: map<string, nat>, row: Option<RowView>, path: seq<nat>,
    c: Position<Node>, before: seq<Position<Node>>, rest: seq<Position<Node>>)
  {
    RowIs(root, counts, row, Under(root, IsCellAt, path), Under(root, AnchoredAt(counts), path), c, before, rest)
  }

  // ---------------------------------------------------------------- the walk keeps it

  lemma BelowInTree(root: Tree<Node>, t: Tree<Node>, path: seq<nat>, p: Position<Node>)
    requires Position(path, t) in Positions(root, []) && p in Positions(t, path)
    ensures p in Positions(root, [])
  {
    var i :| 0 <= i < |Positions(root, [])| && Positions(root, [])[i] == Position(path, t);
    SubtreeStretch(root, [], i);
    var j :| 0 <= j < |Positions(t, path)| && Positions(t, path)[j] == p;
    PositionsValues(t, path);
    assert Positions(root, [])[i..i + Size(t)][j] == Positions(root, [])[i + j];
  }

  lemma UnderChild(root: Tree<Node>, t: Tree<Node>, path: seq<nat>, test: Position<Node> -> bool, i: nat)
    requires Position(path, t) in Positions(root, [])
    ensures Under(root, test, path + [i]) <==> Under(root, test, path) || test(Position(path, t))
  {
    assert path < path + [i];
    if c :| c in Positions(root, []) && test(c) && c.path < path {
      assert c.path < path + [i];
    }
    if c :| c in Positions(root, []) && test(c) && c.path < path + [i] {
      assert (path + [i])[..|path|] == path;
      assert c.path <= path;
      if c.path == path {
        SamePlace(root, c, Position(path, t));
      }
    }
  }

  lemma SamePlace(root: Tree<Node>, p: Position<Node>, q: Position<Node>)
    requires p in Positions(root, []) && q in Positions(root, []) && p.path == q.path
    ensures p == q
  {
    var ps := Positions(root, []);
    var i :| 0 <= i < |ps| && ps[i] == p;
    var j :| 0 <= j < |ps| && ps[j] == q;
    if i < j {
      PathsDistinct(root, [], i, j);
    } else if j < i {
      PathsDistinct(root, [], j, i);
    }
  }

  /** In an anchored row is below one, or at one. */
  lemma AtOrUnder(root: Tree<Node>, counts: map<string, nat>, t: Tree<Node>, path: seq<nat>)
    requires Position(path, t) in Positions(root, [])
    ensures IsInAnchoredRow(root, counts, path) <==>
      Under(root, AnchoredAt(counts), path) || AnchoredAt(counts)(Position(path, t))
  {
    if c :| c in Positions(root, []) && AnchoredAt(counts)(c) && c.path <= path {
      if c.path == path {
        SamePlace(root, c, Position(path, t));
      }
    }
  }

  /** A cell inside a cell opens no scope. */
  lemma NestedOpensNone(root: Tree<Node>, counts: map<string, nat>, t: Tree<Node>, path: seq<nat>)
    requires IsCellCounts(counts, root) && Position(path, t) in Positions(root, [])
    requires IsCell(t.value) && Under(root, IsCellAt, path)
    ensures Anchor(t, counts).None?
  {
    var ps := Positions(root, []);
    var c :| c in ps && IsCell(c.tree.value) && c.path < path;
    var i :| 0 <= i < |ps| && ps[i] == c;
    var j :| 0 <= j < |ps| && ps[j] == Position(path, t);
    AnchoredIsOutermost(root, counts, i, j);
  }

  lemma RowHolds(c: Position<Node>, before: seq<Position<Node>>, x: Position<Node>, after: seq<Position<Node>>)
    requires Descendants(c) == before + ([x] + after) && IsCell(x.tree.value)
    ensures HoldsRows(c.tree)
  {
    ForestValues(c.tree.children, c.path, 0);
    assert Values(Descendants(c))[|before|] == x.tree.value;
    assert x.tree.value in PreOrderForest(c.tree.children);
  }

  lemma {:induction false} CollectTagged(
    selector: Selector, counts: map<string, nat>, root: Tree<Node>,
    t: Tree<Node>, path: seq<nat>, ctx: Context, row: Option<RowView>, keyboard: Keyboard,
    c: Position<Node>, before: seq<Position<Node>>, after: seq<Position<Node>>)
    requires IsCellCounts(counts, root) && Position(path, t) in Positions(root, [])
    requires RowAt(root, counts, row, path, c, before, Positions(t, path) + after)
    ensures forall m :: m in Collect(selector, Some(counts), t, path, ctx, row, keyboard).matches ==>
      Tagged(root, counts, m)
    decreases t, 1
  {
    if !ExcludesSubtree(t.value, keyboard.top) {
      HereTagged(selector, counts, root, t, path, ctx, row, keyboard.matches, c, before, after);
      var c', before', after' := ChildRowIs(counts, root, t, path, ctx, row, c, before, after);
      var inside := Under(root, IsCellAt, path) || IsCell(t.value);
      var anchored := Under(root, AnchoredAt(counts), path) || AnchoredAt(counts)(Position(path, t));
      forall i: nat
        ensures Under(root, IsCellAt, path + [i]) <==> inside
        ensures Under(root, AnchoredAt(counts), path + [i]) <==> anchored
      {
        UnderChild(root, t, path, IsCellAt, i);
        UnderChild(root, t, path, AnchoredAt(counts), i);
      }
      forall p | p in PositionsForest(t.children, path, 0) ensures p in Positions(root, []) {
        BelowInTree(root, t, path, p);
      }
      ForestTagged(
        selector, counts, root, t.children, path, 0, ChildContext(t.value, ctx), ChildRow(t, ctx, Some(counts), row),
        Entering(t.value, keyboard),
        inside, anchored, c', before', after');
    }
  }

  lemma {:induction false} ForestTagged(
    selector: Selector, counts: map<string, nat>, root: Tree<Node>,
    ts: seq<Tree<Node>>, path: seq<nat>, k: nat, ctx: Context, row: Option<RowView>, keyboard: Keyboard,
    inside: bool, anchored: bool, c: Position<Node>, before: seq<Position<Node>>, after: seq<Position<Node>>)
    requires IsCellCounts(counts, root)
    requires forall p :: p in PositionsForest(ts, path, k) ==> p in Positions(root, [])
    requires forall i: nat :: Under(root, IsCellAt, path + [i]) <==> inside
    requires forall i: nat :: Under(root, AnchoredAt(counts), path + [i]) <==> anchored
    requires RowIs(root, counts, row, inside, anchored, c, before, PositionsForest(ts, path, k) + after)
    ensures forall m :: m in CollectForest(selector, Some(counts), ts, path, k, ctx, row, keyboard).matches ==>
      Tagged(root, counts, m)
    decreases ts, 0
  {
    if ts != [] {
      var first := Positions(ts[0], path + [k]);
      var rest := PositionsForest(ts[1..], path, k + 1);
      Associative(first, rest, after);
      Associative(before, first, rest + after);
      assert first[0] in PositionsForest(ts, path, k);
      CollectTagged(selector, counts, root, ts[0], path + [k], ctx, row, keyboard, c, before, rest + after);
      PositionsValues(ts[0], path + [k]);
      ValuesAppend(before, first);
      ForestTagged(
        selector, counts, root, ts[1..], path, k + 1, ctx, Passed(row, PreOrder(ts[0])),
        Collect(selector, Some(counts), ts[0], path + [k], ctx, row, keyboard).keyboard,
        inside, anchored, c, before + first, after);
    }
  }

  /** The row of a node's children: the node's own when it is an outermost anchored cell, else the one around it. */
  lemma ChildRowIs(
    counts: map<string, nat>, root: Tree<Node>, t: Tree<Node>, path: seq<nat>, ctx: Context, row: Option<RowView>,
    c: Position<Node>, before: seq<Position<Node>>, after: seq<Position<Node>>)
    returns (c': Position<Node>, before': seq<Position<Node>>, after': seq<Position<Node>>)
    requires IsCellCounts(counts, root) && Position(path, t) in Positions(root, [])
    requires RowAt(root, counts, row, path, c, before, Positions(t, path) + after)
    ensures RowIs(
      root, counts, ChildRow(t, ctx, Some(counts), row), Under(root, IsCellAt, path) || IsCell(t.value),
      Under(root, AnchoredAt(counts), path) || AnchoredAt(counts)(Position(path, t)),
      c', before', PositionsForest(t.children, path, 0) + after')
  {
    var x, kids := Position(path, t), PositionsForest(t.children, path, 0);
    Associative([x], kids, after);
    Associative(before, [x], kids + after);
    ValuesAppend(before, [x]);
    c', before', after' := c, before + [x], after;
    if IsCell(t.value) {
      if row.Some? {
        NestedOpensNone(root, counts, t, path);
        if row.value.scopes != [] {
          RowHolds(c, before, x, kids + after);
        }
      } else if Anchor(t, counts).Some? {
        c', before', after' := x, [], [];
        assert [] + (kids + []) == kids;
      }
    }
  }

  lemma HereTagged(
    selector: Selector, counts: map<string, nat>, root: Tree<Node>,
    t: Tree<Node>, path: seq<nat>, ctx: Context, row: Option<RowView>, types: seq<nat>,
    c: Position<Node>, before: seq<Position<Node>>, after: seq<Position<Node>>)
    requires IsCellCounts(counts, root) && Position(path, t) in Positions(root, [])
    requires RowAt(root, counts, row, path, c, before, Positions(t, path) + after)
    ensures forall m :: m in MatchHere(selector, Some(counts), t, path, ctx, row, types) ==> Tagged(root, counts, m)
  {
    var x, kids := Position(path, t), PositionsForest(t.children, path, 0);
    AtOrUnder(root, counts, t, path);
    if Selects(selector, t.value, ctx) {
      var m := MatchHere(selector, Some(counts), t, path, ctx, row, types)[0];
      if IsCell(t.value) && Anchor(t, counts).Some? {
        assert TagsMean(root, counts, m, x, [], x, []);
      } else if EnclosingOf(row).Some? {
        Associative([x], kids, after);
        Associative(before, [x], kids + after);
        InsideTagged(counts, root, t, ctx, row, c, before, x, kids + after, m);
      }
    }
  }

  lemma InsideTagged(
    counts: map<string, nat>, root: Tree<Node>, t: Tree<Node>, ctx: Context, row: Option<RowView>,
    c: Position<Node>, before: seq<Position<Node>>, x: Position<Node>, after: seq<Position<Node>>, m: Match)
    requires RowIs(root, counts, row, true, true, c, before, [x] + after)
    requires IsInAnchoredRow(root, counts, m.path)
    requires before + ([x] + after) == before + [x] + after
    requires x.tree == t && x.path == m.path && m.node == t.value
    requires !IsCell(t.value) || Anchor(t, counts).None?
    requires m.tags == RowTags(t, ctx, Some(counts), row)
    ensures Tagged(root, counts, m)
  {
    if IsCell(t.value) {
      RowHolds(c, before, x, after);
    }
    RowTagsInside(counts, t, ctx, row);
    assert TagsMean(root, counts, m, c, before, x, after);
  }

  /** The tags of a node in an anchored row, which is no anchored row itself. */
  lemma RowTagsInside(counts: map<string, nat>, t: Tree<Node>, ctx: Context, row: Option<RowView>)
    requires row.Some? && |row.value.scopes| == 1 && (!IsCell(t.value) || Anchor(t, counts).None?)
    ensures var s, tags := row.value.scopes[0], RowTags(t, ctx, Some(counts), row);
      tags.Some? && tags.value.anchor == Some(s.anchor)
      && tags.value.index == Some(Count(s.seen, SameCounter(t.value, IsTyped(t.value.typeRaw))))
      && tags.value.nested == (IsCell(t.value) || !row.value.innermostAnchored || s.holdsRows)
  {
  }

  // ---------------------------------------------------------------- so the match is found again

  /** The tags of every match of the walk mean what they say. */
  lemma MatchesTagged(selector: Selector, root: Tree<Node>, counts: map<string, nat>, m: Match)
    requires IsCellCounts(counts, root) && m in AllMatches(selector, Some(counts), root)
    ensures Tagged(root, counts, m)
  {
    var c := Position([], root);
    assert !Under(root, IsCellAt, []) && !Under(root, AnchoredAt(counts), []);
    CollectTagged(
      selector, counts, root, root, [], Context(false, false, false, "", false), None, NO_KEYBOARD, c, [], []);
  }

  /** `m` stands at `x` in its anchored row `c`, after the nodes `before`. */
  ghost predicate InAnchoredRow(
    root: Tree<Node>, counts: map<string, nat>, m: Match,
    c: Position<Node>, before: seq<Position<Node>>, x: Position<Node>, after: seq<Position<Node>>)
    requires m.tags.Some? && m.tags.value.anchor.Some?
  {
    c in Positions(root, []) && AnchoredBy(c, counts, m.tags.value.anchor.value)
    && StandsIn(c, before, x, after) && x.path == m.path && x.tree.value == m.node
  }

  /** An earlier node of the anchored row is counted with `m` though the query for `m` does not return it. */
  ghost predicate Misnumbered(root: Tree<Node>, counts: map<string, nat>, m: Match)
    requires m.tags.Some? && m.tags.value.anchor.Some?
  {
    exists c, before, x, after, n ::
      InAnchoredRow(root, counts, m, c, before, x, after) && n in Values(before) && Clash(m.node, n)
  }

  /** Holding an anchor is containing a node its predicate finds. */
  lemma ContainsIsHolds(anchor: string, offering: Node, cell: Tree<Node>)
    requires anchor in Keys(offering) && ParseAnchor(anchor).Some?
    ensures Holds(cell, anchor) <==>
      exists n :: n in PreOrderForest(cell.children) && Satisfies(n, ParseAnchor(anchor).value)
  {
    forall n ensures anchor in Keys(n) <==> Satisfies(n, ParseAnchor(anchor).value) {
      OffersIffSatisfies(n, offering, anchor);
    }
  }

  /** The anchor's query returns the anchored cell alone, unless that cell is the root. */
  lemma AnchorFindsRow(root: Tree<Node>, counts: map<string, nat>, c: Position<Node>, anchor: string)
    requires IsCellCounts(counts, root) && c in Positions(root, []) && AnchoredBy(c, counts, anchor)
    ensures ParseAnchor(anchor).Some?
    ensures Rows(root, ParseAnchor(anchor).value) == if c.path == [] then [] else [c]
  {
    AnchorExists(c.tree, counts);
    var offering :| offering in PreOrderForest(c.tree.children) && anchor in Keys(offering);
    OffersIffSatisfies(offering, offering, anchor);
    var p := ParseAnchor(anchor).value;
    forall q | q in Positions(root, []) ensures CellContaining(p)(q) == CellHolding(anchor)(q) {
      ContainsIsHolds(anchor, offering, q.tree);
    }
    CountAgree(Positions(root, []), CellContaining(p), CellHolding(anchor));
    OnlyBelowRoot(root, c, CellContaining(p));
  }

  /** A query below the root for something found once in the tree. */
  lemma OnlyBelowRoot(root: Tree<Node>, c: Position<Node>, p: Position<Node> -> bool)
    requires c in Positions(root, []) && p(c) && Count(Positions(root, []), p) == 1
    ensures Filter(Descendants(Position([], root)), p) == if c.path == [] then [] else [c]
  {
    var top, down := Position([], root), Descendants(Position([], root));
    assert Positions(root, []) == [top] + down;
    CountAppend([top], down, p);
    assert Count([top], p) == if p(top) then 1 else 0;
    FilterLength(down, p);
    PathsBelow(root, [], c);
    if c.path != [] {
      assert c in down;
      FilterMember(down, p, c);
    }
  }

  lemma {:induction false} CountValues(ps: seq<Position<Node>>, n: Node)
    ensures Count(ps, AtQuery(n)) == Count(Values(ps), RowQuery(n))
  {
    if ps != [] {
      CountValues(ps[1..], n);
      assert Values(ps)[1..] == Values(ps[1..]);
    }
  }

  /** In a row, an index into the query's results gives `x` exactly when it counts the results before `x`. */
  lemma IndexPicks(
    c: Position<Node>, before: seq<Position<Node>>, x: Position<Node>, after: seq<Position<Node>>, index: nat)
    requires StandsIn(c, before, x, after) && Count(Values(before), RowQuery(x.tree.value)) <= index
    ensures var results := InRow(c, x.tree.value);
      (index < |results| && results[index].path == x.path)
      <==> index == Count(Values(before), RowQuery(x.tree.value))
  {
    var q := AtQuery(x.tree.value);
    var place := Count(before, q);
    CountValues(before, x.tree.value);
    FilterPicks(before, x, after, q);
    FilterAppend(before + [x], after, q);
    FilterAppend(before, [x], q);
    FilterLength(before, q);
    var results := InRow(c, x.tree.value);
    assert results == Filter(before, q) + [x] + Filter(after, q);
    if place < index < |results| {
      var y := results[index];
      assert y == Filter(after, q)[index - place - 1];
      FilterMember(after, q, y);
      var j :| 0 <= j < |after| && after[j] == y;
      assert Descendants(c)[|before|] == x && Descendants(c)[|before| + 1 + j] == y;
      ForestPathsDistinct(c.tree.children, c.path, 0, |before|, |before| + 1 + j);
    }
  }

  /** A place in a row has one stretch of nodes before it. */
  lemma SameBefore(
    c: Position<Node>, before: seq<Position<Node>>, x: Position<Node>, after: seq<Position<Node>>,
    before': seq<Position<Node>>, x': Position<Node>, after': seq<Position<Node>>)
    requires StandsIn(c, before, x, after) && StandsIn(c, before', x', after') && x.path == x'.path
    ensures before == before'
  {
    var d := Descendants(c);
    assert d[|before|] == x && d[|before'|] == x';
    if |before| < |before'| {
      ForestPathsDistinct(c.tree.children, c.path, 0, |before|, |before'|);
    } else if |before'| < |before| {
      ForestPathsDistinct(c.tree.children, c.path, 0, |before'|, |before|);
    }
    assert before == d[..|before|] && before' == d[..|before'|];
  }

  /** Only one cell has a given anchor. */
  lemma SameRow(root: Tree<Node>, counts: map<string, nat>, anchor: string, c: Position<Node>, c': Position<Node>)
    requires IsCellCounts(counts, root) && c in Positions(root, []) && c' in Positions(root, [])
    requires AnchoredBy(c, counts, anchor) && AnchoredBy(c', counts, anchor)
    ensures c == c'
  {
    var ps := Positions(root, []);
    var i :| 0 <= i < |ps| && ps[i] == c;
    var j :| 0 <= j < |ps| && ps[j] == c';
    AnchorExists(c'.tree, counts);
    AnchorNamesOneCell(root, counts, i, j);
  }

  lemma MisnumberedHere(
    root: Tree<Node>, counts: map<string, nat>, m: Match,
    c: Position<Node>, before: seq<Position<Node>>, x: Position<Node>, after: seq<Position<Node>>)
    requires IsCellCounts(counts, root) && m.tags.Some? && m.tags.value.anchor.Some?
    requires InAnchoredRow(root, counts, m, c, before, x, after)
    ensures Misnumbered(root, counts, m) <==> exists n :: n in Values(before) && Clash(m.node, n)
  {
    if c', before', x', after', n :|
      InAnchoredRow(root, counts, m, c', before', x', after') && n in Values(before') && Clash(m.node, n)
    {
      SameRow(root, counts, m.tags.value.anchor.value, c, c');
      SameBefore(c, before, x, after, before', x', after');
    }
  }

  /** The anchored cell is the root exactly when the root is a cell: a cell inside it has no anchor. */
  lemma AnchoredRoot(root: Tree<Node>, counts: map<string, nat>, c: Position<Node>, anchor: string)
    requires IsCellCounts(counts, root) && c in Positions(root, []) && AnchoredBy(c, counts, anchor)
    ensures c.path == [] <==> IsCell(root.value)
  {
    PathsBelow(root, [], c);
    if c.path != [] && IsCell(root.value) {
      var ps := Positions(root, []);
      var j :| 0 <= j < |ps| && ps[j] == c;
      assert ps[0].path < ps[j].path;
      AnchoredIsOutermost(root, counts, 0, j);
    }
  }

  /**
   Every match tagged with a row is found again at its own place, for every tree and selector, exactly
   when the tree's root is not itself a cell and no earlier node of the row is miscounted with it.
   */
  lemma RowResolutionExact(selector: Selector, root: Tree<Node>, counts: map<string, nat>, m: Match)
    requires IsCellCounts(counts, root) && m in AllMatches(selector, Some(counts), root) && HasAnchor(m)
    ensures Resolve(root, m.tags.value, m.node) == Some(m.path) <==>
      !IsCell(root.value) && !(m.tags.value.index.Some? && Misnumbered(root, counts, m))
  {
    MatchesTagged(selector, root, counts, m);
    var c, before, x, after :| TagsMean(root, counts, m, c, before, x, after);
    ResolvesHere(root, counts, m, c, before, x, after);
  }

  lemma ResolvesHere(
    root: Tree<Node>, counts: map<string, nat>, m: Match,
    c: Position<Node>, before: seq<Position<Node>>, x: Position<Node>, after: seq<Position<Node>>)
    requires IsCellCounts(counts, root) && m.tags.Some? && m.tags.value.anchor.Some?
    requires TagsMean(root, counts, m, c, before, x, after)
    ensures Resolve(root, m.tags.value, m.node) == Some(m.path) <==>
      !IsCell(root.value) && !(m.tags.value.index.Some? && Misnumbered(root, counts, m))
  {
    var tags := m.tags.value;
    AnchorFindsRow(root, counts, c, tags.anchor.value);
    AnchoredRoot(root, counts, c, tags.anchor.value);
    if tags.index.Some? {
      MisnumberedHere(root, counts, m, c, before, x, after);
      NumberIsIndex(Values(before), m.node);
      IndexPicks(c, before, x, after, tags.index.value);
    }
  }

  /** No label of the tree holds U+0001 and the root is no cell: then every tagged match is found again. */
  lemma RowResolutionPlainLabels(selector: Selector, root: Tree<Node>, counts: map<string, nat>, m: Match)
    requires IsCellCounts(counts, root) && m in AllMatches(selector, Some(counts), root) && HasAnchor(m)
    requires !IsCell(root.value)
    requires forall p :: p in Positions(root, []) ==> SEPARATOR !in p.tree.value.labelText
    ensures Resolve(root, m.tags.value, m.node) == Some(m.path)
  {
    RowResolutionExact(selector, root, counts, m);
    if Misnumbered(root, counts, m) {
      var c, before, x, after, n :|
        InAnchoredRow(root, counts, m, c, before, x, after) && n in Values(before) && Clash(m.node, n);
      ClashNeedsSeparator(m.node, n);
      RowLabelsPlain(root, c, before, x, after, n);
    }
  }

  lemma RowLabelsPlain(
    root: Tree<Node>, c: Position<Node>,
    before: seq<Position<Node>>, x: Position<Node>, after: seq<Position<Node>>, n: Node)
    requires c in Positions(root, []) && StandsIn(c, before, x, after) && n in Values(before)
    requires forall p :: p in Positions(root, []) ==> SEPARATOR !in p.tree.value.labelText
    ensures SEPARATOR !in n.labelText && SEPARATOR !in x.tree.value.labelText
  {
    var k :| 0 <= k < |before| && Values(before)[k] == n;
    assert Descendants(c)[k] == before[k] && Descendants(c)[|before|] == x;
    assert before[k] in Positions(c.tree, c.path) && x in Positions(c.tree, c.path);
    BelowInTree(root, c.tree, c.path, before[k]);
    BelowInTree(root, c.tree, c.path, x);
  }

  /** The root of a snapshot is an application, which is no cell: only miscounting can lose a tagged match. */
  lemma RowResolutionInSnapshot(selector: Selector, root: Tree<Node>, counts: map<string, nat>, m: Match)
    requires IsCellCounts(counts, root) && m in AllMatches(selector, Some(counts), root) && HasAnchor(m)
    requires ElementType(root.value.typeRaw) == APPLICATION
    ensures Resolve(root, m.tags.value, m.node) == Some(m.path) <==>
      !(m.tags.value.index.Some? && Misnumbered(root, counts, m))
  {
    RowResolutionExact(selector, root, counts, m);
  }

  // ---------------------------------------------------------------- where it fails

  /** A node the walk never leaves out with all below it while no keyboard has been met. */
  predicate IsOrdinary(n: Node) {
    ElementType(n.typeRaw) != KEYBOARD && n.identifier != INPUT_ASSISTANT
  }

  lemma {:induction false} NoKeyboard(
    selector: Selector, counts: map<string, nat>, t: Tree<Node>, path: seq<nat>, ctx: Context, row: Option<RowView>)
    requires forall q :: q in Positions(t, path) ==> IsOrdinary(q.tree.value)
    ensures Collect(selector, Some(counts), t, path, ctx, row, NO_KEYBOARD).keyboard == NO_KEYBOARD
    decreases t, 1
  {
    assert Positions(t, path)[0] == Position(path, t);
    NoKeyboards(selector, counts, t.children, path, 0, ChildContext(t.value, ctx), ChildRow(t, ctx, Some(counts), row));
  }

  lemma {:induction false} NoKeyboards(
    selector: Selector, counts: map<string, nat>, ts: seq<Tree<Node>>, path: seq<nat>, k: nat,
    ctx: Context, row: Option<RowView>)
    requires forall q :: q in PositionsForest(ts, path, k) ==> IsOrdinary(q.tree.value)
    ensures CollectForest(selector, Some(counts), ts, path, k, ctx, row, NO_KEYBOARD).keyboard == NO_KEYBOARD
    decreases ts, 0
  {
    if ts != [] {
      NoKeyboard(selector, counts, ts[0], path + [k], ctx, row);
      NoKeyboards(selector, counts, ts[1..], path, k + 1, ctx, Passed(row, PreOrder(ts[0])));
    }
  }

  /** A match of the walk is the node at `p`. */
  ghost predicate IsMatched(matches: seq<Match>, p: Position<Node>) {
    exists m :: m in matches && m.path == p.path && m.node == p.tree.value
  }

  /** Without a keyboard in the tree, every node the selector takes wherever it stands is a match. */
  lemma {:induction false} SelectedIsMatched(
    selector: Selector, counts: map<string, nat>, t: Tree<Node>, path: seq<nat>,
    ctx: Context, row: Option<RowView>, p: Position<Node>)
    requires forall q :: q in Positions(t, path) ==> IsOrdinary(q.tree.value)
    requires p in Positions(t, path) && forall around :: Selects(selector, p.tree.value, around)
    ensures IsMatched(Collect(selector, Some(counts), t, path, ctx, row, NO_KEYBOARD).matches, p)
    decreases t, 1
  {
    assert Positions(t, path)[0] == Position(path, t);
    if p == Position(path, t) {
      assert Selects(selector, t.value, ctx);
      var m := MatchHere(selector, Some(counts), t, path, ctx, row, [])[0];
      assert m in Collect(selector, Some(counts), t, path, ctx, row, NO_KEYBOARD).matches;
    } else {
      SelectedInForest(
        selector, counts, t.children, path, 0, ChildContext(t.value, ctx), ChildRow(t, ctx, Some(counts), row), p);
    }
  }

  lemma {:induction false} SelectedInForest(
    selector: Selector, counts: map<string, nat>, ts: seq<Tree<Node>>, path: seq<nat>, k: nat,
    ctx: Context, row: Option<RowView>, p: Position<Node>)
    requires forall q :: q in PositionsForest(ts, path, k) ==> IsOrdinary(q.tree.value)
    requires p in PositionsForest(ts, path, k) && forall around :: Selects(selector, p.tree.value, around)
    ensures IsMatched(CollectForest(selector, Some(counts), ts, path, k, ctx, row, NO_KEYBOARD).matches, p)
    decreases ts, 0
  {
    NoKeyboard(selector, counts, ts[0], path + [k], ctx, row);
    if p in Positions(ts[0], path + [k]) {
      SelectedIsMatched(selector, counts, ts[0], path + [k], ctx, row, p);
    } else {
      SelectedInForest(selector, counts, ts[1..], path, k + 1, ctx, Passed(row, PreOrder(ts[0])), p);
    }
  }

  /** With a single cell in the tree, each text it holds is held once. */
  lemma OneCellCounts(root: Tree<Node>, before: seq<Position<Node>>, cell: Position<Node>, after: seq<Position<Node>>)
    requires Positions(root, []) == before + [cell] + after && IsCellAt(cell)
    requires forall p :: p in before ==> !IsCellAt(p)
    requires forall p :: p in after ==> !IsCellAt(p)
    ensures IsCellCounts(map key | key in HeldKeys(cell.tree) :: 1, root)
  {
    var counts: map<string, nat> := map key | key in HeldKeys(cell.tree) :: 1;
    forall key ensures Lookup(counts, key) == Count(Positions(root, []), CellHolding(key)) {
      CountAppend(before + [cell], after, CellHolding(key));
      CountAppend(before, [cell], CellHolding(key));
      CountZero(before, CellHolding(key));
      CountZero(after, CellHolding(key));
      assert [cell][1..] == [];
    }
  }

  const PLAIN_NODE := Node(OTHER, "", "", "", "", "", Geometry.Rect(0.0, 0.0, 0.0, 0.0), 0)

  /** A row with a text of its own, and two nodes whose labels and identifiers are alike once joined. */
  const ROW_TEXT := Tree(PLAIN_NODE.(typeRaw := STATIC_TEXT, labelText := "A"), [])
  const EARLIER := Tree(PLAIN_NODE.(labelText := "a", identifier := "b\U{0001}c"), [])
  const LATER := Tree(PLAIN_NODE.(labelText := "a\U{0001}b", identifier := "c"), [])
  const CLASHING_ROW := Tree(PLAIN_NODE.(typeRaw := CELL), [ROW_TEXT, EARLIER, LATER])
  const CLASHING_APP := Tree(PLAIN_NODE.(typeRaw := APPLICATION), [CLASHING_ROW])

  lemma ClashingPositions()
    ensures Descendants(Position([0], CLASHING_ROW)) ==
      [Position([0, 0], ROW_TEXT), Position([0, 1], EARLIER), Position([0, 2], LATER)]
    ensures Positions(CLASHING_APP, []) ==
      [Position([], CLASHING_APP)] + [Position([0], CLASHING_ROW)] + Descendants(Position([0], CLASHING_ROW))
  {
    var top: seq<nat> := [];
    var path: seq<nat> := [0];
    assert path + [0] == [0, 0] && path + [1] == [0, 1] && path + [2] == [0, 2];
    ThreeLeaves(ROW_TEXT, EARLIER, LATER, path);
    assert top + [0] == path && CLASHING_APP.children[1..] == [];
    assert PositionsForest(CLASHING_APP.children, top, 0) == Positions(CLASHING_ROW, path);
  }

  lemma ThreeLeaves(a: Tree<Node>, b: Tree<Node>, c: Tree<Node>, path: seq<nat>)
    requires a.children == [] && b.children == [] && c.children == []
    ensures PositionsForest([a, b, c], path, 0) ==
      [Position(path + [0], a), Position(path + [1], b), Position(path + [2], c)]
  {
    LeafPositions(a, path + [0]);
    LeafPositions(b, path + [1]);
    LeafPositions(c, path + [2]);
    assert [a, b, c][1..] == [b, c] && [b, c][1..] == [c] && [c][1..] == [];
    assert PositionsForest([c], path, 2) == [Position(path + [2], c)];
    assert PositionsForest([b, c], path, 1) == [Position(path + [1], b), Position(path + [2], c)];
  }

  lemma LeafPositions(t: Tree<Node>, path: seq<nat>)
    requires t.children == []
    ensures Positions(t, path) == [Position(path, t)]
  {
  }

  lemma ClashingNodes()
    ensures Clash(LATER.value, EARLIER.value)
  {
    assert LabelIdKey(LATER.value) == LabelIdKey(EARLIER.value);
    assert LATER.value.labelText != EARLIER.value.labelText;
  }

  lemma ClashingCounts() returns (counts: map<string, nat>)
    ensures IsCellCounts(counts, CLASHING_APP) && Anchor(CLASHING_ROW, counts).Some?
  {
    var cell := Position([0], CLASHING_ROW);
    counts := map key | key in HeldKeys(CLASHING_ROW) :: 1;
    ClashingPositions();
    OneCellCounts(CLASHING_APP, [Position([], CLASHING_APP)], cell, Descendants(cell));
    ClashingAnchor(counts);
  }

  lemma ClashingMatch(selector: Selector, counts: map<string, nat>) returns (m: Match)
    requires selector.test == ((n, b, a, l) => true)
    ensures m in AllMatches(selector, Some(counts), CLASHING_APP) && m.path == [0, 2] && m.node == LATER.value
  {
    ClashingPositions();
    var x := Position([0, 2], LATER);
    SelectedIsMatched(selector, counts, CLASHING_APP, [], Context(false, false, false, "", false), None, x);
    m :| m in AllMatches(selector, Some(counts), CLASHING_APP) && m.path == x.path && m.node == x.tree.value;
  }

  lemma ClashingRow() returns (before: seq<Position<Node>>)
    ensures Position([0], CLASHING_ROW) in Positions(CLASHING_APP, [])
    ensures StandsIn(Position([0], CLASHING_ROW), before, Position([0, 2], LATER), [])
    ensures EARLIER.value in Values(before)
  {
    ClashingPositions();
    before := [Position([0, 0], ROW_TEXT), Position([0, 1], EARLIER)];
    assert Descendants(Position([0], CLASHING_ROW)) == before + [Position([0, 2], LATER)] + [];
    assert Values(before)[1] == EARLIER.value;
  }

  /** In an application's tree a tagged match, counted together with another node of its row, is not found again. */
  ghost predicate IsLostToClash(selector: Selector, root: Tree<Node>, counts: map<string, nat>, m: Match) {
    && ElementType(root.value.typeRaw) == APPLICATION && IsCellCounts(counts, root)
    && m in AllMatches(selector, Some(counts), root) && HasAnchor(m) && Misnumbered(root, counts, m)
    && Resolve(root, m.tags.value, m.node) != Some(m.path)
  }

  lemma ClashingIsLost(selector: Selector, counts: map<string, nat>, m: Match)
    requires IsCellCounts(counts, CLASHING_APP) && Anchor(CLASHING_ROW, counts).Some?
    requires m in AllMatches(selector, Some(counts), CLASHING_APP) && m.path == [0, 2] && m.node == LATER.value
    ensures IsLostToClash(selector, CLASHING_APP, counts, m)
  {
    var before := ClashingRow();
    ClashingNodes();
    MiscountedIsLost(
      selector, CLASHING_APP, counts, m,
      Position([0], CLASHING_ROW), before, Position([0, 2], LATER), [], EARLIER.value);
  }

  /** A label with U+0001 in it, in an application's one row, loses a match. */
  lemma JoinedKeysClash()
    ensures exists selector, root, counts, m :: IsLostToClash(selector, root, counts, m)
  {
    var selector := Selector((n, b, a, l) => true, false);
    var counts := ClashingCounts();
    var m := ClashingMatch(selector, counts);
    ClashingIsLost(selector, counts, m);
  }

  /** No path has two anchored cells on it. */
  lemma OneAnchoredAbove(
    root: Tree<Node>, counts: map<string, nat>, path: seq<nat>, c: Position<Node>, c': Position<Node>)
    requires IsCellCounts(counts, root) && c in Positions(root, []) && c' in Positions(root, [])
    requires AnchoredAt(counts)(c) && AnchoredAt(counts)(c') && c.path <= path && c'.path <= path
    ensures c == c'
  {
    var ps := Positions(root, []);
    var i :| 0 <= i < |ps| && ps[i] == c;
    var j :| 0 <= j < |ps| && ps[j] == c';
    if c.path == c'.path {
      SamePlace(root, c, c');
    } else if |c.path| <= |c'.path| {
      assert c.path == path[..|c.path|] == c'.path[..|c.path|];
      AnchoredIsOutermost(root, counts, i, j);
    } else {
      assert c'.path == path[..|c'.path|] == c.path[..|c'.path|];
      AnchoredIsOutermost(root, counts, j, i);
    }
  }

  /** A match in an anchored row after a node it is counted with by mistake is not found again. */
  lemma MiscountedIsLost(
    selector: Selector, root: Tree<Node>, counts: map<string, nat>, m: Match,
    c: Position<Node>, before: seq<Position<Node>>, x: Position<Node>, after: seq<Position<Node>>, n: Node)
    requires IsCellCounts(counts, root) && m in AllMatches(selector, Some(counts), root)
    requires c in Positions(root, []) && AnchoredAt(counts)(c) && StandsIn(c, before, x, after)
    requires x.path == m.path && x.tree.value == m.node && !IsCell(m.node)
    requires n in Values(before) && Clash(m.node, n)
    ensures HasAnchor(m) && Misnumbered(root, counts, m)
    ensures Resolve(root, m.tags.value, m.node) != Some(m.path)
  {
    assert Descendants(c)[|before|] == x;
    ForestPaths(c.tree.children, c.path, 0, x);
    assert IsInAnchoredRow(root, counts, m.path);
    MatchesTagged(selector, root, counts, m);
    var c', before', x', after' :| TagsMean(root, counts, m, c', before', x', after');
    if m.tags.value.index.Some? {
      assert Descendants(c')[|before'|] == x';
      ForestPaths(c'.tree.children, c'.path, 0, x');
    }
    OneAnchoredAbove(root, counts, m.path, c, c');
    assert InAnchoredRow(root, counts, m, c, before, x, after);
    RowResolutionExact(selector, root, counts, m);
  }

  lemma ClashingAnchor(counts: map<string, nat>)
    requires counts == map key | key in HeldKeys(CLASHING_ROW) :: 1
    ensures Anchor(CLASHING_ROW, counts).Some?
  {
    AnchorExists(CLASHING_ROW, counts);
    var key := Key(Text, "A");
    assert key in Keys(ROW_TEXT.value);
    assert ROW_TEXT.value in PreOrderForest(CLASHING_ROW.children);
    assert Holds(CLASHING_ROW, key) && Lookup(counts, key) == 1;
  }

  // ---------------------------------------------------------------- bindings left unchecked

  /** A match counted inside a row is tagged nested exactly when the row holds rows of its own. */
  lemma NestedIffRowHoldsRows(
    selector: Selector, root: Tree<Node>, counts: map<string, nat>, m: Match, c: Position<Node>)
    requires IsCellCounts(counts, root) && m in AllMatches(selector, Some(counts), root)
    requires HasAnchor(m) && m.tags.value.index.Some?
    requires c in Positions(root, []) && AnchoredBy(c, counts, m.tags.value.anchor.value)
    ensures m.tags.value.nested <==> HoldsRows(c.tree)
  {
    MatchesTagged(selector, root, counts, m);
    var c', before, x, after :| TagsMean(root, counts, m, c', before, x, after);
    SameRow(root, counts, m.tags.value.anchor.value, c, c');
  }

  lemma SingletonPermutation<T>(s: seq<T>, t: seq<T>)
    requires |s| == 1 && multiset(s) == multiset(t)
    ensures s == t
  {
    assert |multiset(t)| == |t| == 1;
    assert t[0] in multiset(t);
  }

  /** The two elements at `i` and `j` change places. */
  function Swapped<T>(s: seq<T>, i: nat, j: nat): (r: seq<T>)
    requires i < |s| && j < |s|
    ensures multiset(r) == multiset(s) && r[i] == s[j]
  {
    s[i := s[j]][j := s[i]]
  }

  /** The nodes a query in a row returns stand at places of their own. */
  lemma {:induction false} ResultsDistinct(ps: seq<Position<Node>>, p: Position<Node> -> bool, i: nat, j: nat)
    requires forall a, b :: 0 <= a < b < |ps| ==> ps[a].path != ps[b].path
    requires i < j < |Filter(ps, p)|
    ensures Filter(ps, p)[i].path != Filter(ps, p)[j].path
  {
    var rest := ps[1..];
    if !p(ps[0]) {
      ResultsDistinct(rest, p, i, j);
    } else if i > 0 {
      ResultsDistinct(rest, p, i - 1, j - 1);
    } else {
      var y := Filter(rest, p)[j - 1];
      FilterMember(rest, p, y);
      var k :| 0 <= k < |rest| && rest[k] == y;
      assert ps[k + 1] == y;
    }
  }

  /** Whatever order the query for `n` in row `c` answers in, its element at `index` stands at `path`. */
  ghost predicate IsOrderProof(c: Position<Node>, n: Node, index: nat, path: seq<nat>) {
    forall live: seq<Position<Node>> ::
      multiset(live) == multiset(InRow(c, n)) ==> index < |live| && live[index].path == path
  }

  /** An index that is right in the tree's order is right in every order iff there is nothing else to return. */
  lemma OrderProofIff(c: Position<Node>, n: Node, index: nat)
    requires index < |InRow(c, n)|
    ensures IsOrderProof(c, n, index, InRow(c, n)[index].path) <==> |InRow(c, n)| == 1
  {
    var results := InRow(c, n);
    if |results| == 1 {
      forall live: seq<Position<Node>> | multiset(live) == multiset(results)
        ensures index < |live| && live[index].path == results[index].path
      {
        SingletonPermutation(results, live);
      }
    } else {
      var other := if index == 0 then 1 else 0;
      var live := Swapped(results, index, other);
      assert multiset(live) == multiset(results);
      forall a: nat, b: nat | a < b < |Descendants(c)| ensures Descendants(c)[a].path != Descendants(c)[b].path {
        ForestPathsDistinct(c.tree.children, c.path, 0, a, b);
      }
      var first, second := if index < other then index else other, if index < other then other else index;
      ResultsDistinct(Descendants(c), AtQuery(n), first, second);
      assert live[index].path != results[index].path;
    }
  }

  /**
   A match bound through its row and left without a frame check, in an application's tree. Whatever order
   the live query returns rows in, the row is found. A match that is the row is then found; one in it is
   found if the row, which holds no rows, answers in the tree's order; and in any other order too exactly
   when nothing else in the row has its type, label and identifier.
   */
  lemma UncheckedRowIsStable(
    selector: Selector, root: Tree<Node>, counts: map<string, nat>, m: Match,
    bound: bool, unique: bool, treeHasLazyList: bool, rows: seq<Position<Node>>)
    requires IsCellCounts(counts, root) && m in AllMatches(selector, Some(counts), root) && HasAnchor(m)
    requires !IsCell(root.value) && !(m.tags.value.index.Some? && Misnumbered(root, counts, m))
    requires var plan := PlanOf(bound, true, unique, m.tags.value, treeHasLazyList);
      plan.throughAnchor && !plan.checkFrame
    requires ParseAnchor(m.tags.value.anchor.value).Some? ==>
      multiset(rows) == multiset(Rows(root, ParseAnchor(m.tags.value.anchor.value).value))
    ensures |rows| == 1 && AnchoredBy(rows[0], counts, m.tags.value.anchor.value)
    ensures match m.tags.value.index
      case None => rows[0].path == m.path
      case Some(index) => (
        !HoldsRows(rows[0].tree)
        && index < |InRow(rows[0], m.node)| && InRow(rows[0], m.node)[index].path == m.path
        && (IsOrderProof(rows[0], m.node, index, m.path) <==> |InRow(rows[0], m.node)| == 1))
  {
    MatchesTagged(selector, root, counts, m);
    RowResolutionExact(selector, root, counts, m);
    var c, before, x, after :| TagsMean(root, counts, m, c, before, x, after);
    AnchorFindsRow(root, counts, c, m.tags.value.anchor.value);
    AnchoredRoot(root, counts, c, m.tags.value.anchor.value);
    SingletonPermutation([c], rows);
    if m.tags.value.index.Some? {
      OrderProofIff(c, m.node, m.tags.value.index.value);
    }
  }
}
