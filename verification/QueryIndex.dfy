/**
 Positional re-resolution: a match is found again as the index-th result of a live query over the
 app's descendants. The index counts the earlier nodes of the whole tree the same query returns.
 */
module QueryIndex {
  import opened Wrappers
  import opened Sequences
  import opened Trees
  import opened ElementTypes
  import opened Snapshot
  import opened RowBinding
  import opened TextMatch

  // ---------------------------------------------------------------- numbering the descendants

  datatype Numbered = Numbered(node: Node, ordinal: Option<nat>)

  /** The same tree once the numbers are taken off. */
  function Plain(ts: seq<Tree<Numbered>>): seq<Tree<Node>> {
    if ts == [] then [] else [Tree(ts[0].value.node, Plain(ts[0].children))] + Plain(ts[1..])
  }

  /** `after` is `before` with the ordinals `from`, `from + 1` and so on. */
  ghost predicate NumberedFrom(before: seq<Numbered>, after: seq<Numbered>, from: nat) {
    |after| == |before|
    && forall i :: 0 <= i < |before| ==> after[i] == Numbered(before[i].node, Some(from + i))
  }

  function Nodes(ns: seq<Numbered>): (r: seq<Node>)
    ensures |r| == |ns| && forall i :: 0 <= i < |ns| ==> r[i] == ns[i].node
  {
    seq(|ns|, i requires 0 <= i < |ns| => ns[i].node)
  }

  /** Number the subtrees `children` in pre-order, appending their nodes' fields to `nodes`. */
  method NumberDescendants(children: seq<Tree<Numbered>>, nodes: seq<Node>)
    returns (numbered: seq<Tree<Numbered>>, nodes': seq<Node>)
    ensures Plain(numbered) == Plain(children)
    ensures nodes' == nodes + Nodes(PreOrderForest(children))
    ensures NumberedFrom(PreOrderForest(children), PreOrderForest(numbered), |nodes|)
    decreases children
  {
    numbered := [];
    nodes' := nodes;
    ghost var done: seq<Numbered> := [];
    for i := 0 to |children|
      invariant Plain(numbered) + Plain(children[i..]) == Plain(children)
      invariant done + PreOrderForest(children[i..]) == PreOrderForest(children)
      invariant nodes' == nodes + Nodes(done)
      invariant NumberedFrom(done, PreOrderForest(numbered), |nodes|)
    {
      var child := children[i];
      assert children[i..][0] == child && children[i..][1..] == children[i + 1..];
      var own := Numbered(child.value.node, Some(|nodes'|));
      var below, more := NumberDescendants(child.children, nodes' + [child.value.node]);
      NumberedChild(done, PreOrderForest(numbered), child, own, below, |nodes|);
      PreOrderSnoc(numbered, Tree(own, below));
      PlainSnoc(numbered, Tree(own, below));
      NodesChild(nodes, done, child);
      Associative(done, PreOrder(child), PreOrderForest(children[i + 1..]));
      Associative(Plain(numbered), [Tree(child.value.node, Plain(child.children))], Plain(children[i + 1..]));
      numbered, nodes' := numbered + [Tree(own, below)], more;
      done := done + PreOrder(child);
    }
  }

  lemma NodesChild(nodes: seq<Node>, done: seq<Numbered>, child: Tree<Numbered>)
    ensures (nodes + Nodes(done)) + [child.value.node] + Nodes(PreOrderForest(child.children))
      == nodes + Nodes(done + PreOrder(child))
  {
    var kids := PreOrderForest(child.children);
    NodesAppend([child.value], kids);
    NodesAppend(done, PreOrder(child));
    Associative(nodes, Nodes(done), Nodes(PreOrder(child)));
    Associative(nodes + Nodes(done), [child.value.node], Nodes(kids));
  }

  lemma NodesAppend(a: seq<Numbered>, b: seq<Numbered>)
    ensures Nodes(a + b) == Nodes(a) + Nodes(b)
  {
  }

  lemma NumberedChild(
    done: seq<Numbered>, done': seq<Numbered>,
    child: Tree<Numbered>, own: Numbered, below: seq<Tree<Numbered>>, from: nat)
    requires NumberedFrom(done, done', from) && own == Numbered(child.value.node, Some(from + |done|))
    requires NumberedFrom(PreOrderForest(child.children), PreOrderForest(below), from + |done| + 1)
    ensures NumberedFrom(done + PreOrder(child), done' + PreOrder(Tree(own, below)), from)
  {
    NumberedNext([child.value], [own], PreOrderForest(child.children), PreOrderForest(below), from + |done|);
    NumberedNext(done, done', PreOrder(child), PreOrder(Tree(own, below)), from);
  }

  lemma {:induction false} PlainSnoc(ts: seq<Tree<Numbered>>, t: Tree<Numbered>)
    ensures Plain(ts + [t]) == Plain(ts) + [Tree(t.value.node, Plain(t.children))]
  {
    if ts == [] {
      assert [t][1..] == [];
    } else {
      assert (ts + [t])[1..] == ts[1..] + [t];
      PlainSnoc(ts[1..], t);
    }
  }

  lemma NumberedNext(a: seq<Numbered>, a': seq<Numbered>, b: seq<Numbered>, b': seq<Numbered>, from: nat)
    requires NumberedFrom(a, a', from) && NumberedFrom(b, b', from + |a|)
    ensures NumberedFrom(a + b, a' + b', from)
  {
  }

  lemma {:induction false} PreOrderSnoc<A>(ts: seq<Tree<A>>, t: Tree<A>)
    ensures PreOrderForest(ts + [t]) == PreOrderForest(ts) + PreOrder(t)
  {
    if ts == [] {
      assert [t][1..] == [];
    } else {
      assert (ts + [t])[1..] == ts[1..] + [t];
      PreOrderSnoc(ts[1..], t);
    }
  }

  // ---------------------------------------------------------------- the queries and their indices

  /** The query's element type: the node's own when it is specific, else any. */
  function ScopeOf(n: Node): Option<nat> {
    if IsTyped(n.typeRaw) then Some(n.typeRaw) else None
  }

  predicate InScope(n: Node, scope: Option<nat>) {
    scope.None? || n.typeRaw == scope.value
  }

  /** `label == target's [AND identifier == target's]`, on the scoped type. */
  function LabelQuery(target: Node, scope: Option<nat>): Node -> bool {
    (n: Node) => n.labelText == target.labelText
      && (target.identifier == "" || n.identifier == target.identifier) && InScope(n, scope)
  }

  function PlaceholderQuery(target: Node, scope: Option<nat>): Node -> bool {
    (n: Node) => n.placeholder == target.placeholder
      && (target.identifier == "" || n.identifier == target.identifier) && InScope(n, scope)
  }

  /** `label/title/value MATCHES pattern`, on the scoped type. */
  ghost function PatternQuery(pattern: Regex, fold: char -> char, scope: Option<nat>): Node -> bool {
    (n: Node) => (Matches(pattern, n.labelText, fold) || Matches(pattern, n.title, fold)
      || Matches(pattern, n.value, fold)) && InScope(n, scope)
  }

  method LiveIndex(ordinal: nat, nodes: seq<Node>, scope: Option<nat>) returns (count: nat)
    requires ordinal < |nodes|
    ensures count == Count(nodes[..ordinal], LabelQuery(nodes[ordinal], scope))
  {
    var target := nodes[ordinal];
    count := 0;
    for i := 0 to ordinal
      invariant count == Count(nodes[..i], LabelQuery(target, scope))
    {
      var node := nodes[i];
      if node.labelText == target.labelText
        && (target.identifier == "" || node.identifier == target.identifier)
        && (scope.None? || node.typeRaw == scope.value)
      {
        count := count + 1;
      }
      CountNext(nodes, i, LabelQuery(target, scope));
    }
  }

  method PlaceholderLiveIndex(ordinal: nat, nodes: seq<Node>, scope: Option<nat>) returns (count: nat)
    requires ordinal < |nodes|
    ensures count == Count(nodes[..ordinal], PlaceholderQuery(nodes[ordinal], scope))
  {
    var target := nodes[ordinal];
    count := 0;
    for i := 0 to ordinal
      invariant count == Count(nodes[..i], PlaceholderQuery(target, scope))
    {
      var node := nodes[i];
      if node.placeholder == target.placeholder
        && (target.identifier == "" || node.identifier == target.identifier)
        && (scope.None? || node.typeRaw == scope.value)
      {
        count := count + 1;
      }
      CountNext(nodes, i, PlaceholderQuery(target, scope));
    }
  }

  function LiveCount(ordinal: nat, nodes: seq<Node>, scope: Option<nat>): nat
    requires ordinal < |nodes|
  {
    Count(nodes, LabelQuery(nodes[ordinal], scope))
  }

  function PlaceholderLiveCount(ordinal: nat, nodes: seq<Node>, scope: Option<nat>): nat
    requires ordinal < |nodes|
  {
    Count(nodes, PlaceholderQuery(nodes[ordinal], scope))
  }

  /** Which nodes an exact-text query returns, by comparison of normalized text. */
  function ExactMatches(nodes: seq<Node>, query: string): (matched: seq<bool>)
    ensures |matched| == |nodes|
  {
    seq(|nodes|, i requires 0 <= i < |nodes| =>
      Equals(nodes[i].labelText, query) || Equals(nodes[i].title, query) || Equals(nodes[i].value, query))
  }

  /** Which nodes a substring-text query returns. */
  ghost function SubstringMatches(nodes: seq<Node>, query: string, fold: char -> char): (matched: seq<bool>)
    ensures |matched| == |nodes|
  {
    seq(|nodes|, i requires 0 <= i < |nodes| =>
      Contains(nodes[i].labelText, query, fold) || Contains(nodes[i].title, query, fold)
      || Contains(nodes[i].value, query, fold))
  }

  /** The count of earlier matched nodes is the count of earlier results of any query that agrees. */
  method SubstringLiveIndex(
    ordinal: nat, nodes: seq<Node>, scope: Option<nat>, matched: seq<bool>, ghost q: Node -> bool)
    returns (count: nat)
    requires ordinal < |nodes| == |matched|
    requires forall i :: 0 <= i < |nodes| ==> q(nodes[i]) == (matched[i] && InScope(nodes[i], scope))
    ensures count == Count(nodes[..ordinal], q)
  {
    count := 0;
    for i := 0 to ordinal
      invariant count == Count(nodes[..i], q)
    {
      if matched[i] && (scope.None? || nodes[i].typeRaw == scope.value) {
        count := count + 1;
      }
      CountNext(nodes, i, q);
    }
  }

  // ---------------------------------------------------------------- the index picks the node

  function Place(q: Node -> bool): Position<Node> -> bool {
    (p: Position<Node>) => q(p.tree.value)
  }

  function QueryNodes(root: Tree<Node>): seq<Node> {
    PreOrderForest(root.children)
  }

  function LiveResults(root: Tree<Node>, q: Node -> bool): seq<Position<Node>> {
    Filter(Descendants(Position([], root)), Place(q))
  }

  lemma {:induction false} CountPlaces(ps: seq<Position<Node>>, q: Node -> bool)
    ensures Count(ps, Place(q)) == Count(Values(ps), q)
  {
    if ps != [] {
      CountPlaces(ps[1..], q);
      assert Values(ps)[1..] == Values(ps[1..]);
    }
  }

  /** Counting the earlier results of a query gives the index that picks the node out of the live results. */
  lemma IndexPicksNode(root: Tree<Node>, ordinal: nat, q: Node -> bool)
    requires ordinal < |QueryNodes(root)| && q(QueryNodes(root)[ordinal])
    ensures |Descendants(Position([], root))| == |QueryNodes(root)|
    ensures var results := LiveResults(root, q);
      var index := Count(QueryNodes(root)[..ordinal], q);
      index < |results| && results[index] == Descendants(Position([], root))[ordinal]
  {
    var d := Descendants(Position([], root));
    ForestValues(root.children, [], 0);
    assert d == d[..ordinal] + [d[ordinal]] + d[ordinal + 1..];
    FilterPicks(d[..ordinal], d[ordinal], d[ordinal + 1..], Place(q));
    CountPlaces(d[..ordinal], q);
    assert Values(d[..ordinal]) == QueryNodes(root)[..ordinal];
  }

  /** A match's own label query, at its live index, returns the match. */
  lemma LabelIndexPicksNode(root: Tree<Node>, ordinal: nat, scope: Option<nat>)
    requires ordinal < |QueryNodes(root)| && scope == ScopeOf(QueryNodes(root)[ordinal])
    ensures var q := LabelQuery(QueryNodes(root)[ordinal], scope);
      var index := Count(QueryNodes(root)[..ordinal], q);
      index < |LiveResults(root, q)|
      && |Descendants(Position([], root))| == |QueryNodes(root)|
      && LiveResults(root, q)[index] == Descendants(Position([], root))[ordinal]
  {
    IndexPicksNode(root, ordinal, LabelQuery(QueryNodes(root)[ordinal], scope));
  }

  lemma PlaceholderIndexPicksNode(root: Tree<Node>, ordinal: nat, scope: Option<nat>)
    requires ordinal < |QueryNodes(root)| && scope == ScopeOf(QueryNodes(root)[ordinal])
    ensures var q := PlaceholderQuery(QueryNodes(root)[ordinal], scope);
      var index := Count(QueryNodes(root)[..ordinal], q);
      index < |LiveResults(root, q)|
      && |Descendants(Position([], root))| == |QueryNodes(root)|
      && LiveResults(root, q)[index] == Descendants(Position([], root))[ordinal]
  {
    IndexPicksNode(root, ordinal, PlaceholderQuery(QueryNodes(root)[ordinal], scope));
  }

  /** The exact-text query, which evaluates a pattern, returns what the comparison marks. */
  lemma ExactQueryAgrees(nodes: seq<Node>, query: string, scope: Option<nat>, i: nat)
    requires i < |nodes|
    ensures PatternQuery(ExactPattern(query), Same, scope)(nodes[i]) ==
      (ExactMatches(nodes, query)[i] && InScope(nodes[i], scope))
  {
    ExactPatternAgrees(query, nodes[i].labelText);
    ExactPatternAgrees(query, nodes[i].title);
    ExactPatternAgrees(query, nodes[i].value);
  }

  lemma SubstringQueryAgrees(nodes: seq<Node>, query: string, fold: char -> char, scope: Option<nat>, i: nat)
    requires i < |nodes| && KeepsSpace(fold)
    ensures PatternQuery(ContainsPattern(query), fold, scope)(nodes[i]) ==
      (SubstringMatches(nodes, query, fold)[i] && InScope(nodes[i], scope))
  {
    ContainsAgrees(query, nodes[i].labelText, fold);
    ContainsAgrees(query, nodes[i].title, fold);
    ContainsAgrees(query, nodes[i].value, fold);
  }

  /** A label-less match found by exact text: the index of the marked nodes picks it out of the pattern's results. */
  lemma ExactTextIndexPicksNode(root: Tree<Node>, ordinal: nat, query: string)
    requires ordinal < |QueryNodes(root)| && ExactMatches(QueryNodes(root), query)[ordinal]
    ensures var scope := ScopeOf(QueryNodes(root)[ordinal]);
      var q := PatternQuery(ExactPattern(query), Same, scope);
      var index := Count(QueryNodes(root)[..ordinal], q);
      index < |LiveResults(root, q)|
      && |Descendants(Position([], root))| == |QueryNodes(root)|
      && LiveResults(root, q)[index] == Descendants(Position([], root))[ordinal]
  {
    var scope := ScopeOf(QueryNodes(root)[ordinal]);
    ExactQueryAgrees(QueryNodes(root), query, scope, ordinal);
    IndexPicksNode(root, ordinal, PatternQuery(ExactPattern(query), Same, scope));
  }

  lemma SubstringTextIndexPicksNode(root: Tree<Node>, ordinal: nat, query: string, fold: char -> char)
    requires ordinal < |QueryNodes(root)| && KeepsSpace(fold)
    requires SubstringMatches(QueryNodes(root), query, fold)[ordinal]
    ensures var scope := ScopeOf(QueryNodes(root)[ordinal]);
      var q := PatternQuery(ContainsPattern(query), fold, scope);
      var index := Count(QueryNodes(root)[..ordinal], q);
      index < |LiveResults(root, q)|
      && |Descendants(Position([], root))| == |QueryNodes(root)|
      && LiveResults(root, q)[index] == Descendants(Position([], root))[ordinal]
  {
    var scope := ScopeOf(QueryNodes(root)[ordinal]);
    SubstringQueryAgrees(QueryNodes(root), query, fold, scope, ordinal);
    IndexPicksNode(root, ordinal, PatternQuery(ContainsPattern(query), fold, scope));
  }

  /** A query with one result gives it in whatever order it answers, at the index counted for the node. */
  lemma OnlyResultIsStable(root: Tree<Node>, ordinal: nat, q: Node -> bool, live: seq<Position<Node>>)
    requires ordinal < |QueryNodes(root)| && q(QueryNodes(root)[ordinal]) && Count(QueryNodes(root), q) == 1
    requires multiset(live) == multiset(LiveResults(root, q))
    ensures |live| == 1 && |Descendants(Position([], root))| == |QueryNodes(root)|
    ensures Count(QueryNodes(root)[..ordinal], q) == 0 && live[0] == Descendants(Position([], root))[ordinal]
  {
    var d := Descendants(Position([], root));
    IndexPicksNode(root, ordinal, q);
    ForestValues(root.children, [], 0);
    CountPlaces(d, q);
    FilterLength(d, Place(q));
    var results := LiveResults(root, q);
    assert |results| == 1;
    assert |multiset(live)| == |live| == 1;
    assert live[0] in multiset(results);
    assert results == [results[0]];
  }

  /**
   A match in a row whose binding by label is left unchecked: the live query may return its results in any
   order, and the element at the match's index is still the match.
   */
  lemma UncheckedPlaceIsStable(
    root: Tree<Node>, ordinal: nat, tags: Tags, treeHasLazyList: bool, live: seq<Position<Node>>)
    requires ordinal < |QueryNodes(root)|
    requires var nodes := QueryNodes(root);
      var scope := ScopeOf(nodes[ordinal]);
      PlanOf(true, true, LiveCount(ordinal, nodes, scope) == 1, tags, treeHasLazyList) == UNCHECKED
      && multiset(live) == multiset(LiveResults(root, LabelQuery(nodes[ordinal], scope)))
    ensures |live| == 1 && |Descendants(Position([], root))| == |QueryNodes(root)|
    ensures var q := LabelQuery(QueryNodes(root)[ordinal], ScopeOf(QueryNodes(root)[ordinal]));
      Count(QueryNodes(root)[..ordinal], q) == 0 && live[0] == Descendants(Position([], root))[ordinal]
  {
    var nodes := QueryNodes(root);
    OnlyResultIsStable(root, ordinal, LabelQuery(nodes[ordinal], ScopeOf(nodes[ordinal])), live);
  }

  /** The same for a text field bound by its placeholder. */
  lemma UncheckedPlaceholderIsStable(
    root: Tree<Node>, ordinal: nat, tags: Tags, treeHasLazyList: bool, live: seq<Position<Node>>)
    requires ordinal < |QueryNodes(root)|
    requires var nodes := QueryNodes(root);
      var scope := ScopeOf(nodes[ordinal]);
      PlanOf(true, true, PlaceholderLiveCount(ordinal, nodes, scope) == 1, tags, treeHasLazyList) == UNCHECKED
      && multiset(live) == multiset(LiveResults(root, PlaceholderQuery(nodes[ordinal], scope)))
    ensures |live| == 1 && |Descendants(Position([], root))| == |QueryNodes(root)|
    ensures var q := PlaceholderQuery(QueryNodes(root)[ordinal], ScopeOf(QueryNodes(root)[ordinal]));
      Count(QueryNodes(root)[..ordinal], q) == 0 && live[0] == Descendants(Position([], root))[ordinal]
  {
    var nodes := QueryNodes(root);
    OnlyResultIsStable(root, ordinal, PlaceholderQuery(nodes[ordinal], ScopeOf(nodes[ordinal])), live);
  }
}
