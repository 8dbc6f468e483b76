/**
 Finding a table or collection row again by what it shows. A row's anchor is the first key of its
 descendants that no other row holds; a match inside an anchored row is numbered among the row's
 nodes that the query finding it inside the row returns.
 */
module RowAnchor {
  import opened Wrappers
  import opened Sequences
  import opened Trees
  import opened ElementTypes
  import opened Snapshot

  // ---------------------------------------------------------------- keys

  datatype Kind = Text | Identifier | Placeholder

  const SEPARATOR: char := '\U{0001}'

  function KindCode(kind: Kind): char {
    match kind
    case Text => 't'
    case Identifier => 'i'
    case Placeholder => 'p'
  }

  function Key(kind: Kind, value: string): string {
    [KindCode(kind), SEPARATOR] + value
  }

  /** What a node can be told apart by, its text first. */
  function Keys(n: Node): seq<string> {
    (if ElementType(n.typeRaw) == STATIC_TEXT && n.labelText != "" then [Key(Text, n.labelText)] else [])
    + (if n.identifier != "" then [Key(Identifier, n.identifier)] else [])
    + (if n.placeholder != "" then [Key(Placeholder, n.placeholder)] else [])
  }

  /** What a live query looks for: `predicate(forAnchor:)`, parsed back out of the key. */
  datatype AnchorPredicate = AnchorPredicate(kind: Kind, value: string)

  function ParseAnchor(anchor: string): Option<AnchorPredicate> {
    if |anchor| < 2 || anchor[1] != SEPARATOR then None
    else if anchor[0] == 't' then Some(AnchorPredicate(Text, anchor[2..]))
    else if anchor[0] == 'i' then Some(AnchorPredicate(Identifier, anchor[2..]))
    else if anchor[0] == 'p' then Some(AnchorPredicate(Placeholder, anchor[2..]))
    else None
  }

  predicate Satisfies(n: Node, p: AnchorPredicate) {
    match p.kind
    case Text => n.typeRaw == STATIC_TEXT && n.labelText == p.value
    case Identifier => n.identifier == p.value
    case Placeholder => n.placeholder == p.value
  }

  /** A node offers a key exactly when the key's predicate finds it. */
  lemma OffersIffSatisfies(n: Node, m: Node, key: string)
    requires key in Keys(m)
    ensures ParseAnchor(key).Some?
    ensures key in Keys(n) <==> Satisfies(n, ParseAnchor(key).value)
  {
    var p := ParseAnchor(key).value;
    assert key == Key(p.kind, p.value);
  }

  // ---------------------------------------------------------------- cells and what they hold

  predicate IsCell(n: Node) {
    ElementType(n.typeRaw) == CELL
  }

  /** Whether some descendant of `cell` offers `key`. */
  predicate Holds(cell: Tree<Node>, key: string) {
    exists n :: n in PreOrderForest(cell.children) && key in Keys(n)
  }

  function CellHolding(key: string): Position<Node> -> bool {
    (p: Position<Node>) => IsCell(p.tree.value) && Holds(p.tree, key)
  }

  predicate HoldsRows(cell: Tree<Node>) {
    exists n :: n in PreOrderForest(cell.children) && IsCell(n)
  }

  function Lookup(counts: map<string, nat>, key: string): nat {
    if key in counts then counts[key] else 0
  }

  /** `counts` says, for every key, how many cells of `root` hold it. */
  ghost predicate IsCellCounts(counts: map<string, nat>, root: Tree<Node>) {
    forall key :: Lookup(counts, key) == Count(Positions(root, []), CellHolding(key))
  }

  function HeldKeys(cell: Tree<Node>): (held: set<string>)
    ensures forall key :: key in held <==> Holds(cell, key)
  {
    set n, key | n in PreOrderForest(cell.children) && key in Keys(n) :: key
  }

  method CellCounts(root: Tree<Node>) returns (counts: map<string, nat>)
    ensures IsCellCounts(counts, root)
  {
    counts := CountCells(root, [], map[]);
  }

  method CountCells(t: Tree<Node>, ghost path: seq<nat>, counts: map<string, nat>) returns (r: map<string, nat>)
    ensures forall key :: Lookup(r, key) == Lookup(counts, key) + Count(Positions(t, path), CellHolding(key))
    decreases t
  {
    r := counts;
    if IsCell(t.value) {
      r := AddEach(r, HeldKeys(t));
    }
    ghost var here := [Position(path, t)];
    assert Positions(t, path) == here + PositionsForest(t.children, path, 0);
    ghost var done: seq<Position<Node>> := here;
    for i := 0 to |t.children|
      invariant done + PositionsForest(t.children[i..], path, i) == Positions(t, path)
      invariant forall key :: Lookup(r, key) == Lookup(counts, key) + Count(done, CellHolding(key))
    {
      var child := t.children[i];
      assert t.children[i..][0] == child && t.children[i..][1..] == t.children[i + 1..];
      r := CountCells(child, path + [i], r);
      ghost var more := Positions(child, path + [i]);
      forall key
        ensures Count(done + more, CellHolding(key)) == Count(done, CellHolding(key)) + Count(more, CellHolding(key))
      {
        CountAppend(done, more, CellHolding(key));
      }
      ghost var later := PositionsForest(t.children[i + 1..], path, i + 1);
      assert done + PositionsForest(t.children[i..], path, i) == done + more + later;
      done := done + more;
    }
    assert done == Positions(t, path);
  }

  method AddEach(counts: map<string, nat>, held: set<string>) returns (r: map<string, nat>)
    ensures forall key :: Lookup(r, key) == Lookup(counts, key) + if key in held then 1 else 0
  {
    r := counts;
    var todo := held;
    while todo != {}
      invariant todo <= held
      invariant forall key :: Lookup(r, key) == Lookup(counts, key) + if key in held - todo then 1 else 0
    {
      var key :| key in todo;
      r := r[key := Lookup(r, key) + 1];
      todo := todo - {key};
    }
  }

  // ---------------------------------------------------------------- anchors

  function FirstUnique(keys: seq<string>, counts: map<string, nat>): Option<string> {
    if keys == [] then None
    else if Lookup(counts, keys[0]) == 1 then Some(keys[0])
    else FirstUnique(keys[1..], counts)
  }

  function FirstAnchor(nodes: seq<Node>, counts: map<string, nat>): Option<string> {
    if nodes == [] then None
    else
      var found := FirstUnique(Keys(nodes[0]), counts);
      if found.Some? then found else FirstAnchor(nodes[1..], counts)
  }

  /** The first key of the cell's descendants, in tree order, that no other cell holds. */
  function Anchor(cell: Tree<Node>, counts: map<string, nat>): Option<string> {
    FirstAnchor(PreOrderForest(cell.children), counts)
  }

  lemma {:induction false} FirstUniqueIsUnique(keys: seq<string>, counts: map<string, nat>)
    ensures FirstUnique(keys, counts).Some? ==>
      FirstUnique(keys, counts).value in keys && Lookup(counts, FirstUnique(keys, counts).value) == 1
    ensures FirstUnique(keys, counts).None? ==> forall key :: key in keys ==> Lookup(counts, key) != 1
  {
    if keys != [] {
      FirstUniqueIsUnique(keys[1..], counts);
    }
  }

  lemma {:induction false} FirstAnchorIsUnique(nodes: seq<Node>, counts: map<string, nat>)
    ensures FirstAnchor(nodes, counts).Some? ==>
      (exists n :: n in nodes && FirstAnchor(nodes, counts).value in Keys(n))
      && Lookup(counts, FirstAnchor(nodes, counts).value) == 1
    ensures FirstAnchor(nodes, counts).None? ==>
      forall n, key :: n in nodes && key in Keys(n) ==> Lookup(counts, key) != 1
  {
    if nodes != [] {
      FirstUniqueIsUnique(Keys(nodes[0]), counts);
      FirstAnchorIsUnique(nodes[1..], counts);
      assert nodes[0] in nodes;
      assert forall n :: n in nodes[1..] ==> n in nodes;
      assert nodes == [nodes[0]] + nodes[1..];
    }
  }

  /** A row has an anchor iff it holds some key that exactly one cell of the tree holds. */
  lemma AnchorExists(cell: Tree<Node>, counts: map<string, nat>)
    ensures Anchor(cell, counts).Some? ==>
      Holds(cell, Anchor(cell, counts).value) && Lookup(counts, Anchor(cell, counts).value) == 1
    ensures Anchor(cell, counts).Some? <==> exists key :: Holds(cell, key) && Lookup(counts, key) == 1
  {
    FirstAnchorIsUnique(PreOrderForest(cell.children), counts);
  }

  /** Only one cell of the tree holds an anchored cell's anchor. */
  lemma AnchorNamesOneCell(root: Tree<Node>, counts: map<string, nat>, i: nat, j: nat)
    requires IsCellCounts(counts, root)
    requires i < |Positions(root, [])| && j < |Positions(root, [])|
    requires var ps := Positions(root, []);
      IsCell(ps[i].tree.value) && Anchor(ps[i].tree, counts).Some?
      && IsCell(ps[j].tree.value) && Holds(ps[j].tree, Anchor(ps[i].tree, counts).value)
    ensures i == j
  {
    var ps := Positions(root, []);
    var key := Anchor(ps[i].tree, counts).value;
    AnchorExists(ps[i].tree, counts);
    CountOne(ps, CellHolding(key), i, j);
  }

  /** What a nested cell holds, the cell around it holds too. */
  lemma NestedHolds(root: Tree<Node>, i: nat, j: nat, key: string)
    requires i < |Positions(root, [])| && j < |Positions(root, [])|
    requires Positions(root, [])[i].path < Positions(root, [])[j].path
    requires Holds(Positions(root, [])[j].tree, key)
    ensures Holds(Positions(root, [])[i].tree, key)
  {
    var n :| n in PreOrderForest(Positions(root, [])[j].tree.children) && key in Keys(n);
    NestedValues(root, [], i, j, n);
  }

  /** A row nested in another row never has an anchor: both are counted for every key it holds. */
  lemma AnchoredIsOutermost(root: Tree<Node>, counts: map<string, nat>, i: nat, j: nat)
    requires IsCellCounts(counts, root)
    requires i < |Positions(root, [])| && j < |Positions(root, [])|
    requires var ps := Positions(root, []);
      ps[i].path < ps[j].path && IsCell(ps[i].tree.value) && IsCell(ps[j].tree.value)
    ensures Anchor(Positions(root, [])[j].tree, counts).None?
  {
    var inner := Positions(root, [])[j].tree;
    AnchorExists(inner, counts);
    if Anchor(inner, counts).Some? {
      NestedHolds(root, i, j, Anchor(inner, counts).value);
      AnchorNamesOneCell(root, counts, j, i);
    }
  }

  // ---------------------------------------------------------------- numbering inside a row

  function Digit(d: nat): char
    requires d < 10
  {
    ('0' as int + d) as char
  }

  function Decimal(n: nat): (s: string)
    ensures s != "" && SEPARATOR !in s
  {
    if n < 10 then [Digit(n)] else Decimal(n / 10) + [Digit(n % 10)]
  }

  lemma {:induction false} DecimalInjective(m: nat, n: nat)
    requires Decimal(m) == Decimal(n)
    ensures m == n
  {
    var s, t := Decimal(m), Decimal(n);
    assert s[|s| - 1] == Digit(m % 10) && t[|t| - 1] == Digit(n % 10);
    assert (Digit(m % 10) as int) == (Digit(n % 10) as int);
    if m >= 10 && n >= 10 {
      assert s[..|s| - 1] == Decimal(m / 10) && t[..|t| - 1] == Decimal(n / 10);
      DecimalInjective(m / 10, n / 10);
    }
  }

  function TypeLabelKey(n: Node): string {
    Decimal(n.typeRaw) + [SEPARATOR] + n.labelText
  }

  function TypeLabelIdKey(n: Node): string {
    TypeLabelKey(n) + [SEPARATOR] + n.identifier
  }

  function LabelKey(n: Node): string {
    n.labelText
  }

  function LabelIdKey(n: Node): string {
    n.labelText + [SEPARATOR] + n.identifier
  }

  /** The counter a node is numbered by: typed or not, with its identifier when it has one. */
  function CounterOf(n: Node, typed: bool): Node -> string {
    if typed then (if n.identifier == "" then TypeLabelKey else TypeLabelIdKey)
    else (if n.identifier == "" then LabelKey else LabelIdKey)
  }

  function KeyIs(keyOf: Node -> string, key: string): Node -> bool {
    n => keyOf(n) == key
  }

  function SameCounter(n: Node, typed: bool): Node -> bool {
    KeyIs(CounterOf(n, typed), CounterOf(n, typed)(n))
  }

  /** Four counts of the nodes passed in one anchored cell. */
  class Scope {
    const anchor: string
    const listExposesEveryRow: bool
    const holdsRows: bool
    var byTypeLabel: map<string, nat>
    var byTypeLabelId: map<string, nat>
    var byLabel: map<string, nat>
    var byLabelId: map<string, nat>
    /** The cell's nodes visited so far, in tree order. */
    ghost var seen: seq<Node>

    constructor (anchor: string, listExposesEveryRow: bool, holdsRows: bool)
      ensures Valid() && seen == []
      ensures this.anchor == anchor
      ensures this.listExposesEveryRow == listExposesEveryRow && this.holdsRows == holdsRows
    {
      this.anchor := anchor;
      this.listExposesEveryRow := listExposesEveryRow;
      this.holdsRows := holdsRows;
      byTypeLabel, byTypeLabelId, byLabel, byLabelId := map[], map[], map[], map[];
      seen := [];
    }

    ghost predicate Valid()
      reads this
    {
      && Counts(byTypeLabel, TypeLabelKey, seen)
      && Counts(byTypeLabelId, TypeLabelIdKey, seen)
      && Counts(byLabel, LabelKey, seen)
      && Counts(byLabelId, LabelIdKey, seen)
    }

    method Visit(n: Node, typed: bool) returns (index: nat)
      requires Valid()
      modifies this
      ensures Valid() && seen == old(seen) + [n]
      ensures index == Count(old(seen), SameCounter(n, typed))
    {
      index := NumberOf(n, typed);
      Bump(n);
    }

    /** The counter that a node's own query would have run through. */
    function NumberOf(n: Node, typed: bool): (index: nat)
      requires Valid()
      reads this
      ensures index == Count(seen, SameCounter(n, typed))
    {
      if typed && n.identifier == "" then Lookup(byTypeLabel, TypeLabelKey(n))
      else if typed then Lookup(byTypeLabelId, TypeLabelIdKey(n))
      else if n.identifier == "" then Lookup(byLabel, n.labelText)
      else Lookup(byLabelId, LabelIdKey(n))
    }

    method Bump(n: Node)
      requires Valid()
      modifies this
      ensures Valid() && seen == old(seen) + [n]
    {
      ghost var before := seen;
      byTypeLabel := CountOneMore(byTypeLabel, TypeLabelKey(n), TypeLabelKey, before, n);
      byTypeLabelId := CountOneMore(byTypeLabelId, TypeLabelIdKey(n), TypeLabelIdKey, before, n);
      byLabel := CountOneMore(byLabel, n.labelText, LabelKey, before, n);
      byLabelId := CountOneMore(byLabelId, LabelIdKey(n), LabelIdKey, before, n);
      seen := before + [n];
    }

    /** Record every node of a subtree the match walk skips. */
    method VisitSubtree(t: Tree<Node>)
      requires Valid()
      modifies this
      ensures Valid() && seen == old(seen) + PreOrder(t)
      decreases t
    {
      var _ := Visit(t.value, true);
      ghost var done := [t.value];
      for i := 0 to |t.children|
        invariant Valid() && seen == old(seen) + done
        invariant done + PreOrderForest(t.children[i..]) == PreOrder(t)
      {
        ForestFrom(t.children, i);
        Associative(done, PreOrder(t.children[i]), PreOrderForest(t.children[i + 1..]));
        Associative(old(seen), done, PreOrder(t.children[i]));
        VisitSubtree(t.children[i]);
        done := done + PreOrder(t.children[i]);
      }
    }
  }

  lemma ForestFrom(ts: seq<Tree<Node>>, i: nat)
    requires i < |ts|
    ensures PreOrderForest(ts[i..]) == PreOrder(ts[i]) + PreOrderForest(ts[i + 1..])
  {
    assert ts[i..][0] == ts[i] && ts[i..][1..] == ts[i + 1..];
  }

  ghost predicate Counts(counts: map<string, nat>, keyOf: Node -> string, seen: seq<Node>) {
    forall key :: Lookup(counts, key) == Count(seen, KeyIs(keyOf, key))
  }

  /** One dictionary with node `n` counted in. */
  method CountOneMore(
    counts: map<string, nat>, key: string, ghost keyOf: Node -> string, ghost seen: seq<Node>, ghost n: Node)
    returns (r: map<string, nat>)
    requires Counts(counts, keyOf, seen) && key == keyOf(n)
    ensures Counts(r, keyOf, seen + [n])
  {
    CountsBumped(counts, keyOf, seen, n);
    r := counts[key := Lookup(counts, key) + 1];
  }

  lemma CountsBumped(counts: map<string, nat>, keyOf: Node -> string, seen: seq<Node>, n: Node)
    requires Counts(counts, keyOf, seen)
    ensures Counts(counts[keyOf(n) := Lookup(counts, keyOf(n)) + 1], keyOf, seen + [n])
  {
    var bumped := counts[keyOf(n) := Lookup(counts, keyOf(n)) + 1];
    forall key ensures Lookup(bumped, key) == Count(seen + [n], KeyIs(keyOf, key)) {
      CountAppend(seen, [n], KeyIs(keyOf, key));
    }
  }

  // ---------------------------------------------------------------- the query inside the row

  /** The query that finds `n` again inside its row: its type (any, for a generic one), label and identifier. */
  function RowQuery(n: Node): Node -> bool {
    (m: Node) => (IsTyped(n.typeRaw) ==> m.typeRaw == n.typeRaw)
      && m.labelText == n.labelText
      && (n.identifier != "" ==> m.identifier == n.identifier)
  }

  /** `m` is counted with `n` though the query for `n` does not return it. */
  predicate Clash(n: Node, m: Node) {
    SameCounter(n, IsTyped(n.typeRaw))(m) && !RowQuery(n)(m)
  }

  lemma {:induction false} JoinInjective(a: string, b: string, c: string, d: string)
    requires SEPARATOR !in a && SEPARATOR !in c
    requires a + [SEPARATOR] + b == c + [SEPARATOR] + d
    ensures a == c && b == d
  {
    var x, y := a + [SEPARATOR] + b, c + [SEPARATOR] + d;
    assert x[0] == y[0] && x[1..] == y[1..];
    if a != [] && c != [] {
      assert x[1..] == a[1..] + [SEPARATOR] + b && y[1..] == c[1..] + [SEPARATOR] + d;
      JoinInjective(a[1..], b, c[1..], d);
    } else {
      assert a == [] ==> x[1..] == b;
      assert c == [] ==> y[1..] == d;
    }
  }

  /** The counters join fields with U+0001: only that character in a label can make two nodes clash. */
  lemma ClashNeedsSeparator(n: Node, m: Node)
    requires Clash(n, m)
    ensures n.identifier != ""
    ensures SEPARATOR in n.labelText || SEPARATOR in m.labelText
    ensures n.labelText + [SEPARATOR] + n.identifier == m.labelText + [SEPARATOR] + m.identifier
  {
    var typed := IsTyped(n.typeRaw);
    var keyOf := CounterOf(n, typed);
    assert keyOf(m) == keyOf(n);
    if n.identifier == "" {
      assert if typed then keyOf(m) == TypeLabelKey(m) && keyOf(n) == TypeLabelKey(n)
        else keyOf(m) == LabelKey(m) && keyOf(n) == LabelKey(n);
    } else {
      assert if typed then keyOf(m) == TypeLabelIdKey(m) && keyOf(n) == TypeLabelIdKey(n)
        else keyOf(m) == LabelIdKey(m) && keyOf(n) == LabelIdKey(n);
    }
    TypedKeyParts(n, m);
    assert LabelIdKey(n) == LabelIdKey(m);
    if SEPARATOR !in n.labelText && SEPARATOR !in m.labelText {
      JoinInjective(n.labelText, n.identifier, m.labelText, m.identifier);
    }
  }

  lemma TypedKeyParts(n: Node, m: Node)
    ensures TypeLabelKey(n) == TypeLabelKey(m) <==> n.typeRaw == m.typeRaw && n.labelText == m.labelText
    ensures TypeLabelIdKey(n) == TypeLabelIdKey(m) <==>
      n.typeRaw == m.typeRaw && LabelIdKey(n) == LabelIdKey(m)
  {
    var p, q := Decimal(n.typeRaw), Decimal(m.typeRaw);
    assert TypeLabelIdKey(n) == p + [SEPARATOR] + LabelIdKey(n);
    assert TypeLabelIdKey(m) == q + [SEPARATOR] + LabelIdKey(m);
    if TypeLabelKey(n) == TypeLabelKey(m) {
      JoinInjective(p, n.labelText, q, m.labelText);
      DecimalInjective(n.typeRaw, m.typeRaw);
    }
    if TypeLabelIdKey(n) == TypeLabelIdKey(m) {
      JoinInjective(p, LabelIdKey(n), q, LabelIdKey(m));
      DecimalInjective(n.typeRaw, m.typeRaw);
    }
  }

  /** A node's number is its index in the query's results iff no earlier node clashes with it. */
  lemma NumberIsIndex(seen: seq<Node>, n: Node)
    ensures Count(seen, RowQuery(n)) <= Count(seen, SameCounter(n, IsTyped(n.typeRaw)))
    ensures Count(seen, RowQuery(n)) == Count(seen, SameCounter(n, IsTyped(n.typeRaw)))
      <==> forall m :: m in seen ==> !Clash(n, m)
  {
    CountWeaker(seen, RowQuery(n), SameCounter(n, IsTyped(n.typeRaw)));
  }
}
