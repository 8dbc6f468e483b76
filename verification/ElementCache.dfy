/**
 The snapshot finder's element caches: what an element id handed to the SDK still stands for, and
 which ids are evicted when there are too many.
 */
module ElementCache {
  import opened Wrappers
  import opened Geometry
  import opened Sequences
  import opened RowBinding

  type Id = string

  /** A live query, as a handle. */
  datatype Live = Live(handle: int)

  datatype Identity = Identity(elementType: nat, labelText: string, identifier: string)

  /** The query for the cells holding an anchor, and the command it was last checked in. */
  datatype AnchorCheck = AnchorCheck(rows: Live, checkedIn: Option<int>)

  /** The live element of a found match, and how its plan says to check it. */
  datatype Binding = Binding(element: Live, checkFrame: bool, anchoredRows: Option<Live>)

  /** One match of a find, under the id minted for it. */
  datatype Found = Found(id: Id, frame: Frame, identity: Identity, binding: Option<Binding>)

  const MAX_CACHE_SIZE: nat := 2000

  /** What the caches hold. */
  datatype Cache = Cache(
    elements: map<Id, Live>,
    bounds: map<Id, Frame>,
    identities: map<Id, Identity>,
    order: seq<Id>,
    rowBindings: set<Id>,
    anchorChecks: map<Id, AnchorCheck>,
    serial: int)

  const EMPTY := Cache(map[], map[], map[], [], {}, map[], 0)

  // ---------------------------------------------------------------- the specification

  /** `order` with `id` at its most recently used end, when it is listed. */
  function Promote(order: seq<Id>, id: Id): seq<Id> {
    if id in order then Without(order, id) + [id] else order
  }

  /** `order` less the first occurrence of `id`. */
  function Without(order: seq<Id>, id: Id): seq<Id> {
    if order == [] then []
    else if order[0] == id then order[1..]
    else [order[0]] + Without(order[1..], id)
  }

  /** `order` less its first `overflow` ids outside `protected`. */
  function PruneOrder(order: seq<Id>, protected: set<Id>, overflow: nat): seq<Id> {
    if order == [] || overflow == 0 then order
    else if order[0] in protected then [order[0]] + PruneOrder(order[1..], protected, overflow)
    else PruneOrder(order[1..], protected, overflow - 1)
  }

  /** The ids `PruneOrder` leaves out: the first `overflow` outside `protected`. */
  function Victims(order: seq<Id>, protected: set<Id>, overflow: nat): seq<Id> {
    if order == [] || overflow == 0 then []
    else if order[0] in protected then Victims(order[1..], protected, overflow)
    else [order[0]] + Victims(order[1..], protected, overflow - 1)
  }

  function Elements<T>(s: seq<T>): set<T> {
    set x | x in s
  }

  function Forget(c: Cache, gone: set<Id>): Cache {
    c.(elements := c.elements - gone, bounds := c.bounds - gone, identities := c.identities - gone,
       rowBindings := c.rowBindings - gone, anchorChecks := c.anchorChecks - gone)
  }

  function Prune(c: Cache, protected: set<Id>): Cache {
    if |c.order| <= MAX_CACHE_SIZE then c
    else Forget(c, Elements(Evicted(c.order, protected))).(order := Trim(c.order, protected))
  }

  function Trim(order: seq<Id>, protected: set<Id>): seq<Id> {
    if |order| <= MAX_CACHE_SIZE then order else PruneOrder(order, protected, |order| - MAX_CACHE_SIZE)
  }

  function Evicted(order: seq<Id>, protected: set<Id>): seq<Id> {
    if |order| <= MAX_CACHE_SIZE then [] else Victims(order, protected, |order| - MAX_CACHE_SIZE)
  }

  function AddFound(c: Cache, f: Found): Cache {
    var listed := c.(bounds := c.bounds[f.id := f.frame], identities := c.identities[f.id := f.identity],
                     order := c.order + [f.id]);
    match f.binding
    case None => listed
    case Some(b) => listed.(
      elements := listed.elements[f.id := b.element],
      rowBindings := if b.checkFrame then listed.rowBindings + {f.id} else listed.rowBindings,
      anchorChecks := if b.anchoredRows.Some?
        then listed.anchorChecks[f.id := AnchorCheck(b.anchoredRows.value, None)] else listed.anchorChecks)
  }

  function AddAll(c: Cache, found: seq<Found>): Cache {
    if found == [] then c else AddFound(AddAll(c, found[..|found| - 1]), found[|found| - 1])
  }

  function Ids(found: seq<Found>): (r: seq<Id>)
    ensures |r| == |found| && forall i :: 0 <= i < |found| ==> r[i] == found[i].id
  {
    seq(|found|, i requires 0 <= i < |found| => found[i].id)
  }

  /** Whether a get finds the anchor no longer naming one cell. */
  predicate AnchorLost(c: Cache, id: Id, named: nat) {
    id in c.elements && id in c.anchorChecks && c.anchorChecks[id].checkedIn != Some(c.serial) && named != 1
  }

  /** Whether a get finds the live element somewhere other than where it was found. */
  predicate FrameLost(c: Cache, id: Id, named: nat, live: Option<Frame>) {
    id in c.elements && !AnchorLost(c, id, named) && id in c.rowBindings
    && !(id in c.bounds && IsFoundElement(c.bounds[id], live))
  }

  /** `getElement`: `named` cells hold the anchor now, and the live element now reads at `live`. */
  function GetResult(c: Cache, id: Id, named: nat, live: Option<Frame>): Option<Live> {
    if id !in c.elements || AnchorLost(c, id, named) || FrameLost(c, id, named, live) then None
    else Some(c.elements[id])
  }

  function AfterGet(c: Cache, id: Id, named: nat, live: Option<Frame>): Cache {
    if id !in c.elements then c
    else
      var touched := c.(order := Promote(c.order, id));
      if AnchorLost(c, id, named) then
        touched.(anchorChecks := touched.anchorChecks - {id}, elements := touched.elements - {id})
      else
        var checked := if id in c.anchorChecks
          then
            var check := touched.anchorChecks[id].(checkedIn := Some(c.serial));
            touched.(anchorChecks := touched.anchorChecks[id := check])
          else touched;
        if FrameLost(c, id, named, live) then
          checked.(rowBindings := checked.rowBindings - {id}, elements := checked.elements - {id})
        else checked
  }

  datatype Op =
    | Find(found: seq<Found>)
    | GetElement(id: Id, named: nat, live: Option<Frame>)
    | GetBounds(id: Id)
    | CachePart(id: Id, element: Live, frame: Frame, identity: Identity)
    | CacheElement(id: Id, element: Live)
    | Clear
    | NextCommand

  predicate Mints(op: Op) {
    op.Find? || op.CachePart? || op.CacheElement?
  }

  /** The state an operation leaves before it makes room. */
  function BeforePrune(c: Cache, op: Op): Cache {
    match op
    case Find(found) => AddAll(c, found)
    case CachePart(id, element, frame, identity) =>
      c.(elements := c.elements[id := element], bounds := c.bounds[id := frame],
         identities := c.identities[id := identity], order := c.order + [id])
    case CacheElement(id, element) => c.(elements := c.elements[id := element], order := c.order + [id])
    case _ => c
  }

  function Protected(op: Op): set<Id> {
    if op.Find? then Elements(Ids(op.found)) else {}
  }

  function Step(c: Cache, op: Op): Cache {
    if Mints(op) then Prune(BeforePrune(c, op), Protected(op))
    else match op
      case GetElement(id, named, live) => AfterGet(c, id, named, live)
      case GetBounds(id) => if id in c.bounds then c.(order := Promote(c.order, id)) else c
      case NextCommand => c.(serial := c.serial + 1)
      case _ => EMPTY.(serial := c.serial)
  }

  function Run(c: Cache, ops: seq<Op>): Cache {
    if ops == [] then c else Step(Run(c, ops[..|ops| - 1]), ops[|ops| - 1])
  }

  // ---------------------------------------------------------------- the caches, updated in place

  class Finder {
    var elementCache: map<Id, Live>
    var boundsCache: map<Id, Frame>
    var identityCache: map<Id, Identity>
    var cacheOrder: seq<Id>
    var rowBindings: set<Id>
    var anchorChecks: map<Id, AnchorCheck>
    var commandSerial: int

    constructor ()
      ensures Holds() == EMPTY
    {
      elementCache, boundsCache, identityCache, cacheOrder := map[], map[], map[], [];
      rowBindings, anchorChecks, commandSerial := {}, map[], 0;
    }

    function Holds(): Cache
      reads this
    {
      Cache(elementCache, boundsCache, identityCache, cacheOrder, rowBindings, anchorChecks, commandSerial)
    }

    method SetCommandDeadline()
      modifies this
      ensures Holds() == Step(old(Holds()), NextCommand)
    {
      commandSerial := commandSerial + 1;
    }

    method ClearCaches()
      modifies this
      ensures Holds() == Step(old(Holds()), Clear)
    {
      elementCache, boundsCache, identityCache, cacheOrder := map[], map[], map[], [];
      rowBindings, anchorChecks := {}, map[];
    }

    /** An id that is listed goes to the end, where the latest used stand. */
    method TouchLocked(id: Id)
      modifies this`cacheOrder
      ensures cacheOrder == Promote(old(cacheOrder), id)
    {
      var i := 0;
      while i < |cacheOrder| && cacheOrder[i] != id
        invariant 0 <= i <= |cacheOrder|
        invariant id !in cacheOrder[..i]
      {
        i := i + 1;
      }
      if i < |cacheOrder| {
        WithoutAt(cacheOrder, id, i);
        cacheOrder := cacheOrder[..i] + cacheOrder[i + 1..] + [id];
      } else {
        assert cacheOrder[..i] == cacheOrder;
      }
    }

    method PruneCacheLocked(protected: set<Id>)
      modifies this
      ensures Holds() == Prune(old(Holds()), protected)
    {
      var overflow := |cacheOrder| - MAX_CACHE_SIZE;
      if overflow <= 0 {
        return;
      }
      ghost var start, most := Holds(), overflow;
      ghost var gone: seq<Id> := [];
      var index := 0;
      while overflow > 0 && index < |cacheOrder|
        invariant 0 <= index <= |cacheOrder| && overflow >= 0
        invariant cacheOrder[..index] + PruneOrder(cacheOrder[index..], protected, overflow)
          == PruneOrder(start.order, protected, most)
        invariant gone + Victims(cacheOrder[index..], protected, overflow) == Victims(start.order, protected, most)
        invariant Holds() == Forget(start, Elements(gone)).(order := cacheOrder)
        decreases |cacheOrder| - index
      {
        var candidate := cacheOrder[index];
        ghost var before, after := cacheOrder[..index], cacheOrder[index + 1..];
        assert cacheOrder[index..][0] == candidate && cacheOrder[index..][1..] == after;
        if candidate in protected {
          assert cacheOrder[..index + 1] == before + [candidate];
          Associative(before, [candidate], PruneOrder(after, protected, overflow));
          index := index + 1;
        } else {
          Associative(gone, [candidate], Victims(after, protected, overflow - 1));
          ForgetMore(start, gone, candidate);
          EvictAt(index);
          assert cacheOrder[..index] == before && cacheOrder[index..] == after;
          gone := gone + [candidate];
          overflow := overflow - 1;
        }
      }
      assert cacheOrder[..index] + cacheOrder[index..] == cacheOrder;
      assert gone + [] == gone;
    }

    /** Drop the id at `index` from every cache. */
    method EvictAt(index: nat)
      requires index < |cacheOrder|
      modifies this
      ensures Holds() == Forget(old(Holds()), {old(cacheOrder[index])}).(
        order := old(cacheOrder[..index]) + old(cacheOrder[index + 1..]))
    {
      var candidate := cacheOrder[index];
      cacheOrder := cacheOrder[..index] + cacheOrder[index + 1..];
      elementCache := elementCache - {candidate};
      boundsCache := boundsCache - {candidate};
      identityCache := identityCache - {candidate};
      rowBindings := rowBindings - {candidate};
      anchorChecks := anchorChecks - {candidate};
    }

    /** Register the matches of a find under the ids minted for them, then make room. */
    method RegisterFound(found: seq<Found>)
      modifies this
      ensures Holds() == Step(old(Holds()), Find(found))
    {
      for i := 0 to |found|
        invariant Holds() == AddAll(old(Holds()), found[..i])
      {
        var f := found[i];
        assert found[..i + 1][..i] == found[..i] && found[..i + 1][i] == f;
        boundsCache := boundsCache[f.id := f.frame];
        identityCache := identityCache[f.id := f.identity];
        cacheOrder := cacheOrder + [f.id];
        CacheQueryElement(f);
      }
      assert found[..|found|] == found;
      assert Holds() == BeforePrune(old(Holds()), Find(found));
      PruneCacheLocked(Elements(Ids(found)));
    }

    /** The live element of a match, when its selector and its row leave it one. */
    method CacheQueryElement(f: Found)
      modifies this`elementCache, this`rowBindings, this`anchorChecks
      ensures f.binding.None? ==> Holds() == old(Holds())
      ensures f.binding.Some? ==> Holds() == old(Holds()).(
        elements := old(elementCache)[f.id := f.binding.value.element],
        rowBindings := if f.binding.value.checkFrame then old(rowBindings) + {f.id} else old(rowBindings),
        anchorChecks := if f.binding.value.anchoredRows.Some?
          then old(anchorChecks)[f.id := AnchorCheck(f.binding.value.anchoredRows.value, None)] else old(anchorChecks))
    {
      if f.binding.Some? {
        var b := f.binding.value;
        elementCache := elementCache[f.id := b.element];
        if b.checkFrame {
          rowBindings := rowBindings + {f.id};
        }
        if b.anchoredRows.Some? {
          anchorChecks := anchorChecks[f.id := AnchorCheck(b.anchoredRows.value, None)];
        }
      }
    }

    /**
     `getElement`. `named` is how many cells hold the anchor now and `live` the live element's frame
     now, each read only where the code reads it.
     */
    method Get(id: Id, named: nat, live: Option<Frame>) returns (result: Option<Live>)
      modifies this
      ensures Holds() == Step(old(Holds()), GetElement(id, named, live))
      ensures result == GetResult(old(Holds()), id, named, live)
    {
      if id !in elementCache {
        return None;
      }
      var cached := elementCache[id];
      TouchLocked(id);
      var checked := id in rowBindings;
      if id in anchorChecks && anchorChecks[id].checkedIn != Some(commandSerial) {
        if named == 1 {
          anchorChecks := anchorChecks[id := anchorChecks[id].(checkedIn := Some(commandSerial))];
        } else {
          anchorChecks := anchorChecks - {id};
          elementCache := elementCache - {id};
          return None;
        }
      }
      assert id in anchorChecks ==>
        anchorChecks == anchorChecks[id := anchorChecks[id].(checkedIn := Some(commandSerial))];
      if checked {
        var isBound := id in boundsCache && IsFoundElement(boundsCache[id], live);
        if !isBound {
          rowBindings := rowBindings - {id};
          elementCache := elementCache - {id};
          return None;
        }
      }
      return Some(cached);
    }

    method Bounds(id: Id) returns (frame: Option<Frame>)
      modifies this
      ensures Holds() == Step(old(Holds()), GetBounds(id))
      ensures frame == if id in old(boundsCache) then Some(old(boundsCache)[id]) else None
    {
      frame := None;
      if id in boundsCache {
        frame := Some(boundsCache[id]);
        TouchLocked(id);
      }
    }

    method Part(id: Id, element: Live, frame: Frame, identity: Identity)
      modifies this
      ensures Holds() == Step(old(Holds()), CachePart(id, element, frame, identity))
    {
      elementCache := elementCache[id := element];
      boundsCache := boundsCache[id := frame];
      identityCache := identityCache[id := identity];
      cacheOrder := cacheOrder + [id];
      PruneCacheLocked({});
    }

    method Cached(id: Id, element: Live)
      modifies this
      ensures Holds() == Step(old(Holds()), CacheElement(id, element))
    {
      elementCache := elementCache[id := element];
      cacheOrder := cacheOrder + [id];
      PruneCacheLocked({});
    }
  }

  lemma ForgetMore(c: Cache, gone: seq<Id>, id: Id)
    ensures Elements(gone + [id]) == Elements(gone) + {id}
    ensures Forget(Forget(c, Elements(gone)), {id}) == Forget(c, Elements(gone + [id]))
  {
    assert Elements(gone + [id]) == Elements(gone) + {id};
    assert c.elements - Elements(gone) - {id} == c.elements - (Elements(gone) + {id});
    assert c.bounds - Elements(gone) - {id} == c.bounds - (Elements(gone) + {id});
    assert c.identities - Elements(gone) - {id} == c.identities - (Elements(gone) + {id});
    assert c.anchorChecks - Elements(gone) - {id} == c.anchorChecks - (Elements(gone) + {id});
  }

  lemma {:induction false} WithoutAt(order: seq<Id>, id: Id, i: nat)
    requires i < |order| && order[i] == id && id !in order[..i]
    ensures Without(order, id) == order[..i] + order[i + 1..]
  {
    if i > 0 {
      assert order[..i][0] == order[0] && order[1..][..i - 1] == order[..i][1..];
      WithoutAt(order[1..], id, i - 1);
    }
  }

  // ---------------------------------------------------------------- what every operation keeps

  ghost predicate Distinct<T>(s: seq<T>) {
    forall i, j :: 0 <= i < j < |s| ==> s[i] != s[j]
  }

  ghost predicate Apart<T>(a: seq<T>, b: seq<T>) {
    forall x :: x in a ==> x !in b
  }

  lemma DistinctAppend<T>(a: seq<T>, b: seq<T>)
    ensures Distinct(a + b) <==> Distinct(a) && Distinct(b) && Apart(a, b)
  {
    var s := a + b;
    assert forall i :: 0 <= i < |a| ==> s[i] == a[i];
    assert forall i :: 0 <= i < |b| ==> s[|a| + i] == b[i];
    if Distinct(s) {
      forall i, j | 0 <= i < |a| && 0 <= j < |b| ensures a[i] != b[j] {
        assert s[i] != s[|a| + j];
      }
    }
    if Distinct(a) && Distinct(b) && Apart(a, b) {
      forall i, j | 0 <= i < j < |s| ensures s[i] != s[j] {
        if i < |a| <= j {
          assert a[i] in a && b[j - |a|] in b;
        } else if |a| <= i {
          assert b[i - |a|] != b[j - |a|];
        }
      }
    }
  }

  lemma DistinctCons<T>(s: seq<T>)
    requires s != []
    ensures Distinct(s) <==> Distinct(s[1..]) && s[0] !in s[1..]
  {
    assert s == [s[0]] + s[1..];
    DistinctAppend([s[0]], s[1..]);
  }

  /** No id is listed twice, and everything cached is listed. */
  ghost predicate Sound(c: Cache) {
    Distinct(c.order) && Listed(c)
  }

  ghost predicate Listed(c: Cache) {
    KeysOf(c) <= Elements(c.order)
  }

  /** The ids any of the caches holds something for. */
  ghost function KeysOf(c: Cache): set<Id> {
    c.elements.Keys + c.bounds.Keys + c.identities.Keys + c.rowBindings + c.anchorChecks.Keys
  }

  /** The ids an operation mints. */
  function Minted(op: Op): seq<Id> {
    match op
    case Find(found) => Ids(found)
    case CachePart(id, _, _, _) => [id]
    case CacheElement(id, _) => [id]
    case _ => []
  }

  function AllMinted(ops: seq<Op>): seq<Id> {
    if ops == [] then [] else AllMinted(ops[..|ops| - 1]) + Minted(ops[|ops| - 1])
  }

  lemma {:induction false} WithoutKeeps(order: seq<Id>, id: Id)
    requires Distinct(order)
    ensures Distinct(Without(order, id)) && id !in Without(order, id)
    ensures forall x :: x in Without(order, id) <==> x in order && x != id
    ensures |Without(order, id)| == if id in order then |order| - 1 else |order|
  {
    if order != [] {
      assert order == [order[0]] + order[1..];
      DistinctCons(order);
      if order[0] != id {
        WithoutKeeps(order[1..], id);
        DistinctCons(Without(order, id));
      }
    }
  }

  lemma PromoteKeeps(order: seq<Id>, id: Id)
    requires Distinct(order)
    ensures Distinct(Promote(order, id)) && |Promote(order, id)| == |order|
    ensures Elements(Promote(order, id)) == Elements(order)
  {
    WithoutKeeps(order, id);
    DistinctAppend(Without(order, id), [id]);
  }

  /** Pruning splits the list: what is kept and what goes are disjoint and together all of it. */
  lemma {:induction false} PruneSplits(order: seq<Id>, protected: set<Id>, overflow: nat)
    requires Distinct(order)
    ensures var kept := PruneOrder(order, protected, overflow);
      var gone := Victims(order, protected, overflow);
      Distinct(kept)
      && (forall x :: x in order <==> x in kept || x in gone)
      && (forall x :: x in gone ==> x !in kept && x !in protected)
      && |kept| + |gone| == |order| && |gone| <= overflow
  {
    if order != [] && overflow > 0 {
      assert order == [order[0]] + order[1..];
      DistinctCons(order);
      PruneSplits(order[1..], protected, if order[0] in protected then overflow else overflow - 1);
      if order[0] in protected {
        DistinctCons(PruneOrder(order, protected, overflow));
      }
    }
  }

  /** Victims are the least recently used: every unprotected id kept stood after every one that went. */
  lemma {:induction false} VictimsAreOldest(order: seq<Id>, protected: set<Id>, overflow: nat, i: nat, j: nat)
    requires Distinct(order) && i < |order| && j < |order|
    requires order[i] in Victims(order, protected, overflow)
    requires order[j] in PruneOrder(order, protected, overflow) && order[j] !in protected
    ensures i < j
  {
    var rest := if order[0] in protected then overflow else overflow - 1;
    PruneSplits(order, protected, overflow);
    DistinctCons(order);
    PruneSplits(order[1..], protected, rest);
    if i > 0 && j > 0 {
      VictimsAreOldest(order[1..], protected, rest, i - 1, j - 1);
    }
  }

  /** Eviction stops at the limit, or when only protected ids are left. */
  lemma {:induction false} PruneReaches(order: seq<Id>, protected: set<Id>, overflow: nat)
    ensures |Victims(order, protected, overflow)| == overflow
      || forall x :: x in PruneOrder(order, protected, overflow) ==> x in protected
  {
    if order != [] && overflow > 0 {
      PruneReaches(order[1..], protected, if order[0] in protected then overflow else overflow - 1);
    }
  }

  /** The list an operation leaves before it makes room. */
  function Extended(c: Cache, op: Op): seq<Id> {
    c.order + Minted(op)
  }

  lemma AddFoundKeys(c: Cache, f: Found)
    ensures AddFound(c, f).order == c.order + [f.id]
    ensures KeysOf(AddFound(c, f)) <= KeysOf(c) + {f.id}
  {
  }

  lemma AddAllUnfolds(c: Cache, found: seq<Found>)
    requires found != []
    ensures var init, f := found[..|found| - 1], found[|found| - 1];
      AddAll(c, found) == AddFound(AddAll(c, init), f) && Ids(found) == Ids(init) + [f.id]
      && Elements(Ids(found)) == Elements(Ids(init)) + {f.id}
  {
    var init, f := found[..|found| - 1], found[|found| - 1];
    assert Ids(found) == Ids(init) + [f.id];
    assert Elements(Ids(found)) == Elements(Ids(init)) + {f.id};
  }

  /** Registering a batch lists its ids, and holds something for no others. */
  lemma {:induction false} AddAllKeys(c: Cache, found: seq<Found>)
    ensures AddAll(c, found).order == c.order + Ids(found)
    ensures KeysOf(AddAll(c, found)) <= KeysOf(c) + Elements(Ids(found))
  {
    if found != [] {
      var init, f := found[..|found| - 1], found[|found| - 1];
      AddAllKeys(c, init);
      AddAllUnfolds(c, found);
      AddFoundKeys(AddAll(c, init), f);
      Associative(c.order, Ids(init), [f.id]);
    }
  }

  lemma ExtendedDistinct(c: Cache, op: Op)
    requires Distinct(c.order) && Distinct(Minted(op)) && Apart(Minted(op), c.order)
    ensures Distinct(Extended(c, op))
  {
    DistinctAppend(c.order, Minted(op));
  }

  lemma PruneKeepsSound(c: Cache, protected: set<Id>)
    requires Sound(c)
    ensures Sound(Prune(c, protected))
    ensures Prune(c, protected).order == Trim(c.order, protected)
  {
    TrimKeeps(c.order, protected);
    ForgetKeepsListed(c, Evicted(c.order, protected), Trim(c.order, protected));
  }

  lemma TrimKeeps(order: seq<Id>, protected: set<Id>)
    requires Distinct(order)
    ensures Distinct(Trim(order, protected))
    ensures forall x :: x in Trim(order, protected) ==> x in order
    ensures forall x :: x in order ==> x in Trim(order, protected) || x in Evicted(order, protected)
    ensures forall x :: x in Evicted(order, protected) ==> x !in Trim(order, protected) && x !in protected
    ensures |Trim(order, protected)| <= MAX_CACHE_SIZE || forall x :: x in Trim(order, protected) ==> x in protected
  {
    if |order| > MAX_CACHE_SIZE {
      var overflow := |order| - MAX_CACHE_SIZE;
      PruneSplits(order, protected, overflow);
      PruneReaches(order, protected, overflow);
      assert Trim(order, protected) == PruneOrder(order, protected, overflow);
      assert Evicted(order, protected) == Victims(order, protected, overflow);
    }
  }

  /** Forgetting the ids that leave the order keeps every cache's keys in it. */
  lemma ForgetKeepsListed(c: Cache, gone: seq<Id>, order: seq<Id>)
    requires Listed(c) && forall x :: x in c.order && x !in gone ==> x in order
    ensures Listed(Forget(c, Elements(gone)).(order := order))
  {
    assert forall x :: x in Elements(c.order) && x !in Elements(gone) ==> x in Elements(order);
  }

  lemma BeforePruneKeys(c: Cache, op: Op)
    ensures BeforePrune(c, op).order == Extended(c, op)
    ensures KeysOf(BeforePrune(c, op)) <= KeysOf(c) + Elements(Minted(op))
  {
    match op
    case Find(found) => AddAllKeys(c, found);
    case CachePart(id, _, _, _) => assert id in Elements(Minted(op));
    case CacheElement(id, _) => assert id in Elements(Minted(op));
    case _ => assert Extended(c, op) == c.order;
  }

  /** Ids listed at the end make room for their keys. */
  lemma ListedWith(c: Cache, d: Cache, ids: seq<Id>)
    requires Listed(c) && d.order == c.order + ids && KeysOf(d) <= KeysOf(c) + Elements(ids)
    ensures Listed(d)
  {
    assert forall x :: x in Elements(c.order) || x in Elements(ids) ==> x in Elements(d.order);
  }

  lemma BeforePruneSound(c: Cache, op: Op)
    requires Sound(c) && Distinct(Minted(op)) && Apart(Minted(op), c.order)
    ensures BeforePrune(c, op).order == Extended(c, op) && Sound(BeforePrune(c, op))
  {
    ExtendedDistinct(c, op);
    BeforePruneKeys(c, op);
    ListedWith(c, BeforePrune(c, op), Minted(op));
  }

  /** An operation that mints ids lists them last and then makes room. */
  lemma MintOrder(c: Cache, op: Op)
    requires Sound(c) && Distinct(Minted(op)) && Apart(Minted(op), c.order) && Mints(op)
    ensures Step(c, op).order == Trim(Extended(c, op), Protected(op))
    ensures Distinct(Extended(c, op))
  {
    BeforePruneSound(c, op);
  }

  /** The id that a get finds and so moves to the end of the list. */
  function Touched(c: Cache, op: Op): Option<Id> {
    match op
    case GetElement(id, _, _) => if id in c.elements then Some(id) else None
    case GetBounds(id) => if id in c.bounds then Some(id) else None
    case _ => None
  }

  /** An operation that mints nothing: it may reorder the list and drop a live element, no more. */
  lemma TouchShape(c: Cache, op: Op)
    requires !Mints(op) && !op.Clear?
    ensures Step(c, op).order == if Touched(c, op).Some? then Promote(c.order, Touched(c, op).value) else c.order
    ensures Step(c, op).bounds == c.bounds && Step(c, op).identities == c.identities
    ensures Step(c, op).elements.Keys <= c.elements.Keys
    ensures Step(c, op).rowBindings <= c.rowBindings && Step(c, op).anchorChecks.Keys <= c.anchorChecks.Keys
  {
    if op.GetElement? && op.id in c.elements {
      GetShape(c, op.id, op.named, op.live);
    }
  }

  lemma GetShape(c: Cache, id: Id, named: nat, live: Option<Frame>)
    requires id in c.elements
    ensures var d := AfterGet(c, id, named, live);
      d.order == Promote(c.order, id) && d.bounds == c.bounds && d.identities == c.identities
      && d.elements.Keys <= c.elements.Keys && d.rowBindings <= c.rowBindings
      && d.anchorChecks.Keys <= c.anchorChecks.Keys
  {
  }

  /** Every operation keeps the caches sound, lists only ids it was given, and never evicts the batch it returns. */
  lemma StepKeepsSound(c: Cache, op: Op)
    requires Sound(c) && Distinct(Minted(op)) && Apart(Minted(op), c.order)
    ensures Sound(Step(c, op))
    ensures forall x :: x in Step(c, op).order ==> x in c.order || x in Minted(op)
    ensures op.Find? ==> forall f :: f in op.found ==> f.id in Step(c, op).order
    ensures |Step(c, op).order| <=
      if op.Find? then Bound(|op.found|) else if Mints(op) then MAX_CACHE_SIZE else |c.order|
  {
    if Mints(op) {
      MintKeepsSound(c, op);
    } else if !op.Clear? {
      TouchKeepsSound(c, op);
    }
  }

  lemma TouchKeepsSound(c: Cache, op: Op)
    requires Sound(c) && !Mints(op) && !op.Clear?
    ensures Sound(Step(c, op)) && Elements(Step(c, op).order) == Elements(c.order)
    ensures |Step(c, op).order| == |c.order|
    ensures forall x :: x in Step(c, op).order ==> x in c.order
  {
    TouchShape(c, op);
    if Touched(c, op).Some? {
      PromoteKeeps(c.order, Touched(c, op).value);
    }
    assert forall x :: x in Step(c, op).order ==> x in Elements(Step(c, op).order);
  }

  lemma MintKeepsSound(c: Cache, op: Op)
    requires Sound(c) && Distinct(Minted(op)) && Apart(Minted(op), c.order) && Mints(op)
    ensures Sound(Step(c, op))
    ensures forall x :: x in Step(c, op).order ==> x in c.order || x in Minted(op)
    ensures op.Find? ==> forall f :: f in op.found ==> f.id in Step(c, op).order
    ensures |Step(c, op).order| <= if op.Find? then Bound(|op.found|) else MAX_CACHE_SIZE
  {
    BeforePruneSound(c, op);
    PruneKeepsSound(BeforePrune(c, op), Protected(op));
    assert Step(c, op).order == Trim(Extended(c, op), Protected(op));
    TrimKeepsBatch(c, op);
  }

  /** Making room leaves the whole of a find's batch, and no more than it or the limit. */
  lemma TrimKeepsBatch(c: Cache, op: Op)
    requires Distinct(Extended(c, op)) && Mints(op)
    ensures var order := Trim(Extended(c, op), Protected(op));
      (forall x :: x in order ==> x in c.order || x in Minted(op))
      && (op.Find? ==> forall f :: f in op.found ==> f.id in order)
      && |order| <= if op.Find? then Bound(|op.found|) else MAX_CACHE_SIZE
  {
    var order := Trim(Extended(c, op), Protected(op));
    TrimKeeps(Extended(c, op), Protected(op));
    if op.Find? {
      forall f | f in op.found ensures f.id in order {
        var i :| 0 <= i < |op.found| && op.found[i] == f;
        assert Ids(op.found)[i] == f.id;
      }
      BatchBound(order, Ids(op.found));
    } else if order != [] {
      assert order[0] in order;
    }
  }

  function Bound(n: nat): nat {
    if n <= MAX_CACHE_SIZE then MAX_CACHE_SIZE else n
  }

  /** A list of distinct ids all from one batch is no longer than the batch. */
  lemma {:induction false} BatchBound(order: seq<Id>, batch: seq<Id>)
    requires Distinct(order)
    ensures (forall x :: x in order ==> x in batch) ==> |order| <= |batch|
    decreases |order|
  {
    if order != [] && forall x :: x in order ==> x in batch {
      var last := order[|order| - 1];
      assert last in order;
      var i :| 0 <= i < |batch| && batch[i] == last;
      var fewer := batch[..i] + batch[i + 1..];
      forall x | x in order[..|order| - 1] ensures x in fewer {
        assert x in order;
        var k :| 0 <= k < |batch| && batch[k] == x;
        assert k < i ==> fewer[k] == x;
        assert k > i ==> fewer[k - 1] == x;
      }
      BatchBound(order[..|order| - 1], fewer);
    }
  }

  // ---------------------------------------------------------------- over every run

  /** Ids are minted afresh: none twice. */
  ghost predicate FreshRun(ops: seq<Op>) {
    Distinct(AllMinted(ops))
  }

  /** How large the batch of the last find was. */
  function LatestBatch(ops: seq<Op>): nat {
    if ops == [] then 0
    else
      var op := ops[|ops| - 1];
      if op.Find? then |op.found| else LatestBatch(ops[..|ops| - 1])
  }

  lemma FreshSplit(ops: seq<Op>)
    requires FreshRun(ops) && ops != []
    ensures FreshRun(ops[..|ops| - 1]) && Distinct(Minted(ops[|ops| - 1]))
    ensures Apart(Minted(ops[|ops| - 1]), AllMinted(ops[..|ops| - 1]))
  {
    var before, last := AllMinted(ops[..|ops| - 1]), Minted(ops[|ops| - 1]);
    DistinctAppend(before, last);
  }

  /** Over every run: nothing is listed twice, everything cached is listed, and the list stays bounded. */
  lemma {:induction false} RunIsSound(ops: seq<Op>)
    requires FreshRun(ops)
    ensures Sound(Run(EMPTY, ops))
    ensures forall x :: x in Run(EMPTY, ops).order ==> x in AllMinted(ops)
    ensures |Run(EMPTY, ops).order| <= Bound(LatestBatch(ops))
  {
    if ops != [] {
      FreshSplit(ops);
      RunIsSound(ops[..|ops| - 1]);
      StepKeepsSound(Run(EMPTY, ops[..|ops| - 1]), ops[|ops| - 1]);
    }
  }

  /** What the caches hold for the id of a match is what was found, and nothing else. */
  ghost predicate IsHeld(c: Cache, f: Found) {
    && f.id in c.bounds && c.bounds[f.id] == f.frame
    && f.id in c.identities && c.identities[f.id] == f.identity
    && IsBound(c, f.id, f.binding)
  }

  ghost predicate IsBound(c: Cache, id: Id, binding: Option<Binding>) {
    match binding
    case None => id !in c.elements && id !in c.rowBindings && id !in c.anchorChecks
    case Some(b) =>
      && id in c.elements && c.elements[id] == b.element
      && (id in c.rowBindings <==> b.checkFrame)
      && (id in c.anchorChecks <==> b.anchoredRows.Some?)
      && (b.anchoredRows.Some? ==> c.anchorChecks[id] == AnchorCheck(b.anchoredRows.value, None))
  }

  /** The batch just returned is listed, and each of its ids stands for what was found under it. */
  lemma BatchSurvives(ops: seq<Op>, found: seq<Found>, i: nat)
    requires FreshRun(ops + [Find(found)]) && i < |found|
    ensures var c := Run(EMPTY, ops + [Find(found)]);
      found[i].id in c.order && IsHeld(c, found[i])
  {
    var all, c := ops + [Find(found)], Run(EMPTY, ops);
    assert all[..|all| - 1] == ops;
    FreshSplit(all);
    RunIsSound(ops);
    BeforePruneSound(c, Find(found));
    StepKeepsSound(c, Find(found));
    assert Ids(found)[i] == found[i].id;
    AddAllHolds(c, found, i);
    PruneKeepsHeld(AddAll(c, found), Elements(Ids(found)), found[i]);
  }

  lemma {:induction false} AddAllHolds(c: Cache, found: seq<Found>, i: nat)
    requires i < |found| && Distinct(Ids(found)) && found[i].id !in KeysOf(c)
    ensures IsHeld(AddAll(c, found), found[i])
  {
    var init, f := found[..|found| - 1], found[|found| - 1];
    AddAllUnfolds(c, found);
    DistinctAppend(Ids(init), [f.id]);
    if i < |init| {
      AddAllHolds(c, init, i);
      assert Ids(init)[i] == found[i].id;
      AddFoundKeeps(AddAll(c, init), f, found[i]);
    } else {
      AddAllKeys(c, init);
      AddFoundHolds(AddAll(c, init), f);
    }
  }

  lemma AddFoundHolds(c: Cache, f: Found)
    requires f.id !in KeysOf(c)
    ensures IsHeld(AddFound(c, f), f)
  {
  }

  lemma AddFoundKeeps(c: Cache, f: Found, g: Found)
    requires f.id != g.id && IsHeld(c, g)
    ensures IsHeld(AddFound(c, f), g)
  {
  }

  lemma PruneKeepsHeld(c: Cache, protected: set<Id>, f: Found)
    requires Distinct(c.order) && f.id in protected && IsHeld(c, f)
    ensures IsHeld(Prune(c, protected), f)
  {
    TrimKeeps(c.order, protected);
  }

  /** An id whose live element was dropped never has one again, nor one that was evicted. */
  lemma {:induction false} DroppedStaysDropped(c: Cache, ops: seq<Op>, id: Id)
    requires id !in c.elements && id !in AllMinted(ops)
    ensures id !in Run(c, ops).elements
  {
    if ops != [] {
      var init, op := ops[..|ops| - 1], ops[|ops| - 1];
      assert forall x :: x in AllMinted(init) || x in Minted(op) ==> x in AllMinted(ops);
      DroppedStaysDropped(c, init, id);
      if op.Find? {
        AddAllElements(Run(c, init), op.found, id);
      } else if !Mints(op) && !op.Clear? {
        TouchShape(Run(c, init), op);
      }
    }
  }

  lemma {:induction false} AddAllElements(c: Cache, found: seq<Found>, id: Id)
    requires id !in Ids(found)
    ensures id in AddAll(c, found).elements <==> id in c.elements
  {
    if found != [] {
      assert Ids(found) == Ids(found[..|found| - 1]) + [found[|found| - 1].id];
      AddAllElements(c, found[..|found| - 1], id);
    }
  }

  /** A get either returns the live element unharmed, or drops it for good and says so. */
  lemma GetReturnsOrDrops(c: Cache, ops: seq<Op>, id: Id, named: nat, live: Option<Frame>)
    requires id !in AllMinted(ops)
    ensures GetResult(c, id, named, live).Some? ==>
      (id in c.rowBindings ==> id in c.bounds && IsFoundElement(c.bounds[id], live))
      && (id in c.anchorChecks ==> c.anchorChecks[id].checkedIn == Some(c.serial) || named == 1)
      && Step(c, GetElement(id, named, live)).elements == c.elements
    ensures GetResult(c, id, named, live).None? ==>
      forall n, l :: GetResult(Run(Step(c, GetElement(id, named, live)), ops), id, n, l) == None
  {
    if GetResult(c, id, named, live).None? {
      DroppedStaysDropped(Step(c, GetElement(id, named, live)), ops, id);
    }
  }

  // ---------------------------------------------------------------- least recently used

  /** Whether an operation uses an id: mints it, or gets it and finds it. */
  predicate Uses(c: Cache, op: Op, id: Id) {
    id in Minted(op) || Touched(c, op) == Some(id)
  }

  /** Which operation of the run used the id last, counted from one. */
  function LastUse(ops: seq<Op>, id: Id): nat {
    if ops == [] then 0
    else if Uses(Run(EMPTY, ops[..|ops| - 1]), ops[|ops| - 1], id) then |ops|
    else LastUse(ops[..|ops| - 1], id)
  }

  ghost predicate ByRecency(order: seq<Id>, ops: seq<Op>) {
    forall i, j :: 0 <= i < j < |order| ==> LastUse(ops, order[i]) <= LastUse(ops, order[j])
  }

  lemma {:induction false} LastUseBounded(ops: seq<Op>, id: Id)
    ensures LastUse(ops, id) <= |ops|
  {
    if ops != [] {
      LastUseBounded(ops[..|ops| - 1], id);
    }
  }

  /** The first of a list by recency may head any list by recency of others on it. */
  lemma FirstByRecency(order: seq<Id>, rest: seq<Id>, ops: seq<Op>)
    requires order != [] && ByRecency(order, ops) && ByRecency(rest, ops)
    requires forall x :: x in rest ==> x in order[1..]
    ensures ByRecency([order[0]] + rest, ops)
  {
    var all := [order[0]] + rest;
    forall i, j | 0 <= i < j < |all| ensures LastUse(ops, all[i]) <= LastUse(ops, all[j]) {
      assert all[j] == rest[j - 1] && rest[j - 1] in rest;
      if i == 0 {
        var k :| 0 <= k < |order[1..]| && order[1..][k] == rest[j - 1];
        assert order[k + 1] == all[j];
      } else {
        assert all[i] == rest[i - 1];
      }
    }
  }

  /** A sublist, in order, of a list by recency. */
  lemma {:induction false} PrunedByRecency(order: seq<Id>, protected: set<Id>, overflow: nat, ops: seq<Op>)
    requires ByRecency(order, ops)
    ensures ByRecency(PruneOrder(order, protected, overflow), ops)
    ensures forall x :: x in PruneOrder(order, protected, overflow) ==> x in order
  {
    if order != [] && overflow > 0 {
      var rest, left := order[1..], if order[0] in protected then overflow else overflow - 1;
      PrunedByRecency(rest, protected, left, ops);
      FirstByRecency(order, PruneOrder(rest, protected, left), ops);
    }
  }

  lemma {:induction false} WithoutByRecency(order: seq<Id>, id: Id, ops: seq<Op>)
    requires ByRecency(order, ops)
    ensures ByRecency(Without(order, id), ops)
    ensures forall x :: x in Without(order, id) ==> x in order
  {
    if order != [] && order[0] != id {
      var rest := order[1..];
      WithoutByRecency(rest, id, ops);
      FirstByRecency(order, Without(rest, id), ops);
    }
  }

  /** Before an operation makes room, its list is by recency: what was there, then what it used. */
  lemma ExtendedByRecency(ops: seq<Op>)
    requires FreshRun(ops) && ops != [] && Mints(ops[|ops| - 1])
    requires ByRecency(Run(EMPTY, ops[..|ops| - 1]).order, ops[..|ops| - 1])
    ensures ByRecency(Extended(Run(EMPTY, ops[..|ops| - 1]), ops[|ops| - 1]), ops)
  {
    var init, op := ops[..|ops| - 1], ops[|ops| - 1];
    var c := Run(EMPTY, init);
    FreshSplit(ops);
    RunIsSound(init);
    forall x | x in c.order ensures LastUse(ops, x) == LastUse(init, x) && LastUse(ops, x) <= |ops| {
      LastUseBounded(ops, x);
    }
    assert forall i :: 0 <= i < |c.order| ==> c.order[i] in c.order;
    assert forall i :: 0 <= i < |Minted(op)| ==> Minted(op)[i] in Minted(op);
  }

  /** Over every run the list runs from the least to the most recently used. */
  lemma {:induction false} OrderIsByRecency(ops: seq<Op>)
    requires FreshRun(ops)
    ensures ByRecency(Run(EMPTY, ops).order, ops)
  {
    if ops != [] {
      var init, op := ops[..|ops| - 1], ops[|ops| - 1];
      FreshSplit(ops);
      OrderIsByRecency(init);
      var c := Run(EMPTY, init);
      if Mints(op) {
        RunIsSound(init);
        MintOrder(c, op);
        ExtendedByRecency(ops);
        if |Extended(c, op)| > MAX_CACHE_SIZE {
          PrunedByRecency(Extended(c, op), Protected(op), |Extended(c, op)| - MAX_CACHE_SIZE, ops);
        }
      } else {
        TouchedByRecency(ops);
      }
    }
  }

  lemma TouchedByRecency(ops: seq<Op>)
    requires FreshRun(ops) && ops != [] && !Mints(ops[|ops| - 1])
    requires ByRecency(Run(EMPTY, ops[..|ops| - 1]).order, ops[..|ops| - 1])
    ensures ByRecency(Run(EMPTY, ops).order, ops)
  {
    var c, op := Run(EMPTY, ops[..|ops| - 1]), ops[|ops| - 1];
    OrderAfterTouch(ops);
    if op.Clear? {
      assert Run(EMPTY, ops).order == [];
    } else if Touched(c, op).Some? {
      PromotedByRecency(ops, Touched(c, op).value);
    } else {
      UntouchedByRecency(ops);
    }
  }

  /** The list after an operation that mints nothing. */
  lemma OrderAfterTouch(ops: seq<Op>)
    requires FreshRun(ops) && ops != [] && !Mints(ops[|ops| - 1])
    ensures var c, op := Run(EMPTY, ops[..|ops| - 1]), ops[|ops| - 1];
      Distinct(c.order) && Minted(op) == []
      && (Touched(c, op).Some? ==> Touched(c, op).value in c.order)
      && Run(EMPTY, ops).order ==
           if op.Clear? then [] else if Touched(c, op).Some? then Promote(c.order, Touched(c, op).value) else c.order
  {
    var init, op := ops[..|ops| - 1], ops[|ops| - 1];
    var c := Run(EMPTY, init);
    FreshSplit(ops);
    RunIsSound(init);
    RunUnfolds(ops);
    if !op.Clear? {
      TouchShape(c, op);
    }
    if Touched(c, op).Some? {
      TouchedIsListed(c, op);
    }
  }

  lemma UntouchedByRecency(ops: seq<Op>)
    requires ops != [] && !Mints(ops[|ops| - 1]) && Touched(Run(EMPTY, ops[..|ops| - 1]), ops[|ops| - 1]).None?
    requires ByRecency(Run(EMPTY, ops[..|ops| - 1]).order, ops[..|ops| - 1])
    ensures ByRecency(Run(EMPTY, ops[..|ops| - 1]).order, ops)
  {
    SameByRecency(Run(EMPTY, ops[..|ops| - 1]).order, ops);
  }

  lemma RunUnfolds(ops: seq<Op>)
    requires ops != []
    ensures Run(EMPTY, ops) == Step(Run(EMPTY, ops[..|ops| - 1]), ops[|ops| - 1])
  {
  }

  lemma TouchedIsListed(c: Cache, op: Op)
    requires Sound(c) && Touched(c, op).Some?
    ensures Touched(c, op).value in c.order && Minted(op) == []
  {
    assert Touched(c, op).value in KeysOf(c);
  }

  /** Ids an operation does not use keep their last use. */
  lemma SameByRecency(order: seq<Id>, ops: seq<Op>)
    requires ops != [] && ByRecency(order, ops[..|ops| - 1])
    requires forall x :: x in order ==> !Uses(Run(EMPTY, ops[..|ops| - 1]), ops[|ops| - 1], x)
    ensures ByRecency(order, ops)
  {
    forall x | x in order ensures LastUse(ops, x) == LastUse(ops[..|ops| - 1], x) {
    }
    assert forall i :: 0 <= i < |order| ==> order[i] in order;
  }

  /** The id an operation uses goes to the end, after ids that keep their last use. */
  lemma PromotedByRecency(ops: seq<Op>, id: Id)
    requires ops != []
    requires var c := Run(EMPTY, ops[..|ops| - 1]);
      Distinct(c.order) && ByRecency(c.order, ops[..|ops| - 1]) && id in c.order
      && Minted(ops[|ops| - 1]) == [] && Touched(c, ops[|ops| - 1]) == Some(id)
    ensures ByRecency(Promote(Run(EMPTY, ops[..|ops| - 1]).order, id), ops)
  {
    var init := ops[..|ops| - 1];
    var rest := Without(Run(EMPTY, init).order, id);
    WithoutByRecency(Run(EMPTY, init).order, id, init);
    WithoutKeeps(Run(EMPTY, init).order, id);
    SameByRecency(rest, ops);
    forall x ensures LastUse(ops, x) <= LastUse(ops, id) {
      LastUseBounded(ops, x);
    }
  }

  /** What an operation evicts was used no later than anything unprotected that it keeps. */
  lemma EvictsLeastRecentlyUsed(ops: seq<Op>, victim: Id, kept: Id)
    requires FreshRun(ops) && ops != []
    requires Mints(ops[|ops| - 1]) && victim in Extended(Run(EMPTY, ops[..|ops| - 1]), ops[|ops| - 1])
    requires victim !in Run(EMPTY, ops).order
    requires kept in Run(EMPTY, ops).order && kept !in Protected(ops[|ops| - 1])
    ensures LastUse(ops, victim) <= LastUse(ops, kept)
    ensures victim !in Protected(ops[|ops| - 1])
  {
    var order := RunTrims(ops);
    TrimmedOldest(order, Protected(ops[|ops| - 1]), ops, victim, kept);
  }

  /** The list after a minting operation is a trimmed list by recency. */
  lemma RunTrims(ops: seq<Op>) returns (order: seq<Id>)
    requires FreshRun(ops) && ops != [] && Mints(ops[|ops| - 1])
    ensures order == Extended(Run(EMPTY, ops[..|ops| - 1]), ops[|ops| - 1])
    ensures Run(EMPTY, ops).order == Trim(order, Protected(ops[|ops| - 1]))
    ensures Distinct(order) && ByRecency(order, ops)
  {
    var init, op := ops[..|ops| - 1], ops[|ops| - 1];
    FreshSplit(ops);
    RunIsSound(init);
    OrderIsByRecency(init);
    MintOrder(Run(EMPTY, init), op);
    ExtendedByRecency(ops);
    order := Extended(Run(EMPTY, init), op);
  }

  lemma TrimmedOldest(order: seq<Id>, protected: set<Id>, ops: seq<Op>, victim: Id, kept: Id)
    requires Distinct(order) && ByRecency(order, ops)
    requires victim in order && victim !in Trim(order, protected)
    requires kept in Trim(order, protected) && kept !in protected
    ensures LastUse(ops, victim) <= LastUse(ops, kept) && victim !in protected
  {
    TrimDrops(order, protected, victim);
    TrimDrops(order, protected, kept);
    var i: nat :| i < |order| && order[i] == victim;
    var j: nat :| j < |order| && order[j] == kept;
    VictimsAreOldest(order, protected, |order| - MAX_CACHE_SIZE, i, j);
  }

  /** What a trim takes off the list is what pruning evicts. */
  lemma TrimDrops(order: seq<Id>, protected: set<Id>, x: Id)
    requires Distinct(order)
    ensures x in Trim(order, protected) ==> x in order
    ensures x in order && x !in Trim(order, protected) ==>
      (|order| > MAX_CACHE_SIZE && x !in protected && x in Victims(order, protected, |order| - MAX_CACHE_SIZE))
  {
    if |order| > MAX_CACHE_SIZE {
      PruneSplits(order, protected, |order| - MAX_CACHE_SIZE);
    }
  }
}
