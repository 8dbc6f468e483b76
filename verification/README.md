# Verified model of the Tapsmith iOS agent's element and touch logic

The iOS agent reads an accessibility tree of the app under test, decides which nodes a locator means,
works out how each can be found again later, and decides where a touch may land without hitting something
else. This project models that logic in Dafny and proves what it is for. `dafny verify dfyconfig.toml`
checks all of it.

## What is modelled

- **Finding elements.** `MatchWalk` is the one-pass walk as a function, `MatchWalker` the walk itself with its
  results, ancestor stack and set of dropped matches as fields. The selector test is any Boolean function of a
  node and its surroundings. `RowAnchor`, `RowBinding` and `RowResolution` are the table rows: which text names
  a row, how nodes are counted inside it, and the query that finds a node there again. `QueryIndex` and
  `TextMatch` are the other queries, by label, placeholder and text, and `PositionalIndex` the binding of a match
  by its place among a query's results. A live query is a filter over the nodes in pre-order, and the reuse of
  cells an arbitrary permutation of what it returns. `ElementCache` is the caches an id lives in and the list they
  are evicted by.
- **Where a touch may land.** `Flattening` lays the tree out in an array, `CellFrames` places the contents of
  unloaded table rows, `Subtraction` and `KeyboardRegion` cut rectangles and find the keyboard,
  `OcclusionAnalyzer` and `OcclusionVerdict` judge a target, and `KeyboardDismissPlanner` searches for the
  clearest point. Rectangles are over the reals, with a null rectangle and sizes that are not negative.
- **Protocols and timed loops.** `HooksAck` (acknowledging resets and deep links), `TouchPlanClock`, `TouchPlan`,
  `TouchSettle` and `SettledTouch` (planning a touch), `NavigationTransition`, and `Framing` with `SocketServer`.
  The app, the clock, the screen and the socket are parameters: functions that say what each reading gives and
  how much time passes around it, or the events of a run in any order.
- **Text and checksums.** `XmlText` (escaping in the hierarchy dump and the decoder the end-to-end tests use),
  `LinearCode` and `Crc` (the table-driven CRC of the PNG writer).

`Wrappers`, `Sequences`, `Trees`, `ElementTypes`, `Geometry` and `Snapshot` hold what the rest shares.

## Where the code does less than its comments say

Four properties turned out false of the code as it stands. Each has a lemma with an input that shows it and
one with the exact condition under which the code does what is promised.

- Counters inside a row are keyed by a label and an identifier joined with U+0001, so a label that holds that
  character can be counted together with another node, and a match after it in the row is then not found again
  (`RowResolution.JoinedKeysClash`, an application with one row; `RowResolution.RowResolutionExact`,
  `RowResolution.RowResolutionPlainLabels`).
- A match bound by its place in a query is promised to be found at place 0 at least (the known limitation written
  above `resolve`, SnapshotElementFinder.swift:1875-1883). A locator by test id or id queries every type, so it
  also returns a wrapper that shares the identifier and was suppressed, ahead of the match that was kept
  (`PositionalIndex.FirstIsMisbound`; `PositionalIndex.IndexFindsIff` for every query,
  `PositionalIndex.IdIndexIff`, `PositionalIndex.SuppressionMisbinds`).
- When a boot token is missing from either reading of the marker, a reset in a relaunched app goes unnoticed
  until the new count passes the old one (`HooksAck.MissingBootHidesReset`, `HooksAck.AcknowledgedIff`).
- A touch target that is seen to change and then cannot be sampled any more is touched at the point planned
  before the change, because an unreadable outcome never counts as a change (`SettledTouch.StaleTouch`,
  `SettledTouch.StaleIff`).

`RowResolutionExact` also asks that the root be no cell. The root of a snapshot is the application, so the agent
always meets that (`RowResolution.RowResolutionInSnapshot`). A row's own nodes are taken to come in the tree's
order from the query inside the row, unless the row holds rows; `RowResolution.OrderProofIff` says when their
order does not matter.

`subtract` gives back a rectangle without area untouched, even one inside the cut; it is null exactly when the
rectangle was, or had some area and lost all of it (`Subtraction.SubtractNullIff`).

## Model

| member | source | states |
|---|---|---|
| MatchWalker.Walker.FindMatches | ios-agent/TapsmithAgent/SnapshotElementFinder.swift:1365-1589 | the recursive walk appends exactly the matches of the walk function, records the keyboard nodes it passes over, marks exactly the matches the quadratic rule drops, and leaves the ancestor stack as it found it |
| MatchWalker.Walker.TypesOf | ios-agent/TapsmithAgent/SnapshotElementFinder.swift:1329-1363 | the scan of a subtree that is left out lists the types of exactly the nodes the selector takes there |
| MatchWalker.FindElements | ios-agent/TapsmithAgent/SnapshotElementFinder.swift:208-281 | what is returned is every match less those that have a matching descendant which stands in for them, by the quadratic rule |
| MatchWalker.Walker.Suppress | ios-agent/TapsmithAgent/SnapshotElementFinder.swift:1494-1509 | marking over the stack keeps the marked set equal to the quadratic rule when a new match is recorded |
| MatchWalk.CollectInOrder | ios-agent/TapsmithAgent/SnapshotElementFinder.swift:1365-1589 | the matches are positions of the tree in strictly increasing pre-order, each with its own node |
| MatchWalk.DroppedIsAnyBelow | ios-agent/TapsmithAgent/SnapshotElementFinder.swift:1470-1509 | in an in-order result a match is dropped iff some match properly below it in the tree satisfies the suppression rule |
| MatchWalk.SurvivorBelow | ios-agent/TapsmithAgent/SnapshotElementFinder.swift:278-281 | every dropped match has a match properly below it that is kept |
| MatchWalk.SuppressionKeepsSome | ios-agent/TapsmithAgent/SnapshotElementFinder.swift:278-281 | suppression never empties a result that was not empty |
| RowAnchor.CellCounts | ios-agent/TapsmithAgent/RowAnchor.swift:57-62 | the count of a text is the number of cells of the tree that hold it |
| RowAnchor.AnchorExists | ios-agent/TapsmithAgent/RowAnchor.swift:67-74 | a cell has an anchor iff it holds some text that a single cell holds, and its anchor is one such |
| RowAnchor.AnchorNamesOneCell | ios-agent/TapsmithAgent/RowAnchor.swift:67-74 | two cells holding the anchor of one are the same cell |
| RowAnchor.AnchoredIsOutermost | ios-agent/TapsmithAgent/RowAnchor.swift:57-74 | no path from the root meets two cells of which one is anchored |
| RowAnchor.OffersIffSatisfies | ios-agent/TapsmithAgent/RowAnchor.swift:37-86 | a node offers a text as anchor iff it satisfies the predicate made from it |
| RowAnchor.Scope.Visit | ios-agent/TapsmithAgent/RowAnchor.swift:121-137 | the number given is how many nodes seen before share the node's own counter, and all four counters have then seen it |
| RowAnchor.Scope.VisitSubtree | ios-agent/TapsmithAgent/RowAnchor.swift:141-150 | a skipped subtree is counted node by node in pre-order |
| RowAnchor.NumberIsIndex | ios-agent/TapsmithAgent/RowAnchor.swift:121-137 | with no clash of joined keys among the nodes seen the number is the index among the row's nodes with that type, label and identifier, and otherwise it is larger |
| RowAnchor.ClashNeedsSeparator | ios-agent/TapsmithAgent/RowAnchor.swift:121-137 | nodes are counted together by mistake only if a label holds U+0001 |
| RowResolution.MatchesTagged | ios-agent/TapsmithAgent/SnapshotElementFinder.swift:1402-1447 | a match carries an anchor iff it is an anchored row or stands in one, and then the anchor is that row's, the index counts its kind before it there, and `nested` says whether the row holds rows |
| RowResolution.RowResolutionExact | ios-agent/TapsmithAgent/SnapshotElementFinder.swift:2118-2145 | for every tree and selector a tagged match is found again at its own place iff the root is no cell and its number suffers no key clash |
| RowResolution.RowResolutionPlainLabels | ios-agent/TapsmithAgent/SnapshotElementFinder.swift:2118-2145 | with labels free of U+0001 below a root that is no cell every tagged match is found again |
| RowResolution.RowResolutionInSnapshot | ios-agent/TapsmithAgent/SnapshotElementFinder.swift:2118-2145 | in a tree whose root is an application, as every snapshot's is, a tagged match is found again iff its number suffers no key clash |
| RowResolution.JoinedKeysClash | ios-agent/TapsmithAgent/RowAnchor.swift:121-137 | in some application's tree a tagged match is not found again, two nodes of its row being counted together |
| RowResolution.MiscountedIsLost | ios-agent/TapsmithAgent/RowAnchor.swift:121-137 | any match in an anchored row after a node it is counted with by mistake is tagged, and not found again |
| RowResolution.NestedIffRowHoldsRows | ios-agent/TapsmithAgent/SnapshotElementFinder.swift:1402-1447 | a numbered match is tagged nested iff its row holds rows of its own |
| RowResolution.UncheckedRowIsStable | ios-agent/TapsmithAgent/RowBinding.swift:52-104 | a row binding left unchecked finds its row in whatever order rows are returned; the match in it, which then holds no rows, if the query inside the row answers in the tree's order, and in every order iff that query has one result |
| RowResolution.OrderProofIff | ios-agent/TapsmithAgent/RowBinding.swift:95-104 | an index that is right in the tree's order is right in every order iff the query inside the row has one result |
| PositionalIndex.SweepRecords | ios-agent/TapsmithAgent/SnapshotElementFinder.swift:1401-1415 | what a match records of the keyboard is exactly the types of the nodes left out before it that the selector takes |
| PositionalIndex.IndexCounts | ios-agent/TapsmithAgent/SnapshotElementFinder.swift:1886-1911 | a match's index among those kept, past the recorded types in scope, is the number of earlier nodes that are kept or are the keyboard's, of a type in scope and taken by the selector |
| PositionalIndex.IndexFindsIff | ios-agent/TapsmithAgent/SnapshotElementFinder.swift:1886-1911 | for every query the match is found at that index iff as many earlier nodes are returned without being counted as are counted without being returned |
| PositionalIndex.IdIndices | ios-agent/TapsmithAgent/SnapshotElementFinder.swift:285-294 | the other index of a match is its number among the kept matches with its identifier |
| PositionalIndex.IdentifierIndexIff | ios-agent/TapsmithAgent/SnapshotElementFinder.swift:1899-1910 | exactly when that index finds the match in a query narrowed to its identifier, which counts nothing of the keyboard |
| PositionalIndex.IdIndexIff | ios-agent/TapsmithAgent/SnapshotElementFinder.swift:1945-1955 | a match of a locator by test id or id is found at its index iff every earlier node with that identifier is a kept match or the keyboard's, no hooks marker being in the keyboard |
| PositionalIndex.SuppressionMisbinds | ios-agent/TapsmithAgent/SnapshotElementFinder.swift:1875-1885 | such a match below one that was suppressed is bound to another node |
| PositionalIndex.SuppressionMisbindsSome | ios-agent/TapsmithAgent/SnapshotElementFinder.swift:1875-1885 | so whenever suppression drops a match of such a locator some kept match is bound to another node |
| PositionalIndex.FirstIsMisbound | ios-agent/TapsmithAgent/SnapshotElementFinder.swift:1880-1882 | in some application's tree the first match of such a locator is bound to another node |
| QueryIndex.NumberDescendants | ios-agent/TapsmithAgent/SnapshotElementFinder.swift:1098-1113 | nodes are numbered by their place in the pre-order list, in the tree and in the list alike |
| QueryIndex.LiveIndex | ios-agent/TapsmithAgent/TextMatch.swift:153-163 | the label index counts the earlier nodes the label query returns |
| QueryIndex.PlaceholderLiveIndex | ios-agent/TapsmithAgent/TextMatch.swift:182-192 | the placeholder index counts the earlier nodes the placeholder query returns |
| QueryIndex.SubstringLiveIndex | ios-agent/TapsmithAgent/TextMatch.swift:229-239 | the text index counts the earlier nodes the pattern query returns |
| QueryIndex.LabelIndexPicksNode | ios-agent/TapsmithAgent/TextMatch.swift:153-163 | that index into the live label query gives the node it was computed for |
| QueryIndex.PlaceholderIndexPicksNode | ios-agent/TapsmithAgent/TextMatch.swift:182-192 | likewise for the placeholder query |
| QueryIndex.ExactTextIndexPicksNode | ios-agent/TapsmithAgent/TextMatch.swift:218-239 | likewise for the exact text query, whose device side is a pattern and whose count is a comparison |
| QueryIndex.SubstringTextIndexPicksNode | ios-agent/TapsmithAgent/TextMatch.swift:208-239 | likewise for the substring query, letters compared under case folding |
| QueryIndex.UncheckedPlaceIsStable | ios-agent/TapsmithAgent/RowBinding.swift:95-104 | a binding by label left unchecked gives the same node under every permutation of the query's results |
| QueryIndex.UncheckedPlaceholderIsStable | ios-agent/TapsmithAgent/TextMatch.swift:196-203 | so does one by placeholder |
| TextMatch.NormalizeText | ios-agent/TapsmithAgent/TextMatch.swift:37-48 | the loop over the buffer computes the normalized form |
| TextMatch.NormalizeIdempotent | ios-agent/TapsmithAgent/TextMatch.swift:37-48 | normalizing twice is normalizing once |
| TextMatch.ExactPatternAgrees | ios-agent/TapsmithAgent/TextMatch.swift:53-55 | a label matches the exact pattern iff its normalized form equals the query's, on all strings |
| TextMatch.ContainsAgrees | ios-agent/TapsmithAgent/TextMatch.swift:64-69 | a label matches the substring pattern iff its folded normalized form contains the query's, and the shortcut for an empty text changes nothing |
| TextMatch.WordsPatternMatches | ios-agent/TapsmithAgent/TextMatch.swift:107-131 | what the joined words match is exactly what starts and ends in ink and normalizes to the words |
| ElementCache.Finder.RegisterFound | ios-agent/TapsmithAgent/SnapshotElementFinder.swift:390-508 | registering a batch does to the five caches and the list what one find operation of the specification does |
| ElementCache.Finder.PruneCacheLocked | ios-agent/TapsmithAgent/SnapshotElementFinder.swift:598-617 | the eviction loop takes exactly the first unprotected ids, as many as are over the limit, out of every cache |
| ElementCache.Finder.Get | ios-agent/TapsmithAgent/SnapshotElementFinder.swift:633-693 | a get returns the live element or drops it, and moves the id to the recent end |
| ElementCache.Finder.Bounds | ios-agent/TapsmithAgent/SnapshotElementFinder.swift:722-730 | bounds that are held are returned, and the id moved to the recent end; nothing else changes |
| ElementCache.Finder.Part | ios-agent/TapsmithAgent/SnapshotElementFinder.swift:757-793 | caching a part does to the caches what one such operation of the specification does |
| ElementCache.Finder.Cached | ios-agent/TapsmithAgent/SnapshotElementFinder.swift:795-813 | likewise for caching an element |
| ElementCache.Finder.ClearCaches | ios-agent/TapsmithAgent/SnapshotElementFinder.swift:548-558 | likewise for clearing |
| ElementCache.RunIsSound | ios-agent/TapsmithAgent/SnapshotElementFinder.swift:390-416 | after any run no id is listed twice, every cached id is listed, and the list is no longer than the limit or the latest batch |
| ElementCache.BatchSurvives | ios-agent/TapsmithAgent/SnapshotElementFinder.swift:498-508 | after the eviction that follows a find each id of its batch is listed and stands for what was found under it: frame, identity, live element and checks, and nothing else |
| ElementCache.OrderIsByRecency | ios-agent/TapsmithAgent/SnapshotElementFinder.swift:7-12 | after any run the list is in the order of last use |
| ElementCache.EvictsLeastRecentlyUsed | ios-agent/TapsmithAgent/SnapshotElementFinder.swift:598-617 | what is evicted was used no later than anything kept that is not protected, and is not protected |
| ElementCache.VictimsAreOldest | ios-agent/TapsmithAgent/SnapshotElementFinder.swift:598-617 | every victim stands before every unprotected id that is kept |
| ElementCache.DroppedStaysDropped | ios-agent/TapsmithAgent/SnapshotElementFinder.swift:633-693 | a live element dropped for an id never comes back for it unless one is stored anew |
| ElementCache.GetReturnsOrDrops | ios-agent/TapsmithAgent/SnapshotElementFinder.swift:633-693 | a get returns a checked element only at the frame it was found at; after one that returns nothing every later get of that id does |
| Flattening.Flattener.Walk | ios-agent/TapsmithAgent/OcclusionAnalyzer.swift:128-143 | the recursive walk appends the layout of the subtree, each end filled in after the children |
| Flattening.FlatTreeSays | ios-agent/TapsmithAgent/OcclusionAnalyzer.swift:126-145 | parents come before children, ends are ends of subtrees, and parents are the parents of the tree |
| Flattening.Ancestors | ios-agent/TapsmithAgent/OcclusionAnalyzer.swift:430-438 | the loop up the parent chain ends and lists the chain, innermost first |
| Flattening.AncestryAgrees | ios-agent/TapsmithAgent/OcclusionAnalyzer.swift:279-302 | being in the parent chain, being above in the tree and the index interval test are the same, on every tree |
| CellFrames.Place | ios-agent/TapsmithAgent/CellFrames.swift:73-89 | the recursive rewrite places every node and reports a change iff some node changed |
| CellFrames.PlaceNodes | ios-agent/TapsmithAgent/OcclusionAnalyzer.swift:103-124 | the array loop gives every node the frame its parent chain's contexts call for |
| CellFrames.PlacingCommutesWithFlattening | ios-agent/TapsmithAgent/CellFrames.swift:42-87 | placing then flattening is flattening then placing, on every tree and from every start |
| CellFrames.PlacingIdempotent | ios-agent/TapsmithAgent/CellFrames.swift:42-87 | placing twice is placing once |
| CellFrames.ContextMeans | ios-agent/TapsmithAgent/CellFrames.swift:49-57 | the context handed down is the common part of the scroll views around the node, and its nearest cell if that is outside it |
| CellFrames.MovedIff | ios-agent/TapsmithAgent/CellFrames.swift:42-57 | a node is moved iff its nearest cell is off screen as placed and shares no area with it |
| CellFrames.MovedIsOffViewport | ios-agent/TapsmithAgent/CellFrames.swift:42-57 | a moved node shares no area with what the scroll views around it show |
| Subtraction.SubtractIsOptimal | ios-agent/TapsmithAgent/OcclusionAnalyzer.swift:563-573 | what is left lies in the rectangle, clear of the cut, and no rectangle that does is larger |
| Subtraction.SubtractNullIff | ios-agent/TapsmithAgent/OcclusionAnalyzer.swift:563-573 | some area is left iff some rectangle of positive area can be, and exactly when the result is null |
| Subtraction.SubtractPrefersAbove | ios-agent/TapsmithAgent/OcclusionAnalyzer.swift:563-573 | among pieces of the same area the one above the cut is taken |
| KeyboardRegion.KeyboardWindows | ios-agent/TapsmithAgent/OcclusionAnalyzer.swift:312-324 | a window counts iff it is not the main one and a keyboard is rooted in it |
| KeyboardRegion.KeyboardArea | ios-agent/TapsmithAgent/OcclusionAnalyzer.swift:335-362 | the loop finds the region that begins at the highest part counted with the first sized keyboard |
| KeyboardRegion.RegionIsUnique | ios-agent/TapsmithAgent/OcclusionAnalyzer.swift:335-362 | that description fits one region only, and none iff no keyboard has a size |
| KeyboardRegion.RegionCoversKeyboard | ios-agent/TapsmithAgent/OcclusionAnalyzer.swift:335-362 | the region holds the keyboard's on-screen part and, when docked, that of every counted part and all below |
| OcclusionAnalyzer.FromSnapshot | ios-agent/TapsmithAgent/OcclusionAnalyzer.swift:103-145 | flattening and placing give an array whose intervals agree with its parent chains, with the reported frames beside it |
| OcclusionAnalyzer.Locate | ios-agent/TapsmithAgent/OcclusionAnalyzer.swift:266-277 | the target is the last node that fits it |
| OcclusionAnalyzer.BarClipsIff | ios-agent/TapsmithAgent/OcclusionAnalyzer.swift:279-302 | the interval tests decide whether a bar the target is not part of is painted over it, told by ancestry |
| OcclusionAnalyzer.ShownIs | ios-agent/TapsmithAgent/OcclusionAnalyzer.swift:422-428 | clipping gives the largest part that every scroll view around the node shows |
| OcclusionAnalyzer.ClipToScrollers | ios-agent/TapsmithAgent/OcclusionAnalyzer.swift:169-178 | giving up early loses nothing: too little is left at the end iff the loop gives up |
| OcclusionAnalyzer.FindCover | ios-agent/TapsmithAgent/OcclusionAnalyzer.swift:213-231 | the loop finds the last control painted after the target, and not in it, that takes a touch at the point |
| OcclusionAnalyzer.Analyze | ios-agent/TapsmithAgent/OcclusionAnalyzer.swift:149-233 | the verdict is the one the specification gives |
| OcclusionVerdict.VerdictIsUnique | ios-agent/TapsmithAgent/OcclusionAnalyzer.swift:149-233 | a target gets one verdict |
| OcclusionVerdict.ClearIsSound | ios-agent/TapsmithAgent/OcclusionAnalyzer.swift:149-233 | a clear verdict against the hit test: the free part lies in the target, the screen and every scroller, apart from the keyboard and every covering bar, and no later control takes a touch at its centre |
| OcclusionVerdict.NamedPlaceIsFree | ios-agent/TapsmithAgent/OcclusionAnalyzer.swift:149-233 | whenever a verdict names a place it is free in that sense, whatever the hit test said |
| OcclusionVerdict.UncoveredIsClear | ios-agent/TapsmithAgent/OcclusionAnalyzer.swift:149-233 | a target with nothing over it is clear, at the centre of all that shows of it |
| OcclusionVerdict.CoverIsReal | ios-agent/TapsmithAgent/OcclusionAnalyzer.swift:149-233 | the cover named takes some of what shows of the target, or the touch itself |
| OcclusionVerdict.OffScreenIff | ios-agent/TapsmithAgent/OcclusionAnalyzer.swift:149-178 | a target is off screen iff no spot large enough to touch lies in it, the screen and every scroller, or it was moved |
| OcclusionVerdict.GoneIff | ios-agent/TapsmithAgent/OcclusionAnalyzer.swift:156-166 | exactly when a target is gone, and what an unlocated one implies |
| KeyboardDismissPlanner.ClearestPoint | ios-agent/TapsmithAgent/KeyboardDismissPlanner.swift:486-515 | the point found is the first grid point of maximal clearance over all blockers, and none is found iff none is clear enough |
| KeyboardDismissPlanner.NearBlockersSuffice | ios-agent/TapsmithAgent/KeyboardDismissPlanner.swift:490-495 | leaving out blockers away from the inflated rectangle does not change the clearance of any point |
| KeyboardDismissPlanner.MeasureClearance | ios-agent/TapsmithAgent/KeyboardDismissPlanner.swift:501-507 | stopping at the first blocker that is too close gives the clearance, or one below the limit with it |
| KeyboardDismissPlanner.DistanceIsLeast | ios-agent/TapsmithAgent/KeyboardDismissPlanner.swift:518-522 | the distance is the least to any point of the rectangle |
| KeyboardDismissPlanner.FoundKeepsAway | ios-agent/TapsmithAgent/KeyboardDismissPlanner.swift:486-515 | the point found keeps the touch clearance from the edges and from every sized blocker in the tree |
| KeyboardDismissPlanner.FoundIff | ios-agent/TapsmithAgent/KeyboardDismissPlanner.swift:486-515 | a point is found iff some grid point is clear enough |
| HooksAck.AcknowledgedIff | ios-agent/TapsmithAgent/CommandHandler.swift:248-253 | for every run of resets, links and relaunches, exactly when a reading acknowledges, with and without boot tokens |
| HooksAck.AcknowledgedIsSound | ios-agent/TapsmithAgent/CommandHandler.swift:208-253 | an acknowledged counter was bumped after the first reading, even with tokens missing or equal |
| HooksAck.MissingBootHidesReset | ios-agent/TapsmithAgent/CommandHandler.swift:248-253 | a reset in a relaunched app that goes unnoticed for want of a token |
| HooksAck.WaitForHooksEpoch | ios-agent/TapsmithAgent/CommandHandler.swift:255-286 | the loop returns the outcome of the first turn that decides in time, or times out when no turn in time would, after a bounded number of turns |
| HooksAck.WaitForHooksNav | ios-agent/TapsmithAgent/CommandHandler.swift:212-240 | the loop succeeds iff some turn before the deadline acknowledges |
| HooksAck.Acknowledge | ios-agent/TapsmithAgent/CommandHandler.swift:2425-2522 | a success for a declared reset or link means one happened since the reading, and a refusal that no reading showed it |
| TouchPlanClock.Clock.ShouldFallBackWhenUnlocated | ios-agent/TapsmithAgent/TouchPlanClock.swift:60-64 | the first call opens the settle window and later ones say whether it is over |
| TouchPlan.PlanTouch | ios-agent/TapsmithAgent/CommandHandler.swift:764-830 | the loop gives the plan of the first check that ends planning, after a bounded number of checks: a touch only from a clear check, a settled unlocated one, or a passed hit test without a tree, and in time for the daemon; a covered target only once the budget is spent, naming the last cover. No check before the last could have been acted on: a located one went on only before the deadline, an unlocated one only within the settle window |
| TouchPlan.PassesAreBounded | ios-agent/TapsmithAgent/TouchPlanClock.swift:42-64 | for every screen and clock at most the polls that fit the budget and five more can go on |
| TouchSettle.Wait | ios-agent/TapsmithAgent/TouchSettle.swift:65-88 | the loop ends by two equal samples, by the deadline, or by a sample that fails, after samples that all differed; when it returns, to the moment; and how many samples fit |
| TouchSettle.EndsAfterSamples | ios-agent/TapsmithAgent/TouchSettle.swift:65-88 | it returns after every sample it took |
| TouchSettle.EndIsUnique | ios-agent/TapsmithAgent/TouchSettle.swift:65-88 | how it ends and after how many samples is settled by the screen and the clock |
| TouchSettle.SawChangeIff | ios-agent/TapsmithAgent/TouchSettle.swift:45-51 | `sawChange` holds iff two samples in a row differed, except when sampling fails after two or more |
| SettledTouch.PlanSettledTouch | ios-agent/TapsmithAgent/CommandHandler.swift:832-887 | the touch is made of the first plan, the wait, which ends when its samples say, and, if a change was seen, a second plan with what is left of the budget |
| SettledTouch.StaleIff | ios-agent/TapsmithAgent/CommandHandler.swift:832-848 | a point planned before a change seen is touched iff a point was planned and the screen gives two samples or more, each unlike the last, and then none, ahead of the deadline |
| SettledTouch.StaleTouch | ios-agent/TapsmithAgent/CommandHandler.swift:832-848 | such a touch exists |
| SettledTouch.SettledTouchIsSafe | ios-agent/TapsmithAgent/CommandHandler.swift:832-848 | every touch was allowed by a check in time for the daemon; a second plan's check began after every sample of the wait, and unless sampling breaks off there is one whenever a change was seen |
| SettledTouch.BudgetIsShared | ios-agent/TapsmithAgent/CommandHandler.swift:845-847 | a second plan with any budget left ends at the command's own deadline, less than a millisecond past it, and the time it took to start; one with none was started past that deadline and gets a single moment |
| NavigationTransition.Settle | ios-agent/TapsmithAgent/NavigationTransition.swift:50-80 | the loop ends at rest, out of time, or by a read that throws; a tree in transition is returned only if its shape was known or time ran out; a wait cut short by the daemon's deadline leaves the known shape alone |
| NavigationTransition.ReadsStartInTime | ios-agent/TapsmithAgent/NavigationTransition.swift:66-75 | with exact sleeps no read starts at or after the deadline |
| NavigationTransition.ReadsAreBounded | ios-agent/TapsmithAgent/NavigationTransition.swift:66-75 | a call reads the tree fewer than forty times |
| NavigationTransition.KnownShapeIsNotWaitedFor | ios-agent/TapsmithAgent/NavigationTransition.swift:63 | while a known shape stays every call returns at once |
| NavigationTransition.KnownIff | ios-agent/TapsmithAgent/NavigationTransition.swift:50-80 | after any run of calls what is known is the shape of the last uncut wait that ran out, if no tree at rest came since |
| Framing.LinesMakeUpStream | ios-agent/TapsmithAgent/SocketServer.swift:133-148 | the lines and the rest have no newline and make up the stream |
| Framing.StreamHasTheseLines | ios-agent/TapsmithAgent/SocketServer.swift:133-148 | a stream written from lines is read as those lines, and no others |
| Framing.LinesOfMore | ios-agent/TapsmithAgent/SocketServer.swift:128-148 | more bytes are read on from what was unfinished, whatever came before |
| SocketServer.Server.ReceiveLines | ios-agent/TapsmithAgent/SocketServer.swift:128-148 | one delivery enqueues the commands it finishes, in order, and hands back the rest |
| SocketServer.Server.ReceiveAll | ios-agent/TapsmithAgent/SocketServer.swift:115-159 | however a stream is cut into deliveries the commands of the whole stream are enqueued |
| SocketServer.Server.TakePending | ios-agent/TapsmithAgent/SocketServer.swift:78-84 | the main loop takes the oldest command |
| SocketServer.HandledInOrder | ios-agent/TapsmithAgent/SocketServer.swift:78-159 | over every interleaving the commands answered on a connection are the first that arrived, in order and once each, and those answered, in hand and waiting are together the ones enqueued, in order |
| SocketServer.AllHandledWhenIdle | ios-agent/TapsmithAgent/SocketServer.swift:78-159 | with nothing left to enqueue or answer exactly the commands that arrived were answered |
| XmlText.EscapeIsOnePass | ios-agent/TapsmithAgent/HierarchyDumper.swift:255-262 | the five replacements are one character map, on every string |
| XmlText.DecodeIsOnePass | e2e/utils/hooks-marker.ts:15-22 | the five replacements are one pass over the text, on every string, escaped or not |
| XmlText.RoundTrip | ios-agent/TapsmithAgent/HierarchyDumper.swift:255-262 | decoding undoes escaping, on every string |
| XmlText.EscapeInjective | ios-agent/TapsmithAgent/HierarchyDumper.swift:255-262 | no two strings are escaped alike |
| XmlText.EscapedIff | e2e/utils/hooks-marker.ts:15-22 | escaping undoes decoding on exactly the texts without raw markup |
| XmlText.EscapedIffEscape | ios-agent/TapsmithAgent/HierarchyDumper.swift:255-262 | the texts without raw markup are exactly those that come from escaping |
| Crc.MakeTable | web-tests/png.ts:60-68 | the table holds for every byte what eight steps make of it |
| Crc.Crc32 | web-tests/png.ts:70-74 | the table-driven loop computes the bit-by-bit CRC of the standard, for messages of any length |
| Crc.TableDrivenIsSerial | web-tests/png.ts:60-74 | taking whole bytes in is taking their bits in one at a time, lowest first |
| Crc.WordsAreLawful | web-tests/png.ts:60-68 | the CRC register obeys the laws from which linearity and losslessness follow |
| Crc.BurstsChangeCrc | web-tests/png.ts:70-74 | messages that differ only within four bytes in a row never share a CRC |
| Crc.OneByteChangesCrc | web-tests/png.ts:70-74 | messages of the same length that differ in exactly one byte never share a CRC |
| LinearCode.TurnIsLinear | web-tests/png.ts:60-68 | any number of steps is linear over exclusive or |
| LinearCode.TurnIsInjective | web-tests/png.ts:60-68 | any number of steps keeps registers that differ apart |

## Left out

- Live XCUITest objects, snapshots, screenshots, sockets and clocks: parameters, as described above.
- `matchesSelector`, traits and the attribute conversion: the selector is any function of a node and its surroundings; fields no other part reads are one opaque field of a node.
- Which query `cacheQueryElement` binds with for which selector, and when it binds nothing: the query and the types it is scoped to are parameters.
- PositionalIndex.IdIndexIff: takes nothing in the keyboard that the selector takes to be a hooks marker, which the query would leave out and the index count; with one, `IndexFindsIff` says when the index is right.
- Interleavings inside `getElement` while its lock is released: an operation on the caches is one step.
- Fresh ids: that a UUID is new is an assumption of the cache's runs.
- `describe`: a cover is named by its index, not by its text.
- `interactiveCover`, `optionText`, `keyboardFirst` and `textFrames`: scans that reuse the tests modelled here.
- `blankPoint`, `dragStart`, `clippedToScrollers` and the strategies around `clearestPoint`: the node filter of the search is any function of the index.
- `placeDetachedNodes`: starts from the tree's own frame as viewport; the start is a parameter. A viewport is a finite rectangle or null, so the infinite one it starts from when the root has no area (CellFrames.swift:67) is no start of `Place`.
- ICU case folding and `lowercased()`, canonical equivalence and the written syntax of patterns: case folding is any map of characters that keeps white space apart from the rest, a pattern is its parsed form, strings are sequences of scalars.
- `concatenatedLabelPattern` and `containsChildText`: not used by the queries modelled.
- Parsing the hooks marker and delivering the link in `openDeepLink`: the marker's fields and the pixel check are inputs. The cold path looks at the pixels before it waits, the warm one after; only the latter is part of the reply.
- 64-bit wrap-around of the marker's counters: they are unbounded.
- How long a tap holds (`TapTiming`) and mapping a plan to the device's native space.
- Rounding of floating-point coordinates and times: they are reals.
- The shape of a transition (`shiftedScreen`): any function of the tree.
- UTF-8 decoding, the blank-line test and JSON parsing: a function from a line to the command it is, if any.
- `chunk`, `solidPng` and deflate.
- KeyboardRegion.RegionCoversKeyboard: for a keyboard that is not docked only its own frame is claimed, because the code cuts the region to the keyboard's width.
- RowResolution.UncheckedRowIsStable: for a match in a row it takes the query inside that row, which holds no rows, to answer in the tree's order, as the code does; what any order would need is stated beside it.
- ElementCache.BatchSurvives: speaks of the moment a find returns; later operations may evict the batch, as they do in the code.
