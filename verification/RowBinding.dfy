/** How a match in a table or collection row is bound to a live element, and when that is checked. */
module RowBinding {
  import opened Wrappers
  import opened Geometry

  /** A match's row and its place there, as the walk leaves them. */
  datatype Tags = Tags(
    anchor: Option<string>,
    index: Option<nat>,
    nested: bool,
    anchorListExposesEveryRow: bool,
    listExposesEveryRow: bool)

  const NO_TAGS := Tags(None, None, false, false, false)

  /** The anchored row a node stands in. */
  datatype Enclosing = Enclosing(anchor: string, listExposesEveryRow: bool, holdsRows: bool)

  function TagsOf(
    ownAnchor: Option<string>,
    ownListExposesEveryRow: bool,
    enclosing: Option<Enclosing>,
    index: Option<nat>,
    innermostAnchored: bool,
    listExposesEveryRow: bool): Tags
  {
    if ownAnchor.Some? then
      Tags(ownAnchor, None, false, ownListExposesEveryRow, ownListExposesEveryRow)
    else if enclosing.Some? && index.Some? then
      Tags(Some(enclosing.value.anchor), index, !innermostAnchored || enclosing.value.holdsRows,
           enclosing.value.listExposesEveryRow, listExposesEveryRow && enclosing.value.listExposesEveryRow)
    else
      NO_TAGS.(listExposesEveryRow := listExposesEveryRow)
  }

  datatype Plan = Plan(throughAnchor: bool, checkFrame: bool, checkAnchor: bool)

  const UNCHECKED := Plan(false, false, false)

  function PlanOf(bound: bool, inRow: bool, uniqueInQuery: bool, tags: Tags, treeHasLazyList: bool): Plan {
    if !bound || !inRow then UNCHECKED
    else if uniqueInQuery && tags.listExposesEveryRow then UNCHECKED
    else if tags.anchor.None? then UNCHECKED.(checkFrame := true)
    else Plan(true, tags.nested, !tags.anchorListExposesEveryRow || treeHasLazyList)
  }

  /** A live element stands where its match was found, up to fractions of a point. */
  predicate IsFoundElement(found: Frame, live: Option<Frame>) {
    live.Some? && found.Width() > 0.0 && found.Height() > 0.0
    && WholePoints(found) == WholePoints(live.value)
  }
}
