/** One node of an accessibility snapshot, as the match walk and the live queries see it. */
module Snapshot {
  import opened Geometry
  import opened Trees

  datatype Node = Node(
    typeRaw: nat,
    labelText: string,
    identifier: string,
    title: string,
    value: string,
    placeholder: string,
    frame: Frame,
    /** Everything else a selector may read (enabled, selected, traits). */
    rest: int
  )

  type Snapshot = Tree<Node>
}
