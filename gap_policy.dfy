/** Options of a dissolve call, the adjacency filter built from
    `merge_gaps_where` (`getAdjacentShapesFilter`) and the gap-closure
    status message (`getGapRemovalMessage`). */
module GapPolicy {
  import opened DissolveTypes

  /** The options this core reads: `field` (deprecated), `fields`,
      `merge_gaps_where`, `sliver_control` and `tiles`. */
  datatype Options = Options(
    field: Option<string>,
    fields: Option<seq<string>>,
    mergeGapsWhere: Option<string>,
    sliverControl: Option<real>,
    tiles: bool)

  /** The deprecated single `field` becomes the one-element `fields` list;
      a copy is changed, and no other option is touched. */
  function NormalizeOptions(opts: Options): (r: Options)
    ensures Truthy(opts.field) ==> r.fields == Some([opts.field.value])
    ensures !Truthy(opts.field) ==> r.fields == opts.fields
    ensures r.(fields := opts.fields) == opts
  {
    if Truthy(opts.field) then opts.(fields := Some([opts.field.value])) else opts
  }

  /** The sliver control handed to the sliver filter: the caller's value,
      or 1 when the option is absent. */
  function SliverControl(opts: Options): real
  {
    if opts.sliverControl.Some? then opts.sliverControl.value else 1.0
  }

  /** The adjacency filter passed to gap closure, with the caption
      (mapshaper's `label` field) used in the status message. */
  datatype AdjacencyFilter = AdjacencyFilter(filter: nat -> bool, caption: string)

  const AssignedGapsPrefix := "Assigned gaps where: "

  /** `getAdjacentShapesFilter`: with an expression, the filter negates the
      compiled expression and the label quotes it; without one, the filter
      is false for every shape and the label is empty. */
  function AdjacentShapesFilter(mergeGapsWhere: Option<string>, compile: string -> (nat -> bool)): (f: AdjacencyFilter)
    ensures Truthy(mergeGapsWhere) ==>
      f.caption == AssignedGapsPrefix + mergeGapsWhere.value &&
      forall shapeId :: f.filter(shapeId) == !compile(mergeGapsWhere.value)(shapeId)
    ensures !Truthy(mergeGapsWhere) ==> forall shapeId :: !f.filter(shapeId)
    ensures f.caption == "" <==> !Truthy(mergeGapsWhere)
  {
    if Truthy(mergeGapsWhere) then
      var filterFunc := compile(mergeGapsWhere.value);
      AdjacencyFilter((shapeId: nat) => !filterFunc(shapeId), AssignedGapsPrefix + mergeGapsWhere.value)
    else
      AdjacencyFilter((shapeId: nat) => false, "")
  }

  /** The content of the gap-closure message: none, or the number of gaps
      closed out of all gaps, with the sliver and adjacency labels. */
  datatype GapMessage =
    | NoMessage
    | Closed(closed: nat, total: nat, areaLabel: string, adjacencyLabel: string)

  /** `getGapRemovalMessage`: a message exactly when some gap was closed,
      reporting the closed gaps out of closed plus retained. */
  function GapRemovalMessage(removed: nat, retained: nat, areaLabel: string, adjacencyLabel: string): (m: GapMessage)
    ensures m.NoMessage? <==> removed == 0
    ensures m.Closed? ==> m.closed == removed && m.total == removed + retained && m.closed <= m.total
    ensures m.Closed? ==> m.areaLabel == areaLabel && m.adjacencyLabel == adjacencyLabel
  {
    if !(removed > 0) then NoMessage
    else Closed(removed, removed + retained, areaLabel, adjacencyLabel)
  }
}
