/** The dissolve orchestration (`dissolvePolygonLayer2`,
    `dissolvePolygonGroups2`): options, grouping, the mosaic flags, the
    per-group dissolve, the tangent repair and the gap report. The heavy
    collaborators are parameters. */
module Dissolve {
  import opened DissolveTypes
  import opened Grouping
  import opened TileRings
  import opened TangentHoles
  import opened GapPolicy

  /** Options of the mosaic index. */
  datatype MosaicOptions = MosaicOptions(flat: bool, simple: bool)

  /** The counts `removeGaps` returns. */
  datatype GapCleanup = GapCleanup(removed: nat, remaining: nat)

  /** A mosaic index after gap closure: the closure counts and the tile
      lookup by shape ids. */
  datatype Mosaic = Mosaic(cleanup: GapCleanup, tilesByShapeIds: seq<nat> -> seq<Tile>)

  /** The collaborators this core calls but does not define. */
  datatype Collaborators = Collaborators(
    // getCategoryClassifier(fields, lyr.data)
    classify: Option<seq<string>> -> (nat -> nat),
    // new MosaicIndex(lyr, nodes, mosaicOpts) followed by removeGaps(sliver filter, adjacency filter)
    buildMosaic: (MosaicOptions, real, AdjacencyFilter) -> Mosaic,
    // the label of getSliverFilter(lyr, dataset, sliverOpts)
    sliverLabel: real -> string,
    // compileValueExpression(merge_gaps_where, lyr, arcs)
    compile: string -> (nat -> bool),
    // getRingIntersector(mosaicIndex.nodes)
    pathfind: (seq<Ring>, Mode) -> seq<Ring>,
    // reversePath
    reverse: Ring -> Ring)

  /** The mosaic one call builds: flat tiles, and the single-group fast path
      exactly when the group array has length one. */
  function MosaicFor(groups: seq<Slot<seq<nat>>>, opts: Options, env: Collaborators): Mosaic
  {
    env.buildMosaic(
      MosaicOptions(true, |groups| == 1),
      SliverControl(opts),
      AdjacentShapesFilter(opts.mergeGapsWhere, env.compile))
  }

  /** What one entry of the group array becomes before the tangent repair:
      a hole stays a hole; in tile mode the tiles' rings are passed through,
      otherwise the tiles are dissolved. */
  function GroupShape(slot: Slot<seq<nat>>, mosaic: Mosaic, tilesMode: bool, pathfind: (seq<Ring>, Mode) -> seq<Ring>): Slot<Shape>
  {
    match slot
    case Hole => Hole
    case Item(shapeIds) =>
      var tiles := mosaic.tilesByShapeIds(shapeIds);
      if tilesMode then Item(Parts(ConcatTiles(tiles))) else Item(DissolvedShape(tiles, pathfind))
  }

  /** The shape list a call returns. */
  function DissolvedShapes(groups: seq<Slot<seq<nat>>>, opts: Options, env: Collaborators): seq<Slot<Shape>>
  {
    var mosaic := MosaicFor(groups, opts, env);
    seq(|groups|, i requires 0 <= i < |groups| =>
      RepairSlot(GroupShape(groups[i], mosaic, opts.tiles, env.pathfind), env.pathfind, env.reverse))
  }

  /** The gap-closure message a call emits. */
  function GapReport(groups: seq<Slot<seq<nat>>>, opts: Options, env: Collaborators): GapMessage
  {
    var mosaic := MosaicFor(groups, opts, env);
    GapRemovalMessage(
      mosaic.cleanup.removed, mosaic.cleanup.remaining,
      env.sliverLabel(SliverControl(opts)),
      AdjacentShapesFilter(opts.mergeGapsWhere, env.compile).caption)
  }

  /** `dissolvePolygonGroups2`: dissolve every group with the mosaic built
      for this call, repair tangent rings, and report closed gaps. */
  method DissolvePolygonGroups(groups: seq<Slot<seq<nat>>>, opts: Options, env: Collaborators)
    returns (shapes: seq<Slot<Shape>>, message: GapMessage)
    requires Involution(env.reverse)
    ensures shapes == DissolvedShapes(groups, opts, env)
    ensures message == GapReport(groups, opts, env)
  {
    var mosaicOpts := MosaicOptions(true, |groups| == 1);
    var sliverControl := SliverControl(opts);
    var adjacentShapesFilter := AdjacentShapesFilter(opts.mergeGapsWhere, env.compile);
    var mosaic := env.buildMosaic(mosaicOpts, sliverControl, adjacentShapesFilter);
    var dissolved: seq<Slot<Shape>> := [];
    var i := 0;
    while i < |groups|
      invariant 0 <= i <= |groups|
      invariant |dissolved| == i
      invariant forall k :: 0 <= k < i ==> dissolved[k] == GroupShape(groups[k], mosaic, opts.tiles, env.pathfind)
    {
      match groups[i] {
        case Hole =>
          dissolved := dissolved + [Hole];
        case Item(shapeIds) =>
          var tiles := mosaic.tilesByShapeIds(shapeIds);
          if opts.tiles {
            dissolved := dissolved + [Item(Parts(ConcatTiles(tiles)))];
          } else {
            var shape := DissolveTileGroup(tiles, env.pathfind);
            dissolved := dissolved + [Item(shape)];
          }
      }
      i := i + 1;
    }
    shapes := FixTangentHoles(dissolved, env.pathfind, env.reverse);
    message := GapRemovalMessage(
      mosaic.cleanup.removed, mosaic.cleanup.remaining, env.sliverLabel(sliverControl), adjacentShapesFilter.caption);
  }

  /** `dissolvePolygonLayer2` up to the hand-off to `composeDissolveLayer`:
      normalise the options, classify and group the shapes, and dissolve the
      groups. Returns the shape list and the status message. */
  method DissolvePolygonLayer(layerShapes: seq<Shape>, opts: Options, env: Collaborators)
    returns (shapes2: seq<Slot<Shape>>, message: GapMessage)
    requires Involution(env.reverse)
    ensures var o := NormalizeOptions(opts);
      var groups := GroupSlots(env.classify(o.fields), |layerShapes|);
      shapes2 == DissolvedShapes(groups, o, env) && message == GapReport(groups, o, env)
  {
    var o := NormalizeOptions(opts);
    var getGroupId := env.classify(o.fields);
    var groups := GroupPolygons(layerShapes, getGroupId);
    shapes2, message := DissolvePolygonGroups(groups, o, env);
  }

  /** The call's shape list has one entry per slot of the group array;
      holes stay holes; in dissolve mode an entry is `null` exactly when the
      pathfinder traced nothing from the group's outer rings and holes, and
      otherwise holds the repaired rings. */
  lemma DissolvedShapesEntries(groups: seq<Slot<seq<nat>>>, opts: Options, env: Collaborators)
    ensures |DissolvedShapes(groups, opts, env)| == |groups|
    ensures forall i :: 0 <= i < |groups| ==> (DissolvedShapes(groups, opts, env)[i].Hole? <==> groups[i].Hole?)
    ensures forall i :: 0 <= i < |groups| && groups[i].Item? && !opts.tiles ==>
      var input := PathfinderInput(MosaicFor(groups, opts, env).tilesByShapeIds(groups[i].value));
      var out := env.pathfind(input, Dissolve);
      (out == [] ==> DissolvedShapes(groups, opts, env)[i] == Item(NullShape)) &&
      (out != [] ==> DissolvedShapes(groups, opts, env)[i] == Item(Parts(RepairRings(out, env.pathfind, env.reverse))))
  {
  }
}
