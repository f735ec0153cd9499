# Polygon dissolve orchestration, modelled in Dafny

This project models the orchestration layer of mapshaper's topology-preserving
polygon dissolve (`src/dissolve/mapshaper-polygon-dissolve2.js`). It covers
the layer from normalising the options to returning one dissolved shape per
group:

- grouping shape ids by dissolve key (`groupPolygons2`);
- building the ring list that the ring pathfinder dissolves for one group
  (`dissolveTileGroup2`);
- repairing self-tangent rings with the pathfinder's flatten mode
  (`fixTangentHoles`);
- the adjacency filter built from `merge_gaps_where` (`getAdjacentShapesFilter`);
- the gap-closure status message (`getGapRemovalMessage`);
- the arc and mosaic layer builders (`getArcLayer`, `composeMosaicLayer`);
- the deprecated `field` option and the mosaic's single-group flag
  (`dissolvePolygonLayer2`, `dissolvePolygonGroups2`).

The heavy collaborators are not modelled. They become function parameters,
gathered in `Dissolve.Collaborators`:

- the category classifier;
- the mosaic index with its gap closure;
- the sliver filter's label;
- the expression compiler;
- the ring pathfinder;
- `reversePath`.

`reversePath` is modelled as a pure function on rings. The proofs assume
that it is an involution: reversing twice gives the original ring
(`TangentHoles.Involution`). "## Left out" lists how the other collaborators
are narrowed.

Files and modules:

- `types.dfy` (`DissolveTypes`): paths and rings as arc-id sequences, shapes
  (`null` or a list of parts), tiles (an outer ring then holes), layers,
  `Option`, and `Slot` for entries of a possibly sparse JavaScript array.
- `grouping.dfy` (`Grouping`): `groupPolygons2`. The bucket array is indexed
  by group id, so it is as long as the largest id plus one. Ids that no shape
  maps to are holes.
- `tile_rings.dfy` (`TileRings`): `dissolveTileGroup2`.
- `tangent_holes.dfy` (`TangentHoles`): `fixTangentHoles`.
- `gap_policy.dfy` (`GapPolicy`): options, the adjacency filter and the gap
  message.
- `layers.dfy` (`Layers`): `getArcLayer` and `composeMosaicLayer`.
- `dissolve.dfy` (`Dissolve`): `dissolvePolygonGroups2` and
  `dissolvePolygonLayer2`.

Loops, `reduce` with a mutated accumulator, and `push`/`concat` become
methods with `while` loops. Each is proved against a specification function.
The pure parts become functions.

Two behaviours of the code worth noting:

- **Default adjacency filter.** Without `merge_gaps_where`, the adjacency
  filter is the constant `false` (line 109). What `false` means is decided
  inside the mosaic index's `removeGaps`, which is not modelled. The model
  states only the value the code returns.
- **Tangent repair when flatten returns nothing.** A ring whose flatten
  result is empty is kept in its original orientation, just like a ring
  whose flatten result is a single ring (line 141).

## Model

| member | source | states |
|---|---|---|
| `Grouping.SlotCount` | src/dissolve/mapshaper-polygon-dissolve2.js:51-60 | The bucket array's length is one more than the largest group id of any shape, and 0 when there are no shapes. |
| `Grouping.Assign` | src/dissolve/mapshaper-polygon-dissolve2.js:55 | Assigning `groups[groupId]` past the end grows the array to `groupId + 1`. The new positions before `groupId` are holes, and every other entry is unchanged. |
| `Grouping.GroupPolygons` | src/dissolve/mapshaper-polygon-dissolve2.js:51-60 | The reduce over the shapes produces exactly the reference bucket array: slot `g` is a hole when no shape has group `g`, and otherwise lists those shapes' ids in index order. |
| `Grouping.PushStep` | src/dissolve/mapshaper-polygon-dissolve2.js:53-57 | Creating the bucket on first use and pushing shape `n` onto it turns the buckets of `n` shapes into those of `n + 1`. |
| `Grouping.MembersExactly` | src/dissolve/mapshaper-polygon-dissolve2.js:52-58 | A shape id is in bucket `g` exactly when it is below the shape count and its group id is `g`. |
| `Grouping.MembersIncreasing` | src/dissolve/mapshaper-polygon-dissolve2.js:52-58 | The ids within a bucket are strictly increasing, because shapes are visited in index order and appended. |
| `Grouping.GroupingPartition` | src/dissolve/mapshaper-polygon-dissolve2.js:51-60 | The buckets partition the shapes. Every shape is in the bucket at its own group id. A bucket holds only shapes of its group, in increasing order. A slot is a hole exactly when no shape maps to it. |
| `Grouping.GroupingTotal` | src/dissolve/mapshaper-polygon-dissolve2.js:51-60 | The buckets together hold as many ids as there are shapes. |
| `Grouping.SingleSlotIff` | src/dissolve/mapshaper-polygon-dissolve2.js:74 | The mosaic's `simple` flag (`groups.length == 1`) is set exactly when there is at least one shape and every shape is in group 0. |
| `TileRings.OuterRingsAt` | src/dissolve/mapshaper-polygon-dissolve2.js:122-124 | There is one outer ring per tile, in tile order, and ring `i` is the first ring of tile `i`. |
| `TileRings.PathfinderInputPermutes` | src/dissolve/mapshaper-polygon-dissolve2.js:119-129 | The rings handed to the pathfinder are as many as the tiles' rings and are a permutation of them, so no ring is dropped or duplicated. |
| `TileRings.DissolveTileGroup` | src/dissolve/mapshaper-polygon-dissolve2.js:118-135 | The loop computes `DissolvedShape`: the pathfinder runs in dissolve mode on all outer rings in tile order followed by all holes in tile order. The result is `null` exactly when the pathfinder returns an empty list, and is otherwise that list unchanged. |
| `TangentHoles.RepairRingsAppend` | src/dissolve/mapshaper-polygon-dissolve2.js:138-151 | Output rings follow input ring order: repairing a concatenation of rings gives the concatenation of the repairs. |
| `TangentHoles.RepairRingsUnsplit` | src/dissolve/mapshaper-polygon-dissolve2.js:141-146 | When flatten splits no ring, the repaired shape equals the input. |
| `TangentHoles.RepairRingsLength` | src/dissolve/mapshaper-polygon-dissolve2.js:138-151 | The repair never reduces the number of rings. The count stays the same exactly when no ring splits. |
| `TangentHoles.RepairRingsOrigin` | src/dissolve/mapshaper-polygon-dissolve2.js:138-148 | Every output ring is either an input ring or a reversed flatten fragment of one. |
| `TangentHoles.RepairShape` | src/dissolve/mapshaper-polygon-dissolve2.js:138-151 | Under the involution assumption, the reduce follows the specification ring by ring. A ring whose flatten result has at most one ring, including none, is kept in its original orientation. Otherwise it is replaced by all fragments, each reversed, in flatten order. |
| `TangentHoles.FixTangentHoles` | src/dissolve/mapshaper-polygon-dissolve2.js:137-153 | The shape list keeps its length. Holes stay holes and `null` stays `null`. Every other shape's rings are repaired as `RepairShape` states. |
| `GapPolicy.NormalizeOptions` | src/dissolve/mapshaper-polygon-dissolve2.js:16-19 | A non-empty `field` replaces `fields` with `[field]`. No other option changes, and `fields` is also unchanged when `field` is absent or empty. |
| `GapPolicy.AdjacentShapesFilter` | src/dissolve/mapshaper-polygon-dissolve2.js:99-116 | With a non-empty `merge_gaps_where`, the filter is the negation of the compiled expression and the label is `"Assigned gaps where: "` followed by the expression. Otherwise the filter is false for every shape. The label is empty exactly when no expression is set. |
| `GapPolicy.GapRemovalMessage` | src/dissolve/mapshaper-polygon-dissolve2.js:62-67 | There is no message exactly when `removed > 0` is false. Otherwise the message reports `removed` out of `removed + retained`, with the sliver and adjacency labels. |
| `Layers.ArcLayer` | src/dissolve/mapshaper-polygon-dissolve2.js:26-39 | The layer is a polyline layer with the given name, one shape `[[i]]` and one record `{arc_id: i}` for each arc `i`, in order. |
| `Layers.ComposeMosaicLayer` | src/dissolve/mapshaper-polygon-dissolve2.js:41-49 | The layer carries the given shapes and one `{tile_id: i}` record per shape, in order. Every other layer property is the input layer's. |
| `Dissolve.DissolvePolygonGroups` | src/dissolve/mapshaper-polygon-dissolve2.js:69-97 | The mosaic is built flat, with `simple` set exactly when the group array has length one, the sliver control defaulting to 1, and the adjacency filter from the options. Each group maps to its dissolved shape (or to its raw tile rings in tile mode), and then the tangent repair runs. The message is the gap report of the mosaic's closure counts. |
| `Dissolve.DissolvePolygonLayer` | src/dissolve/mapshaper-polygon-dissolve2.js:15-24 | The options are normalised first. The classifier is then given the resulting `fields`, the shapes are grouped, and the groups are dissolved. |
| `Dissolve.DissolvedShapesEntries` | src/dissolve/mapshaper-polygon-dissolve2.js:82-93 | There is one output entry per group slot, and holes stay holes. In dissolve mode, an entry is `null` exactly when the pathfinder traced nothing from the group's outer rings and holes. Otherwise it holds the pathfinder's rings after tangent repair. |

## Left out

- `MosaicIndex`, `NodeCollection`, `getArcPresenceTest`, `getSliverFilter`, `getRingIntersector` (the pathfinder), `getCategoryClassifier` and `compileValueExpression`: their sources are not part of this model. Tile construction, gap closure, node graphs, ring tracing and nesting are not modelled.
- Collaborator narrowing: the fields of `Dissolve.Collaborators` are pure, total functions. `NodeCollection` and `getArcPresenceTest` have no field of their own: they are folded into `buildMosaic` (mosaic construction and gap closure) and `pathfind`. `getSliverFilter` receives the layer, the dataset and the whole sliver options (line 78); the model passes it only the sliver control value, as `sliverLabel` and as `buildMosaic`'s `real` argument. The pathfinder is built from `mosaicIndex.nodes` after `removeGaps` (line 81); the model's `pathfind` is fixed per call and does not depend on the mosaic.
- Collaborator failures: a collaborator that throws (`compileValueExpression` on an expression it cannot parse, the pathfinder on a broken ring) aborts the call in mapshaper. The model's collaborators always return a value, so these failures are not modelled.
- `composeDissolveLayer` is not part of this model. `Dissolve.DissolvePolygonLayer` returns the shape list that is handed to it, together with the status message.
- `reversePath`: its internals are not part of this model. It is modelled as a value function assumed to be an involution, and the code's use of its return value is assumed to return the reversed ring.
- In-place reversal: the update in place is modelled by rebinding the ring to its reversed value. Two consequences are not captured. First, when a ring splits, the input ring the caller holds is left reversed. Second, if the pathfinder returned the same array twice among the fragments, `forEach(reversePath)` would reverse it twice. The model assumes distinct fragment arrays.
- Message rendering: the `utils.format` thousands separators, the `%s` substitution and `utils.pluralSuffix` are not modelled. `GapPolicy.GapMessage` carries whether a message is produced and the numbers and labels it shows. The plural suffix depends only on `removed`, which it carries. The call to `message` (logging) becomes the returned `GapMessage`.
- `utils.extend` and `utils.defaults` are not part of this model. Two readings are assumed. `extend({}, opts)` copies the options. `defaults(obj, lyr)` fills in the properties of `lyr` that `obj` lacks. A `sliver_control` key present with the value `undefined` is not modelled, nor are layer properties other than geometry type, name, shapes and data.
- `DataTable` is modelled as the sequence of records it is built from.
- Non-string option values and JavaScript truthiness beyond "absent or empty string" are not modelled. Group ids are natural numbers, and tiles are non-empty (the code reads `tile[0]`).
- Geometric properties (area conservation, no internal arcs in the output, validity of flattened rings): these depend on the pathfinder and on floating-point areas.
