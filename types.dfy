/** Shared vocabulary of the dissolve model: paths, shapes, tiles, layers and
    the JavaScript values (sparse array slots, optional options) the
    orchestration manipulates. */
module DissolveTypes {

  datatype Option<T> = None | Some(value: T)

  /** A string option counts as set the way JavaScript truthiness decides:
      present and not the empty string. */
  predicate Truthy(s: Option<string>) {
    s.Some? && s.value != ""
  }

  /** One element of a JavaScript array that may be sparse: assigning past
      the end of an array leaves holes, and `map` skips holes and keeps them. */
  datatype Slot<T> = Hole | Item(value: T)

  /** A path is a sequence of arc ids; a negative id `~i` walks arc `i`
      backwards. A polygon ring is a closed path. */
  type Path = seq<int>
  type Ring = Path

  /** A shape: `null`, or an array of parts (rings of a polygon, paths of a
      polyline). An empty array of parts is not `null`. */
  datatype Shape = NullShape | Parts(parts: seq<Path>)

  /** A mosaic tile: its outer ring followed by its holes. */
  type Tile = t: seq<Ring> | |t| > 0 witness [[]]

  /** The two modes of the ring pathfinder. */
  datatype Mode = Dissolve | Flatten

  /** One attribute record: field name to numeric value. */
  type Record = map<string, int>

  /** The layer properties the builders set or copy; `data` stands for the
      attribute table built from the records. */
  datatype Layer = Layer(geometryType: string, name: string, shapes: seq<Shape>, data: seq<Record>)

  /** Concatenation of the rings of all tiles, tile by tile. */
  function ConcatTiles(tiles: seq<Tile>): seq<Ring>
  {
    if tiles == [] then [] else tiles[0] + ConcatTiles(tiles[1..])
  }
}
