/** Dissolving the tiles of one group (`dissolveTileGroup2`): the ring list
    handed to the pathfinder and the null result. */
module TileRings {
  import opened DissolveTypes

  /** The outer (first) ring of every tile, in tile order. */
  function OuterRings(tiles: seq<Tile>): seq<Ring>
  {
    if tiles == [] then [] else [tiles[0][0]] + OuterRings(tiles[1..])
  }

  /** The remaining rings (holes) of every tile, tile by tile. */
  function HoleRings(tiles: seq<Tile>): seq<Ring>
  {
    if tiles == [] then [] else tiles[0][1..] + HoleRings(tiles[1..])
  }

  /** What the pathfinder is asked to dissolve: all outer rings, then all holes. */
  function PathfinderInput(tiles: seq<Tile>): seq<Ring>
  {
    OuterRings(tiles) + HoleRings(tiles)
  }

  /** The shape a group dissolves to: `null` when the pathfinder traces no
      ring, otherwise the pathfinder's rings as they come. */
  function DissolvedShape(tiles: seq<Tile>, pathfind: (seq<Ring>, Mode) -> seq<Ring>): Shape
  {
    var dissolved := pathfind(PathfinderInput(tiles), Dissolve);
    if |dissolved| > 0 then Parts(dissolved) else NullShape
  }

  lemma {:induction false} OuterRingsAppend(tiles: seq<Tile>, t: Tile)
    ensures OuterRings(tiles + [t]) == OuterRings(tiles) + [t[0]]
  {
    if tiles != [] {
      assert (tiles + [t])[1..] == tiles[1..] + [t];
      OuterRingsAppend(tiles[1..], t);
    }
  }

  lemma {:induction false} HoleRingsAppend(tiles: seq<Tile>, t: Tile)
    ensures HoleRings(tiles + [t]) == HoleRings(tiles) + t[1..]
  {
    if tiles != [] {
      assert (tiles + [t])[1..] == tiles[1..] + [t];
      HoleRingsAppend(tiles[1..], t);
    }
  }

  /** Outer ring `i` of the pathfinder input is the first ring of tile `i`. */
  lemma {:induction false} OuterRingsAt(tiles: seq<Tile>)
    ensures |OuterRings(tiles)| == |tiles|
    ensures forall i :: 0 <= i < |tiles| ==> OuterRings(tiles)[i] == tiles[i][0]
  {
    if tiles != [] {
      OuterRingsAt(tiles[1..]);
      assert forall i :: 1 <= i < |tiles| ==> tiles[1..][i - 1] == tiles[i];
    }
  }

  /** The number of rings in all tiles. */
  function RingCount(tiles: seq<Tile>): nat
  {
    if tiles == [] then 0 else |tiles[0]| + RingCount(tiles[1..])
  }

  /** No ring is dropped or duplicated: the pathfinder input is a
      rearrangement of all the tiles' rings, one per ring of a tile. */
  lemma {:induction false} PathfinderInputPermutes(tiles: seq<Tile>)
    ensures multiset(PathfinderInput(tiles)) == multiset(ConcatTiles(tiles))
    ensures |PathfinderInput(tiles)| == RingCount(tiles)
  {
    if tiles != [] {
      PathfinderInputPermutes(tiles[1..]);
      var t, rest := tiles[0], tiles[1..];
      var outers, holes := OuterRings(rest), HoleRings(rest);
      assert PathfinderInput(tiles) == ([t[0]] + outers) + (t[1..] + holes);
      assert t == [t[0]] + t[1..];
      calc {
        multiset(PathfinderInput(tiles));
        multiset([t[0]]) + multiset(outers) + multiset(t[1..]) + multiset(holes);
        multiset([t[0]] + t[1..]) + multiset(outers + holes);
        multiset(t) + multiset(ConcatTiles(rest));
        multiset(ConcatTiles(tiles));
      }
    }
  }

  /** `dissolveTileGroup2`: collect the outer rings and holes in one pass,
      dissolve them together, and return `null` for an empty result. */
  method DissolveTileGroup(tiles: seq<Tile>, pathfind: (seq<Ring>, Mode) -> seq<Ring>) returns (shape: Shape)
    ensures shape == DissolvedShape(tiles, pathfind)
    ensures shape.NullShape? <==> pathfind(PathfinderInput(tiles), Dissolve) == []
    ensures shape.Parts? ==> shape.parts == pathfind(PathfinderInput(tiles), Dissolve)
  {
    var rings: seq<Ring> := [];
    var holes: seq<Ring> := [];
    var i := 0;
    while i < |tiles|
      invariant 0 <= i <= |tiles|
      invariant rings == OuterRings(tiles[..i])
      invariant holes == HoleRings(tiles[..i])
    {
      var tile := tiles[i];
      rings := rings + [tile[0]];
      if |tile| > 1 {
        holes := holes + tile[1..];
      }
      assert tiles[..i + 1] == tiles[..i] + [tile];
      OuterRingsAppend(tiles[..i], tile);
      HoleRingsAppend(tiles[..i], tile);
      i := i + 1;
    }
    assert tiles[..i] == tiles;
    var dissolved := pathfind(rings + holes, Dissolve);
    // mapshaper disables the nesting repair of a multi-ring result here
    if |dissolved| > 0 {
      shape := Parts(dissolved);
    } else {
      shape := NullShape;
    }
  }
}
