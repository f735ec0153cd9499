/** Layer builders: one polyline shape per arc (`getArcLayer`) and a layer of
    mosaic tiles numbered in order (`composeMosaicLayer`). */
module Layers {
  import opened DissolveTypes

  function ArcRecord(i: nat): Record { map["arc_id" := i] }

  function TileRecord(i: nat): Record { map["tile_id" := i] }

  /** `getArcLayer`: a polyline layer whose shape `i` is the single path made
      of arc `i`, with record `{arc_id: i}`, for every arc of the store. */
  method ArcLayer(arcCount: nat, name: string) returns (lyr: Layer)
    ensures lyr.geometryType == "polyline" && lyr.name == name
    ensures |lyr.shapes| == arcCount && |lyr.data| == arcCount
    ensures forall i :: 0 <= i < arcCount ==> lyr.shapes[i] == Parts([[i]]) && lyr.data[i] == ArcRecord(i)
  {
    var records: seq<Record> := [];
    lyr := Layer("polyline", name, [], []);
    var i := 0;
    while i < arcCount
      invariant 0 <= i <= arcCount
      invariant lyr.geometryType == "polyline" && lyr.name == name
      invariant |lyr.shapes| == i && |records| == i
      invariant forall k :: 0 <= k < i ==> lyr.shapes[k] == Parts([[k]]) && records[k] == ArcRecord(k)
    {
      lyr := lyr.(shapes := lyr.shapes + [Parts([[i]])]);
      records := records + [ArcRecord(i)];
      i := i + 1;
    }
    lyr := lyr.(data := records);
  }

  /** `composeMosaicLayer`: the given shapes, one `{tile_id: i}` record per
      shape in order, and every other property taken from the input layer. */
  function ComposeMosaicLayer(lyr: Layer, shapes2: seq<Shape>): (r: Layer)
    ensures r.shapes == shapes2
    ensures |r.data| == |shapes2| && forall i :: 0 <= i < |shapes2| ==> r.data[i] == TileRecord(i)
    ensures r.(shapes := lyr.shapes, data := lyr.data) == lyr
  {
    lyr.(shapes := shapes2, data := seq(|shapes2|, i requires 0 <= i => TileRecord(i)))
  }
}
