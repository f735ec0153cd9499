/** Repair of self-tangent rings (`fixTangentHoles`): every dissolved ring is
    reversed, flattened by the pathfinder, and either replaced by the
    fragments or kept in its original orientation. */
module TangentHoles {
  import opened DissolveTypes

  /** `reversePath` flips a ring's direction; all the model assumes of it is
      that flipping twice restores the ring. */
  ghost predicate Involution(reverse: Ring -> Ring) {
    forall r :: reverse(reverse(r)) == r
  }

  /** The fragments the pathfinder splits a ring into, reversed back, in the
      order the pathfinder returns them. */
  function Fragments(ring: Ring, pathfind: (seq<Ring>, Mode) -> seq<Ring>, reverse: Ring -> Ring): seq<Ring>
  {
    var fixed := pathfind([reverse(ring)], Flatten);
    seq(|fixed|, k requires 0 <= k < |fixed| => reverse(fixed[k]))
  }

  /** Whether the flattened ring came back in more than one piece. */
  predicate Splits(ring: Ring, pathfind: (seq<Ring>, Mode) -> seq<Ring>, reverse: Ring -> Ring) {
    |pathfind([reverse(ring)], Flatten)| > 1
  }

  /** What one ring becomes: its fragments when it splits, else itself. */
  function RepairRing(ring: Ring, pathfind: (seq<Ring>, Mode) -> seq<Ring>, reverse: Ring -> Ring): seq<Ring>
  {
    if Splits(ring, pathfind, reverse) then Fragments(ring, pathfind, reverse) else [ring]
  }

  /** What the rings of one shape become, ring by ring. */
  function RepairRings(rings: seq<Ring>, pathfind: (seq<Ring>, Mode) -> seq<Ring>, reverse: Ring -> Ring): seq<Ring>
  {
    if rings == [] then []
    else RepairRing(rings[0], pathfind, reverse) + RepairRings(rings[1..], pathfind, reverse)
  }

  /** What one entry of the shape list becomes: holes and `null` stay as
      they are. */
  function RepairSlot(slot: Slot<Shape>, pathfind: (seq<Ring>, Mode) -> seq<Ring>, reverse: Ring -> Ring): Slot<Shape>
  {
    match slot
    case Hole => Hole
    case Item(NullShape) => Item(NullShape)
    case Item(Parts(rings)) => Item(Parts(RepairRings(rings, pathfind, reverse)))
  }

  /** Output rings follow input ring order: repairing a concatenation is the
      concatenation of the repairs. */
  lemma {:induction false} RepairRingsAppend(a: seq<Ring>, b: seq<Ring>, pathfind: (seq<Ring>, Mode) -> seq<Ring>, reverse: Ring -> Ring)
    ensures RepairRings(a + b, pathfind, reverse) == RepairRings(a, pathfind, reverse) + RepairRings(b, pathfind, reverse)
  {
    if a != [] {
      assert (a + b)[0] == a[0] && (a + b)[1..] == a[1..] + b;
      RepairRingsAppend(a[1..], b, pathfind, reverse);
    } else {
      assert a + b == b;
    }
  }

  /** If no ring splits, the repair changes nothing. */
  lemma {:induction false} RepairRingsUnsplit(rings: seq<Ring>, pathfind: (seq<Ring>, Mode) -> seq<Ring>, reverse: Ring -> Ring)
    requires forall r :: r in rings ==> !Splits(r, pathfind, reverse)
    ensures RepairRings(rings, pathfind, reverse) == rings
  {
    if rings != [] {
      assert rings[0] in rings;
      RepairRingsUnsplit(rings[1..], pathfind, reverse);
      assert rings == [rings[0]] + rings[1..];
    }
  }

  /** Every ring yields at least one ring, so the repair never loses rings. */
  lemma {:induction false} RepairRingsLength(rings: seq<Ring>, pathfind: (seq<Ring>, Mode) -> seq<Ring>, reverse: Ring -> Ring)
    ensures |RepairRings(rings, pathfind, reverse)| >= |rings|
    ensures |RepairRings(rings, pathfind, reverse)| == |rings| <==> forall r :: r in rings ==> !Splits(r, pathfind, reverse)
  {
    if rings != [] {
      RepairRingsLength(rings[1..], pathfind, reverse);
      assert forall r :: r in rings <==> r == rings[0] || r in rings[1..];
    }
  }

  /** Every output ring is an input ring or a reversed fragment of one. */
  lemma {:induction false} RepairRingsOrigin(rings: seq<Ring>, pathfind: (seq<Ring>, Mode) -> seq<Ring>, reverse: Ring -> Ring)
    ensures forall x :: x in RepairRings(rings, pathfind, reverse) ==>
      exists j :: 0 <= j < |rings| && (x == rings[j] || x in Fragments(rings[j], pathfind, reverse))
  {
    if rings != [] {
      RepairRingsOrigin(rings[1..], pathfind, reverse);
      forall x | x in RepairRings(rings[1..], pathfind, reverse)
        ensures exists j :: 0 <= j < |rings| && (x == rings[j] || x in Fragments(rings[j], pathfind, reverse))
      {
        var j :| 0 <= j < |rings[1..]| && (x == rings[1..][j] || x in Fragments(rings[1..][j], pathfind, reverse));
        assert rings[1..][j] == rings[j + 1];
      }
    }
  }

  /** The `onRing` reducer over one shape's rings. Reversal in place is
      modelled by rebinding the ring to its reverse. */
  method RepairShape(rings: seq<Ring>, pathfind: (seq<Ring>, Mode) -> seq<Ring>, reverse: Ring -> Ring) returns (memo: seq<Ring>)
    requires Involution(reverse)
    ensures memo == RepairRings(rings, pathfind, reverse)
  {
    memo := [];
    var j := 0;
    while j < |rings|
      invariant 0 <= j <= |rings|
      invariant memo == RepairRings(rings[..j], pathfind, reverse)
    {
      var ring := reverse(rings[j]);
      var fixed := pathfind([ring], Flatten);
      if |fixed| > 1 {
        fixed := seq(|fixed|, k requires 0 <= k < |fixed| => reverse(fixed[k]));
        memo := memo + fixed;
      } else {
        ring := reverse(ring);
        memo := memo + [ring];
      }
      assert rings[..j + 1] == rings[..j] + [rings[j]];
      RepairRingsAppend(rings[..j], [rings[j]], pathfind, reverse);
      j := j + 1;
    }
    assert rings[..j] == rings;
  }

  /** `fixTangentHoles`: repair the rings of every non-null shape; the list
      keeps its length, its holes and its `null` entries. */
  method FixTangentHoles(shapes: seq<Slot<Shape>>, pathfind: (seq<Ring>, Mode) -> seq<Ring>, reverse: Ring -> Ring)
    returns (fixed: seq<Slot<Shape>>)
    requires Involution(reverse)
    ensures |fixed| == |shapes|
    ensures forall i :: 0 <= i < |shapes| ==> fixed[i] == RepairSlot(shapes[i], pathfind, reverse)
    ensures forall i :: 0 <= i < |shapes| ==> (fixed[i].Hole? <==> shapes[i].Hole?)
    ensures forall i :: 0 <= i < |shapes| ==> (fixed[i] == Item(NullShape) <==> shapes[i] == Item(NullShape))
  {
    fixed := [];
    var i := 0;
    while i < |shapes|
      invariant 0 <= i <= |shapes|
      invariant |fixed| == i
      invariant forall k :: 0 <= k < i ==> fixed[k] == RepairSlot(shapes[k], pathfind, reverse)
    {
      match shapes[i] {
        case Hole =>
          fixed := fixed + [Hole];
        case Item(NullShape) =>
          fixed := fixed + [Item(NullShape)];
        case Item(Parts(rings)) =>
          var repaired := RepairShape(rings, pathfind, reverse);
          fixed := fixed + [Item(Parts(repaired))];
      }
      i := i + 1;
    }
  }
}
