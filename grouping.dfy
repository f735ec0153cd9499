/** Bucketing of shape ids by dissolve group (`groupPolygons2`).

    The accumulator is a JavaScript array indexed by group id, so the result
    is as long as the largest group id plus one, and every id that no shape
    maps to is a hole. */
module Grouping {
  import opened DissolveTypes

  /** Length of the group array after the first `n` shapes: one more than
      the largest group id seen, or 0 when there are no shapes. */
  function SlotCount(getGroupId: nat -> nat, n: nat): (c: nat)
    ensures forall i :: 0 <= i < n ==> getGroupId(i) < c
    ensures n == 0 ==> c == 0
  {
    if n == 0 then 0
    else
      var c0 := SlotCount(getGroupId, n - 1);
      if c0 < getGroupId(n - 1) + 1 then getGroupId(n - 1) + 1 else c0
  }

  /** The length is attained: some shape has the largest group id. */
  lemma {:induction false} SlotCountAttained(getGroupId: nat -> nat, n: nat)
    requires n > 0
    ensures exists i :: 0 <= i < n && getGroupId(i) + 1 == SlotCount(getGroupId, n)
  {
    if n > 1 && SlotCount(getGroupId, n - 1) >= getGroupId(n - 1) + 1 {
      SlotCountAttained(getGroupId, n - 1);
    } else {
      assert getGroupId(n - 1) + 1 == SlotCount(getGroupId, n);
    }
  }

  /** The ids among the first `n` shapes that belong to group `g`, in
      increasing order: the reference definition of one bucket. */
  function Members(getGroupId: nat -> nat, n: nat, g: nat): seq<nat>
  {
    if n == 0 then []
    else Members(getGroupId, n - 1, g) + (if getGroupId(n - 1) == g then [n - 1] else [])
  }

  /** Slot `g` of the group array: a hole when no shape belongs to `g`. */
  function GroupSlot(getGroupId: nat -> nat, n: nat, g: nat): Slot<seq<nat>>
  {
    var m := Members(getGroupId, n, g);
    if m == [] then Hole else Item(m)
  }

  /** The whole group array for `n` shapes. */
  function GroupSlots(getGroupId: nat -> nat, n: nat): seq<Slot<seq<nat>>>
  {
    seq(SlotCount(getGroupId, n), g requires 0 <= g => GroupSlot(getGroupId, n, g))
  }

  /** JavaScript `a[k] = v`: past the end, the array grows to `k + 1` and the
      new positions before `k` are holes. */
  function Assign<T>(a: seq<Slot<T>>, k: nat, v: Slot<T>): (r: seq<Slot<T>>)
    ensures |r| == if k < |a| then |a| else k + 1
    ensures r[k] == v
    ensures forall j :: 0 <= j < |r| && j != k ==> r[j] == if j < |a| then a[j] else Hole
  {
    if k < |a| then a[k := v] else a + seq(k - |a|, _ => Hole) + [v]
  }

  /** `groupPolygons2`: visit the shapes in index order and push each id onto
      the bucket of its group, creating the bucket on first use. */
  method GroupPolygons(shapes: seq<Shape>, getGroupId: nat -> nat) returns (groups: seq<Slot<seq<nat>>>)
    ensures groups == GroupSlots(getGroupId, |shapes|)
  {
    groups := [];
    var shapeId := 0;
    while shapeId < |shapes|
      invariant 0 <= shapeId <= |shapes|
      invariant SlotsOf(getGroupId, shapeId, groups)
    {
      ghost var before := groups;
      var groupId := getGroupId(shapeId);
      if groupId >= |groups| || groups[groupId].Hole? {
        groups := Assign(groups, groupId, Item([]));
      }
      groups := groups[groupId := Item(groups[groupId].value + [shapeId])];
      assert groups == Pushed(getGroupId, shapeId, before);
      PushStep(getGroupId, shapeId, before);
      shapeId := shapeId + 1;
    }
    SlotsOfIsGroupSlots(getGroupId, |shapes|, groups);
  }

  /** `groups` is, entry by entry, the bucket array of the first `n` shapes. */
  ghost predicate SlotsOf(getGroupId: nat -> nat, n: nat, groups: seq<Slot<seq<nat>>>) {
    |groups| == SlotCount(getGroupId, n) &&
    forall g :: 0 <= g < |groups| ==> groups[g] == GroupSlot(getGroupId, n, g)
  }

  lemma SlotsOfIsGroupSlots(getGroupId: nat -> nat, n: nat, groups: seq<Slot<seq<nat>>>)
    requires SlotsOf(getGroupId, n, groups)
    ensures groups == GroupSlots(getGroupId, n)
  {
    assert forall g :: 0 <= g < |groups| ==> groups[g] == GroupSlots(getGroupId, n)[g];
  }

  /** The bucket array after creating the bucket of shape `n` if missing and
      pushing `n` onto it. */
  function Pushed(getGroupId: nat -> nat, n: nat, groups: seq<Slot<seq<nat>>>): seq<Slot<seq<nat>>>
  {
    var groupId := getGroupId(n);
    var created := if groupId >= |groups| || groups[groupId].Hole? then Assign(groups, groupId, Item([])) else groups;
    created[groupId := Item(created[groupId].value + [n])]
  }

  /** One step of the reduce: pushing shape `n` onto the bucket of its group
      turns the buckets of `n` shapes into those of `n + 1`. */
  lemma PushStep(getGroupId: nat -> nat, n: nat, before: seq<Slot<seq<nat>>>)
    requires SlotsOf(getGroupId, n, before)
    ensures SlotsOf(getGroupId, n + 1, Pushed(getGroupId, n, before))
  {
    var after := Pushed(getGroupId, n, before);
    var groupId := getGroupId(n);
    forall g | 0 <= g < |after|
      ensures after[g] == GroupSlot(getGroupId, n + 1, g)
    {
      if g >= |before| {
        MembersBeyond(getGroupId, n, g);
      }
      if g == groupId {
        assert Members(getGroupId, n + 1, g) == Members(getGroupId, n, g) + [n];
      } else {
        assert Members(getGroupId, n + 1, g) == Members(getGroupId, n, g);
      }
    }
  }

  /** No shape so far belongs to a group id at or past the array's length. */
  lemma {:induction false} MembersBeyond(getGroupId: nat -> nat, n: nat, g: nat)
    requires g >= SlotCount(getGroupId, n)
    ensures Members(getGroupId, n, g) == []
  {
    if n > 0 {
      MembersBeyond(getGroupId, n - 1, g);
    }
  }

  /** A shape id is in bucket `g` exactly when it is one of the shapes and
      its group is `g`. */
  lemma {:induction false} MembersExactly(getGroupId: nat -> nat, n: nat, g: nat)
    ensures forall i: nat :: i in Members(getGroupId, n, g) <==> i < n && getGroupId(i) == g
  {
    if n > 0 {
      MembersExactly(getGroupId, n - 1, g);
    }
  }

  ghost predicate StrictlyIncreasing(s: seq<nat>) {
    forall j, k :: 0 <= j < k < |s| ==> s[j] < s[k]
  }

  /** Within a bucket, ids appear in strictly increasing order, hence each at
      most once. */
  lemma {:induction false} MembersIncreasing(getGroupId: nat -> nat, n: nat, g: nat)
    ensures StrictlyIncreasing(Members(getGroupId, n, g))
    ensures forall i :: i in Members(getGroupId, n, g) ==> i < n
  {
    if n > 0 {
      var s := Members(getGroupId, n - 1, g);
      MembersIncreasing(getGroupId, n - 1, g);
      assert forall j :: 0 <= j < |s| ==> s[j] in s;
    }
  }

  /** The group array partitions the shape ids: every shape is in the bucket
      of its own group, every bucket holds only shapes of that group, in
      increasing order, and a slot is a hole exactly when no shape maps to it. */
  lemma GroupingPartition(getGroupId: nat -> nat, n: nat)
    ensures forall i: nat :: i < n ==>
      getGroupId(i) < |GroupSlots(getGroupId, n)| &&
      GroupSlots(getGroupId, n)[getGroupId(i)].Item? &&
      i in GroupSlots(getGroupId, n)[getGroupId(i)].value
    ensures forall g: nat :: g < |GroupSlots(getGroupId, n)| ==>
      (GroupSlots(getGroupId, n)[g].Hole? <==> forall i: nat :: i < n ==> getGroupId(i) != g)
    ensures forall g: nat, i: nat ::
      g < |GroupSlots(getGroupId, n)| && GroupSlots(getGroupId, n)[g].Item? && i in GroupSlots(getGroupId, n)[g].value
      ==> i < n && getGroupId(i) == g
    ensures forall g: nat :: g < |GroupSlots(getGroupId, n)| && GroupSlots(getGroupId, n)[g].Item? ==>
      StrictlyIncreasing(GroupSlots(getGroupId, n)[g].value)
  {
    var slots := GroupSlots(getGroupId, n);
    forall g: nat | g < |slots|
      ensures slots[g] == GroupSlot(getGroupId, n, g)
      ensures forall i: nat :: i in Members(getGroupId, n, g) <==> i < n && getGroupId(i) == g
      ensures StrictlyIncreasing(Members(getGroupId, n, g))
      ensures slots[g].Hole? <==> forall i: nat :: i < n ==> getGroupId(i) != g
    {
      MembersExactly(getGroupId, n, g);
      MembersIncreasing(getGroupId, n, g);
      if Members(getGroupId, n, g) != [] {
        assert Members(getGroupId, n, g)[0] in Members(getGroupId, n, g);
      }
    }
  }

  /** Number of shape ids held by one slot. */
  function SlotSize(s: Slot<seq<nat>>): nat {
    if s.Item? then |s.value| else 0
  }

  /** Number of shape ids held by all slots. */
  function TotalSize(slots: seq<Slot<seq<nat>>>): nat {
    if slots == [] then 0 else TotalSize(slots[..|slots| - 1]) + SlotSize(slots[|slots| - 1])
  }

  /** Number of the first `n` shapes whose group id is below `k`. */
  function CountBelow(getGroupId: nat -> nat, n: nat, k: nat): nat {
    if n == 0 then 0 else CountBelow(getGroupId, n - 1, k) + (if getGroupId(n - 1) < k then 1 else 0)
  }

  lemma {:induction false} CountBelowStep(getGroupId: nat -> nat, n: nat, k: nat)
    ensures CountBelow(getGroupId, n, k + 1) == CountBelow(getGroupId, n, k) + |Members(getGroupId, n, k)|
  {
    if n > 0 {
      CountBelowStep(getGroupId, n - 1, k);
    }
  }

  lemma {:induction false} CountBelowZero(getGroupId: nat -> nat, n: nat)
    ensures CountBelow(getGroupId, n, 0) == 0
  {
    if n > 0 {
      CountBelowZero(getGroupId, n - 1);
    }
  }

  lemma {:induction false} CountBelowAll(getGroupId: nat -> nat, n: nat, k: nat)
    requires forall i :: 0 <= i < n ==> getGroupId(i) < k
    ensures CountBelow(getGroupId, n, k) == n
  {
    if n > 0 {
      CountBelowAll(getGroupId, n - 1, k);
    }
  }

  lemma {:induction false} TotalSizePrefix(getGroupId: nat -> nat, n: nat, k: nat)
    requires k <= SlotCount(getGroupId, n)
    ensures TotalSize(GroupSlots(getGroupId, n)[..k]) == CountBelow(getGroupId, n, k)
  {
    var slots := GroupSlots(getGroupId, n);
    if k == 0 {
      CountBelowZero(getGroupId, n);
    } else {
      TotalSizePrefix(getGroupId, n, k - 1);
      assert slots[..k][..k - 1] == slots[..k - 1];
      assert SlotSize(slots[k - 1]) == |Members(getGroupId, n, k - 1)|;
      CountBelowStep(getGroupId, n, k - 1);
    }
  }

  /** The buckets hold `n` ids in all: with the partition property, every
      shape id appears exactly once. */
  lemma GroupingTotal(getGroupId: nat -> nat, n: nat)
    ensures TotalSize(GroupSlots(getGroupId, n)) == n
  {
    var slots := GroupSlots(getGroupId, n);
    TotalSizePrefix(getGroupId, n, |slots|);
    assert slots[..|slots|] == slots;
    CountBelowAll(getGroupId, n, |slots|);
  }

  /** The mosaic's single-group fast path is chosen exactly when there are
      shapes and all of them fall in group 0. */
  lemma SingleSlotIff(getGroupId: nat -> nat, n: nat)
    ensures |GroupSlots(getGroupId, n)| == 1 <==> n > 0 && forall i :: 0 <= i < n ==> getGroupId(i) == 0
  {
    if n > 0 {
      SlotCountAttained(getGroupId, n);
    }
  }
}
