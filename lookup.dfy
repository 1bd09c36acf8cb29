// The three lookups of src/list.cpp:124-208 and what they answer on a valid
// list.

module ListLookup {
  import opened ListTypes
  import opened ListWalk
  import opened ListVerify
  import opened ListShape
  import opened ListSoundness
  import opened ListOps
  import opened ListLayout
  import opened ListSplice
  import opened ListInsert

  /** Where a LIST_FOREACH search for x in t stops: the first position holding x, or |t|. */
  function Position(t: seq<int>, x: int): (k: nat)
    ensures k <= |t|
    ensures forall j :: 0 <= j < k ==> t[j] != x
    ensures k < |t| ==> t[k] == x
    ensures k == |t| <==> x !in t
  {
    if t == [] then 0
    else if t[0] == x then 0
    else
      var k := Position(t[1..], x);
      assert t == [t[0]] + t[1..];
      k + 1
  }

  /** A list that passes list_verify has its array, a size below its capacity and the walk readable. */
  lemma PassedHasArray(s: State)
    requires Readable(s) && Verify(s) == {}
    ensures s.arr.Some? && 0 <= s.size < s.capacity <= |s.arr.value|
  {
  }

  /**
   * list_find_by_logical_index: verify; refuse an index outside 0..size-1
   * (writing -1); the linear shortcut logical_i + 1; otherwise the slot the
   * walk reaches after logical_i steps, or -1 (and DAMAGED_PATH if the walk
   * did not end after size steps).
   */
  function FindByLogicalIndexSpec(s: State, logical: int): (r: Lookup)
    requires Readable(s)
  {
    var r0 := Verify(s);
    if r0 != {} then Lookup(r0, None)
    else if logical >= s.size || logical < 0 then Lookup({InvalidPosition}, Some(-1))
    else if s.isLinear then Lookup({}, Some(logical + 1))
    else
      PassedHasArray(s);
      var w := RingWalk(s.arr.value, s.size);
      if logical < |w.visited| then Lookup({}, Some(w.visited[logical]))
      else Lookup(if ForeachBroken(s.size, w.log) then {DamagedPath} else {}, Some(-1))
  }

  /**
   * list_find_by_value: verify; refuse POISON (writing -1); otherwise the
   * first slot on the walk holding elem, or -1 (and DAMAGED_PATH if the walk
   * did not end after size steps).
   */
  function FindByValueSpec(s: State, elem: Elem): (r: Lookup)
    requires Readable(s)
  {
    var r0 := Verify(s);
    if r0 != {} then Lookup(r0, None)
    else if elem == POISON then Lookup({PoisonValFound}, Some(-1))
    else
      PassedHasArray(s);
      var w := RingWalk(s.arr.value, s.size);
      var k := Position(ElemsAt(s.arr.value, w.visited), elem);
      if k < |w.visited| then Lookup({}, Some(w.visited[k]))
      else Lookup(if ForeachBroken(s.size, w.log) then {DamagedPath} else {}, Some(-1))
  }

  /**
   * list_logical_index_by_physical: verify; refuse a slot outside
   * 1..capacity-1 (writing -1); the linear shortcut physical_i - 1, taken
   * whether or not the slot is live; otherwise the number of steps the walk
   * takes to reach the slot, or -1 (and DAMAGED_PATH if the walk did not end
   * after size steps).
   */
  function LogicalIndexByPhysicalSpec(s: State, physical: int): (r: Lookup)
    requires Readable(s)
  {
    var r0 := Verify(s);
    if r0 != {} then Lookup(r0, None)
    else if physical >= s.capacity || physical <= 0 then Lookup({InvalidPosition}, Some(-1))
    else if s.isLinear then Lookup({}, Some(physical - 1))
    else
      PassedHasArray(s);
      var w := RingWalk(s.arr.value, s.size);
      var k := Position(w.visited, physical);
      if k < |w.visited| then Lookup({}, Some(k))
      else Lookup(if ForeachBroken(s.size, w.log) then {DamagedPath} else {}, Some(-1))
  }

  /** In a chain without repeats, Position finds the one occurrence. */
  lemma PositionDistinct(t: seq<int>, k: nat)
    requires Distinct(t) && k < |t|
    ensures Position(t, t[k]) == k
  {
  }

  /** The slots 1..n of a linear layout are found in order. */
  lemma LinearSlots(s: State)
    requires ValidState(s) && LinearFlagSound(s) && s.isLinear
    ensures forall i :: 0 <= i < s.size ==> RingOrder(s)[i] == i + 1
  {
  }

  /**
   * On a valid list with a truthful is_linear, list_find_by_logical_index
   * answers the slot of rank i for every i in 0..size-1, by the shortcut or
   * by the walk alike, and INVALID_POSITION with -1 for any other i.
   */
  lemma FindByLogicalIndexCorrect(s: State, i: int)
    requires ValidState(s) && LinearFlagSound(s)
    ensures var r := FindByLogicalIndexSpec(s, i);
            if 0 <= i < s.size then r == Lookup({}, Some(RingOrder(s)[i]))
            else r == Lookup({InvalidPosition}, Some(-1))
  {
    VerifySound(s);
    RingWalkOfShaped(s, RingOrder(s), FreeOrder(s));
    if s.isLinear {
      LinearSlots(s);
    }
  }

  /**
   * On a valid list with a truthful is_linear, list_find_by_value answers the
   * slot of the first payload equal to elem in logical order, and -1 when no
   * payload is; POISON is refused.
   */
  lemma FindByValueCorrect(s: State, elem: Elem)
    requires ValidState(s) && LinearFlagSound(s)
    ensures var r := FindByValueSpec(s, elem);
            var vs := ValuesOf(s);
            && (elem == POISON ==> r == Lookup({PoisonValFound}, Some(-1)))
            && (elem != POISON && elem in vs ==>
                  r == Lookup({}, Some(RingOrder(s)[Position(vs, elem)])))
            && (elem != POISON && elem !in vs ==> r == Lookup({}, Some(-1)))
  {
    VerifySound(s);
    RingWalkOfShaped(s, RingOrder(s), FreeOrder(s));
  }

  /**
   * On a valid list with a truthful is_linear, list_logical_index_by_physical
   * answers the rank of a live slot.  For a free slot it answers -1 when the
   * list is not linear, but physical_i - 1 when it is: the shortcut does not
   * look at the slot.
   */
  lemma LogicalIndexByPhysicalCorrect(s: State, p: int)
    requires ValidState(s) && LinearFlagSound(s)
    ensures var r := LogicalIndexByPhysicalSpec(s, p);
            && (p <= 0 || p >= s.capacity ==> r == Lookup({InvalidPosition}, Some(-1)))
            && (p in RingOrder(s) ==> r == Lookup({}, Some(IndexOf(RingOrder(s), p))))
            && (0 < p < s.capacity && p !in RingOrder(s) ==>
                  r == Lookup({}, Some(if s.isLinear then p - 1 else -1)))
  {
    var slots := RingOrder(s);
    VerifySound(s);
    RingWalkOfShaped(s, slots, FreeOrder(s));
    if p in slots {
      var k := IndexOf(slots, p);
      PositionDistinct(slots, k);
      if s.isLinear {
        LinearSlots(s);
      }
    }
  }

  /** Rank to slot and back: the lookups are inverse on the live slots. */
  lemma LookupRoundTrip(s: State, i: int)
    requires ValidState(s) && LinearFlagSound(s) && 0 <= i < s.size
    ensures var r := FindByLogicalIndexSpec(s, i);
            r.index.Some? && LogicalIndexByPhysicalSpec(s, r.index.value) == Lookup({}, Some(i))
  {
    FindByLogicalIndexCorrect(s, i);
    var slots := RingOrder(s);
    assert slots[i] in slots;
    LogicalIndexByPhysicalCorrect(s, slots[i]);
    IndexOfDistinct(slots, i);
  }

  /** Slot to rank and back, for a live slot. */
  lemma LookupRoundTripBack(s: State, p: int)
    requires ValidState(s) && LinearFlagSound(s) && p in RingOrder(s)
    ensures var r := LogicalIndexByPhysicalSpec(s, p);
            r.index.Some? && FindByLogicalIndexSpec(s, r.index.value) == Lookup({}, Some(p))
  {
    LogicalIndexByPhysicalCorrect(s, p);
    var k := IndexOf(RingOrder(s), p);
    FindByLogicalIndexCorrect(s, k);
  }

  /**
   * After list_linearise, list_find_by_logical_index(i) is i + 1 and the
   * payload there is the one of rank i.
   */
  lemma LinearisedFind(s: State, i: int)
    requires ValidState(s) && LinearFlagSound(s) && 0 <= i < s.size
    ensures var l := LineariseSpec(s, -1, true).state;
            && FindByLogicalIndexSpec(l, i) == Lookup({}, Some(i + 1))
            && l.arr.value[i + 1].elem == ValuesOf(s)[i]
  {
    VerifySound(s);
    LineariseLaysOut(s, -1, true);
    ValuesNotPoison(s);
    LinearStateValid(ValuesOf(s), s.capacity);
    var l := LinearState(ValuesOf(s), s.capacity);
    FindByLogicalIndexCorrect(l, i);
    assert l.arr.value[i + 1] == LinearNode(ValuesOf(s), s.capacity, i + 1);
  }
}
