// What list_insert_after and its wrappers do to a valid list.

module ListInsert {
  import opened ListTypes
  import opened ListWalk
  import opened ListVerify
  import opened ListShape
  import opened ListSoundness
  import opened ListOps
  import opened ListLayout
  import opened ListEdit
  import opened ListSplice

  /** A slot other than the sentinel is in the ring exactly when its prev is not EMPTY_INDEX. */
  lemma LiveIffLinked(s: State, p: int)
    requires ValidState(s) && 0 <= p < s.capacity
    ensures (p == 0 || p in RingOrder(s)) <==> s.arr.value[p].prev != EMPTY_INDEX
  {
    var slots, frees := RingOrder(s), FreeOrder(s);
    var a := s.arr.value;
    if p in slots {
      var k :| 0 <= k < |slots| && slots[k] == p;
      assert a[slots[k]].prev == PrevOf(slots, k);
    } else if p != 0 {
      var j :| 0 <= j < |frees| && frees[j] == p;
      assert a[frees[j]] == Node(EMPTY_INDEX, POISON, NextOf(frees, j));
    }
  }

  /** In a linear layout slot p (1 <= p <= size) holds rank p - 1, so the rank after it is p. */
  lemma RankInLinear(t: seq<int>, p: int)
    requires Linear(t) && 1 <= p <= |t|
    ensures p in t && RankAfter(t, p) == p
  {
    assert t[p - 1] == p;
  }

  /** list_insert_after refuses a free slot and changes nothing. */
  lemma InsertAfterRefusesFree(s: State, p: nat, elem: Elem, allocOk: bool)
    requires ValidState(s) && LinearFlagSound(s) && 0 < p < s.capacity
    requires s.arr.value[p].prev == EMPTY_INDEX
    ensures InsertAfterSpec(s, p, elem, allocOk) == Inserted(s, {InvalidPosition}, None)
    ensures p !in RingOrder(s)
  {
    VerifySound(s);
    LiveIffLinked(s, p);
  }

  /** When the list must grow and calloc fails, list_insert_after changes nothing. */
  lemma InsertAfterAllocFails(s: State, p: nat, elem: Elem)
    requires ValidState(s) && LinearFlagSound(s) && p < s.capacity
    requires s.arr.value[p].prev != EMPTY_INDEX
    requires GrowCapacity(s.capacity, s.size) != s.capacity
    ensures InsertAfterSpec(s, p, elem, false) == Inserted(s, {AllocErr}, None)
  {
    VerifySound(s);
    ResizeUpResult(s, false);
  }

  /** On a list that passes list_verify and a live p, list_insert_after is the growth followed by the splice. */
  lemma InsertAfterUnfold(s: State, p: nat, elem: Elem, allocOk: bool)
    requires ValidState(s) && LinearFlagSound(s) && p < s.capacity
    requires s.arr.value[p].prev != EMPTY_INDEX
    requires ResizeUpSpec(s, allocOk).errs == {}
    ensures var up := ResizeUpSpec(s, allocOk).state;
            && ValidState(up) && p < up.capacity
            && var s' := SpliceAfter(up, p, elem);
               InsertAfterSpec(s, p, elem, allocOk) == Inserted(s', Verify(s'), Some(up.freeHead))
  {
    VerifySound(s);
    ResizeUpValid(s, allocOk);
  }

  /**
   * What the growth step leaves for the splice when p keeps its meaning: a
   * valid list with the same payloads, room for one more, a truthful flag
   * that is set if the list was linear or has been linearised, and p still
   * live with the same rank.
   */
  lemma GrowthKeepsPosition(s: State, p: nat, allocOk: bool)
    requires ValidState(s) && LinearFlagSound(s) && p < s.capacity
    requires s.arr.value[p].prev != EMPTY_INDEX
    requires var grows := GrowCapacity(s.capacity, s.size) != s.capacity;
             (!grows || allocOk) && (!grows || s.isLinear || p == 0)
    ensures var o := ResizeUpSpec(s, allocOk);
            var up := o.state;
            var grows := GrowCapacity(s.capacity, s.size) != s.capacity;
            && o.errs == {}
            && ValidState(up) && LinearFlagSound(up) && p < up.capacity
            && up.size == s.size < up.capacity - 2
            && ValuesOf(up) == ValuesOf(s)
            && up.isLinear == (s.isLinear || grows)
            && (p == 0 || p in RingOrder(up))
            && RankAfter(RingOrder(up), p) == RankAfter(RingOrder(s), p)
            && (!grows ==> up == s)
            && (grows ==> up.capacity == GrowCapacity(s.capacity, s.size) && up.freeHead == s.size + 1)
  {
    var grows := GrowCapacity(s.capacity, s.size) != s.capacity;
    VerifySound(s);
    LiveIffLinked(s, p);
    ResizeUpResult(s, allocOk);
    var up := ResizeUpSpec(s, allocOk).state;
    if grows {
      ValuesNotPoison(s);
      LinearStateValid(ValuesOf(s), up.capacity);
      if p != 0 {
        RankInLinear(RingOrder(s), p);
        RankInLinear(RingOrder(up), p);
      }
    }
  }

  /**
   * list_insert_after on a live slot p that still means the same slot after
   * any growth (no growth, or a linear layout, or the sentinel): the payload
   * takes the rank right after p's, *inserted_index names its slot, and
   * nothing else moves.  The result is OK except in one case: the list is
   * linear (or has just been linearised by the growth), non-empty, and p is
   * the sentinel; then is_linear stays set over a layout that is no longer
   * linear and the closing verify reports INVALID_IS_LINEAR.
   */
  lemma InsertAfterLinks(s: State, p: nat, elem: Elem, allocOk: bool)
    requires ValidState(s) && LinearFlagSound(s) && p < s.capacity && elem != POISON
    requires s.arr.value[p].prev != EMPTY_INDEX
    requires var grows := GrowCapacity(s.capacity, s.size) != s.capacity;
             (!grows || allocOk) && (!grows || s.isLinear || p == 0)
    ensures var o := InsertAfterSpec(s, p, elem, allocOk);
            var grows := GrowCapacity(s.capacity, s.size) != s.capacity;
            var r := RankAfter(RingOrder(s), p);
            && ValidState(o.state)
            && o.state.size == s.size + 1
            && o.index.Some? && RingOrder(o.state)[r] == o.index.value
            && ValuesOf(o.state) == InsertAt(ValuesOf(s), r, elem)
            && o.errs == (if (s.isLinear || grows) && r == 0 && s.size > 0 then {InvalidIsLinear} else {})
            && (o.errs == {} ==> LinearFlagSound(o.state))
            && (!grows ==> && o.state.capacity == s.capacity
                           && o.index == Some(s.freeHead)
                           && FreeOrder(o.state) == FreeOrder(s)[1..])
            && (grows ==> o.state.capacity == GrowCapacity(s.capacity, s.size) && o.index == Some(s.size + 1))
  {
    InsertAfterPlaces(s, p, elem, allocOk);
    InsertAfterReports(s, p, elem, allocOk);
  }

  /** The layout half of InsertAfterLinks: where the payload lands and what else the list keeps. */
  lemma InsertAfterPlaces(s: State, p: nat, elem: Elem, allocOk: bool)
    requires ValidState(s) && LinearFlagSound(s) && p < s.capacity && elem != POISON
    requires s.arr.value[p].prev != EMPTY_INDEX
    requires var grows := GrowCapacity(s.capacity, s.size) != s.capacity;
             (!grows || allocOk) && (!grows || s.isLinear || p == 0)
    ensures var o := InsertAfterSpec(s, p, elem, allocOk);
            var grows := GrowCapacity(s.capacity, s.size) != s.capacity;
            var r := RankAfter(RingOrder(s), p);
            && ValidState(o.state)
            && o.state.size == s.size + 1
            && o.index.Some? && RingOrder(o.state)[r] == o.index.value
            && ValuesOf(o.state) == InsertAt(ValuesOf(s), r, elem)
            && (!grows ==> && o.state.capacity == s.capacity
                           && o.index == Some(s.freeHead)
                           && FreeOrder(o.state) == FreeOrder(s)[1..])
            && (grows ==> o.state.capacity == GrowCapacity(s.capacity, s.size) && o.index == Some(s.size + 1))
  {
    GrowthKeepsPosition(s, p, allocOk);
    InsertAfterUnfold(s, p, elem, allocOk);
    SpliceValid(ResizeUpSpec(s, allocOk).state, p, elem);
  }

  /** The result half of InsertAfterLinks: the closing list_verify and the is_linear flag. */
  lemma InsertAfterReports(s: State, p: nat, elem: Elem, allocOk: bool)
    requires ValidState(s) && LinearFlagSound(s) && p < s.capacity && elem != POISON
    requires s.arr.value[p].prev != EMPTY_INDEX
    requires var grows := GrowCapacity(s.capacity, s.size) != s.capacity;
             (!grows || allocOk) && (!grows || s.isLinear || p == 0)
    ensures var o := InsertAfterSpec(s, p, elem, allocOk);
            var grows := GrowCapacity(s.capacity, s.size) != s.capacity;
            var r := RankAfter(RingOrder(s), p);
            && ValidState(o.state)
            && o.errs == (if (s.isLinear || grows) && r == 0 && s.size > 0 then {InvalidIsLinear} else {})
            && (o.errs == {} ==> LinearFlagSound(o.state))
  {
    GrowthKeepsPosition(s, p, allocOk);
    InsertAfterUnfold(s, p, elem, allocOk);
    SpliceFlag(ResizeUpSpec(s, allocOk).state, p, elem);
  }

  /**
   * list_insert_after does not look at the payload: POISON is stored like any
   * other, and the closing list_verify then finds a live slot holding POISON.
   * The result is POISON_VAL_FOUND, the list no longer keeps the invariant,
   * and every later LIST_ASSERT on it reports the same fault.
   */
  lemma InsertAfterStoresPoison(s: State, p: nat, allocOk: bool)
    requires ValidState(s) && LinearFlagSound(s) && p < s.capacity
    requires s.arr.value[p].prev != EMPTY_INDEX
    requires var grows := GrowCapacity(s.capacity, s.size) != s.capacity;
             (!grows || allocOk) && (!grows || s.isLinear || p == 0)
    ensures var o := InsertAfterSpec(s, p, POISON, allocOk);
            && o.index.Some? && o.state.size == s.size + 1
            && PoisonValFound in o.errs && o.errs == Verify(o.state)
            && !ValidState(o.state)
  {
    GrowthKeepsPosition(s, p, allocOk);
    InsertAfterUnfold(s, p, POISON, allocOk);
    var up := ResizeUpSpec(s, allocOk).state;
    var o := InsertAfterSpec(s, p, POISON, allocOk);
    SplicedPoison(up, p);
    if ValidState(o.state) {
      VerifyOfValid(o.state);
      assert false;
    }
  }

  /** The slot the splice takes holds POISON with a prev link, which the duality scan reports. */
  lemma SplicedPoison(s: State, p: nat)
    requires ValidState(s) && p < s.capacity && (p == 0 || p in RingOrder(s))
    ensures PoisonValFound in Verify(SpliceAfter(s, p, POISON))
  {
    var slots, frees := RingOrder(s), FreeOrder(s);
    var a := s.arr.value;
    var ins := s.freeHead;
    assert ins == frees[0] && 1 <= ins < s.capacity;
    assert ins !in slots;
    if p == 0 {
      assert a[0].next == First(slots);
    } else {
      var k := IndexOf(slots, p);
      assert a[slots[k]].next == NextOf(slots, k);
    }
    var a' := SpliceWrites(a, p, ins, POISON);
    assert a'[ins] == Node(p, POISON, a[p].next);
    DualitySees(a', 1, s.capacity, ins);
  }

  /**
   * The stale position: when list_insert_after has to grow a list that is
   * not linear, the growth re-lays the payloads out in logical order but p is
   * not remapped, so for 1 <= p <= size the payload lands after the element of
   * rank p - 1, whatever slot p held before.
   */
  lemma InsertAfterStalePosition(s: State, p: nat, elem: Elem)
    requires ValidState(s) && !s.isLinear && 1 <= p <= s.size && p < s.capacity && elem != POISON
    requires s.arr.value[p].prev != EMPTY_INDEX
    requires GrowCapacity(s.capacity, s.size) != s.capacity
    ensures var o := InsertAfterSpec(s, p, elem, true);
            && ValidState(o.state) && o.errs == {}
            && ValuesOf(o.state) == InsertAt(ValuesOf(s), p, elem)
            && o.index == Some(s.size + 1)
  {
    StaleGrowth(s, p);
    InsertAfterUnfold(s, p, elem, true);
    var up := ResizeUpSpec(s, true).state;
    SpliceFlag(up, p, elem);
    SpliceValid(up, p, elem);
  }

  /** The growth step of the stale case: the list is linearised and slot p now holds rank p - 1. */
  lemma StaleGrowth(s: State, p: nat)
    requires ValidState(s) && !s.isLinear && 1 <= p <= s.size && p < s.capacity
    requires GrowCapacity(s.capacity, s.size) != s.capacity
    ensures var o := ResizeUpSpec(s, true);
            var up := o.state;
            && o.errs == {}
            && ValidState(up) && LinearFlagSound(up) && up.isLinear && p < up.capacity
            && up.size == s.size < up.capacity - 2
            && ValuesOf(up) == ValuesOf(s)
            && p in RingOrder(up) && RankAfter(RingOrder(up), p) == p
            && up.freeHead == s.size + 1
  {
    VerifySound(s);
    ResizeUpResult(s, true);
    var up := ResizeUpSpec(s, true).state;
    ValuesNotPoison(s);
    LinearStateValid(ValuesOf(s), up.capacity);
    RankInLinear(RingOrder(up), p);
  }

  /**
   * list_pushback on a valid list appends the payload, provided the tail's
   * slot still holds the tail after any growth (the list is linear or empty,
   * or does not grow).
   */
  lemma PushBackAppends(s: State, elem: Elem, allocOk: bool)
    requires ValidState(s) && LinearFlagSound(s) && elem != POISON
    requires var grows := GrowCapacity(s.capacity, s.size) != s.capacity;
             (!grows || allocOk) && (!grows || s.isLinear || s.size == 0)
    ensures var o := PushBackSpec(s, elem, allocOk);
            && ValidState(o.state) && o.errs == {} && LinearFlagSound(o.state)
            && ValuesOf(o.state) == ValuesOf(s) + [elem]
  {
    var slots := RingOrder(s);
    var t := Tail(s);
    HeadLinksBack(s);
    LiveIffLinked(s, t);
    if slots != [] {
      IndexOfDistinct(slots, |slots| - 1);
    }
    assert PushBackSpec(s, elem, allocOk) == InsertAfterSpec(s, t, elem, allocOk);
    InsertAfterLinks(s, t, elem, allocOk);
    InsertAtEnds(ValuesOf(s), elem);
  }

  /**
   * list_pushfront on a valid list prepends the payload.  When the list is
   * non-empty and linear, or is linearised by the growth, is_linear stays set
   * and the result is INVALID_IS_LINEAR although the payload is in place.
   */
  lemma PushFrontPrepends(s: State, elem: Elem, allocOk: bool)
    requires ValidState(s) && LinearFlagSound(s) && elem != POISON
    requires GrowCapacity(s.capacity, s.size) == s.capacity || allocOk
    ensures var o := PushFrontSpec(s, elem, allocOk);
            var grows := GrowCapacity(s.capacity, s.size) != s.capacity;
            && ValidState(o.state)
            && ValuesOf(o.state) == [elem] + ValuesOf(s)
            && o.errs == (if (s.isLinear || grows) && s.size > 0 then {InvalidIsLinear} else {})
  {
    PushFrontAtSentinel(s, elem, allocOk);
    InsertAfterLinks(s, 0, elem, allocOk);
    InsertAtEnds(ValuesOf(s), elem);
  }

  /** list_pushfront is list_insert_after on the sentinel, whose rank-after is 0. */
  lemma PushFrontAtSentinel(s: State, elem: Elem, allocOk: bool)
    requires ValidState(s)
    ensures PushFrontSpec(s, elem, allocOk) == InsertAfterSpec(s, 0, elem, allocOk)
    ensures s.arr.value[0].prev != EMPTY_INDEX && RankAfter(RingOrder(s), 0) == 0
  {
    HeadLinksBack(s);
    assert 0 !in RingOrder(s);
  }

  /**
   * list_insert_before on a live slot p whose prev keeps its meaning across
   * any growth (no growth, a linear layout, or p the head, whose prev is the
   * sentinel): the payload takes p's rank, just before p's payload.  Before
   * the head of a list that is linear or is linearised by the growth, the
   * result is INVALID_IS_LINEAR, as for list_pushfront.
   */
  lemma InsertBeforeLinks(s: State, p: nat, elem: Elem, allocOk: bool)
    requires ValidState(s) && LinearFlagSound(s) && 0 < p < s.capacity && elem != POISON
    requires s.arr.value[p].prev != EMPTY_INDEX
    requires var grows := GrowCapacity(s.capacity, s.size) != s.capacity;
             (!grows || allocOk) && (!grows || s.isLinear || p == Head(s))
    ensures p in RingOrder(s)
    ensures var o := InsertBeforeSpec(s, p, elem, allocOk);
            var grows := GrowCapacity(s.capacity, s.size) != s.capacity;
            var k := IndexOf(RingOrder(s), p);
            && ValidState(o.state)
            && ValuesOf(o.state) == InsertAt(ValuesOf(s), k, elem)
            && o.index.Some? && RingOrder(o.state)[k] == o.index.value
            && o.errs == (if (s.isLinear || grows) && k == 0 && s.size > 0 then {InvalidIsLinear} else {})
            && (o.errs == {} ==> LinearFlagSound(o.state))
  {
    var slots := RingOrder(s);
    var a := s.arr.value;
    LiveIffLinked(s, p);
    var k := IndexOf(slots, p);
    assert a[slots[k]].prev == PrevOf(slots, k);
    var q := a[p].prev;
    if k > 0 {
      IndexOfDistinct(slots, k - 1);
    } else {
      assert 0 !in slots;
    }
    assert RankAfter(slots, q) == k;
    if p == Head(s) {
      HeadLinksBack(s);
    }
    LiveIffLinked(s, q);
    InsertAfterLinks(s, q, elem, allocOk);
  }

  /** list_insert_before(0) inserts before the sentinel, that is after the tail: it is list_pushback. */
  lemma InsertBeforeSentinel(s: State, elem: Elem, allocOk: bool)
    requires ValidState(s)
    ensures s.arr.value[0].prev != EMPTY_INDEX
    ensures InsertBeforeSpec(s, 0, elem, allocOk) == PushBackSpec(s, elem, allocOk)
  {
    HeadLinksBack(s);
  }

  /**
   * list_pushback on a full list that is not linear: the tail slot is read
   * before the growth re-lays the list out, so the payload lands at the rank
   * the tail's slot number names instead of at the end.
   */
  lemma PushBackStaleTail(s: State, elem: Elem)
    requires ValidState(s) && !s.isLinear && elem != POISON
    requires GrowCapacity(s.capacity, s.size) != s.capacity
    requires 1 <= Tail(s) <= s.size
    ensures var o := PushBackSpec(s, elem, true);
            && o.errs == {}
            && ValuesOf(o.state) == InsertAt(ValuesOf(s), Tail(s), elem)
  {
    PushBackAtTail(s, elem, true);
    HeadLinksBack(s);
    LiveIffLinked(s, Tail(s));
    InsertAfterStalePosition(s, Tail(s), elem);
  }

  lemma PushBackAtTail(s: State, elem: Elem, allocOk: bool)
    requires ValidState(s)
    ensures 0 <= Tail(s) < s.capacity
    ensures PushBackSpec(s, elem, allocOk) == InsertAfterSpec(s, Tail(s), elem, allocOk)
  {
    HeadLinksBack(s);
  }
}
