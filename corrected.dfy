// list_insert_after, list_delete and list_resize_up as they are evidently
// meant to behave, at the four points where the source departs from that:
// is_linear is kept when the new slot becomes the head of a non-empty linear
// list; the position is not remapped when list_resize_up re-lays the list
// out; nor when list_resize_down does; and the growth loop never leaves the
// one-slot list that list_ctor(0) builds.

module ListCorrected {
  import opened ListTypes
  import opened ListWalk
  import opened ListVerify
  import opened ListShape
  import opened ListSoundness
  import opened ListOps
  import opened ListLayout
  import opened ListEdit
  import opened ListSplice
  import opened ListInsert
  import opened ListUnlink
  import opened ListDelete

  /**
   * The list_resize_up loop body with a floor of one payload slot before
   * doubling, so the one-slot list of list_ctor(0) grows to capacity 3.
   */
  function GrowStepFixed(cap: int): int
  {
    if cap - 1 < 1 then 3 else GrowStep(cap)
  }

  /**
   * The capacity the corrected loop settles on: it terminates from every
   * capacity of at least 1, leaves room for one more element, and agrees
   * with GrowCapacity on every list that keeps the structural invariant
   * (capacity at least 2), which is the growth the rest of the model uses.
   */
  function GrowCapacityFixed(cap: int, size: int): (r: int)
    requires cap >= 1
    ensures r >= cap && size < r - 2
    ensures cap >= 2 ==> r == GrowCapacity(cap, size)
    decreases size - cap + 3
  {
    if size >= cap - 1 - 1 then GrowCapacityFixed(GrowStepFixed(cap), size) else cap
  }

  /** The splice, keeping is_linear only when the new slot became the tail. */
  function SpliceAfterFixed(s: State, position: nat, elem: Elem): (s': State)
    requires ValidState(s) && position < s.capacity
    ensures Readable(s') && s'.arr.Some?
  {
    var s1 := SpliceAfter(s, position, elem);
    s1.(isLinear := s.isLinear && s.freeHead == Tail(s1))
  }

  /**
   * list_insert_after with both corrections: the rank position stands for
   * is taken before any growth and, when the list was re-laid out, the
   * position is moved to the slot that rank now occupies.
   */
  function InsertAfterFixedSpec(s: State, position: nat, elem: Elem, allocOk: bool): (o: Inserted)
    requires ValidState(s) && position < s.capacity
    ensures Readable(o.state) && o.state.arr.Some?
  {
    var r0 := Verify(s);
    if r0 != {} then Inserted(s, r0, None)
    else if s.arr.value[position].prev == EMPTY_INDEX then Inserted(s, {InvalidPosition}, None)
    else
      var r := RankAfter(RingOrder(s), position);
      var up := ResizeUpSpec(s, allocOk);
      if up.errs != {} then Inserted(up.state, up.errs, None)
      else
        ResizeUpValid(s, allocOk);
        var q := if up.state.capacity == s.capacity then position else r;
        var s2 := SpliceAfterFixed(up.state, q, elem);
        Inserted(s2, Verify(s2), Some(up.state.freeHead))
  }

  /**
   * The corrected splice keeps a truthful is_linear in every case and so
   * always passes list_verify; the payload lands at the rank after p.
   */
  lemma SpliceFixedClean(s: State, p: nat, elem: Elem)
    requires ValidState(s) && LinearFlagSound(s) && p < s.capacity && elem != POISON
    requires s.size < s.capacity - 2
    requires p == 0 || p in RingOrder(s)
    ensures var s' := SpliceAfterFixed(s, p, elem);
            var r := RankAfter(RingOrder(s), p);
            && ValidState(s') && LinearFlagSound(s') && Verify(s') == {}
            && ValuesOf(s') == InsertAt(ValuesOf(s), r, elem)
            && s'.isLinear == (s.isLinear && r == s.size)
  {
    var slots := RingOrder(s);
    var r := RankAfter(slots, p);
    var s1 := SpliceAfter(s, p, elem);
    var s' := SpliceAfterFixed(s, p, elem);
    var ins := s.freeHead;
    SpliceValid(s, p, elem);
    SpliceFlag(s, p, elem);
    var t := RingOrder(s1);
    assert Shaped(s', t, FreeOrder(s1));
    ShapedValid(s', t, FreeOrder(s1));
    assert Tail(s1) == Last(t);
    if r < s.size {
      assert t[r] == ins && t[|t| - 1] == slots[s.size - 1];
      assert Tail(s1) != ins;
    }
    if !s'.isLinear {
      VerifySound(s');
    }
  }

  /**
   * The corrected list_insert_after on a live slot p always reports OK,
   * keeps the list valid with a truthful is_linear and puts the payload
   * right after p's payload, whether or not the list had to grow.
   */
  lemma InsertAfterFixedInserts(s: State, p: nat, elem: Elem, allocOk: bool)
    requires ValidState(s) && LinearFlagSound(s) && p < s.capacity && elem != POISON
    requires s.arr.value[p].prev != EMPTY_INDEX
    requires GrowCapacity(s.capacity, s.size) != s.capacity ==> allocOk
    ensures var o := InsertAfterFixedSpec(s, p, elem, allocOk);
            && o.errs == {} && o.index.Some?
            && ValidState(o.state) && LinearFlagSound(o.state)
            && o.state.size == s.size + 1
            && ValuesOf(o.state) == InsertAt(ValuesOf(s), RankAfter(RingOrder(s), p), elem)
  {
    var slots := RingOrder(s);
    var r := RankAfter(slots, p);
    VerifySound(s);
    LiveIffLinked(s, p);
    ResizeUpResult(s, allocOk);
    ResizeUpValid(s, allocOk);
    var up := ResizeUpSpec(s, allocOk).state;
    var q := if up.capacity == s.capacity then p else r;
    if up.capacity != s.capacity {
      ValuesNotPoison(s);
      LinearStateValid(ValuesOf(s), up.capacity);
      if r >= 1 {
        RankInLinear(RingOrder(up), r);
      } else {
        assert 0 !in RingOrder(up);
      }
    }
    SpliceFixedClean(up, q, elem);
  }

  /** Pushing back through the corrected list_insert_after appends, also when the list grows. */
  lemma PushBackFixedAppends(s: State, elem: Elem, allocOk: bool)
    requires ValidState(s) && LinearFlagSound(s) && elem != POISON
    requires GrowCapacity(s.capacity, s.size) != s.capacity ==> allocOk
    ensures var o := InsertAfterFixedSpec(s, Tail(s), elem, allocOk);
            && o.errs == {} && ValidState(o.state) && LinearFlagSound(o.state)
            && ValuesOf(o.state) == ValuesOf(s) + [elem]
  {
    var slots := RingOrder(s);
    HeadLinksBack(s);
    LiveIffLinked(s, Tail(s));
    if slots != [] {
      IndexOfDistinct(slots, |slots| - 1);
    }
    InsertAfterFixedInserts(s, Tail(s), elem, allocOk);
    InsertAtEnds(ValuesOf(s), elem);
  }

  /** Pushing front through the corrected list_insert_after prepends and reports OK. */
  lemma PushFrontFixedPrepends(s: State, elem: Elem, allocOk: bool)
    requires ValidState(s) && LinearFlagSound(s) && elem != POISON
    requires GrowCapacity(s.capacity, s.size) != s.capacity ==> allocOk
    ensures var o := InsertAfterFixedSpec(s, s.arr.value[Head(s)].prev, elem, allocOk);
            && o.errs == {} && ValidState(o.state) && LinearFlagSound(o.state)
            && ValuesOf(o.state) == [elem] + ValuesOf(s)
  {
    HeadLinksBack(s);
    PushFrontAtSentinel(s, elem, allocOk);
    InsertAfterFixedInserts(s, 0, elem, allocOk);
    InsertAtEnds(ValuesOf(s), elem);
  }

  /**
   * list_delete with the position remapped: the rank position stands for is
   * taken before any shrink and, when the list was re-laid out, the position
   * is moved to the slot that rank now occupies.
   */
  function DeleteFixedSpec(s: State, position: nat, noResize: bool, allocOk: bool): (o: Outcome)
    requires ValidState(s) && 0 < position < s.capacity
    ensures Readable(o.state) && o.state.arr.Some?
  {
    var r0 := Verify(s);
    if r0 != {} then Outcome(s, r0)
    else if s.arr.value[position].prev == EMPTY_INDEX then Outcome(s, {InvalidPosition})
    else
      LiveIffLinked(s, position);
      var k := IndexOf(RingOrder(s), position);
      var down := if noResize then Outcome(s, {}) else ResizeDownSpec(s, allocOk);
      if down.errs != {} then down
      else
        ResizeDownValid(s, allocOk);
        var q := if down.state.capacity == s.capacity then position else k + 1;
        UnlinkReported(down.state, q)
  }

  /** The unlinking step of list_delete followed by its closing list_verify. */
  function UnlinkReported(d: State, q: nat): Outcome
    requires ValidState(d) && q < d.capacity && d.arr.value[q].prev != EMPTY_INDEX
  {
    var s2 := Unlink(d, q);
    Outcome(s2, Verify(s2))
  }

  /**
   * The shrink step of the corrected list_delete, when the list does shrink:
   * the list is re-laid out linearly with the same payloads in the smaller
   * array, and list_delete goes on.
   */
  lemma ShrinkRelays(s: State, allocOk: bool)
    requires ValidState(s) && LinearFlagSound(s) && allocOk
    requires ShrinkCapacity(s.capacity, s.size) != s.capacity
    ensures var o := ResizeDownSpec(s, allocOk);
            && o.errs == {}
            && o.state.capacity == ShrinkCapacity(s.capacity, s.size)
            && ValidState(o.state) && Linear(RingOrder(o.state))
            && o.state.size == s.size && ValuesOf(o.state) == ValuesOf(s)
  {
    VerifySound(s);
    ResizeDownResult(s, allocOk);
    ResizeDownValid(s, allocOk);
  }

  /** Unlinking slot k + 1 of a linearly laid-out list removes rank k. */
  lemma UnlinkRanked(d: State, k: nat)
    requires ValidState(d) && Linear(RingOrder(d)) && k < d.size
    ensures k + 1 < d.capacity && d.arr.value[k + 1].prev != EMPTY_INDEX
    ensures var o := UnlinkReported(d, k + 1);
            && o.errs == {}
            && ValidState(o.state) && LinearFlagSound(o.state)
            && o.state.size == d.size - 1
            && ValuesOf(o.state) == RemoveAt(ValuesOf(d), k)
  {
    LinearRank(RingOrder(d), k);
    UnlinkValid(d, k + 1);
  }

  /** In a ring laid out linearly, slot k + 1 holds rank k. */
  lemma LinearRank(t: seq<int>, k: nat)
    requires Linear(t) && k < |t|
    ensures k + 1 in t && IndexOf(t, k + 1) == k
  {
    assert t[k] == k + 1;
    LinearLive(t, k + 1);
  }

  /**
   * The corrected list_delete on a live slot p always reports OK, keeps the
   * list valid with a truthful is_linear and removes p's own payload, whether
   * or not the list had to shrink.
   */
  lemma DeleteFixedRemoves(s: State, p: nat, noResize: bool, allocOk: bool)
    requires ValidState(s) && LinearFlagSound(s) && 0 < p < s.capacity
    requires s.arr.value[p].prev != EMPTY_INDEX
    requires !noResize && ShrinkCapacity(s.capacity, s.size) != s.capacity ==> allocOk
    ensures p in RingOrder(s)
    ensures var o := DeleteFixedSpec(s, p, noResize, allocOk);
            && o.errs == {}
            && ValidState(o.state) && LinearFlagSound(o.state)
            && o.state.size == s.size - 1
            && ValuesOf(o.state) == RemoveAt(ValuesOf(s), IndexOf(RingOrder(s), p))
  {
    LiveIffLinked(s, p);
    if !noResize && ShrinkCapacity(s.capacity, s.size) != s.capacity {
      DeleteFixedShrunk(s, p, allocOk);
    } else {
      DeleteFixedInPlace(s, p, noResize, allocOk);
    }
  }

  /** DeleteFixedRemoves when list_resize_down re-lays the list out. */
  lemma DeleteFixedShrunk(s: State, p: nat, allocOk: bool)
    requires ValidState(s) && LinearFlagSound(s) && 0 < p < s.capacity && allocOk
    requires s.arr.value[p].prev != EMPTY_INDEX && p in RingOrder(s)
    requires ShrinkCapacity(s.capacity, s.size) != s.capacity
    ensures var o := DeleteFixedSpec(s, p, false, allocOk);
            && o.errs == {}
            && ValidState(o.state) && LinearFlagSound(o.state)
            && o.state.size == s.size - 1
            && ValuesOf(o.state) == RemoveAt(ValuesOf(s), IndexOf(RingOrder(s), p))
  {
    DeleteFixedShrinkStep(s, p, allocOk);
    ShrinkRelays(s, allocOk);
    UnlinkRanked(ResizeDownSpec(s, allocOk).state, IndexOf(RingOrder(s), p));
  }

  /**
   * The steps of the corrected list_delete when the list shrinks: the old
   * rank k of p is unlinked from the re-laid-out list at slot k + 1.
   */
  lemma DeleteFixedShrinkStep(s: State, p: nat, allocOk: bool)
    requires ValidState(s) && LinearFlagSound(s) && 0 < p < s.capacity && allocOk
    requires s.arr.value[p].prev != EMPTY_INDEX && p in RingOrder(s)
    requires ShrinkCapacity(s.capacity, s.size) != s.capacity
    ensures var d := ResizeDownSpec(s, allocOk).state;
            && ValidState(d) && IndexOf(RingOrder(s), p) + 1 < d.capacity
            && d.arr.value[IndexOf(RingOrder(s), p) + 1].prev != EMPTY_INDEX
    ensures var d := ResizeDownSpec(s, allocOk).state;
            DeleteFixedSpec(s, p, false, allocOk) == UnlinkReported(d, IndexOf(RingOrder(s), p) + 1)
  {
    ShrunkLive(s, IndexOf(RingOrder(s), p), allocOk);
  }

  /** What the corrected list_delete checks on its way to the unlinking, when the list shrinks. */
  lemma ShrunkLive(s: State, k: nat, allocOk: bool)
    requires ValidState(s) && LinearFlagSound(s) && k < s.size && allocOk
    requires ShrinkCapacity(s.capacity, s.size) != s.capacity
    ensures Verify(s) == {}
    ensures var o := ResizeDownSpec(s, allocOk);
            && o.errs == {} && o.state.capacity != s.capacity
            && ValidState(o.state) && k + 1 < o.state.capacity
            && o.state.arr.value[k + 1].prev != EMPTY_INDEX
  {
    VerifySound(s);
    ShrinkRelays(s, allocOk);
    UnlinkRanked(ResizeDownSpec(s, allocOk).state, k);
  }

  /** DeleteFixedRemoves when the array keeps its size and p keeps its slot. */
  lemma DeleteFixedInPlace(s: State, p: nat, noResize: bool, allocOk: bool)
    requires ValidState(s) && LinearFlagSound(s) && 0 < p < s.capacity
    requires s.arr.value[p].prev != EMPTY_INDEX && p in RingOrder(s)
    requires noResize || ShrinkCapacity(s.capacity, s.size) == s.capacity
    ensures var o := DeleteFixedSpec(s, p, noResize, allocOk);
            && o.errs == {}
            && ValidState(o.state) && LinearFlagSound(o.state)
            && o.state.size == s.size - 1
            && ValuesOf(o.state) == RemoveAt(ValuesOf(s), IndexOf(RingOrder(s), p))
  {
    VerifySound(s);
    if !noResize {
      ResizeDownResult(s, allocOk);
    }
    UnlinkValid(s, p);
  }
}
