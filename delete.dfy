// What list_delete does to a valid list.

module ListDelete {
  import opened ListTypes
  import opened ListWalk
  import opened ListVerify
  import opened ListShape
  import opened ListSoundness
  import opened ListOps
  import opened ListLayout
  import opened ListEdit
  import opened ListSplice
  import opened ListInsert
  import opened ListUnlink

  /** In a linear layout the live slots are 1..size and slot p holds rank p - 1. */
  lemma LinearLive(t: seq<int>, p: int)
    requires Linear(t) && p in t
    ensures 1 <= p <= |t| && IndexOf(t, p) == p - 1
  {
  }

  /** list_delete refuses a free slot and changes nothing. */
  lemma DeleteRefusesFree(s: State, p: nat, noResize: bool, allocOk: bool)
    requires ValidState(s) && LinearFlagSound(s) && 0 < p < s.capacity
    requires s.arr.value[p].prev == EMPTY_INDEX
    ensures DeleteSpec(s, p, noResize, allocOk) == Outcome(s, {InvalidPosition})
    ensures p !in RingOrder(s)
  {
    VerifySound(s);
    LiveIffLinked(s, p);
  }

  /** When the list should shrink and calloc fails, list_delete changes nothing. */
  lemma DeleteAllocFails(s: State, p: nat)
    requires ValidState(s) && LinearFlagSound(s) && 0 < p < s.capacity
    requires s.arr.value[p].prev != EMPTY_INDEX
    requires ShrinkCapacity(s.capacity, s.size) != s.capacity
    ensures DeleteSpec(s, p, false, false) == Outcome(s, {AllocErr})
  {
    VerifySound(s);
    ResizeDownResult(s, false);
  }

  /** On a list that passes list_verify and a live p, list_delete is the optional shrink followed by the unlinking. */
  lemma DeleteUnfold(s: State, p: nat, noResize: bool, allocOk: bool)
    requires ValidState(s) && LinearFlagSound(s) && 0 < p < s.capacity
    requires !noResize && ShrinkCapacity(s.capacity, s.size) != s.capacity ==> p <= s.size
    requires s.arr.value[p].prev != EMPTY_INDEX
    requires noResize || ResizeDownSpec(s, allocOk).errs == {}
    ensures var down := if noResize then s else ResizeDownSpec(s, allocOk).state;
            && ValidState(down) && p < down.capacity && down.arr.value[p].prev != EMPTY_INDEX
            && var s' := Unlink(down, p);
               DeleteSpec(s, p, noResize, allocOk) == Outcome(s', Verify(s'))
  {
    VerifySound(s);
    ResizeDownValid(s, allocOk);
  }

  /**
   * What the shrink step leaves for the unlinking when p keeps its meaning:
   * a valid list with the same payloads in which p is live with the same rank.
   */
  lemma ShrinkKeepsPosition(s: State, p: nat, noResize: bool, allocOk: bool)
    requires ValidState(s) && LinearFlagSound(s) && 0 < p < s.capacity
    requires s.arr.value[p].prev != EMPTY_INDEX
    requires var shrinks := !noResize && ShrinkCapacity(s.capacity, s.size) != s.capacity;
             (!shrinks || allocOk) && (!shrinks || s.isLinear)
    ensures !noResize && ShrinkCapacity(s.capacity, s.size) != s.capacity ==> p <= s.size
    ensures noResize || ResizeDownSpec(s, allocOk).errs == {}
    ensures var shrinks := !noResize && ShrinkCapacity(s.capacity, s.size) != s.capacity;
            var down := if noResize then s else ResizeDownSpec(s, allocOk).state;
            && ValidState(down)
            && ValuesOf(down) == ValuesOf(s)
            && p in RingOrder(s) && p in RingOrder(down)
            && IndexOf(RingOrder(down), p) == IndexOf(RingOrder(s), p)
            && (!shrinks ==> down == s)
            && (shrinks ==> down.capacity == ShrinkCapacity(s.capacity, s.size))
  {
    var shrinks := !noResize && ShrinkCapacity(s.capacity, s.size) != s.capacity;
    VerifySound(s);
    LiveIffLinked(s, p);
    ResizeDownResult(s, allocOk);
    if shrinks {
      LinearLive(RingOrder(s), p);
      var down := ResizeDownSpec(s, allocOk).state;
      ValuesNotPoison(s);
      LinearStateValid(ValuesOf(s), down.capacity);
      RankInLinear(RingOrder(down), p);
      LinearLive(RingOrder(down), p);
    }
  }

  /**
   * list_delete on a live slot p that still means the same slot after any
   * shrink (no shrink, or a linear layout): the payload of p's rank goes,
   * the others keep their order, and the result is OK.  is_linear is always
   * cleared, even when the last element of a linear list is deleted.
   * Without a shrink, p becomes the free head.
   */
  lemma DeleteUnlinks(s: State, p: nat, noResize: bool, allocOk: bool)
    requires ValidState(s) && LinearFlagSound(s) && 0 < p < s.capacity
    requires !noResize && ShrinkCapacity(s.capacity, s.size) != s.capacity ==> p <= s.size
    requires s.arr.value[p].prev != EMPTY_INDEX
    requires var shrinks := !noResize && ShrinkCapacity(s.capacity, s.size) != s.capacity;
             (!shrinks || allocOk) && (!shrinks || s.isLinear)
    ensures p in RingOrder(s)
    ensures var o := DeleteSpec(s, p, noResize, allocOk);
            var shrinks := !noResize && ShrinkCapacity(s.capacity, s.size) != s.capacity;
            var k := IndexOf(RingOrder(s), p);
            && o.errs == {}
            && ValidState(o.state) && LinearFlagSound(o.state)
            && ValuesOf(o.state) == RemoveAt(ValuesOf(s), k)
            && o.state.size == s.size - 1
            && !o.state.isLinear
            && (!shrinks ==> && o.state.capacity == s.capacity
                             && o.state.freeHead == p
                             && FreeOrder(o.state) == [p] + FreeOrder(s))
            && (shrinks ==> o.state.capacity == ShrinkCapacity(s.capacity, s.size))
  {
    ShrinkKeepsPosition(s, p, noResize, allocOk);
    DeleteUnfold(s, p, noResize, allocOk);
    var down := if noResize then s else ResizeDownSpec(s, allocOk).state;
    UnlinkValid(down, p);
  }

  /**
   * The stale position: when list_delete shrinks a list that is not linear,
   * the shrink re-lays the payloads out in logical order but p is not
   * remapped, so for 1 <= p <= size the payload of rank p - 1 goes, whatever
   * slot p held before.
   */
  lemma DeleteStalePosition(s: State, p: nat)
    requires ValidState(s) && !s.isLinear && 0 < p <= s.size && p < s.capacity
    requires s.arr.value[p].prev != EMPTY_INDEX
    requires ShrinkCapacity(s.capacity, s.size) != s.capacity
    ensures var o := DeleteSpec(s, p, false, true);
            && o.errs == {} && ValidState(o.state) && !o.state.isLinear
            && ValuesOf(o.state) == RemoveAt(ValuesOf(s), p - 1)
  {
    StaleShrink(s, p);
    DeleteUnfold(s, p, false, true);
    var down := ResizeDownSpec(s, true).state;
    UnlinkValid(down, p);
  }

  /** The shrink step of the stale case: the list is linearised and slot p now holds rank p - 1. */
  lemma StaleShrink(s: State, p: nat)
    requires ValidState(s) && !s.isLinear && 0 < p <= s.size && p < s.capacity
    requires ShrinkCapacity(s.capacity, s.size) != s.capacity
    ensures var o := ResizeDownSpec(s, true);
            && o.errs == {} && ValidState(o.state)
            && ValuesOf(o.state) == ValuesOf(s)
            && p in RingOrder(o.state) && IndexOf(RingOrder(o.state), p) == p - 1
  {
    VerifySound(s);
    ResizeDownResult(s, true);
    var down := ResizeDownSpec(s, true).state;
    ValuesNotPoison(s);
    LinearStateValid(ValuesOf(s), down.capacity);
    RankInLinear(RingOrder(down), p);
    LinearLive(RingOrder(down), p);
  }
}
