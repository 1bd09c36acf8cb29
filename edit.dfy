// Insertion and deletion by physical index (src/list.cpp:264-318) and the
// wrappers of src/list.h:146-172, as functions of the list's state.

module ListEdit {
  import opened ListTypes
  import opened ListWalk
  import opened ListVerify
  import opened ListShape
  import opened ListOps
  import opened ListLayout

  /** list_head: the physical index of the first element, 0 when the list is empty. */
  function Head(s: State): int
    requires s.arr.Some? && |s.arr.value| >= 1
  {
    s.arr.value[0].next
  }

  /** list_tail: the physical index of the last element, 0 when the list is empty. */
  function Tail(s: State): int
    requires s.arr.Some? && |s.arr.value| >= 1
  {
    s.arr.value[0].prev
  }

  /**
   * The splice of list_insert_after once any growth is done
   * (src/list.cpp:273-287): pop the free head, link it between position and
   * position's successor, store the payload, count it, and clear is_linear
   * unless the new slot is the head or the tail.  Each write reads the array
   * as the previous write left it, as the source does.
   */
  function SpliceAfter(s: State, position: nat, elem: Elem): (s': State)
    requires ValidState(s) && position < s.capacity
    ensures Readable(s') && s'.arr.Some? && |s'.arr.value| == s.capacity
  {
    var a := s.arr.value;
    var ins := s.freeHead;
    assert ins == FreeOrder(s)[0];
    var a' := SpliceWrites(a, position, ins, elem);
    var linear := if ins != a'[0].prev && ins != a'[0].next then false else s.isLinear;
    State(Some(a'), s.capacity, s.size + 1, a[ins].next, linear)
  }

  /** The five writes of the splice on the array a, in the source's order. */
  function SpliceWrites(a: seq<Node>, position: nat, ins: nat, elem: Elem): (a': seq<Node>)
    requires position < |a| && ins < |a| && LinksInside(a)
    ensures |a'| == |a| && NextsInside(a')
  {
    var a1 := a[ins := a[ins].(prev := position)];
    var a2 := a1[ins := a1[ins].(next := a1[position].next)];
    var succ := a2[position].next;
    assert succ == a[position].next;
    var a3 := a2[succ := a2[succ].(prev := ins)];
    var a4 := a3[position := a3[position].(next := ins)];
    a4[ins := a4[ins].(elem := elem)]
  }

  /**
   * The unlinking of list_delete once any shrink is done
   * (src/list.cpp:303-315): join the neighbours, turn the slot into the new
   * free head {EMPTY_INDEX, POISON, old free_head}, uncount it, and clear
   * is_linear unless the slot is still the head or the tail.
   */
  function Unlink(s: State, position: nat): (s': State)
    requires ValidState(s) && position < s.capacity && s.arr.value[position].prev != EMPTY_INDEX
    ensures Readable(s') && s'.arr.Some? && |s'.arr.value| == s.capacity
  {
    var a := s.arr.value;
    assert s.freeHead == FreeOrder(s)[0];
    var a' := UnlinkWrites(a, position, s.freeHead);
    var linear := if position != a'[0].next && position != a'[0].prev then false else s.isLinear;
    State(Some(a'), s.capacity, s.size - 1, position, linear)
  }

  /** The five writes of the unlinking on the array a, in the source's order. */
  function UnlinkWrites(a: seq<Node>, position: nat, freeHead: nat): (a': seq<Node>)
    requires position < |a| && freeHead < |a| && LinksInside(a) && a[position].prev != EMPTY_INDEX
    ensures |a'| == |a| && NextsInside(a')
  {
    var a1 := a[a[position].prev := a[a[position].prev].(next := a[position].next)];
    var a2 := a1[a1[position].next := a1[a1[position].next].(prev := a1[position].prev)];
    var a3 := a2[position := a2[position].(prev := UNINITIALISED_VAL)];
    var a4 := a3[position := a3[position].(next := freeHead)];
    a4[position := a4[position].(elem := POISON)]
  }

  /**
   * list_insert_after(position, elem): verify; refuse a free slot; grow if
   * nearly full; splice.  The position is checked before growing and is not
   * remapped after the growth re-lays the list out.
   */
  function InsertAfterSpec(s: State, position: nat, elem: Elem, allocOk: bool): (o: Inserted)
    requires ValidState(s) && position < s.capacity
    ensures Readable(o.state) && o.state.arr.Some?
  {
    var r0 := Verify(s);
    if r0 != {} then Inserted(s, r0, None)
    else if s.arr.value[position].prev == EMPTY_INDEX then Inserted(s, {InvalidPosition}, None)
    else
      var up := ResizeUpSpec(s, allocOk);
      if up.errs != {} then Inserted(up.state, up.errs, None)
      else
        ResizeUpValid(s, allocOk);
        assert up.state.freeHead == FreeOrder(up.state)[0];
        var s2 := SpliceAfter(up.state, position, elem);
        Inserted(s2, Verify(s2), Some(up.state.freeHead))
  }

  /**
   * list_delete(position, no_resize): verify; refuse a free slot; shrink
   * unless told not to; unlink.  The position is checked before shrinking and
   * is not remapped afterwards; the source reads the slot again without a
   * bounds check, so when a live position reaches a shrink that succeeds and
   * re-lays the list out, it must be among the new live slots 1..size.  A
   * free position and a failed calloc return before that read.
   */
  function DeleteSpec(s: State, position: nat, noResize: bool, allocOk: bool): (o: Outcome)
    requires ValidState(s) && 0 < position < s.capacity
    requires var relaid := !noResize && allocOk && ShrinkCapacity(s.capacity, s.size) != s.capacity;
             relaid && s.arr.value[position].prev != EMPTY_INDEX ==> position <= s.size
    ensures Readable(o.state) && o.state.arr.Some?
  {
    var r0 := Verify(s);
    if r0 != {} then Outcome(s, r0)
    else if s.arr.value[position].prev == EMPTY_INDEX then Outcome(s, {InvalidPosition})
    else
      var down := if noResize then Outcome(s, {}) else ResizeDownSpec(s, allocOk);
      if down.errs != {} then down
      else
        ResizeDownResult(s, allocOk);
        ResizeDownValid(s, allocOk);
        var s2 := Unlink(down.state, position);
        Outcome(s2, Verify(s2))
  }

  /**
   * list_insert_before(position): list_insert_after on position's prev.  The
   * source casts a free slot's EMPTY_INDEX prev to a huge index and reads
   * past the array, so the position must not be free.
   */
  function InsertBeforeSpec(s: State, position: nat, elem: Elem, allocOk: bool): (o: Inserted)
    requires ValidState(s) && position < s.capacity && s.arr.value[position].prev != EMPTY_INDEX
  {
    InsertAfterSpec(s, s.arr.value[position].prev, elem, allocOk)
  }

  /** list_pushback: list_insert_after on the tail. */
  function PushBackSpec(s: State, elem: Elem, allocOk: bool): (o: Inserted)
    requires ValidState(s)
  {
    InsertAfterSpec(s, Tail(s), elem, allocOk)
  }

  /** list_pushfront: list_insert_before on the head. */
  function PushFrontSpec(s: State, elem: Elem, allocOk: bool): (o: Inserted)
    requires ValidState(s)
  {
    HeadLinksBack(s);
    InsertBeforeSpec(s, Head(s), elem, allocOk)
  }

  /** The head's prev is the sentinel and the tail's next is the sentinel. */
  lemma HeadLinksBack(s: State)
    requires ValidState(s)
    ensures 0 <= Head(s) < s.capacity && s.arr.value[Head(s)].prev == 0
    ensures 0 <= Tail(s) < s.capacity && s.arr.value[Tail(s)].next == 0
  {
    var slots := RingOrder(s);
    if slots != [] {
      assert s.arr.value[slots[0]].prev == PrevOf(slots, 0);
      assert s.arr.value[slots[|slots| - 1]].next == NextOf(slots, |slots| - 1);
    }
  }
}
