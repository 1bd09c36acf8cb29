// The operations of src/list.cpp and src/list.h as functions of the list's
// state, each step in the order the source takes it (debug build: every
// LIST_ASSERT runs list_verify and returns its result when it is not OK).

module ListOps {
  import opened ListTypes
  import opened ListWalk
  import opened ListVerify
  import opened ListShape

  /** What a mutating operation leaves: the new state and its result code. */
  datatype Outcome = Outcome(state: State, errs: set<Err>)

  /** What list_insert_after leaves: also *inserted_index, None when it was not written. */
  datatype Inserted = Inserted(state: State, errs: set<Err>, index: Option<nat>)

  /** What a lookup returns: its result code and its output index, None when it was not written. */
  datatype Lookup = Lookup(errs: set<Err>, index: Option<int>)

  /** The indices lo, lo+1, ..., hi-1. */
  function Range(lo: int, hi: int): (t: seq<int>)
    ensures |t| == if lo <= hi then hi - lo else 0
    ensures forall k :: 0 <= k < |t| ==> t[k] == lo + k
  {
    if lo >= hi then [] else seq(hi - lo, k => lo + k)
  }

  // ---------------------------------------------------------------- list_ctor

  /** Slot i of a freshly constructed array of cap slots (src/list.cpp:31-39). */
  function FreshNode(cap: int, i: int): Node {
    if i == 0 then Node(0, POISON, 0)
    else Node(EMPTY_INDEX, POISON, if i == cap - 1 then 0 else i + 1)
  }

  function FreshArray(cap: nat): (a: seq<Node>)
    ensures |a| == cap
  {
    seq(cap, i => FreshNode(cap, i))
  }

  /** The state list_ctor builds for init_capacity payload slots. */
  function FreshState(initCap: nat): (s: State)
    ensures Readable(s)
  {
    State(Some(FreshArray(initCap + 1)), initCap + 1, 0, 1, true)
  }

  /**
   * list_ctor: refuses an initialised list; otherwise allocates init_capacity+1
   * slots (allocOk says whether calloc succeeded) and verifies the result.
   */
  function CtorSpec(s: State, initCap: nat, allocOk: bool): (o: Outcome) {
    if IsInitialised(s) then Outcome(s, {AlreadyInitialised})
    else if !allocOk then Outcome(s, {AllocErr})
    else Outcome(FreshState(initCap), Verify(FreshState(initCap)))
  }

  // ---------------------------------------------------------------- list_dtor

  /** list_dtor: the result of verifying before destruction, and all fields reset. */
  function DtorSpec(s: State): (o: Outcome)
    requires Readable(s)
  {
    Outcome(UNINITIALISED_STATE, Verify(s))
  }

  // ----------------------------------------------------------- list_linearise

  /**
   * Slot i of the array list_linearise builds for the payloads vals and cap
   * slots: rank k in slot k+1, free slots chained upwards after them.
   */
  function LinearNode(vals: seq<Elem>, cap: int, i: nat): Node {
    var n := |vals|;
    if i == 0 then Node(n, POISON, if n > 0 then 1 else 0)
    else if i <= n then Node(i - 1, vals[i - 1], if i < n then i + 1 else 0)
    else Node(EMPTY_INDEX, POISON, if i < cap - 1 then i + 1 else 0)
  }

  function LinearArray(vals: seq<Elem>, cap: nat): (a: seq<Node>)
    ensures |a| == cap
  {
    seq(cap, i requires 0 <= i => LinearNode(vals, cap, i))
  }

  /** Every link of the linear layout stays inside the array once it has room for the payloads. */
  lemma LinearArrayInside(vals: seq<Elem>, cap: nat)
    requires cap >= |vals| + 1
    ensures NextsInside(LinearArray(vals, cap))
  {
    var a := LinearArray(vals, cap);
    forall i | 0 <= i < cap ensures a[i].next < cap {
      assert a[i] == LinearNode(vals, cap, i);
    }
  }

  /**
   * list_linearise(new_capacity): copies the ring in logical order into a
   * fresh array (new_capacity == -1 keeps the capacity).  allocOk says
   * whether calloc succeeded.  The source writes new_arr[size] unchecked, so
   * the new capacity must exceed the size.
   */
  function LineariseSpec(s: State, newCap: int, allocOk: bool): (o: Outcome)
    requires ValidState(s)
    requires newCap == -1 || newCap >= s.size + 1
    ensures Readable(o.state) && o.state.arr.Some?
  {
    var r0 := Verify(s);
    if r0 != {} then Outcome(s, r0)
    else
      var nc := if newCap == -1 then s.capacity else newCap;
      if !allocOk then Outcome(s, {AllocErr})
      else
        var w := RingWalk(s.arr.value, s.size);
        if ForeachBroken(s.size, w.log) then Outcome(s, {DamagedPath})
        else
          LinearArrayInside(ValuesOf(s), nc);
          var s' := State(Some(LinearArray(ValuesOf(s), nc)), nc, s.size, w.log + 1, true);
          Outcome(s', Verify(s'))
  }

  // ------------------------------------------------------------- list_resize

  /** list_resize: re-lays the list out in new_capacity slots and verifies it. */
  function ResizeSpec(s: State, newCap: int, allocOk: bool): (o: Outcome)
    requires ValidState(s)
    requires newCap >= s.size + 1 && newCap != s.capacity
    ensures Readable(o.state) && o.state.arr.Some?
  {
    var r0 := Verify(s);
    if r0 != {} then Outcome(s, r0)
    else
      var o := LineariseSpec(s, newCap, allocOk);
      if o.errs != {} then o else Outcome(o.state, Verify(o.state))
  }

  /** One pass of the list_resize_up loop body (src/list.h:389). */
  function GrowStep(cap: int): int
  {
    (cap - 1) * 2 + 1
  }

  /** The capacity after n passes of the list_resize_up loop body. */
  function GrowIterate(cap: int, n: nat): int
    decreases n
  {
    if n == 0 then cap else GrowIterate(GrowStep(cap), n - 1)
  }

  /**
   * From the one-slot list that list_ctor(0) builds, every pass of the
   * list_resize_up loop leaves the capacity at 1 and the loop condition
   * size >= capacity - 2 still holds, so the loop never exits.
   */
  lemma {:induction false} GrowStuckAtOne(size: nat, n: nat)
    ensures GrowIterate(1, n) == 1
    ensures size >= GrowIterate(1, n) - 1 - 1
  {
    if n > 0 {
      assert GrowStep(1) == 1;
      GrowStuckAtOne(size, n - 1);
    }
  }

  /**
   * The capacity list_resize_up settles on (src/list.h:388-389): doubled
   * payload capacity while size >= capacity - 2.  The loop only terminates
   * from a capacity of at least 2 (see GrowStuckAtOne).
   */
  function GrowCapacity(cap: int, size: int): (r: int)
    requires cap >= 2
    ensures r >= cap && size < r - 2
    ensures r == cap || size >= (r - 1) / 2 + 1 - 2
    decreases size - cap + 3
  {
    if size >= cap - 1 - 1 then GrowCapacity(GrowStep(cap), size) else cap
  }

  /**
   * The capacity list_resize_down settles on (src/list.h:408-409): halved
   * payload capacity while size < (capacity - 1) / 2, with no lower floor.
   * For the non-negative operands met here C's division agrees with Dafny's.
   */
  function ShrinkCapacity(cap: int, size: int): (r: int)
    requires cap >= 1 && size >= 0
    ensures 1 <= r <= cap && size >= (r - 1) / 2
    ensures r == cap || r >= size + 2
    decreases cap
  {
    if size < (cap - 1) / 2 then ShrinkCapacity((cap - 1) / 2 + 1, size) else cap
  }

  /** list_resize_up: grows when the list is nearly full. */
  function ResizeUpSpec(s: State, allocOk: bool): (o: Outcome)
    requires ValidState(s)
    ensures Readable(o.state) && o.state.arr.Some?
  {
    var r0 := Verify(s);
    if r0 != {} then Outcome(s, r0)
    else
      var nc := GrowCapacity(s.capacity, s.size);
      if nc != s.capacity then ResizeSpec(s, nc, allocOk) else Outcome(s, {})
  }

  /** list_resize_down: shrinks when the list is less than half full. */
  function ResizeDownSpec(s: State, allocOk: bool): (o: Outcome)
    requires ValidState(s)
    ensures Readable(o.state) && o.state.arr.Some?
  {
    var r0 := Verify(s);
    if r0 != {} then Outcome(s, r0)
    else
      var nc := ShrinkCapacity(s.capacity, s.size);
      if nc != s.capacity then ResizeSpec(s, nc, allocOk) else Outcome(s, {})
  }
}
