// The structural invariant of a slot-array list: a ring of live slots
// anchored at the sentinel, a free chain holding every other slot, and the
// prev/elem duality that tells them apart.

module ListShape {
  import opened ListTypes
  import opened ListWalk
  import opened ListVerify

  predicate Distinct(t: seq<int>) {
    forall i, j :: 0 <= i < j < |t| ==> t[i] != t[j]
  }

  /** The slot a chain t reaches after its k-th slot: the next one, or 0 after the last. */
  function NextOf(t: seq<int>, k: int): int
    requires 0 <= k < |t|
  {
    if k + 1 < |t| then t[k + 1] else 0
  }

  /** The slot before the k-th slot of the ring t: the previous one, or the sentinel 0. */
  function PrevOf(t: seq<int>, k: int): int
    requires 0 <= k < |t|
  {
    if k == 0 then 0 else t[k - 1]
  }

  function First(t: seq<int>): int {
    if t == [] then 0 else t[0]
  }

  function Last(t: seq<int>): int {
    if t == [] then 0 else t[|t| - 1]
  }

  /** Every index of t is a non-sentinel slot of an array of n slots. */
  predicate InSlots(t: seq<int>, n: int) {
    forall k :: 0 <= k < |t| ==> 1 <= t[k] < n
  }

  /** Every non-sentinel slot of an array of n slots is in exactly one of slots and frees. */
  ghost predicate Partition(n: int, slots: seq<int>, frees: seq<int>) {
    forall i :: 1 <= i < n ==> ((i in slots) <==> (i !in frees))
  }

  /**
   * The ring: the sentinel's next/prev are head and tail, every ring slot
   * links to its neighbours in logical order and holds a non-POISON payload.
   */
  ghost predicate RingLinked(a: seq<Node>, slots: seq<int>)
    requires 1 <= |a| && InSlots(slots, |a|)
  {
    && a[0] == Node(Last(slots), POISON, First(slots))
    && (forall k {:trigger a[slots[k]]} :: 0 <= k < |slots| ==>
          a[slots[k]].prev == PrevOf(slots, k) && a[slots[k]].next == NextOf(slots, k) &&
          a[slots[k]].elem != POISON)
  }

  /** The free chain: free slots are {EMPTY_INDEX, POISON, next free}, the last one ending in 0. */
  ghost predicate FreeLinked(a: seq<Node>, frees: seq<int>)
    requires InSlots(frees, |a|)
  {
    forall j {:trigger a[frees[j]]} :: 0 <= j < |frees| ==> a[frees[j]] == Node(EMPTY_INDEX, POISON, NextOf(frees, j))
  }

  /**
   * The list state s has ring slots `slots` (physical indices in logical
   * order) and free chain `frees` (in chain order, starting at free_head):
   * every non-sentinel slot is in exactly one of them, and at least one slot
   * is free.
   */
  ghost predicate Shaped(s: State, slots: seq<int>, frees: seq<int>) {
    && s.arr.Some?
    && |s.arr.value| == s.capacity >= 1
    && s.size == |slots|
    && |slots| + |frees| == s.capacity - 1
    && frees != []
    && s.freeHead == frees[0]
    && InSlots(slots, s.capacity)
    && InSlots(frees, s.capacity)
    && Distinct(slots)
    && Distinct(frees)
    && Partition(s.capacity, slots, frees)
    && RingLinked(s.arr.value, slots)
    && FreeLinked(s.arr.value, frees)
  }

  /** The free chain followed from p for at most n slots, stopping at an index outside the array. */
  ghost function FreeWalk(a: seq<Node>, p: int, n: int): seq<int>
    decreases n
  {
    if n <= 0 || p <= 0 || p >= |a| then [] else [p] + FreeWalk(a, a[p].next, n - 1)
  }

  /** The physical indices of the live slots in logical order, as LIST_FOREACH visits them. */
  function RingOrder(s: State): seq<int>
    requires Readable(s) && s.arr.Some?
  {
    RingWalk(s.arr.value, s.size).visited
  }

  ghost function FreeOrder(s: State): seq<int>
    requires s.arr.Some?
  {
    FreeWalk(s.arr.value, s.freeHead, s.capacity - 1 - s.size)
  }

  /** Every next link is a slot of the array and every prev link is one or EMPTY_INDEX. */
  ghost predicate LinksInside(a: seq<Node>) {
    forall i :: 0 <= i < |a| ==> 0 <= a[i].next < |a| && EMPTY_INDEX <= a[i].prev < |a|
  }

  /** The structural invariant, with the ring and the free chain read off the array. */
  ghost predicate ValidState(s: State) {
    s.arr.Some? && Readable(s) && LinksInside(s.arr.value) && Shaped(s, RingOrder(s), FreeOrder(s))
  }

  /** The payloads held by the slots t of a, in the order of t. */
  function ElemsAt(a: seq<Node>, t: seq<int>): (vs: seq<Elem>)
    requires forall k :: 0 <= k < |t| ==> 0 <= t[k] < |a|
    ensures |vs| == |t|
  {
    seq(|t|, k requires 0 <= k < |t| => a[t[k]].elem)
  }

  /** The payloads in logical order. */
  function ValuesOf(s: State): (vs: seq<Elem>)
    requires Readable(s) && s.arr.Some?
    ensures |vs| == |RingOrder(s)|
  {
    ElemsAt(s.arr.value, RingOrder(s))
  }

  /** The chain t runs upwards in steps of one from base. */
  predicate Ascending(t: seq<int>, base: int) {
    forall k :: 0 <= k < |t| ==> t[k] == base + k
  }

  /** Physical order equals logical order: rank k lives in slot k+1. */
  predicate Linear(slots: seq<int>) {
    Ascending(slots, 1)
  }

  /**
   * is_linear tells the truth: when set, the ring is laid out in order and the
   * free chain runs upwards from size+1, so appends keep the layout linear.
   */
  ghost predicate LinearFlagSound(s: State)
    requires ValidState(s)
  {
    s.isLinear ==> Linear(RingOrder(s)) && Ascending(FreeOrder(s), s.size + 1)
  }

  lemma ShapedReadable(s: State, slots: seq<int>, frees: seq<int>)
    requires Shaped(s, slots, frees)
    ensures Readable(s) && LinksInside(s.arr.value)
  {
    var a := s.arr.value;
    forall i | 0 <= i < |a| ensures 0 <= a[i].next < |a| && EMPTY_INDEX <= a[i].prev < |a| {
      if i >= 1 {
        if i in slots {
          var k :| 0 <= k < |slots| && slots[k] == i;
          assert a[slots[k]].prev == PrevOf(slots, k);
        } else {
          var j :| 0 <= j < |frees| && frees[j] == i;
          assert a[frees[j]] == Node(EMPTY_INDEX, POISON, NextOf(frees, j));
        }
      }
    }
  }

  lemma {:induction false} RingSuffix(s: State, slots: seq<int>, frees: seq<int>, k: nat)
    requires Shaped(s, slots, frees) && Readable(s) && k <= |slots|
    ensures var a := s.arr.value;
            Foreach(a, s.size, if k < |slots| then slots[k] else 0, k) == Walk(slots[k..], 0, s.size)
    decreases |slots| - k
  {
    if k < |slots| {
      var a := s.arr.value;
      RingSuffix(s, slots, frees, k + 1);
      assert a[slots[k]].next == NextOf(slots, k);
      assert slots[k..] == [slots[k]] + slots[k + 1..];
    }
  }

  /** A shaped state's ring walk visits exactly its ring slots and stops at the sentinel after size steps. */
  lemma RingWalkOfShaped(s: State, slots: seq<int>, frees: seq<int>)
    requires Shaped(s, slots, frees)
    ensures Readable(s) && LinksInside(s.arr.value)
    ensures RingWalk(s.arr.value, s.size) == Walk(slots, 0, s.size)
  {
    ShapedReadable(s, slots, frees);
    RingSuffix(s, slots, frees, 0);
  }

  lemma {:induction false} FreeSuffix(s: State, slots: seq<int>, frees: seq<int>, j: nat)
    requires Shaped(s, slots, frees) && j < |frees|
    ensures FreeWalk(s.arr.value, frees[j], |frees| - j) == frees[j..]
    decreases |frees| - j
  {
    if j + 1 < |frees| {
      FreeSuffix(s, slots, frees, j + 1);
      assert frees[j..] == [frees[j]] + frees[j + 1..];
    }
  }

  /** A shaped state is valid, and its ring and free chain are the witnesses. */
  lemma ShapedValid(s: State, slots: seq<int>, frees: seq<int>)
    requires Shaped(s, slots, frees)
    ensures ValidState(s) && RingOrder(s) == slots && FreeOrder(s) == frees
  {
    RingWalkOfShaped(s, slots, frees);
    FreeSuffix(s, slots, frees, 0);
  }
}
