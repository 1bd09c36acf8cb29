// What construction, linearisation and the resize policy do to a list.

module ListLayout {
  import opened ListTypes
  import opened ListWalk
  import opened ListVerify
  import opened ListShape
  import opened ListSoundness
  import opened ListOps

  lemma InRange(lo: int, hi: int, i: int)
    ensures (i in Range(lo, hi)) <==> lo <= i < hi
  {
    if lo <= i < hi {
      assert Range(lo, hi)[i - lo] == i;
    }
  }

  /**
   * The linear layout of payloads vals in cap slots is shaped, with ring
   * 1..|vals| and free chain |vals|+1 .. cap-1, whatever the flag says.
   */
  lemma LinearLayoutShaped(vals: seq<Elem>, cap: int, isLinear: bool)
    requires cap >= |vals| + 2
    requires forall k :: 0 <= k < |vals| ==> vals[k] != POISON
    ensures Shaped(State(Some(LinearArray(vals, cap)), cap, |vals|, |vals| + 1, isLinear),
                   Range(1, |vals| + 1), Range(|vals| + 1, cap))
  {
    var n := |vals|;
    var a := LinearArray(vals, cap);
    var slots, frees := Range(1, n + 1), Range(n + 1, cap);
    forall i | 1 <= i < cap ensures (i in slots) <==> (i !in frees) {
      InRange(1, n + 1, i);
      InRange(n + 1, cap, i);
    }
    assert RingLinked(a, slots) by {
      forall k | 0 <= k < |slots|
        ensures a[slots[k]].prev == PrevOf(slots, k) && a[slots[k]].next == NextOf(slots, k)
        ensures a[slots[k]].elem != POISON
      {
        assert a[k + 1] == LinearNode(vals, cap, k + 1);
      }
    }
    assert FreeLinked(a, frees) by {
      forall j | 0 <= j < |frees|
        ensures a[frees[j]] == Node(EMPTY_INDEX, POISON, NextOf(frees, j))
      {
        assert a[n + 1 + j] == LinearNode(vals, cap, n + 1 + j);
      }
    }
  }

  lemma ValuesNotPoison(s: State)
    requires ValidState(s)
    ensures forall k :: 0 <= k < |ValuesOf(s)| ==> ValuesOf(s)[k] != POISON
  {
    var slots := RingOrder(s);
    forall k | 0 <= k < |slots| ensures ValuesOf(s)[k] != POISON {
      assert s.arr.value[slots[k]].elem != POISON;
    }
  }

  /** The state list_linearise leaves: payloads vals in cap slots, flag set. */
  function LinearState(vals: seq<Elem>, cap: nat): State {
    State(Some(LinearArray(vals, cap)), cap, |vals|, |vals| + 1, true)
  }

  lemma LinearStateShaped(vals: seq<Elem>, cap: nat)
    requires cap >= |vals| + 2
    requires forall k :: 0 <= k < |vals| ==> vals[k] != POISON
    ensures var s := LinearState(vals, cap);
            && ValidState(s)
            && RingOrder(s) == Range(1, |vals| + 1)
            && FreeOrder(s) == Range(|vals| + 1, cap)
  {
    LinearLayoutShaped(vals, cap, true);
    ShapedValid(LinearState(vals, cap), Range(1, |vals| + 1), Range(|vals| + 1, cap));
  }

  /** The linear layout is valid, holds vals in order, says so truthfully and passes list_verify. */
  lemma LinearStateValid(vals: seq<Elem>, cap: nat)
    requires cap >= |vals| + 2
    requires forall k :: 0 <= k < |vals| ==> vals[k] != POISON
    ensures var s := LinearState(vals, cap);
            && ValidState(s)
            && RingOrder(s) == Range(1, |vals| + 1)
            && FreeOrder(s) == Range(|vals| + 1, cap)
            && ValuesOf(s) == vals
            && LinearFlagSound(s)
            && Verify(s) == {}
  {
    var s := LinearState(vals, cap);
    LinearStateShaped(vals, cap);
    VerifySound(s);
    LinearValues(vals, cap);
  }

  lemma LinearValues(vals: seq<Elem>, cap: nat)
    requires cap >= |vals| + 1
    requires Readable(LinearState(vals, cap)) && RingOrder(LinearState(vals, cap)) == Range(1, |vals| + 1)
    ensures ValuesOf(LinearState(vals, cap)) == vals
  {
    var s := LinearState(vals, cap);
    var a := LinearArray(vals, cap);
    var t := RingOrder(s);
    var vs := ValuesOf(s);
    forall k | 0 <= k < |vals| ensures vs[k] == vals[k] {
      assert t[k] == k + 1;
      assert a[k + 1] == LinearNode(vals, cap, k + 1);
    }
  }

  /**
   * The walk over the full linear layout (no free slot, capacity |vals|+1)
   * from rank k visits slots k+1 .. |vals| and stops at the sentinel.
   */
  lemma {:induction false} FullWalkSuffix(vals: seq<Elem>, k: nat)
    requires k <= |vals|
    ensures var a := LinearArray(vals, |vals| + 1);
            && NextsInside(a)
            && Foreach(a, |vals|, if k < |vals| then k + 1 else 0, k) == Walk(Range(k + 1, |vals| + 1), 0, |vals|)
    decreases |vals| - k
  {
    var n := |vals|;
    var a := LinearArray(vals, n + 1);
    forall i | 0 <= i < |a| ensures a[i].next < |a| {
      assert a[i] == LinearNode(vals, n + 1, i);
    }
    if k < n {
      FullWalkSuffix(vals, k + 1);
      assert a[k + 1] == LinearNode(vals, n + 1, k + 1);
      assert Range(k + 1, n + 1) == [k + 1] + Range(k + 2, n + 1);
    }
  }

  /** In the full linear layout every slot from i on is live with a payload. */
  lemma {:induction false} FullDuality(vals: seq<Elem>, i: nat)
    requires forall k :: 0 <= k < |vals| ==> vals[k] != POISON
    requires 1 <= i
    ensures DualityErrors(LinearArray(vals, |vals| + 1), i, |vals| + 1) == {}
    decreases |vals| + 1 - i
  {
    var a := LinearArray(vals, |vals| + 1);
    if i < |vals| + 1 {
      assert a[i] == LinearNode(vals, |vals| + 1, i);
      FullDuality(vals, i + 1);
    }
  }

  /** The ring of the full linear layout: slots 1..|vals|, linked in order, walked in order. */
  lemma FullRing(vals: seq<Elem>)
    requires forall k :: 0 <= k < |vals| ==> vals[k] != POISON
    ensures var a := LinearArray(vals, |vals| + 1);
            var slots := Range(1, |vals| + 1);
            && NextsInside(a) && InSlots(slots, |a|) && RingLinked(a, slots)
            && RingWalk(a, |vals|) == Walk(slots, 0, |vals|)
  {
    FullWalkSuffix(vals, 0);
    FullLinks(vals);
  }

  /** Every slot of the full linear layout links to its logical neighbours. */
  lemma FullLinks(vals: seq<Elem>)
    requires forall k :: 0 <= k < |vals| ==> vals[k] != POISON
    ensures var a := LinearArray(vals, |vals| + 1);
            InSlots(Range(1, |vals| + 1), |a|) && RingLinked(a, Range(1, |vals| + 1))
  {
    var n := |vals|;
    var a := LinearArray(vals, n + 1);
    var slots := Range(1, n + 1);
    assert a[0] == LinearNode(vals, n + 1, 0);
    forall k | 0 <= k < |slots|
      ensures a[slots[k]].prev == PrevOf(slots, k) && a[slots[k]].next == NextOf(slots, k)
      ensures a[slots[k]].elem != POISON
    {
      assert a[k + 1] == LinearNode(vals, n + 1, k + 1);
    }
  }

  /**
   * The full linear layout list_linearise(size + 1) builds has no free slot,
   * so it is outside the structural invariant, but it holds the payloads in
   * order in slots 1..size, and list_verify passes it.
   */
  lemma FullLinearVerifies(vals: seq<Elem>)
    requires forall k :: 0 <= k < |vals| ==> vals[k] != POISON
    ensures var s := LinearState(vals, |vals| + 1);
            && Readable(s)
            && RingOrder(s) == Range(1, |vals| + 1)
            && ValuesOf(s) == vals
            && Verify(s) == {}
  {
    var n := |vals|;
    var s := LinearState(vals, n + 1);
    var a := LinearArray(vals, n + 1);
    var slots := Range(1, n + 1);
    FullRing(vals);
    LinearValues(vals, n + 1);
    TraceClean(a, slots, 0, true);
    TraceLinearFault(a, slots, 0, 0, true);
    FullDuality(vals, 1);
    assert a[0] == LinearNode(vals, n + 1, 0);
    assert ArrayErrors(a, s) == {};
  }

  /**
   * list_linearise on a valid list that passes list_verify: unless calloc
   * fails (then nothing changes), the result is the linear layout of the
   * payloads in logical order, in the requested capacity.
   */
  lemma LineariseLaysOut(s: State, newCap: int, allocOk: bool)
    requires ValidState(s) && Verify(s) == {}
    requires newCap == -1 || newCap >= s.size + 1
    ensures var o := LineariseSpec(s, newCap, allocOk);
            var nc := if newCap == -1 then s.capacity else newCap;
            && (!allocOk ==> o == Outcome(s, {AllocErr}))
            && (allocOk ==> o == Outcome(LinearState(ValuesOf(s), nc), {}))
  {
    var nc := if newCap == -1 then s.capacity else newCap;
    if allocOk {
      LineariseUnfold(s, nc);
      ValuesNotPoison(s);
      if nc == s.size + 1 {
        FullLinearVerifies(ValuesOf(s));
      } else {
        LinearStateValid(ValuesOf(s), nc);
      }
    }
  }

  /** When calloc succeeds, list_linearise copies the payloads in ring order and verifies the copy. */
  lemma LineariseUnfold(s: State, nc: int)
    requires ValidState(s) && Verify(s) == {} && nc >= s.size + 1
    ensures var s' := LinearState(ValuesOf(s), nc);
            LineariseSpec(s, nc, true) == Outcome(s', Verify(s'))
            && LineariseSpec(s, if nc == s.capacity then -1 else nc, true) == Outcome(s', Verify(s'))
  {
    RingWalkOfShaped(s, RingOrder(s), FreeOrder(s));
  }

  /** Linearising twice in a row leaves the same slot table as linearising once. */
  lemma LineariseIdempotent(s: State, allocOk: bool)
    requires ValidState(s) && Verify(s) == {}
    ensures var o1 := LineariseSpec(s, -1, allocOk);
            ValidState(o1.state) && LineariseSpec(o1.state, -1, allocOk).state == o1.state
  {
    LineariseLaysOut(s, -1, allocOk);
    var o1 := LineariseSpec(s, -1, allocOk);
    if allocOk {
      ValuesNotPoison(s);
      LinearStateValid(ValuesOf(s), s.capacity);
      LineariseLaysOut(o1.state, -1, allocOk);
    }
  }

  // --------------------------------------------------------------- list_ctor

  lemma FreshIsLinearLayout(initCap: nat)
    ensures FreshState(initCap) == LinearState([], initCap + 1)
  {
    var a, b := FreshArray(initCap + 1), LinearArray([], initCap + 1);
    forall i | 0 <= i < initCap + 1 ensures a[i] == b[i] {
      assert b[i] == LinearNode([], initCap + 1, i);
      assert a[i] == FreshNode(initCap + 1, i);
    }
    assert a == b;
  }

  /**
   * list_ctor on a list that was never constructed, when calloc succeeds and
   * at least one payload slot is asked for: an empty valid list of capacity
   * init_capacity+1, size 0, free_head 1, is_linear set, slot 0 {0, POISON, 0},
   * every other slot free and chained upwards, and list_verify reports OK.
   */
  lemma CtorBuildsEmptyList(s: State, initCap: nat, allocOk: bool)
    requires !IsInitialised(s) && allocOk && initCap >= 1
    ensures var o := CtorSpec(s, initCap, allocOk);
            && o.errs == {}
            && ValidState(o.state)
            && o.state.capacity == initCap + 1 && o.state.size == 0
            && o.state.freeHead == 1 && o.state.isLinear
            && o.state.arr.value[0] == Node(0, POISON, 0)
            && RingOrder(o.state) == [] && FreeOrder(o.state) == Range(1, initCap + 1)
            && ValuesOf(o.state) == []
            && LinearFlagSound(o.state)
  {
    FreshIsLinearLayout(initCap);
    LinearStateValid([], initCap + 1);
  }

  /**
   * list_ctor(0) on a list that was never constructed, when calloc succeeds:
   * a one-slot list holding only the sentinel {0, POISON, 0}, which
   * list_verify passes.  Its tail, the sentinel's prev, is 0 rather than -1,
   * so list_pushback gets past the position check of list_insert_after and
   * into the list_resize_up loop (see ListOps.GrowStuckAtOne).
   */
  lemma CtorZeroPasses(s: State)
    requires !IsInitialised(s)
    ensures CtorSpec(s, 0, true) == Outcome(FreshState(0), {})
    ensures FreshState(0).capacity == 1 && FreshState(0).size == 0
    ensures FreshState(0).arr.value == [Node(0, POISON, 0)]
  {
    assert FreshState(0).arr.value == [Node(0, POISON, 0)];
  }

  /**
   * list_verify does not follow the free chain and checks free_head only for
   * being positive: moving free_head of a fresh three-slot list from 1 to 2
   * drops slot 1 from the chain, breaking the invariant, and list_verify still
   * reports OK.
   */
  lemma VerifyMissesFreeChain()
    ensures var s := FreshState(3).(freeHead := 2);
            Verify(s) == {} && !ValidState(s)
  {
    var s0 := FreshState(3);
    var s := s0.(freeHead := 2);
    var a := s.arr.value;
    FreshIsLinearLayout(3);
    LinearStateValid([], 4);
    assert Verify(s) == Verify(s0);
    assert a[2] == FreshNode(4, 2) && a[3] == FreshNode(4, 3);
    assert FreeOrder(s) == [2, 3];
  }

  // ------------------------------------------------------------ resize policy

  function Pow2(k: nat): (p: nat)
    ensures p >= 1
  {
    if k == 0 then 1 else 2 * Pow2(k - 1)
  }

  lemma DoubledTier(x: int, k: nat)
    ensures (x * 2) * Pow2(k) == x * Pow2(k + 1)
  {
    var p := Pow2(k);
    assert Pow2(k + 1) == 2 * p;
    assert (x * 2) * p == x * (2 * p);
  }

  /** How many times the loop of list_resize_up doubles the payload capacity. */
  function GrowSteps(cap: int, size: int): nat
    requires cap >= 2
    decreases size - cap + 3
  {
    if size >= cap - 1 - 1 then 1 + GrowSteps((cap - 1) * 2 + 1, size) else 0
  }

  /**
   * list_resize_up settles on (cap-1)*2^k + 1 for the least k at which
   * size < capacity - 2: every smaller tier would still have been too full.
   */
  lemma {:induction false} GrowCapacityTiers(cap: int, size: int)
    requires cap >= 2
    ensures GrowCapacity(cap, size) == (cap - 1) * Pow2(GrowSteps(cap, size)) + 1
    ensures forall j :: 0 <= j < GrowSteps(cap, size) ==> size >= (cap - 1) * Pow2(j) + 1 - 2
    decreases size - cap + 3
  {
    if size >= cap - 1 - 1 {
      var c2 := (cap - 1) * 2 + 1;
      GrowCapacityTiers(c2, size);
      var k := GrowSteps(c2, size);
      DoubledTier(cap - 1, k);
      forall j | 0 <= j < GrowSteps(cap, size) ensures size >= (cap - 1) * Pow2(j) + 1 - 2 {
        if j > 0 {
          DoubledTier(cap - 1, j - 1);
        }
      }
    }
  }

  /**
   * list_resize_up on a valid list that passes list_verify: no change when
   * size < capacity - 2; otherwise, unless calloc fails (nothing changes),
   * the list is linearised into the grown capacity.
   */
  lemma ResizeUpResult(s: State, allocOk: bool)
    requires ValidState(s) && Verify(s) == {}
    ensures var o := ResizeUpSpec(s, allocOk);
            var nc := GrowCapacity(s.capacity, s.size);
            && (s.size < s.capacity - 2 ==> nc == s.capacity && o == Outcome(s, {}))
            && (nc != s.capacity && !allocOk ==> o == Outcome(s, {AllocErr}))
            && (nc != s.capacity && allocOk ==> o == Outcome(LinearState(ValuesOf(s), nc), {}))
  {
    var nc := GrowCapacity(s.capacity, s.size);
    if nc != s.capacity {
      LineariseLaysOut(s, nc, allocOk);
      if allocOk {
        ValuesNotPoison(s);
        LinearStateValid(ValuesOf(s), nc);
      }
    }
  }

  /**
   * list_resize_up never leaves a valid list invalid: on success the list
   * has the same payloads in the same order and room for one more.
   */
  lemma ResizeUpValid(s: State, allocOk: bool)
    requires ValidState(s)
    ensures var o := ResizeUpSpec(s, allocOk);
            o.errs == {} ==>
              && ValidState(o.state)
              && o.state.size == s.size < o.state.capacity - 2
              && o.state.capacity >= s.capacity
              && ValuesOf(o.state) == ValuesOf(s)
              && (o.state != s ==> o.state.isLinear && Linear(RingOrder(o.state)))
  {
    if Verify(s) == {} {
      ResizeUpResult(s, allocOk);
      var nc := GrowCapacity(s.capacity, s.size);
      if nc != s.capacity && allocOk {
        ValuesNotPoison(s);
        LinearStateValid(ValuesOf(s), nc);
      }
    }
  }

  /**
   * list_resize_down on a valid list that passes list_verify: no change when
   * size >= (capacity - 1) / 2; otherwise, unless calloc fails (nothing
   * changes), the list is linearised into the shrunk capacity.
   */
  lemma ResizeDownResult(s: State, allocOk: bool)
    requires ValidState(s) && Verify(s) == {}
    ensures var o := ResizeDownSpec(s, allocOk);
            var nc := ShrinkCapacity(s.capacity, s.size);
            && (s.size >= (s.capacity - 1) / 2 ==> nc == s.capacity && o == Outcome(s, {}))
            && (nc != s.capacity && !allocOk ==> o == Outcome(s, {AllocErr}))
            && (nc != s.capacity && allocOk ==> o == Outcome(LinearState(ValuesOf(s), nc), {}))
  {
    var nc := ShrinkCapacity(s.capacity, s.size);
    if nc != s.capacity {
      LineariseLaysOut(s, nc, allocOk);
      if allocOk {
        ValuesNotPoison(s);
        LinearStateValid(ValuesOf(s), nc);
      }
    }
  }

  /** list_resize_down never leaves a valid list invalid and keeps its payloads in order. */
  lemma ResizeDownValid(s: State, allocOk: bool)
    requires ValidState(s)
    ensures var o := ResizeDownSpec(s, allocOk);
            o.errs == {} ==>
              && ValidState(o.state)
              && o.state.size == s.size
              && o.state.capacity <= s.capacity
              && ValuesOf(o.state) == ValuesOf(s)
              && (o.state != s ==> o.state.isLinear && Linear(RingOrder(o.state)))
    ensures var o := ResizeDownSpec(s, allocOk);
            o.errs == {} && o.state != s ==>
              && ShrinkCapacity(s.capacity, s.size) == o.state.capacity >= s.size + 2
              && forall p :: 1 <= p <= s.size ==> o.state.arr.value[p].prev == p - 1
  {
    if Verify(s) == {} {
      ResizeDownResult(s, allocOk);
      var nc := ShrinkCapacity(s.capacity, s.size);
      if nc != s.capacity && allocOk {
        ValuesNotPoison(s);
        LinearStateValid(ValuesOf(s), nc);
      }
    }
  }
}
