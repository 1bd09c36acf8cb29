// What list_verify reports about a list that keeps the structural invariant,
// and which faults it is guaranteed to notice.

module ListSoundness {
  import opened ListTypes
  import opened ListWalk
  import opened ListVerify
  import opened ListShape

  /** Along a ring whose prev links match, the walk from rank k reports at most a wrong is_linear. */
  lemma {:induction false} TraceClean(a: seq<Node>, slots: seq<int>, k: nat, isLinear: bool)
    requires 1 <= |a| && InSlots(slots, |a|) && RingLinked(a, slots) && k <= |slots|
    ensures TraceErrors(a, slots[k..], if k == 0 then 0 else slots[k - 1], k, isLinear) <= {InvalidIsLinear}
    decreases |slots| - k
  {
    if k < |slots| {
      assert a[slots[k]].prev == PrevOf(slots, k);
      TraceClean(a, slots, k + 1, isLinear);
      assert slots[k..][1..] == slots[k + 1..];
    }
  }

  /** In a well-formed array the duality scan from slot i onwards reports nothing. */
  lemma {:induction false} DualityClean(s: State, slots: seq<int>, frees: seq<int>, i: nat)
    requires Shaped(s, slots, frees) && 1 <= i
    ensures DualityErrors(s.arr.value, i, s.capacity) == {}
    decreases s.capacity - i
  {
    var a := s.arr.value;
    if i < s.capacity {
      if i in slots {
        var k :| 0 <= k < |slots| && slots[k] == i;
        assert a[slots[k]].prev == PrevOf(slots, k);
      } else {
        var j :| 0 <= j < |frees| && frees[j] == i;
        assert a[frees[j]] == Node(EMPTY_INDEX, POISON, NextOf(frees, j));
      }
      DualityClean(s, slots, frees, i + 1);
    }
  }

  /** The duality scan from slot i reports whatever it finds at any later slot j below cap. */
  lemma {:induction false} DualitySees(a: seq<Node>, i: int, cap: int, j: int)
    requires 0 <= i <= j < cap <= |a|
    ensures DualityStep(a[j]) <= DualityErrors(a, i, cap)
    decreases j - i
  {
    if i < j {
      DualitySees(a, i + 1, cap, j);
    }
  }

  /**
   * The walk of list_verify reports INVALID_IS_LINEAR exactly when the flag
   * is set and some visited slot is not its logical index plus one.
   */
  lemma {:induction false} TraceLinearFault(a: seq<Node>, t: seq<int>, prevPhys: int, log: int, isLinear: bool)
    requires forall k :: 0 <= k < |t| ==> 0 <= t[k] < |a|
    ensures InvalidIsLinear in TraceErrors(a, t, prevPhys, log, isLinear) <==>
            isLinear && exists k :: 0 <= k < |t| && t[k] != log + k + 1
  {
    if t != [] {
      TraceLinearFault(a, t[1..], t[0], log + 1, isLinear);
      if isLinear && (exists k :: 0 <= k < |t| && t[k] != log + k + 1) {
        var k :| 0 <= k < |t| && t[k] != log + k + 1;
        if k > 0 {
          assert t[1..][k - 1] != (log + 1) + (k - 1) + 1;
        }
      }
      if exists k :: 0 <= k < |t[1..]| && t[1..][k] != log + 1 + k + 1 {
        var k :| 0 <= k < |t[1..]| && t[1..][k] != log + 1 + k + 1;
        assert t[k + 1] != log + (k + 1) + 1;
      }
    }
  }

  /**
   * On a list that keeps the structural invariant, list_verify reports
   * nothing but a wrong is_linear flag: INVALID_IS_LINEAR exactly when the
   * flag is set over a layout that is not linear.
   */
  lemma VerifyOfValid(s: State)
    requires ValidState(s)
    ensures Verify(s) == if s.isLinear && !Linear(RingOrder(s)) then {InvalidIsLinear} else {}
  {
    var slots, frees := RingOrder(s), FreeOrder(s);
    var a := s.arr.value;
    RingWalkOfShaped(s, slots, frees);
    TraceClean(a, slots, 0, s.isLinear);
    TraceLinearFault(a, slots, 0, 0, s.isLinear);
    DualityClean(s, slots, frees, 1);
    assert frees[0] in frees;
    assert ScalarErrors(s) == {};
    if s.isLinear && !Linear(slots) {
      var k :| 0 <= k < |slots| && slots[k] != k + 1;
      assert slots[k] != 0 + k + 1;
    }
  }

  /** A valid list whose is_linear flag tells the truth passes list_verify. */
  lemma VerifySound(s: State)
    requires ValidState(s)
    requires s.isLinear ==> Linear(RingOrder(s))
    ensures Verify(s) == {}
  {
    VerifyOfValid(s);
  }
}
