// list_verify (src/list.cpp:212-261) as a function of the list's state.

module ListVerify {
  import opened ListTypes
  import opened ListWalk

  /** The faults the walk of list_verify records at one visited slot (src/list.cpp:242-245). */
  function StepErrors(a: seq<Node>, phys: int, prevPhys: int, log: int, isLinear: bool): set<Err>
    requires 0 <= phys < |a|
  {
    (if a[phys].elem == POISON then {PoisonValFound} else {}) +
    (if a[phys].prev != prevPhys then {DamagedPath} else {}) +
    (if isLinear && phys != log + 1 then {InvalidIsLinear} else {})
  }

  /**
   * The faults recorded along the visited slots t, the first of which is
   * reached from prevPhys at logical index log.
   */
  function TraceErrors(a: seq<Node>, t: seq<int>, prevPhys: int, log: int, isLinear: bool): (r: set<Err>)
    requires forall k :: 0 <= k < |t| ==> 0 <= t[k] < |a|
    ensures r <= {PoisonValFound, DamagedPath, InvalidIsLinear}
  {
    if t == [] then {}
    else StepErrors(a, t[0], prevPhys, log, isLinear) + TraceErrors(a, t[1..], t[0], log + 1, isLinear)
  }

  /** The prev/elem duality of one non-sentinel slot (src/list.cpp:254-257). */
  function DualityStep(n: Node): set<Err> {
    (if n.prev != -1 && n.elem == POISON then {PoisonValFound} else {}) +
    (if n.prev == -1 && n.elem != POISON then {NonPoisonEmpty} else {})
  }

  /** The faults of the duality scan over the slots i .. cap-1. */
  function DualityErrors(a: seq<Node>, i: int, cap: int): (r: set<Err>)
    requires 0 <= i && cap <= |a|
    ensures r <= {PoisonValFound, NonPoisonEmpty}
    decreases cap - i
  {
    if i >= cap then {} else DualityStep(a[i]) + DualityErrors(a, i + 1, cap)
  }

  /** The checks made on the scalar fields alone (src/list.cpp:221-229). */
  function ScalarErrors(s: State): set<Err> {
    (if s.arr.None? then {DataInvalidPtr} else {}) +
    (if s.capacity < s.size + 1 then {LowCapacity} else {}) +
    (if s.capacity < 0 then {NegativeCapacity} else {}) +
    (if s.size < 0 then {NegativeSize} else {}) +
    (if s.freeHead <= 0 then {InvalidFreeHead} else {})
  }

  /** The checks made on the array (src/list.cpp:234-258). */
  function ArrayErrors(a: seq<Node>, s: State): set<Err>
    requires 1 <= |a| && s.capacity <= |a| && NextsInside(a)
  {
    var w := RingWalk(a, s.size);
    (if a[0].prev < 0 then {InvalidTail} else {}) +
    (if a[0].next < 0 then {InvalidHead} else {}) +
    TraceErrors(a, w.visited, 0, 0, s.isLinear) +
    (if w.log != s.size then {DamagedPath} else {}) +
    (if w.phys < 0 then {DamagedPath} else {}) +
    DualityErrors(a, 1, s.capacity)
  }

  /**
   * list_verify: every fault found, or {} (OK).  An uninitialised list gives
   * UNITIALISED alone; a null array skips the array checks.  A null pointer
   * is the only invalid pointer is_ptr_valid is taken to detect.
   */
  function Verify(s: State): (r: set<Err>)
    requires Readable(s)
  {
    if !IsInitialised(s) then {Uninitialised}
    else if s.arr.None? then ScalarErrors(s)
    else ScalarErrors(s) + ArrayErrors(s.arr.value, s)
  }
}
