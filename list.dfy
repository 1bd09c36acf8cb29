// struct List (src/list.h) as a class whose methods update its fields and
// its slot array in place, each proved to leave the state, result code and
// output index that the corresponding function of the pure model gives.

module SlotList {
  import opened ListTypes
  import opened ListWalk
  import opened ListVerify
  import opened ListShape
  import opened ListOps
  import opened ListLayout
  import opened ListEdit
  import opened ListLookup

  class List {
    /** The slot array; slot 0 is the sentinel whose next/prev are head and tail. */
    var arr: array?<Node>
    var capacity: int
    var size: int
    var freeHead: int
    var isLinear: bool

    /** The value the fields and the array contents currently hold. */
    function Snap(): State
      reads this, arr
    {
      State(if arr == null then None else Some(arr[..]), capacity, size, freeHead, isLinear)
    }

    /** A List object before list_ctor: the defaults of its member initialisers (src/list.h:60-67). */
    constructor()
      ensures Snap() == UNINITIALISED_STATE
    {
      arr := null;
      capacity := UNINITIALISED_VAL;
      size := UNINITIALISED_VAL;
      freeHead := UNINITIALISED_VAL;
      isLinear := false;
    }

    /**
     * list_ctor: refuses a list that is already initialised; otherwise
     * allocates init_capacity + 1 slots (allocOk says whether calloc
     * succeeded), lays out the sentinel and the free chain 1 -> 2 -> ... -> 0
     * and verifies the result.
     */
    method Ctor(initCap: nat, allocOk: bool) returns (res: set<Err>)
      modifies this
      ensures Outcome(Snap(), res) == CtorSpec(old(Snap()), initCap, allocOk)
      ensures arr == old(arr) || fresh(arr)
    {
      if IsInitialised(Snap()) {
        res := {AlreadyInitialised};
      } else if !allocOk {
        res := {AllocErr};
      } else {
        var cap := initCap + 1;
        var a := new Node[cap](_ => Node(0, 0, 0));
        a[0] := Node(0, POISON, 0);
        var i := 1;
        while i < cap
          invariant 1 <= i <= cap
          invariant a[0] == Node(0, POISON, 0)
          invariant forall j :: 1 <= j < i ==> a[j] == Node(EMPTY_INDEX, POISON, j + 1)
        {
          a[i] := Node(EMPTY_INDEX, POISON, i + 1);
          i := i + 1;
        }
        a[cap - 1] := a[cap - 1].(next := 0);
        assert a[..] == FreshArray(cap);
        arr := a;
        capacity := cap;
        freeHead := 1;
        size := 0;
        isLinear := true;
        res := Verify();
      }
    }

    /**
     * list_dtor: verifies, overwrites the first capacity slots with
     * POISON_LIST_NODE, frees the array and resets the fields.
     */
    method Dtor() returns (res: set<Err>)
      requires Readable(Snap())
      requires arr != null && capacity >= 0
      modifies this, arr
      ensures Outcome(Snap(), res) == DtorSpec(old(Snap()))
      ensures forall i :: 0 <= i < old(capacity) ==> old(arr)[i] == POISON_NODE
    {
      res := Verify();
      var a := arr;
      var i := 0;
      while i < capacity
        invariant 0 <= i <= capacity <= a.Length
        invariant forall j :: 0 <= j < i ==> a[j] == POISON_NODE
        modifies a
      {
        a[i] := POISON_NODE;
        i := i + 1;
      }
      arr := null;
      capacity := UNINITIALISED_VAL;
      freeHead := UNINITIALISED_VAL;
      size := UNINITIALISED_VAL;
      isLinear := false;
    }

    /** list_verify: reads the fields and the array and reports every fault it finds. */
    method Verify() returns (res: set<Err>)
      requires Readable(Snap())
      ensures res == ListVerify.Verify(Snap())
    {
      if !IsInitialised(Snap()) {
        res := {Uninitialised};
      } else {
        res := {};
        if arr == null { res := res + {DataInvalidPtr}; }
        if capacity < size + 1 { res := res + {LowCapacity}; }
        if capacity < 0 { res := res + {NegativeCapacity}; }
        if size < 0 { res := res + {NegativeSize}; }
        if freeHead <= 0 { res := res + {InvalidFreeHead}; }
        if arr != null {
          var found := VerifyArray();
          res := res + found;
        }
      }
    }

    /** The array part of list_verify (src/list.cpp:234-258): head and tail, the walk, the duality scan. */
    method VerifyArray() returns (res: set<Err>)
      requires arr != null && Readable(Snap())
      ensures res == ArrayErrors(arr[..], Snap())
    {
      res := {};
      if arr[0].prev < 0 { res := res + {InvalidTail}; }
      if arr[0].next < 0 { res := res + {InvalidHead}; }
      var trace, phys, log := Trace();
      res := res + trace;
      if log != size { res := res + {DamagedPath}; }
      if phys < 0 { res := res + {DamagedPath}; }
      var duality := DualityScan();
      res := res + duality;
    }

    /** The walk of list_verify: the faults along the ring and where LIST_FOREACH stopped. */
    method Trace() returns (res: set<Err>, phys: int, log: int)
      requires arr != null && Readable(Snap())
      ensures var w := RingWalk(arr[..], size);
              res == TraceErrors(arr[..], w.visited, 0, 0, isLinear) && phys == w.phys && log == w.log
    {
      var a := arr;
      ghost var sa := a[..];
      ghost var w := RingWalk(sa, size);
      res := {};
      var prevPhys := 0;
      phys := a[0].next;
      log := 0;
      while phys > 0 && log <= size
        invariant phys < |sa| && 0 <= log
        invariant Foreach(sa, size, phys, log).phys == w.phys
        invariant Foreach(sa, size, phys, log).log == w.log
        invariant res + TraceErrors(sa, Foreach(sa, size, phys, log).visited, prevPhys, log, isLinear)
                  == TraceErrors(sa, w.visited, 0, 0, isLinear)
        decreases size + 1 - log
      {
        if a[phys].elem == POISON { res := res + {PoisonValFound}; }
        if a[phys].prev != prevPhys { res := res + {DamagedPath}; }
        if isLinear && phys != log + 1 { res := res + {InvalidIsLinear}; }
        prevPhys := phys;
        phys := a[phys].next;
        log := log + 1;
      }
    }

    /** The prev/elem duality scan of list_verify over the slots 1 .. capacity-1. */
    method DualityScan() returns (res: set<Err>)
      requires arr != null && Readable(Snap())
      ensures res == DualityErrors(arr[..], 1, capacity)
    {
      var a := arr;
      ghost var sa := a[..];
      res := {};
      var i := 1;
      while i < capacity
        invariant 1 <= i && (capacity >= 1 ==> i <= capacity)
        invariant res + DualityErrors(sa, i, capacity) == DualityErrors(sa, 1, capacity)
        decreases capacity - i
      {
        if a[i].prev != -1 && a[i].elem == POISON { res := res + {PoisonValFound}; }
        if a[i].prev == -1 && a[i].elem != POISON { res := res + {NonPoisonEmpty}; }
        i := i + 1;
      }
    }

    /**
     * list_linearise: verifies, then copies the ring in logical order into a
     * fresh array of new_capacity slots (-1 keeps the capacity), rank k in
     * slot k+1, chains the remaining slots upwards as the free list, replaces
     * the array and verifies again.  allocOk says whether calloc succeeded.
     */
    method Linearise(newCap: int, allocOk: bool) returns (res: set<Err>)
      requires ValidState(Snap())
      requires newCap == -1 || newCap >= size + 1
      modifies this
      ensures Outcome(Snap(), res) == LineariseSpec(old(Snap()), newCap, allocOk)
      ensures arr == old(arr) || fresh(arr)
    {
      ghost var s0 := Snap();
      LineariseRefuses(s0, newCap, allocOk);
      res := Verify();
      if res == {} {
        var nc := if newCap == -1 then capacity else newCap;
        if !allocOk {
          res := {AllocErr};
        } else {
          ghost var vals := ValuesOf(s0);
          ValidChained(s0);
          LineariseCopies(s0, newCap);
          var newArr := new Node[nc](_ => Node(0, 0, 0));
          newArr[0] := Node(0, POISON, 0);
          var log := CopyRing(newArr, RingOrder(s0), vals);
          if log != size {
            res := {DamagedPath};
          } else {
            res := Install(newArr, vals);
          }
        }
      }
    }

    /**
     * The LIST_FOREACH loop of list_linearise over a ring `slots` holding
     * `vals`: copies the payload of rank k into slot k+1 of b, linked to its
     * neighbours, and returns the walk's final logical index.
     */
    method CopyRing(b: array<Node>, ghost slots: seq<int>, ghost vals: seq<Elem>) returns (log: int)
      requires arr != null && b != arr && Chained(arr[..], slots, vals) && size == |slots|
      requires b.Length >= size + 1 && b[0] == Node(0, POISON, 0)
      modifies b
      ensures log == size
      ensures b[0] == Node(0, POISON, if size > 0 then 1 else 0)
      ensures forall j :: 1 <= j <= size ==> b[j] == LinearNode(vals, b.Length, j)
    {
      var a := arr;
      var phys := a[0].next;
      log := 0;
      while phys > 0 && log <= size
        invariant 0 <= log <= size
        invariant phys == if log < size then slots[log] else 0
        invariant b[0] == Node(0, POISON, if log > 0 then 1 else 0)
        invariant forall j :: 1 <= j <= log ==> b[j] == Node(j - 1, vals[j - 1], if j < log then j + 1 else 0)
        decreases size + 1 - log
      {
        b[log] := b[log].(next := log + 1);
        b[log + 1] := Node(log, a[phys].elem, 0);
        phys := a[phys].next;
        log := log + 1;
      }
    }

    /**
     * The end of list_linearise once the ring is copied into b: the tail
     * link, the free chain, the new array and flag in place, and the final
     * verification.
     */
    method Install(b: array<Node>, ghost vals: seq<Elem>) returns (res: set<Err>)
      requires b.Length >= |vals| + 1 && size == |vals|
      requires b[0] == Node(0, POISON, if |vals| > 0 then 1 else 0)
      requires forall j :: 1 <= j <= |vals| ==> b[j] == LinearNode(vals, b.Length, j)
      requires Readable(LinearState(vals, b.Length))
      modifies this, b
      ensures Snap() == LinearState(vals, b.Length) && arr == b
      ensures res == ListVerify.Verify(Snap())
    {
      b[0] := b[0].(prev := size);
      freeHead := size + 1;
      ChainFree(b, freeHead, vals);
      arr := b;
      capacity := b.Length;
      isLinear := true;
      res := Verify();
    }

    /**
     * The free-chain loop of list_linearise: slots from .. Length-1 of b
     * become free slots chained upwards, the last one ending the chain.
     */
    static method ChainFree(b: array<Node>, from: int, ghost vals: seq<Elem>)
      requires from == |vals| + 1 <= b.Length
      requires forall j :: 0 <= j <= |vals| ==> b[j] == LinearNode(vals, b.Length, j)
      modifies b
      ensures b[..] == LinearArray(vals, b.Length)
    {
      var i := from;
      while i < b.Length
        invariant from <= i <= b.Length
        invariant forall j :: 0 <= j < from ==> b[j] == LinearNode(vals, b.Length, j)
        invariant forall j :: from <= j < i ==> b[j] == Node(UNINITIALISED_VAL, POISON, j + 1)
      {
        b[i] := Node(UNINITIALISED_VAL, POISON, i + 1);
        i := i + 1;
      }
      b[i - 1] := b[i - 1].(next := 0);
      assert b[..] == LinearArray(vals, b.Length);
    }

    /**
     * list_resize: verifies, re-lays the list out in new_capacity slots and
     * verifies again.  The source asserts that the capacity changes.
     */
    method Resize(newCap: int, allocOk: bool) returns (res: set<Err>)
      requires ValidState(Snap())
      requires newCap >= size + 1 && newCap != capacity
      modifies this
      ensures Outcome(Snap(), res) == ResizeSpec(old(Snap()), newCap, allocOk)
      ensures arr == old(arr) || fresh(arr)
    {
      res := Verify();
      if res == {} {
        res := Linearise(newCap, allocOk);
        if res == {} {
          res := Verify();
        }
      }
    }

    /**
     * list_resize_up: doubles the payload capacity while size >= capacity - 2
     * and resizes when that changed it.
     */
    method ResizeUp(allocOk: bool) returns (res: set<Err>)
      requires ValidState(Snap())
      modifies this
      ensures Outcome(Snap(), res) == ResizeUpSpec(old(Snap()), allocOk)
      ensures arr == old(arr) || fresh(arr)
    {
      res := Verify();
      if res == {} {
        var newCap := capacity;
        while size >= newCap - 1 - 1
          invariant newCap >= 2
          invariant GrowCapacity(newCap, size) == GrowCapacity(capacity, size)
          decreases size - newCap + 3
        {
          newCap := (newCap - 1) * 2 + 1;
        }
        if newCap != capacity {
          res := Resize(newCap, allocOk);
        }
      }
    }

    /**
     * list_resize_down: halves the payload capacity while
     * size < (capacity - 1) / 2 and resizes when that changed it.
     */
    method ResizeDown(allocOk: bool) returns (res: set<Err>)
      requires ValidState(Snap())
      modifies this
      ensures Outcome(Snap(), res) == ResizeDownSpec(old(Snap()), allocOk)
      ensures arr == old(arr) || fresh(arr)
    {
      res := Verify();
      if res == {} {
        var newCap := capacity;
        while size < (newCap - 1) / 2
          invariant newCap >= 1
          invariant ShrinkCapacity(newCap, size) == ShrinkCapacity(capacity, size)
          decreases newCap
        {
          newCap := (newCap - 1) / 2 + 1;
        }
        if newCap != capacity {
          res := Resize(newCap, allocOk);
        }
      }
    }

    /**
     * list_insert_after: verifies, refuses a free position, grows when
     * nearly full, then links the free head in after position and writes its
     * index to *inserted_index (None: left unwritten).
     */
    method InsertAfter(position: nat, elem: Elem, allocOk: bool) returns (res: set<Err>, index: Option<nat>)
      requires ValidState(Snap()) && position < capacity
      modifies this, arr
      ensures Inserted(Snap(), res, index) == InsertAfterSpec(old(Snap()), position, elem, allocOk)
    {
      ghost var s0 := Snap();
      index := None;
      res := Verify();
      if res == {} {
        if arr[position].prev == EMPTY_INDEX {
          res := {InvalidPosition};
        } else {
          res := ResizeUp(allocOk);
          if res == {} {
            ResizeUpValid(s0, allocOk);
            index := Some(freeHead);
            res := Splice(position, elem);
          }
        }
      }
    }

    /** The splice of list_insert_after, from reading the free head to the final verification. */
    method Splice(position: nat, elem: Elem) returns (res: set<Err>)
      requires ValidState(Snap()) && position < capacity
      modifies this, arr
      ensures arr == old(arr)
      ensures Snap() == SpliceAfter(old(Snap()), position, elem)
      ensures res == ListVerify.Verify(Snap())
    {
      ghost var s0 := Snap();
      assert freeHead == FreeOrder(s0)[0];
      var ins := freeHead;
      freeHead := arr[ins].next;
      arr[ins] := arr[ins].(prev := position);
      arr[ins] := arr[ins].(next := arr[position].next);
      arr[arr[position].next] := arr[arr[position].next].(prev := ins);
      arr[position] := arr[position].(next := ins);
      arr[ins] := arr[ins].(elem := elem);
      size := size + 1;
      if ins != arr[0].prev && ins != arr[0].next {
        isLinear := false;
      }
      assert arr[..] == SpliceWrites(s0.arr.value, position, ins, elem);
      assert Snap() == SpliceAfter(s0, position, elem);
      res := Verify();
    }

    /** list_insert_before: list_insert_after on position's prev (src/list.h:146-148). */
    method InsertBefore(position: nat, elem: Elem, allocOk: bool) returns (res: set<Err>, index: Option<nat>)
      requires ValidState(Snap()) && position < capacity && arr[position].prev != EMPTY_INDEX
      modifies this, arr
      ensures Inserted(Snap(), res, index) == InsertBeforeSpec(old(Snap()), position, elem, allocOk)
    {
      res, index := InsertAfter(arr[position].prev, elem, allocOk);
    }

    /** list_pushback: list_insert_after on the tail (src/list.h:158-160). */
    method PushBack(elem: Elem, allocOk: bool) returns (res: set<Err>, index: Option<nat>)
      requires ValidState(Snap())
      modifies this, arr
      ensures Inserted(Snap(), res, index) == PushBackSpec(old(Snap()), elem, allocOk)
    {
      HeadLinksBack(Snap());
      res, index := InsertAfter(arr[0].prev, elem, allocOk);
    }

    /** list_pushfront: list_insert_before on the head (src/list.h:170-172). */
    method PushFront(elem: Elem, allocOk: bool) returns (res: set<Err>, index: Option<nat>)
      requires ValidState(Snap())
      modifies this, arr
      ensures Inserted(Snap(), res, index) == PushFrontSpec(old(Snap()), elem, allocOk)
    {
      HeadLinksBack(Snap());
      res, index := InsertBefore(arr[0].next, elem, allocOk);
    }

    /**
     * list_delete: verifies, refuses a free position, shrinks unless
     * no_resize, then unlinks position and makes it the free head.
     */
    method Delete(position: nat, noResize: bool, allocOk: bool) returns (res: set<Err>)
      requires ValidState(Snap()) && 0 < position < capacity
      requires var relaid := !noResize && allocOk && ShrinkCapacity(capacity, size) != capacity;
               relaid && arr[position].prev != EMPTY_INDEX ==> position <= size
      modifies this, arr
      ensures Outcome(Snap(), res) == DeleteSpec(old(Snap()), position, noResize, allocOk)
    {
      ghost var s0 := Snap();
      res := Verify();
      if res == {} {
        if arr[position].prev == EMPTY_INDEX {
          res := {InvalidPosition};
        } else {
          if !noResize {
            res := ResizeDown(allocOk);
          }
          if res == {} {
            ResizeDownValid(s0, allocOk);
            res := UnlinkSlot(position);
          }
        }
      }
    }

    /** The unlinking of list_delete, from joining the neighbours to the final verification. */
    method UnlinkSlot(position: nat) returns (res: set<Err>)
      requires ValidState(Snap()) && position < capacity && arr[position].prev != EMPTY_INDEX
      modifies this, arr
      ensures arr == old(arr)
      ensures Snap() == Unlink(old(Snap()), position)
      ensures res == ListVerify.Verify(Snap())
    {
      ghost var s0 := Snap();
      assert freeHead == FreeOrder(s0)[0];
      arr[arr[position].prev] := arr[arr[position].prev].(next := arr[position].next);
      arr[arr[position].next] := arr[arr[position].next].(prev := arr[position].prev);
      arr[position] := arr[position].(prev := UNINITIALISED_VAL);
      arr[position] := arr[position].(next := freeHead);
      freeHead := position;
      arr[position] := arr[position].(elem := POISON);
      size := size - 1;
      if position != arr[0].next && position != arr[0].prev {
        isLinear := false;
      }
      res := Verify();
    }

    /**
     * list_find_by_logical_index: the slot of rank logical, by the linear
     * shortcut or by walking the ring.
     */
    method FindByLogicalIndex(logical: int) returns (res: set<Err>, index: Option<int>)
      requires Readable(Snap())
      ensures Lookup(res, index) == FindByLogicalIndexSpec(Snap(), logical)
    {
      index := None;
      res := Verify();
      if res == {} {
        if logical >= size || logical < 0 {
          res := {InvalidPosition};
          index := Some(-1);
        } else if isLinear {
          index := Some(logical + 1);
        } else {
          var a := arr;
          ghost var sa := a[..];
          ghost var w := RingWalk(sa, size);
          var phys := a[0].next;
          var log := 0;
          var left := logical;
          while phys > 0 && log <= size
            invariant phys < |sa| && 0 <= log <= logical && left == logical - log
            invariant WalkFrom(sa, size, w, phys, log)
            decreases size + 1 - log
          {
            if left == 0 {
              index := Some(phys);
              return;
            }
            left := left - 1;
            WalkStep(sa, size, w, phys, log);
            phys := a[phys].next;
            log := log + 1;
          }
          if log != size {
            res := res + {DamagedPath};
          }
          index := Some(-1);
        }
      }
    }

    /** list_find_by_value: the first slot in logical order holding elem. */
    method FindByValue(elem: Elem) returns (res: set<Err>, index: Option<int>)
      requires Readable(Snap())
      ensures Lookup(res, index) == FindByValueSpec(Snap(), elem)
    {
      index := None;
      res := Verify();
      if res == {} {
        if elem == POISON {
          res := {PoisonValFound};
          index := Some(-1);
        } else {
          var a := arr;
          ghost var sa := a[..];
          ghost var w := RingWalk(sa, size);
          ghost var es := ElemsAt(sa, w.visited);
          var phys := a[0].next;
          var log := 0;
          while phys > 0 && log <= size
            invariant phys < |sa| && 0 <= log
            invariant WalkFrom(sa, size, w, phys, log)
            invariant forall j :: 0 <= j < log ==> es[j] != elem
            decreases size + 1 - log
          {
            WalkStep(sa, size, w, phys, log);
            assert es[log] == a[phys].elem;
            if a[phys].elem == elem {
              PositionAt(es, elem, log);
              index := Some(phys);
              return;
            }
            phys := a[phys].next;
            log := log + 1;
          }
          if log != size {
            res := res + {DamagedPath};
          }
          index := Some(-1);
        }
      }
    }

    /**
     * list_logical_index_by_physical: the rank of slot physical, by the
     * linear shortcut or by walking the ring.
     */
    method LogicalIndexByPhysical(physical: int) returns (res: set<Err>, index: Option<int>)
      requires Readable(Snap())
      ensures Lookup(res, index) == LogicalIndexByPhysicalSpec(Snap(), physical)
    {
      index := None;
      res := Verify();
      if res == {} {
        if physical >= capacity || physical <= 0 {
          res := {InvalidPosition};
          index := Some(-1);
        } else if isLinear {
          index := Some(physical - 1);
        } else {
          var a := arr;
          ghost var sa := a[..];
          ghost var w := RingWalk(sa, size);
          var phys := a[0].next;
          var log := 0;
          while phys > 0 && log <= size
            invariant phys < |sa| && 0 <= log
            invariant WalkFrom(sa, size, w, phys, log)
            invariant forall j :: 0 <= j < log ==> w.visited[j] != physical
            decreases size + 1 - log
          {
            WalkStep(sa, size, w, phys, log);
            if physical == phys {
              index := Some(log);
              return;
            }
            phys := a[phys].next;
            log := log + 1;
          }
          if log != size {
            res := res + {DamagedPath};
          }
          index := Some(-1);
        }
      }
    }
  }

  /** The ring `slots` of a, read by following next links from the sentinel, holds `vals`. */
  ghost predicate Chained(a: seq<Node>, slots: seq<int>, vals: seq<Elem>) {
    && 1 <= |a| && |vals| == |slots| && InSlots(slots, |a|)
    && a[0].next == First(slots)
    && forall k {:trigger a[slots[k]]} :: 0 <= k < |slots| ==>
         a[slots[k]].next == NextOf(slots, k) && a[slots[k]].elem == vals[k]
  }

  lemma ValidChained(s: State)
    requires ValidState(s)
    ensures Chained(s.arr.value, RingOrder(s), ValuesOf(s))
  {
  }

  /** list_linearise changes nothing when list_verify fails or calloc does. */
  lemma LineariseRefuses(s: State, newCap: int, allocOk: bool)
    requires ValidState(s)
    requires newCap == -1 || newCap >= s.size + 1
    ensures Verify(s) != {} ==> LineariseSpec(s, newCap, allocOk) == Outcome(s, Verify(s))
    ensures Verify(s) == {} && !allocOk ==> LineariseSpec(s, newCap, allocOk) == Outcome(s, {AllocErr})
  {
  }

  /** list_linearise on a valid list that passes list_verify, when calloc succeeds. */
  lemma LineariseCopies(s: State, newCap: int)
    requires ValidState(s) && Verify(s) == {}
    requires newCap == -1 || newCap >= s.size + 1
    ensures var nc := if newCap == -1 then s.capacity else newCap;
            var l := LinearState(ValuesOf(s), nc);
            LineariseSpec(s, newCap, true) == Outcome(l, Verify(l))
  {
    RingWalkOfShaped(s, RingOrder(s), FreeOrder(s));
  }

  /** A LIST_FOREACH walk w is at (phys, log): what is left of it is the walk from there. */
  ghost predicate WalkFrom(a: seq<Node>, size: int, w: Walk, phys: int, log: int)
    requires NextsInside(a) && phys < |a|
  {
    0 <= log <= |w.visited| && Foreach(a, size, phys, log) == Walk(w.visited[log..], w.phys, w.log)
  }

  /** One step of the walk: the slot at phys is the one visited at log, and the walk goes on from its next. */
  lemma WalkStep(a: seq<Node>, size: int, w: Walk, phys: int, log: int)
    requires NextsInside(a) && 0 < phys < |a| && log <= size
    requires WalkFrom(a, size, w, phys, log)
    ensures log < |w.visited| && w.visited[log] == phys
    ensures WalkFrom(a, size, w, a[phys].next, log + 1)
  {
    var rest := Foreach(a, size, a[phys].next, log + 1);
    assert w.visited[log..] == [phys] + rest.visited;
    assert w.visited[log + 1..] == w.visited[log..][1..];
  }

  /** The first occurrence: x at k with no x before it. */
  lemma PositionAt(t: seq<int>, x: int, k: nat)
    requires k < |t| && t[k] == x && forall j :: 0 <= j < k ==> t[j] != x
    ensures Position(t, x) == k
  {
  }
}
