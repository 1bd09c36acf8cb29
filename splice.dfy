// What the splice of list_insert_after does to the ring, the free chain and
// the payloads of a valid list.

module ListSplice {
  import opened ListTypes
  import opened ListWalk
  import opened ListVerify
  import opened ListShape
  import opened ListSoundness
  import opened ListOps
  import opened ListLayout
  import opened ListEdit

  /** t with x inserted so that it becomes the element of rank r. */
  function InsertAt<T>(t: seq<T>, r: nat, x: T): (t': seq<T>)
    requires r <= |t|
    ensures |t'| == |t| + 1
    ensures forall m :: 0 <= m < |t'| ==> t'[m] == if m < r then t[m] else if m == r then x else t[m - 1]
  {
    t[..r] + [x] + t[r..]
  }

  lemma InsertAtEnds<T>(t: seq<T>, x: T)
    ensures InsertAt(t, 0, x) == [x] + t
    ensures InsertAt(t, |t|, x) == t + [x]
  {
    assert t[..0] == [] && t[0..] == t;
    assert t[..|t|] == t && t[|t|..] == [];
  }

  /** The position of x in t: the first one, with every earlier element different. */
  function IndexOf(t: seq<int>, x: int): (k: nat)
    requires x in t
    ensures k < |t| && t[k] == x && x !in t[..k]
  {
    if t[0] == x then 0
    else
      var k := IndexOf(t[1..], x);
      assert t[..k + 1] == [t[0]] + t[1..][..k];
      k + 1
  }

  /** In a chain without repeats, the element at position k is found at k. */
  lemma IndexOfDistinct(t: seq<int>, k: nat)
    requires Distinct(t) && k < |t|
    ensures IndexOf(t, t[k]) == k
  {
  }

  /**
   * The rank a new element takes when it is linked after slot p: 0 after the
   * sentinel, one past p's rank after a ring slot.
   */
  function RankAfter(slots: seq<int>, p: int): (r: nat)
    ensures r <= |slots|
    ensures p in slots ==> r >= 1 && slots[r - 1] == p
  {
    if p in slots then IndexOf(slots, p) + 1 else 0
  }

  /** p holds rank r - 1 (or is the sentinel when r == 0) and succ holds rank r (or is the sentinel). */
  ghost predicate SpliceSite(slots: seq<int>, r: nat, p: int, succ: int) {
    && r <= |slots|
    && p == (if r == 0 then 0 else slots[r - 1])
    && succ == (if r < |slots| then slots[r] else 0)
  }

  /** Slot i after linking ins, holding elem, between p and succ. */
  function SplicedNode(a: seq<Node>, i: nat, p: int, succ: int, ins: int, elem: Elem): Node
    requires i < |a|
  {
    if i == ins then Node(p, elem, succ)
    else Node(if i == succ then ins else a[i].prev, a[i].elem, if i == p then ins else a[i].next)
  }

  lemma SpliceSiteOf(s: State, p: int)
    requires ValidState(s) && (p == 0 || p in RingOrder(s))
    ensures SpliceSite(RingOrder(s), RankAfter(RingOrder(s), p), p, s.arr.value[p].next)
  {
    var slots := RingOrder(s);
    if p in slots {
      var k := IndexOf(slots, p);
      assert s.arr.value[slots[k]].next == NextOf(slots, k);
    } else {
      assert p == 0;
    }
  }

  /** The five writes of the splice amount to relinking three slots. */
  lemma SpliceWritesRelink(a: seq<Node>, p: nat, ins: nat, elem: Elem)
    requires p < |a| && ins < |a| && LinksInside(a) && ins != p && a[p].next != ins
    ensures forall i :: 0 <= i < |a| ==>
              SpliceWrites(a, p, ins, elem)[i] == SplicedNode(a, i, p, a[p].next, ins, elem)
  {
    var succ := a[p].next;
    var a1 := a[ins := a[ins].(prev := p)];
    var a2 := a1[ins := a1[ins].(next := a1[p].next)];
    assert a2[p] == a[p] && a2[ins] == Node(p, a[ins].elem, succ);
    var a3 := a2[succ := a2[succ].(prev := ins)];
    assert a3[p] == if p == succ then a[p].(prev := ins) else a[p];
    var a4 := a3[p := a3[p].(next := ins)];
    var a5 := a4[ins := a4[ins].(elem := elem)];
    assert a5 == SpliceWrites(a, p, ins, elem);
    forall i | 0 <= i < |a| ensures a5[i] == SplicedNode(a, i, p, succ, ins, elem) {
      if i != ins && i != p && i != succ {
        assert a5[i] == a[i];
      }
    }
  }

  lemma SpliceArray(s: State, p: nat, elem: Elem)
    requires ValidState(s) && p < s.capacity && (p == 0 || p in RingOrder(s))
    ensures var a := s.arr.value;
            var a' := SpliceAfter(s, p, elem).arr.value;
            var succ := a[p].next;
            && 0 <= succ < |a|
            && (succ == 0 || succ in RingOrder(s))
            && forall i :: 0 <= i < |a| ==> a'[i] == SplicedNode(a, i, p, succ, s.freeHead, elem)
  {
    var slots, frees := RingOrder(s), FreeOrder(s);
    var a := s.arr.value;
    SpliceSiteOf(s, p);
    var ins := s.freeHead;
    assert ins in frees;
    var succ := a[p].next;
    assert succ == 0 || succ in slots;
    SpliceWritesRelink(a, p, ins, elem);
  }

  /** Inserting an element that is new keeps a chain free of repeats and adds just that element. */
  lemma InsertAtDistinct(t: seq<int>, r: nat, x: int)
    requires Distinct(t) && x !in t && r <= |t|
    ensures Distinct(InsertAt(t, r, x))
    ensures forall y :: y in InsertAt(t, r, x) <==> y in t || y == x
  {
    var t' := InsertAt(t, r, x);
    forall i, j | 0 <= i < j < |t'| ensures t'[i] != t'[j] {
      if i < r && j > r {
        assert t'[j] == t[j - 1];
      }
    }
    assert t == t[..r] + t[r..];
  }

  /** Dropping the first element of a chain without repeats removes exactly that element. */
  lemma TailMembers(t: seq<int>)
    requires Distinct(t) && t != []
    ensures forall y :: y in t[1..] <==> y in t && y != t[0]
  {
    assert t == [t[0]] + t[1..];
    forall y | y in t[1..] ensures y != t[0] {
      var j :| 0 <= j < |t[1..]| && t[1..][j] == y;
      assert t[j + 1] == y;
    }
  }

  /** The ring slots before the new one keep their links, except that p now leads to ins. */
  lemma SpliceRingBefore(a: seq<Node>, a': seq<Node>, slots: seq<int>, r: nat, p: int, succ: int, ins: int, elem: Elem, m: nat)
    requires 1 <= |a| == |a'| && InSlots(slots, |a|) && Distinct(slots)
    requires 1 <= ins < |a| && ins !in slots
    requires RingLinked(a, slots) && SpliceSite(slots, r, p, succ) && m < r
    requires a'[slots[m]] == SplicedNode(a, slots[m], p, succ, ins, elem)
    ensures var t := InsertAt(slots, r, ins);
            a'[t[m]].prev == PrevOf(t, m) && a'[t[m]].next == NextOf(t, m) && a'[t[m]].elem != POISON
  {
    assert a[slots[m]].prev == PrevOf(slots, m);
    assert r < |slots| ==> slots[m] != slots[r];
    assert m < r - 1 ==> slots[m] != slots[r - 1];
  }

  /** The ring slots after the new one keep their links, except that succ now leads back to ins. */
  lemma SpliceRingAfter(a: seq<Node>, a': seq<Node>, slots: seq<int>, r: nat, p: int, succ: int, ins: int, elem: Elem, m: nat)
    requires 1 <= |a| == |a'| && InSlots(slots, |a|) && Distinct(slots)
    requires 1 <= ins < |a| && ins !in slots
    requires RingLinked(a, slots) && SpliceSite(slots, r, p, succ) && r < m <= |slots|
    requires a'[slots[m - 1]] == SplicedNode(a, slots[m - 1], p, succ, ins, elem)
    ensures var t := InsertAt(slots, r, ins);
            a'[t[m]].prev == PrevOf(t, m) && a'[t[m]].next == NextOf(t, m) && a'[t[m]].elem != POISON
  {
    assert a[slots[m - 1]].prev == PrevOf(slots, m - 1);
    assert r > 0 ==> slots[m - 1] != slots[r - 1];
    assert m - 1 > r ==> slots[m - 1] != slots[r];
  }

  lemma SpliceRingSlot(a: seq<Node>, a': seq<Node>, slots: seq<int>, r: nat, p: int, succ: int, ins: int, elem: Elem, m: nat)
    requires 1 <= |a| == |a'| && InSlots(slots, |a|) && Distinct(slots)
    requires 1 <= ins < |a| && ins !in slots && elem != POISON
    requires RingLinked(a, slots) && SpliceSite(slots, r, p, succ) && m <= |slots|
    requires var x := InsertAt(slots, r, ins)[m]; a'[x] == SplicedNode(a, x, p, succ, ins, elem)
    ensures var t := InsertAt(slots, r, ins);
            a'[t[m]].prev == PrevOf(t, m) && a'[t[m]].next == NextOf(t, m) && a'[t[m]].elem != POISON
  {
    if m < r {
      SpliceRingBefore(a, a', slots, r, p, succ, ins, elem, m);
    } else if m > r {
      SpliceRingAfter(a, a', slots, r, p, succ, ins, elem, m);
    }
  }

  lemma SpliceSentinel(a: seq<Node>, a': seq<Node>, slots: seq<int>, r: nat, p: int, succ: int, ins: int, elem: Elem)
    requires 1 <= |a| == |a'| && InSlots(slots, |a|) && 1 <= ins < |a|
    requires RingLinked(a, slots) && SpliceSite(slots, r, p, succ)
    requires a'[0] == SplicedNode(a, 0, p, succ, ins, elem)
    ensures var t := InsertAt(slots, r, ins); a'[0] == Node(Last(t), POISON, First(t))
  {
  }

  lemma SpliceRing(a: seq<Node>, a': seq<Node>, slots: seq<int>, r: nat, p: int, succ: int, ins: int, elem: Elem)
    requires 1 <= |a| == |a'| && InSlots(slots, |a|) && Distinct(slots)
    requires 1 <= ins < |a| && ins !in slots && elem != POISON
    requires RingLinked(a, slots) && SpliceSite(slots, r, p, succ)
    requires forall i :: 0 <= i < |a| ==> a'[i] == SplicedNode(a, i, p, succ, ins, elem)
    ensures InSlots(InsertAt(slots, r, ins), |a|) && RingLinked(a', InsertAt(slots, r, ins))
  {
    var t := InsertAt(slots, r, ins);
    SpliceSentinel(a, a', slots, r, p, succ, ins, elem);
    forall m {:trigger a'[t[m]]} | 0 <= m < |t|
      ensures a'[t[m]].prev == PrevOf(t, m) && a'[t[m]].next == NextOf(t, m) && a'[t[m]].elem != POISON
    {
      SpliceRingSlot(a, a', slots, r, p, succ, ins, elem, m);
    }
  }

  lemma SpliceFree(a: seq<Node>, a': seq<Node>, frees: seq<int>, p: int, succ: int, elem: Elem)
    requires |a| == |a'| && InSlots(frees, |a|) && Distinct(frees) && |frees| >= 2
    requires FreeLinked(a, frees)
    requires forall j :: 1 <= j < |frees| ==> frees[j] != p && frees[j] != succ
    requires forall i :: 0 <= i < |a| ==> a'[i] == SplicedNode(a, i, p, succ, frees[0], elem)
    ensures InSlots(frees[1..], |a'|) && FreeLinked(a', frees[1..])
  {
    var f := frees[1..];
    forall j | 0 <= j < |f| ensures a'[f[j]] == Node(EMPTY_INDEX, POISON, NextOf(f, j)) {
      assert a'[frees[j + 1]] == SplicedNode(a, frees[j + 1], p, succ, frees[0], elem);
      assert a[frees[j + 1]] == Node(EMPTY_INDEX, POISON, NextOf(frees, j + 1));
    }
  }

  /** The splice keeps the structural invariant, with the new slot at rank RankAfter(slots, p). */
  lemma SpliceShaped(s: State, p: nat, elem: Elem)
    requires ValidState(s) && p < s.capacity && elem != POISON && s.size < s.capacity - 2
    requires p == 0 || p in RingOrder(s)
    ensures Shaped(SpliceAfter(s, p, elem),
                   InsertAt(RingOrder(s), RankAfter(RingOrder(s), p), s.freeHead),
                   FreeOrder(s)[1..])
  {
    SpliceCounts(s, p, elem);
    SplicePartition(s, p);
    SpliceLinks(s, p, elem);
  }

  /** The scalar half of SpliceShaped: sizes, free head, membership. */
  lemma SpliceCounts(s: State, p: nat, elem: Elem)
    requires ValidState(s) && p < s.capacity && elem != POISON && s.size < s.capacity - 2
    requires p == 0 || p in RingOrder(s)
    ensures |FreeOrder(s)| >= 2
    ensures var s' := SpliceAfter(s, p, elem);
            var t := InsertAt(RingOrder(s), RankAfter(RingOrder(s), p), s.freeHead);
            var f := FreeOrder(s)[1..];
            && s'.arr.Some? && |s'.arr.value| == s'.capacity == s.capacity
            && s'.size == |t| && |t| + |f| == s'.capacity - 1
            && s'.freeHead == f[0]
            && InSlots(t, s'.capacity) && InSlots(f, s'.capacity)
  {
    var slots, frees := RingOrder(s), FreeOrder(s);
    var a := s.arr.value;
    var ins := s.freeHead;
    var r := RankAfter(slots, p);
    var t := InsertAt(slots, r, ins);
    assert a[frees[0]] == Node(EMPTY_INDEX, POISON, NextOf(frees, 0));
    assert 1 <= ins < s.capacity;
    forall k | 0 <= k < |t| ensures 1 <= t[k] < s.capacity {
      if k < r { assert t[k] == slots[k]; }
      else if k > r { assert t[k] == slots[k - 1]; }
    }
  }

  /** The set half of SpliceShaped: both chains stay duplicate-free and still partition the slots. */
  lemma SplicePartition(s: State, p: nat)
    requires ValidState(s) && s.size < s.capacity - 2
    requires p == 0 || p in RingOrder(s)
    ensures |FreeOrder(s)| >= 2
    ensures var t := InsertAt(RingOrder(s), RankAfter(RingOrder(s), p), s.freeHead);
            var f := FreeOrder(s)[1..];
            Distinct(t) && Distinct(f) && Partition(s.capacity, t, f)
  {
    var slots, frees := RingOrder(s), FreeOrder(s);
    var ins := s.freeHead;
    var r := RankAfter(slots, p);
    assert ins in frees;
    InsertAtDistinct(slots, r, ins);
    TailMembers(frees);
  }

  /** The link half of SpliceShaped: the ring and the free chain as the new array links them. */
  lemma SpliceLinks(s: State, p: nat, elem: Elem)
    requires ValidState(s) && p < s.capacity && elem != POISON && s.size < s.capacity - 2
    requires p == 0 || p in RingOrder(s)
    ensures var a' := SpliceAfter(s, p, elem).arr.value;
            && 1 <= |a'| && |FreeOrder(s)| >= 1
            && InSlots(InsertAt(RingOrder(s), RankAfter(RingOrder(s), p), s.freeHead), |a'|)
            && InSlots(FreeOrder(s)[1..], |a'|)
    ensures var a' := SpliceAfter(s, p, elem).arr.value;
            && RingLinked(a', InsertAt(RingOrder(s), RankAfter(RingOrder(s), p), s.freeHead))
            && FreeLinked(a', FreeOrder(s)[1..])
  {
    var slots, frees := RingOrder(s), FreeOrder(s);
    var a := s.arr.value;
    var a' := SpliceAfter(s, p, elem).arr.value;
    var ins := s.freeHead;
    var r := RankAfter(slots, p);
    var succ := a[p].next;
    SpliceSiteOf(s, p);
    SpliceArray(s, p, elem);
    assert ins in frees;
    TailMembers(frees);
    SpliceRing(a, a', slots, r, p, succ, ins, elem);
    SpliceFree(a, a', frees, p, succ, elem);
  }

  lemma SplicedElems(a: seq<Node>, a': seq<Node>, slots: seq<int>, r: nat, p: int, succ: int, ins: int, elem: Elem)
    requires |a| == |a'| && InSlots(slots, |a|) && 1 <= ins < |a| && ins !in slots && r <= |slots|
    requires forall i :: 0 <= i < |a| ==> a'[i] == SplicedNode(a, i, p, succ, ins, elem)
    ensures InSlots(InsertAt(slots, r, ins), |a'|)
    ensures ElemsAt(a', InsertAt(slots, r, ins)) == InsertAt(ElemsAt(a, slots), r, elem)
  {
    var t := InsertAt(slots, r, ins);
    var vs, vs' := ElemsAt(a, slots), ElemsAt(a', t);
    forall m | 0 <= m < |vs'| ensures vs'[m] == InsertAt(vs, r, elem)[m] {
      assert a'[t[m]] == SplicedNode(a, t[m], p, succ, ins, elem);
    }
  }

  /** is_linear survives the splice only when the new slot is the head or the tail. */
  lemma SplicedLinearBit(s: State, p: nat, elem: Elem, t: seq<int>)
    requires ValidState(s) && p < s.capacity && (p == 0 || p in RingOrder(s))
    requires t == InsertAt(RingOrder(s), RankAfter(RingOrder(s), p), s.freeHead)
    requires var a' := SpliceAfter(s, p, elem).arr.value; |a'| >= 1 && a'[0] == Node(Last(t), POISON, First(t))
    ensures var r := RankAfter(RingOrder(s), p);
            SpliceAfter(s, p, elem).isLinear == (s.isLinear && (r == 0 || r == s.size))
  {
    var slots, frees := RingOrder(s), FreeOrder(s);
    var r := RankAfter(slots, p);
    var ins := s.freeHead;
    assert ins in frees;
    assert r < |slots| ==> Last(t) == slots[|slots| - 1] != ins;
    assert r > 0 ==> First(t) == slots[0] != ins;
  }

  /**
   * Linking a payload after p keeps the list valid: the old free head takes
   * rank RankAfter(slots, p), the payloads gain elem at that rank, the free
   * chain loses its head, and is_linear survives only at either end.
   */
  lemma SpliceValid(s: State, p: nat, elem: Elem)
    requires ValidState(s) && p < s.capacity && elem != POISON && s.size < s.capacity - 2
    requires p == 0 || p in RingOrder(s)
    ensures var s' := SpliceAfter(s, p, elem);
            var r := RankAfter(RingOrder(s), p);
            && ValidState(s')
            && RingOrder(s') == InsertAt(RingOrder(s), r, s.freeHead)
            && FreeOrder(s') == FreeOrder(s)[1..]
            && ValuesOf(s') == InsertAt(ValuesOf(s), r, elem)
            && s'.size == s.size + 1 && s'.capacity == s.capacity
            && s'.isLinear == (s.isLinear && (r == 0 || r == s.size))
  {
    var slots, frees := RingOrder(s), FreeOrder(s);
    var r := RankAfter(slots, p);
    var s' := SpliceAfter(s, p, elem);
    var ins := s.freeHead;
    var t := InsertAt(slots, r, ins);
    SpliceShaped(s, p, elem);
    ShapedValid(s', t, frees[1..]);
    SpliceArray(s, p, elem);
    SpliceSiteOf(s, p);
    assert ins in frees;
    SplicedElems(s.arr.value, s'.arr.value, slots, r, p, s.arr.value[p].next, ins, elem);
    SplicedLinearBit(s, p, elem, t);
  }

  lemma AscendingAppend(t: seq<int>)
    requires Linear(t)
    ensures Linear(InsertAt(t, |t|, |t| + 1))
  {
  }

  lemma AscendingTail(t: seq<int>, base: int)
    requires Ascending(t, base) && t != []
    ensures Ascending(t[1..], base + 1)
  {
  }

  /**
   * A truthful is_linear stays truthful across the splice, except when a
   * payload goes to the front of a non-empty linear list: the flag then stays
   * set over a layout that is no longer linear.
   */
  lemma SpliceFlag(s: State, p: nat, elem: Elem)
    requires ValidState(s) && p < s.capacity && elem != POISON && s.size < s.capacity - 2
    requires p == 0 || p in RingOrder(s)
    requires LinearFlagSound(s)
    ensures var s' := SpliceAfter(s, p, elem);
            ValidState(s') &&
            if s.isLinear && RankAfter(RingOrder(s), p) == 0 && s.size > 0
            then s'.isLinear && !Linear(RingOrder(s')) && Verify(s') == {InvalidIsLinear}
            else LinearFlagSound(s') && Verify(s') == {}
  {
    var slots, frees := RingOrder(s), FreeOrder(s);
    var r := RankAfter(slots, p);
    var s' := SpliceAfter(s, p, elem);
    SpliceValid(s, p, elem);
    if s.isLinear {
      assert s.freeHead == frees[0] == s.size + 1;
      if r == 0 && s.size > 0 {
        assert RingOrder(s')[0] != 1;
      } else if r == s.size {
        AscendingAppend(slots);
        AscendingTail(frees, s.size + 1);
      }
    }
    VerifyOfValid(s');
  }
}
