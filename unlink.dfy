// What the unlinking of list_delete does to the ring, the free chain and the
// payloads of a valid list.

module ListUnlink {
  import opened ListTypes
  import opened ListWalk
  import opened ListVerify
  import opened ListShape
  import opened ListSoundness
  import opened ListOps
  import opened ListLayout
  import opened ListEdit
  import opened ListSplice

  /** t without its element at position k. */
  function RemoveAt<T>(t: seq<T>, k: nat): (t': seq<T>)
    requires k < |t|
    ensures |t'| == |t| - 1
    ensures forall m :: 0 <= m < |t'| ==> t'[m] == if m < k then t[m] else t[m + 1]
  {
    t[..k] + t[k + 1..]
  }

  /** Slot i after p (between pv and nx) is unlinked and pushed on a free chain headed by fh. */
  function UnlinkedNode(a: seq<Node>, i: nat, p: int, pv: int, nx: int, fh: int): Node
    requires i < |a|
  {
    if i == p then Node(EMPTY_INDEX, POISON, fh)
    else Node(if i == nx then pv else a[i].prev, a[i].elem, if i == pv then nx else a[i].next)
  }

  /** The five writes of the unlinking amount to relinking three slots. */
  lemma UnlinkWritesRelink(a: seq<Node>, p: nat, fh: nat)
    requires p < |a| && fh < |a| && LinksInside(a) && a[p].prev != EMPTY_INDEX
    requires a[p].prev != p && a[p].next != p
    ensures forall i :: 0 <= i < |a| ==>
              UnlinkWrites(a, p, fh)[i] == UnlinkedNode(a, i, p, a[p].prev, a[p].next, fh)
  {
    var pv, nx := a[p].prev, a[p].next;
    var a1 := a[pv := a[pv].(next := nx)];
    assert a1[p] == a[p];
    var a2 := a1[nx := a1[nx].(prev := pv)];
    assert a2[p] == a[p];
    var a3 := a2[p := a2[p].(prev := UNINITIALISED_VAL)];
    var a4 := a3[p := a3[p].(next := fh)];
    var a5 := a4[p := a4[p].(elem := POISON)];
    assert a5 == UnlinkWrites(a, p, fh);
    forall i | 0 <= i < |a| ensures a5[i] == UnlinkedNode(a, i, p, pv, nx, fh) {
      if i != p && i != pv && i != nx {
        assert a5[i] == a[i];
      }
    }
  }

  /** Slot p holds rank k; pv and nx are its neighbours in the ring (0 for the sentinel). */
  ghost predicate UnlinkSite(slots: seq<int>, k: nat, p: int, pv: int, nx: int) {
    && k < |slots|
    && p == slots[k]
    && pv == PrevOf(slots, k)
    && nx == NextOf(slots, k)
  }

  lemma UnlinkArray(s: State, p: nat)
    requires ValidState(s) && p in RingOrder(s)
    ensures var a := s.arr.value;
            var k := IndexOf(RingOrder(s), p);
            && p < s.capacity
            && UnlinkSite(RingOrder(s), k, p, a[p].prev, a[p].next)
            && a[p].prev != EMPTY_INDEX
            && forall i :: 0 <= i < |a| ==>
                 Unlink(s, p).arr.value[i] == UnlinkedNode(a, i, p, a[p].prev, a[p].next, s.freeHead)
  {
    var slots, frees := RingOrder(s), FreeOrder(s);
    var a := s.arr.value;
    var k := IndexOf(slots, p);
    assert a[slots[k]].prev == PrevOf(slots, k) && a[slots[k]].next == NextOf(slots, k);
    assert k > 0 ==> slots[k - 1] != slots[k];
    assert k + 1 < |slots| ==> slots[k + 1] != slots[k];
    assert s.freeHead == frees[0];
    UnlinkWritesRelink(a, p, s.freeHead);
  }

  lemma UnlinkRingSlot(a: seq<Node>, a': seq<Node>, slots: seq<int>, k: nat, p: int, pv: int, nx: int, fh: int, m: nat)
    requires 1 <= |a| == |a'| && InSlots(slots, |a|) && Distinct(slots)
    requires RingLinked(a, slots) && UnlinkSite(slots, k, p, pv, nx) && m < |slots| - 1
    requires var x := RemoveAt(slots, k)[m]; a'[x] == UnlinkedNode(a, x, p, pv, nx, fh)
    ensures var t := RemoveAt(slots, k);
            a'[t[m]].prev == PrevOf(t, m) && a'[t[m]].next == NextOf(t, m) && a'[t[m]].elem != POISON
  {
    if m < k {
      assert a[slots[m]].prev == PrevOf(slots, m);
      assert slots[m] != slots[k];
      assert k + 1 < |slots| ==> slots[m] != slots[k + 1];
      assert m < k - 1 ==> slots[m] != slots[k - 1];
    } else {
      assert a[slots[m + 1]].prev == PrevOf(slots, m + 1);
      assert slots[m + 1] != slots[k];
      assert k > 0 ==> slots[m + 1] != slots[k - 1];
      assert m > k ==> slots[m + 1] != slots[k + 1];
    }
  }

  lemma UnlinkSentinel(a: seq<Node>, a': seq<Node>, slots: seq<int>, k: nat, p: int, pv: int, nx: int, fh: int)
    requires 1 <= |a| == |a'| && InSlots(slots, |a|)
    requires RingLinked(a, slots) && UnlinkSite(slots, k, p, pv, nx)
    requires a'[0] == UnlinkedNode(a, 0, p, pv, nx, fh)
    ensures var t := RemoveAt(slots, k); a'[0] == Node(Last(t), POISON, First(t))
  {
  }

  lemma UnlinkRing(a: seq<Node>, a': seq<Node>, slots: seq<int>, k: nat, p: int, pv: int, nx: int, fh: int)
    requires 1 <= |a| == |a'| && InSlots(slots, |a|) && Distinct(slots)
    requires RingLinked(a, slots) && UnlinkSite(slots, k, p, pv, nx)
    requires forall i :: 0 <= i < |a| ==> a'[i] == UnlinkedNode(a, i, p, pv, nx, fh)
    ensures InSlots(RemoveAt(slots, k), |a|) && RingLinked(a', RemoveAt(slots, k))
  {
    var t := RemoveAt(slots, k);
    UnlinkSentinel(a, a', slots, k, p, pv, nx, fh);
    forall m {:trigger a'[t[m]]} | 0 <= m < |t|
      ensures a'[t[m]].prev == PrevOf(t, m) && a'[t[m]].next == NextOf(t, m) && a'[t[m]].elem != POISON
    {
      UnlinkRingSlot(a, a', slots, k, p, pv, nx, fh, m);
    }
  }

  lemma UnlinkFree(a: seq<Node>, a': seq<Node>, frees: seq<int>, p: int, pv: int, nx: int)
    requires |a| == |a'| && InSlots(frees, |a|) && frees != [] && 1 <= p < |a|
    requires FreeLinked(a, frees)
    requires forall j :: 0 <= j < |frees| ==> frees[j] != p && frees[j] != pv && frees[j] != nx
    requires forall i :: 0 <= i < |a| ==> a'[i] == UnlinkedNode(a, i, p, pv, nx, frees[0])
    ensures InSlots([p] + frees, |a'|) && FreeLinked(a', [p] + frees)
  {
    var f := [p] + frees;
    forall j | 0 <= j < |f| ensures a'[f[j]] == Node(EMPTY_INDEX, POISON, NextOf(f, j)) {
      if j == 0 {
        assert a'[p] == UnlinkedNode(a, p, p, pv, nx, frees[0]);
      } else {
        assert a'[frees[j - 1]] == UnlinkedNode(a, frees[j - 1], p, pv, nx, frees[0]);
        assert a[frees[j - 1]] == Node(EMPTY_INDEX, POISON, NextOf(frees, j - 1));
      }
    }
  }

  /** Removing the element at k from a chain without repeats leaves the other elements. */
  lemma RemoveAtDistinct(t: seq<int>, k: nat)
    requires Distinct(t) && k < |t|
    ensures Distinct(RemoveAt(t, k))
    ensures forall y :: y in RemoveAt(t, k) <==> y in t && y != t[k]
  {
    var t' := RemoveAt(t, k);
    forall y | y in t ensures y in t' <==> y != t[k] {
      var i :| 0 <= i < |t| && t[i] == y;
      if i < k {
        assert t'[i] == y;
      } else if i > k {
        assert t'[i - 1] == y;
      }
    }
  }

  lemma UnlinkPartition(n: int, slots: seq<int>, frees: seq<int>, k: nat)
    requires Partition(n, slots, frees) && Distinct(slots) && Distinct(frees) && k < |slots|
    requires InSlots(slots, n)
    ensures Partition(n, RemoveAt(slots, k), [slots[k]] + frees)
    ensures Distinct([slots[k]] + frees)
  {
    RemoveAtDistinct(slots, k);
    var p := slots[k];
    assert p in slots && 1 <= p < n && p !in frees;
    var f := [p] + frees;
    forall i, j | 0 <= i < j < |f| ensures f[i] != f[j] {
      if i == 0 {
        assert f[j] == frees[j - 1];
      }
    }
  }

  /** The unlinking keeps the structural invariant: the ring loses rank k and the freed slot heads the free chain. */
  lemma UnlinkShaped(s: State, p: nat)
    requires ValidState(s) && p in RingOrder(s)
    ensures p < s.capacity && s.arr.value[p].prev != EMPTY_INDEX
    ensures Shaped(Unlink(s, p), RemoveAt(RingOrder(s), IndexOf(RingOrder(s), p)), [p] + FreeOrder(s))
  {
    var slots, frees := RingOrder(s), FreeOrder(s);
    var k := IndexOf(slots, p);
    UnlinkLinks(s, p);
    RemoveAtDistinct(slots, k);
    UnlinkPartition(s.capacity, slots, frees, k);
  }

  /** The link half of UnlinkShaped: the shortened ring and the longer free chain as the new array links them. */
  lemma UnlinkLinks(s: State, p: nat)
    requires ValidState(s) && p in RingOrder(s)
    ensures p < s.capacity && s.arr.value[p].prev != EMPTY_INDEX
    ensures var a' := Unlink(s, p).arr.value;
            && 1 <= |a'|
            && InSlots(RemoveAt(RingOrder(s), IndexOf(RingOrder(s), p)), |a'|)
            && InSlots([p] + FreeOrder(s), |a'|)
    ensures var a' := Unlink(s, p).arr.value;
            && RingLinked(a', RemoveAt(RingOrder(s), IndexOf(RingOrder(s), p)))
            && FreeLinked(a', [p] + FreeOrder(s))
  {
    var slots, frees := RingOrder(s), FreeOrder(s);
    var a := s.arr.value;
    var k := IndexOf(slots, p);
    UnlinkArray(s, p);
    var a' := Unlink(s, p).arr.value;
    var pv, nx := a[p].prev, a[p].next;
    assert pv == 0 || pv in slots;
    assert nx == 0 || nx in slots;
    UnlinkRing(a, a', slots, k, p, pv, nx, s.freeHead);
    UnlinkFree(a, a', frees, p, pv, nx);
  }

  lemma UnlinkedElems(a: seq<Node>, a': seq<Node>, slots: seq<int>, k: nat, p: int, pv: int, nx: int, fh: int)
    requires |a| == |a'| && InSlots(slots, |a|) && Distinct(slots) && UnlinkSite(slots, k, p, pv, nx)
    requires forall i :: 0 <= i < |a| ==> a'[i] == UnlinkedNode(a, i, p, pv, nx, fh)
    ensures InSlots(RemoveAt(slots, k), |a'|)
    ensures ElemsAt(a', RemoveAt(slots, k)) == RemoveAt(ElemsAt(a, slots), k)
  {
    var t := RemoveAt(slots, k);
    var vs, vs' := ElemsAt(a, slots), ElemsAt(a', t);
    forall m | 0 <= m < |vs'| ensures vs'[m] == RemoveAt(vs, k)[m] {
      assert a'[t[m]] == UnlinkedNode(a, t[m], p, pv, nx, fh);
      assert m < k ==> slots[m] != slots[k];
      assert m >= k ==> slots[m + 1] != slots[k];
    }
  }

  /**
   * Unlinking the slot p of rank k keeps the list valid: the payloads lose
   * rank k, p heads the free chain, and is_linear is always cleared, since
   * the unlinked slot is neither the new head nor the new tail.
   */
  lemma UnlinkValid(s: State, p: nat)
    requires ValidState(s) && p in RingOrder(s)
    ensures p < s.capacity && s.arr.value[p].prev != EMPTY_INDEX
    ensures var s' := Unlink(s, p);
            var k := IndexOf(RingOrder(s), p);
            && ValidState(s')
            && RingOrder(s') == RemoveAt(RingOrder(s), k)
            && FreeOrder(s') == [p] + FreeOrder(s)
            && ValuesOf(s') == RemoveAt(ValuesOf(s), k)
            && s'.size == s.size - 1 && s'.capacity == s.capacity && s'.freeHead == p
            && !s'.isLinear
            && s'.arr.value[p] == Node(EMPTY_INDEX, POISON, s.freeHead)
            && LinearFlagSound(s') && Verify(s') == {}
  {
    var slots := RingOrder(s);
    var k := IndexOf(slots, p);
    var t := RemoveAt(slots, k);
    UnlinkShaped(s, p);
    var s' := Unlink(s, p);
    ShapedValid(s', t, [p] + FreeOrder(s));
    UnlinkArray(s, p);
    var a := s.arr.value;
    UnlinkedElems(a, s'.arr.value, slots, k, p, a[p].prev, a[p].next, s.freeHead);
    RemoveAtDistinct(slots, k);
    assert p != First(t) && p != Last(t);
    VerifySound(s');
  }
}
