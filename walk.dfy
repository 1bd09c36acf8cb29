// The bounded ring walk LIST_FOREACH (src/list.h:417-424) and the memory
// conditions under which the source's unchecked reads stay inside the array.

module ListWalk {
  import opened ListTypes

  /** Every next link of the array is an index the source may read without leaving it. */
  ghost predicate NextsInside(a: seq<Node>) {
    forall i :: 0 <= i < |a| ==> a[i].next < |a|
  }

  /**
   * What the source may read of a list without leaving its array: the
   * sentinel exists, the capacity does not exceed the array, and no next link
   * points past its end (list_verify follows next links unchecked).
   */
  ghost predicate Readable(s: State) {
    s.arr.Some? ==> 1 <= |s.arr.value| && s.capacity <= |s.arr.value| && NextsInside(s.arr.value)
  }

  /** Where a LIST_FOREACH loop stops, and the physical indices its body saw, in order. */
  datatype Walk = Walk(visited: seq<int>, phys: int, log: int)

  /**
   * The loop `for (; phys > 0 && log <= size; phys = arr[phys].next, log++)`
   * started at (phys, log).
   */
  function Foreach(a: seq<Node>, size: int, phys: int, log: int): (w: Walk)
    requires NextsInside(a) && phys < |a|
    ensures forall k :: 0 <= k < |w.visited| ==> 0 < w.visited[k] < |a|
    ensures w.log == log + |w.visited| && w.phys < |a|
    ensures w.phys <= 0 || w.log > size
    ensures log <= size + 1 ==> w.log <= size + 1
    ensures log > size ==> w.visited == []
    decreases size + 1 - log
  {
    if phys > 0 && log <= size then
      var w := Foreach(a, size, a[phys].next, log + 1);
      Walk([phys] + w.visited, w.phys, w.log)
    else
      Walk([], phys, log)
  }

  /** The walk every ring traversal of the source starts: from the head, at logical index 0. */
  function RingWalk(a: seq<Node>, size: int): (w: Walk)
    requires 1 <= |a| && NextsInside(a)
  {
    Foreach(a, size, a[0].next, 0)
  }

  /** LIST_IS_FOREACH_VALID: its action runs exactly when the counter did not end at size. */
  predicate ForeachBroken(size: int, log: int) {
    log != size
  }
}
