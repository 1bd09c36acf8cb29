# Slot-array doubly-linked list, modelled in Dafny

The list keeps every node in one array of slots `{prev, elem, next}`.
Slot 0 is a sentinel: its `next` is the head and its `prev` is the tail.
Live slots form a ring through `next`/`prev` in logical order. Free slots
form a chain through `next` that starts at `free_head`; each free slot has
`prev == -1` and the payload `POISON`. Insertion and deletion work on
physical slot indices. Growth and shrinking re-lay the list out in a fresh
array in logical order ("linearise"). After that, `is_linear` lets the
lookups translate between logical and physical indices in O(1).
`list_verify` checks the scalar fields, walks the ring and scans every
slot for the prev/payload pairing, ORing an error bit for each fault. It
does not follow the free chain, and it checks `free_head` and the tail only
for sign.

The model has two layers.

- **Pure layer.** `ListTypes.State` is a snapshot of `struct List`: the
  array (`None` for a null pointer), `capacity`, `size`, `free_head` and
  `is_linear`.
  - Every operation of `src/list.cpp` and `src/list.h` is a function of that
    state. Each takes its steps in the source's order, in the debug build:
    every `LIST_ASSERT` runs `list_verify` and returns early unless it reports
    OK.
  - A result code is the set of error kinds; OK is the empty set.
  - `ListShape.ValidState` is the structural invariant. The ring is read off
    the array by the same bounded walk `LIST_FOREACH` performs (`RingOrder`),
    and the free chain by following `next` from `free_head` (`FreeOrder`).
  - `LinearFlagSound` says that `is_linear` tells the truth. It is kept apart
    from the invariant because `list_pushfront` breaks it.
- **Imperative layer.** `SlotList.List` is a class with the fields of
  `struct List` and an `array<Node>`. Its methods update the array and fields
  in place, with the source's loops and write order. Each method is proved to
  leave exactly the state, result code and output index that the pure function
  gives for the state it started from (`Snap()`).

The properties are proved as lemmas about the pure layer. They cover:

- what every operation does to a valid list;
- that `list_verify` reports nothing on such a list except a wrong `is_linear`;
- that the lookups are correct and inverse to each other;
- the growth and shrink policy;
- the four places where the source departs from what it evidently means, with a
  corrected definition for each (see Findings).

Modelling choices:

- **calloc** success is a parameter `allocOk`. On failure the model returns
  `ALLOC_ERR` and changes nothing, as the source does.
- **FREE** sets the pointer to null.
- **`is_ptr_valid`** is taken to reject exactly the null pointer.
- **Payloads** are mathematical integers. No operation does arithmetic on
  them, so the C `int` width does not matter.
- **Index fields** (`ssize_t`) are unbounded integers. Overflow would need an
  array of more than 2^62 slots.

## Model

| member | source | states |
|---|---|---|
| ListTypes.InitialisedIffNotDefault | src/list.h:82-87 | a list counts as uninitialised exactly when every field has its default value: free_head, capacity and size -1, is_linear false, arr null |
| ListTypes.BitsSingle | src/list.h:39-57 | each error kind's code is a single set bit equal to the enum's value, and two kinds' bits are disjoint exactly when the kinds differ; that is what lets a set of kinds stand for the OR of their codes |
| ListWalk.Foreach | src/list.h:417-418 | LIST_FOREACH visits only slots from 1 to the end of the array and stops at an index <= 0 or once the counter passes size, so from counter log it visits at most size+1-log slots |
| ListVerify.TraceErrors | src/list.cpp:238-250 | the ring walk of list_verify can report only POISON_VAL_FOUND, DAMAGED_PATH and INVALID_IS_LINEAR |
| ListVerify.DualityErrors | src/list.cpp:253-258 | the duality scan can report only POISON_VAL_FOUND and NON_POISON_EMPTY |
| ListSoundness.TraceClean | src/list.cpp:241-247 | along a well-linked ring the walk finds no POISON payload and no prev mismatch |
| ListSoundness.DualityClean | src/list.cpp:253-258 | in a well-formed array every live slot has a payload and every free slot is POISON with prev -1 |
| ListSoundness.TraceLinearFault | src/list.cpp:245 | the walk reports INVALID_IS_LINEAR exactly when the flag is set and some visited slot is not its rank plus one |
| ListSoundness.VerifyOfValid | src/list.cpp:212-261 | on a list that keeps the structural invariant, list_verify reports INVALID_IS_LINEAR when the flag is set over a layout that is not linear, and nothing otherwise |
| ListSoundness.VerifySound | src/list.cpp:212-261 | a valid list with a truthful is_linear passes list_verify |
| ListShape.RingWalkOfShaped | src/list.h:417-424 | on a well-formed list the walk visits the ring slots in logical order, ends at the sentinel and counts exactly size |
| ListOps.GrowCapacity | src/list.h:388-389 | the loop of list_resize_up ends with a capacity at least the old one and with size < capacity-2, and when it grows, the tier below it, (capacity-1)/2+1, would still have been too full |
| ListOps.ShrinkCapacity | src/list.h:408-409 | the loop of list_resize_down ends with 1 <= capacity <= the old one, size >= (capacity-1)/2, and any changed capacity >= size+2 |
| ListLayout.GrowCapacityTiers | src/list.h:386-392 | list_resize_up settles on (cap-1)*2^k+1 for the least k at which size < capacity-2 |
| ListLayout.CtorZeroPasses | src/list.cpp:17-46 | list_ctor(0) on an uninitialised list, when calloc succeeds, builds the one-slot list holding only the sentinel {0, POISON, 0}, and list_verify reports OK on it |
| ListLayout.VerifyMissesFreeChain | src/list.cpp:212-261 | a fresh three-slot list with free_head moved from 1 to 2 breaks the structural invariant (slot 1 is off the free chain), yet list_verify reports OK |
| ListOps.GrowStuckAtOne | src/list.h:388-389 | from capacity 1 (list_ctor(0)), after any number of passes the list_resize_up loop still has capacity 1 and its condition still holds |
| ListCorrected.GrowCapacityFixed | src/list.h:386-392 | with a floor of one payload slot before doubling, the growth loop terminates from every capacity >= 1 with size < capacity-2, and agrees with GrowCapacity from capacity 2 up |
| ListLayout.CtorBuildsEmptyList | src/list.cpp:17-46 | list_ctor(init_cap >= 1) on an uninitialised list, when calloc succeeds, builds a valid empty list: capacity init+1, size 0, free_head 1, is_linear set, sentinel {0, POISON, 0}, slots 1..cap-1 chained upwards as free, and list_verify reports OK |
| ListLayout.LinearStateValid | src/list.cpp:93-119 | the layout list_linearise builds is valid, holds the payloads in order in slots 1..size, chains the free slots upwards from size+1, has a truthful flag and passes list_verify |
| ListLayout.LineariseLaysOut | src/list.cpp:77-122 | on a valid list that passes list_verify and any new_capacity >= size+1 (or -1), list_linearise either fails on calloc and changes nothing, or re-lays the same payloads out linearly in the requested capacity and reports OK |
| ListLayout.FullLinearVerifies | src/list.cpp:93-121 | list_linearise(size+1) leaves a list with no free slot; it holds the payloads in order in slots 1..size and passes list_verify |
| ListLayout.LineariseIdempotent | src/list.cpp:77-122 | linearising a linearised list leaves the same state |
| ListLayout.ResizeUpResult | src/list.h:383-395 | list_resize_up leaves the list alone when size < capacity-2, changes nothing when calloc fails, and otherwise linearises into the grown capacity |
| ListLayout.ResizeUpValid | src/list.h:383-395 | after a successful list_resize_up the list is valid, has the same payloads and room for one more, and any re-layout is linear |
| ListLayout.ResizeDownResult | src/list.h:403-415 | list_resize_down leaves the list alone when size >= (capacity-1)/2, changes nothing when calloc fails, and otherwise linearises into the shrunk capacity |
| ListLayout.ResizeDownValid | src/list.h:403-415 | after a successful list_resize_down the list is valid with the same payloads; a shrink leaves every slot 1..size live |
| ListSplice.SpliceValid | src/list.cpp:273-287 | the splice of list_insert_after puts the old free head into the ring at the rank after position, inserts the payload at that rank, drops the slot from the free chain, adds one to size, and keeps is_linear only at either end |
| ListSplice.SpliceFlag | src/list.cpp:286-289 | after the splice list_verify reports OK, except that inserting at the head of a non-empty linear list leaves is_linear set over a non-linear layout and reports INVALID_IS_LINEAR |
| ListUnlink.UnlinkValid | src/list.cpp:303-317 | the unlinking of list_delete removes the slot's rank from the ring and its payload from the sequence, makes the slot {-1, POISON, old free_head} and the new free head, subtracts one from size and always clears is_linear; list_verify then reports OK |
| ListInsert.InsertAfterRefusesFree | src/list.cpp:267 | list_insert_after on a free slot reports INVALID_POSITION and changes nothing |
| ListInsert.InsertAfterAllocFails | src/list.cpp:269-271 | when growth is due and calloc fails, list_insert_after reports ALLOC_ERR and changes nothing |
| ListInsert.InsertAfterLinks | src/list.cpp:264-290 | list_insert_after on a live slot whose meaning survives any growth inserts the payload just after that slot's payload, reports *inserted_index, and keeps the list valid; the result is OK except for INVALID_IS_LINEAR at the head of a non-empty linear or re-laid-out list |
| ListInsert.InsertAfterStalePosition | src/list.cpp:267-276 | when growth re-lays out a non-linear list, position is not remapped: the payload goes after rank position-1, whatever slot position held before |
| ListInsert.InsertBeforeLinks | src/list.h:146-148 | list_insert_before on a live slot puts the payload just before that slot's payload and reports OK with a truthful is_linear, except INVALID_IS_LINEAR before the head of a list that is linear or re-laid out by growth |
| ListInsert.InsertBeforeSentinel | src/list.h:146-148 | list_insert_before(0) inserts after the sentinel's prev, the tail: it is list_pushback |
| ListInsert.InsertAfterStoresPoison | src/list.cpp:264-290 | list_insert_after stores a POISON payload without checking it; the closing list_verify reports POISON_VAL_FOUND, the list leaves the invariant, and every later list_verify on it reports the same |
| ListInsert.PushBackAppends | src/list.h:158-160 | list_pushback appends the payload and reports OK when no growth is due, or the list is linear or empty |
| ListInsert.PushBackStaleTail | src/list.h:158-160 | list_pushback on a full non-linear list puts the payload at the rank named by the tail's old slot number, not at the end |
| ListInsert.PushFrontPrepends | src/list.h:170-172 | list_pushfront prepends the payload, but reports INVALID_IS_LINEAR on a non-empty list that is linear or gets re-laid out |
| ListDelete.DeleteRefusesFree | src/list.cpp:295 | list_delete on any free slot 1..capacity-1 reports INVALID_POSITION and changes nothing |
| ListDelete.DeleteAllocFails | src/list.cpp:297-301 | for any live position 1..capacity-1, when a shrink is due and calloc fails, list_delete reports ALLOC_ERR and changes nothing |
| ListDelete.DeleteUnlinks | src/list.cpp:292-318 | list_delete on a live slot whose meaning survives any shrink removes that slot's payload, keeps the others in order, reports OK, clears is_linear, and without a shrink makes the slot the free head |
| ListDelete.DeleteStalePosition | src/list.cpp:295-303 | when a shrink re-lays out a non-linear list, position is not remapped: the payload of rank position-1 is removed |
| ListLookup.FindByLogicalIndexCorrect | src/list.cpp:124-152 | list_find_by_logical_index(i) answers the slot of rank i for 0 <= i < size, through the shortcut or the walk, and INVALID_POSITION with -1 otherwise |
| ListLookup.FindByValueCorrect | src/list.cpp:154-178 | list_find_by_value answers the slot of the first payload equal to elem in logical order, -1 when there is none, and refuses POISON |
| ListLookup.LogicalIndexByPhysicalCorrect | src/list.cpp:180-208 | list_logical_index_by_physical answers the rank of a live slot and refuses slots outside 1..capacity-1; for a free slot it answers -1, or slot-1 when the list is linear |
| ListLookup.LookupRoundTrip | src/list.cpp:124-208 | rank to slot to rank is the identity on 0..size-1 |
| ListLookup.LookupRoundTripBack | src/list.cpp:124-208 | slot to rank to slot is the identity on the live slots |
| ListLookup.LinearisedFind | src/list.cpp:77-152 | after list_linearise, rank i is at slot i+1 and holds the payload of rank i |
| ListCorrected.SpliceFixedClean | src/list.cpp:286-287 | with is_linear kept only when the new slot is the tail, the splice always leaves a truthful flag and list_verify reports OK |
| ListCorrected.InsertAfterFixedInserts | src/list.cpp:264-290 | with the position remapped across growth and the flag fixed, list_insert_after on any live slot reports OK and puts the payload right after that slot's payload |
| ListCorrected.PushBackFixedAppends | src/list.h:158-160 | with both corrections list_pushback always appends and reports OK |
| ListCorrected.PushFrontFixedPrepends | src/list.h:170-172 | with both corrections list_pushfront always prepends and reports OK |
| ListCorrected.ShrinkRelays | src/list.cpp:297-301 | when list_delete shrinks and calloc succeeds, list_resize_down reports OK and leaves a valid list of the shrunk capacity, laid out linearly, with the same size and payloads |
| ListCorrected.UnlinkRanked | src/list.cpp:303-317 | on a linearly laid-out list, unlinking slot k+1 (the slot the corrected delete moves the position to) reports OK, keeps the list valid with a truthful is_linear and removes the payload of rank k |
| ListCorrected.DeleteFixedRemoves | src/list.cpp:292-318 | with the position remapped across the shrink, list_delete on any live slot reports OK, keeps the list valid with a truthful is_linear and removes that slot's own payload |
| SlotList.List.constructor | src/list.h:60-67 | a List object starts with every field at its default |
| SlotList.List.Ctor | src/list.cpp:17-46 | list_ctor leaves the state and result the pure model gives, with the initialisation loop proved slot by slot |
| SlotList.List.Dtor | src/list.cpp:49-63 | list_dtor returns the verify result taken before destruction, poisons the first capacity slots, frees the array and resets the fields |
| SlotList.List.Verify | src/list.cpp:212-261 | list_verify reads without writing and returns exactly the pure model's set of faults |
| SlotList.List.VerifyArray | src/list.cpp:234-258 | the array checks of list_verify return the faults the pure model gives |
| SlotList.List.Trace | src/list.cpp:238-250 | the walk loop accumulates the walk's faults and stops where LIST_FOREACH stops |
| SlotList.List.DualityScan | src/list.cpp:253-258 | the duality loop accumulates the faults of slots 1..capacity-1 |
| SlotList.List.Linearise | src/list.cpp:77-122 | list_linearise leaves the state and result the pure model gives |
| SlotList.List.CopyRing | src/list.cpp:93-97 | the copy loop puts rank k in slot k+1, linked to its neighbours, and ends after size steps |
| SlotList.List.Install | src/list.cpp:105-121 | the tail link, free chain, new array and flag make the linear layout of the payloads |
| SlotList.List.ChainFree | src/list.cpp:110-114 | the free loop chains the slots after the payloads upwards and ends the chain with 0 |
| SlotList.List.Resize | src/list.cpp:65-75 | list_resize leaves the state and result the pure model gives |
| SlotList.List.ResizeUp | src/list.h:383-395 | list_resize_up's capacity loop and resize leave the state and result the pure model gives |
| SlotList.List.ResizeDown | src/list.h:403-415 | list_resize_down's capacity loop and resize leave the state and result the pure model gives |
| SlotList.List.InsertAfter | src/list.cpp:264-290 | list_insert_after leaves the state, result and *inserted_index the pure model gives |
| SlotList.List.Splice | src/list.cpp:273-289 | the in-place writes of the splice make the array the pure splice describes |
| SlotList.List.InsertBefore | src/list.h:146-148 | list_insert_before leaves the state, result and index the pure model gives |
| SlotList.List.PushBack | src/list.h:158-160 | list_pushback leaves the state, result and index the pure model gives |
| SlotList.List.PushFront | src/list.h:170-172 | list_pushfront leaves the state, result and index the pure model gives |
| SlotList.List.Delete | src/list.cpp:292-318 | list_delete leaves the state and result the pure model gives, on every position 1..capacity-1 except a live one past size when a shrink re-lays the list out |
| SlotList.List.UnlinkSlot | src/list.cpp:303-317 | the in-place writes of the unlinking make the array the pure unlinking describes |
| SlotList.List.FindByLogicalIndex | src/list.cpp:124-152 | the lookup's walk returns exactly the pure model's result and index |
| SlotList.List.FindByValue | src/list.cpp:154-178 | the lookup's walk returns exactly the pure model's result and index |
| SlotList.List.LogicalIndexByPhysical | src/list.cpp:180-208 | the lookup's walk returns exactly the pure model's result and index |

## Left out

- Logging and dumps (`LIST_OK`, `LIST_DUMP`, `list_print_error`, HTML and Graphviz output) and the `var_data` debug provenance are not modelled. They are output only.
- `list_ctor_debug` (src/list.cpp:322-328) only records provenance before calling `list_ctor`, so it is not modelled.
- The release build, in which `LIST_ASSERT` is 0, is not modelled. Only the debug build is.
- The `assert` calls on non-null output pointers are not modelled. Output indices are returned values instead, `None` when the source leaves them unwritten.
- The array that `list_linearise` leaks on its DAMAGED_PATH return is not modelled. That return cannot happen on a valid list, and a leak is memory management, not list behaviour.
- SlotList.List.Dtor: requires an array and a non-negative capacity. On a list that was never constructed, the source calls `fill` with `(size_t)-1` slots through a null pointer.
- ListOps.ResizeUpSpec: requires the structural invariant, which implies capacity >= 2. `list_ctor(0)` builds a one-slot list whose `list_resize_up` loop never terminates (see Findings). That list has no free slot and is outside the invariant, so no insertion into it is modelled.
- ListEdit.DeleteSpec: requires `position != 0`, because deleting the sentinel passes the source's check and corrupts the list. A free position and a failed calloc return before the shrink, and are modelled for every position. Only when the position is live, `no_resize` is false, calloc succeeds and the shrink re-lays the list out does it also require `position <= size`. A larger live position names a free slot of the new layout (prev -1), and the source then writes `arr[-1].next`; at or past the new capacity, it reads and writes past the array.
- ListEdit.InsertBeforeSpec: requires a live position. A free slot's prev of -1 is cast to a huge index and read past the array.
- The mutating operations (`InsertAfterSpec`, `DeleteSpec`, `InsertBeforeSpec`, `PushBackSpec`, `PushFrontSpec`, `LineariseSpec`, `ResizeSpec`, `ResizeUpSpec`, `ResizeDownSpec` and the class methods over them) require the structural invariant and `position < capacity`; the source reads `arr[position]` unchecked. They are not defined on a list that breaks the invariant, such as one holding a POISON payload, a full list, or a corrupted one. The only early return they model is INVALID_IS_LINEAR on a valid list whose flag is wrong. On a list that breaks the invariant but can be read inside its array (`Readable`), only `list_verify`, the three lookups and `list_dtor` are modelled.
- ListOps.LineariseSpec and SlotList.List.Linearise: require `new_capacity == -1` or `new_capacity >= size+1`. For a smaller capacity the source's copy loop writes past the new array.
- ListLayout.FullLinearVerifies: a full list, left by `list_linearise(size+1)` or `list_resize(size+1)`, passes `list_verify` but has no free slot, so it is outside the invariant and no later operation on it is modelled.
- ListInsert.InsertAfterStalePosition and ListDelete.DeleteStalePosition: stated only for a stale position in 1..size. When growth makes position the new free head (the tail slot of a full non-linear list), the splice links a slot to itself. The model makes no claim about that case beyond what the functions compute.
- Behaviour of the code that the model keeps as written:
  - the shrink threshold is `size < (capacity-1)/2`, and there is no lower floor on the capacity;
  - `list_delete` always clears `is_linear`, because it compares the slot with the head and tail after unlinking;
  - `list_linearise` sets `free_head` to `size+1` even when no slot is free;
  - `list_verify` misses a broken free chain and a wrong `free_head` or tail slot number (ListLayout.VerifyMissesFreeChain). The model states the invariant in full as `ValidState` and models `list_verify` as written.

## Findings

| source | as written | input that shows it | evidently intended | confidence | as-written member | corrected member |
|---|---|---|---|---|---|---|
| src/list.cpp:286-287 | `is_linear` is kept when the new slot is the head, so `list_pushfront` onto a non-empty linear list leaves `is_linear` set over a layout that is no longer linear. The final `LIST_ASSERT` reports INVALID_IS_LINEAR, and every later operation refuses the list. | `list_ctor(8)`, `list_pushback(1)`, `list_pushfront(2)`: slot 2 becomes the head of ring 2, 1 and the call returns INVALID_IS_LINEAR | keep `is_linear` only when the new slot is the tail | high (proved for every input; not executed) | ListInsert.PushFrontPrepends | ListCorrected.PushFrontFixedPrepends |
| src/list.cpp:267-276 | `position` is read before `list_resize_up` and not remapped after the growth re-lays a non-linear list out. `list_pushback` then inserts at the rank the tail's old slot number names, not at the end. | `list_ctor(3)`, `list_pushback(1)`, `list_pushback(2)`, `list_delete(1, true)`, `list_pushback(3)` (ring 2, 3 in slots 2, 1), then `list_pushback(4)`: growth re-lays 2, 3 into slots 1, 2 and 4 lands after slot 1, giving 2, 4, 3 | translate position to its rank before growing and back to a slot after it | high (proved for every input; not executed) | ListInsert.PushBackStaleTail | ListCorrected.InsertAfterFixedInserts |
| src/list.h:388-389 | the loop body doubles the payload capacity `capacity-1`, which is 0 for the one-slot list of `list_ctor(0)`, so the capacity stays 1 and the condition `size >= capacity-2` stays true | `list_ctor(0)`, then `list_pushback(1)`: `LIST_ASSERT` passes and the tail is the sentinel, whose prev is 0 (ListLayout.CtorZeroPasses), so `list_resize_up` is reached and never returns | double with a floor of one payload slot, growing capacity 1 to 3 | high (proved for every number of passes; not executed) | ListOps.GrowStuckAtOne | ListCorrected.GrowCapacityFixed |
| src/list.cpp:295-303 | `position` is checked before `list_resize_down` and not remapped after the shrink re-lays a non-linear list out. `list_delete` then removes the payload of rank position-1, not the payload that was in slot position. | `list_ctor(8)`, `list_pushback` of 10, 20, 30, 40, `list_delete(1)`, then `list_delete(2)` to remove 20: the shrink re-lays 20, 30, 40 into slots 1, 2, 3, so 30 goes and the call returns OK with 20, 40 left | translate position to its rank before shrinking and back to a slot after it | high (proved for every input; not executed) | ListDelete.DeleteStalePosition | ListCorrected.DeleteFixedRemoves |

The pure layer and the class model the source as written. The corrected
definitions (`ListCorrected.SpliceAfterFixed`,
`ListCorrected.InsertAfterFixedSpec`, `ListCorrected.DeleteFixedSpec`) are
built from the same splice, unlinking, growth and shrink functions.
`ListCorrected.GrowCapacityFixed` equals `GrowCapacity` on every list that
keeps the structural invariant, so the growth the rest of the model uses is
already the corrected one there. The lemmas above prove the intended behaviour of the
corrected definitions.
