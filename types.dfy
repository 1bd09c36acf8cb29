// Slot layout, constants and error kinds of the slot-array list (src/list.h).

module ListTypes {

  /** An optional value; None stands for a null pointer or an output left unwritten. */
  datatype Option<+T> = None | Some(value: T)

  /** Payload type Elem_t (a C int). */
  type Elem = int

  /** ListNode::POISON, the payload of a slot that holds no live element: INT_MAX - 13. */
  const POISON: Elem := 0x7fff_ffff - 13

  /** ListNode::EMPTY_INDEX, the prev link of a free slot. */
  const EMPTY_INDEX: int := -1

  /** List::UNITIALISED_VAL, the scalar fields of a list that was never constructed. */
  const UNINITIALISED_VAL: int := -1

  /** List::DEFAULT_CAPACITY, the payload capacity LIST_CTOR asks for. */
  const DEFAULT_CAPACITY: nat := 8

  /** One slot of the array: two index links around a payload. */
  datatype Node = Node(prev: int, elem: Elem, next: int)

  /** The node a free slot is wiped to (POISON_LIST_NODE). */
  const POISON_NODE: Node := Node(EMPTY_INDEX, POISON, EMPTY_INDEX)

  /**
   * The error kinds of List::Results.  A result of the source is the bitwise
   * OR of several kinds; here it is the set of the kinds, and zero (OK) is {}.
   */
  datatype Err =
    | AllocErr
    | AlreadyInitialised
    | Uninitialised
    | DataInvalidPtr
    | PoisonValFound
    | NonPoisonEmpty
    | LowCapacity
    | NegativeCapacity
    | InvalidCapacity
    | NegativeSize
    | InvalidPosition
    | DamagedPath
    | InvalidFreeHead
    | InvalidTail
    | InvalidHead
    | InvalidIsLinear

  /** The bit each kind occupies in the source's result code. */
  function Bit(e: Err): (b: nat)
    ensures b > 0 && b % 2 == 0
  {
    match e
    case AllocErr => 0x000002
    case AlreadyInitialised => 0x000004
    case Uninitialised => 0x000008
    case DataInvalidPtr => 0x000010
    case PoisonValFound => 0x000020
    case NonPoisonEmpty => 0x000040
    case LowCapacity => 0x000200
    case NegativeCapacity => 0x000400
    case InvalidCapacity => 0x000800
    case NegativeSize => 0x001000
    case InvalidPosition => 0x020000
    case DamagedPath => 0x040000
    case InvalidFreeHead => 0x080000
    case InvalidTail => 0x100000
    case InvalidHead => 0x200000
    case InvalidIsLinear => 0x400000
  }

  /** Kind e's code as a 32-bit word. */
  function Mask(e: Err): bv32 {
    match e
    case AllocErr => 0x000002
    case AlreadyInitialised => 0x000004
    case Uninitialised => 0x000008
    case DataInvalidPtr => 0x000010
    case PoisonValFound => 0x000020
    case NonPoisonEmpty => 0x000040
    case LowCapacity => 0x000200
    case NegativeCapacity => 0x000400
    case InvalidCapacity => 0x000800
    case NegativeSize => 0x001000
    case InvalidPosition => 0x020000
    case DamagedPath => 0x040000
    case InvalidFreeHead => 0x080000
    case InvalidTail => 0x100000
    case InvalidHead => 0x200000
    case InvalidIsLinear => 0x400000
  }

  /**
   * Every kind's code is a single set bit, its value is Bit(e), and distinct
   * kinds have disjoint bits: the condition under which a result code, the OR
   * of the codes of some kinds, names exactly one set of kinds.
   */
  lemma BitsSingle(e1: Err, e2: Err)
    ensures Mask(e1) as int == Bit(e1)
    ensures Mask(e1) != 0 && Mask(e1) & (Mask(e1) - 1) == 0
    ensures e1 != e2 <==> Mask(e1) & Mask(e2) == 0
  {
  }

  /**
   * A snapshot of struct List: the slot array (None for nullptr) and the
   * scalar fields.  Debug provenance (var_data) is not part of the model.
   */
  datatype State = State(arr: Option<seq<Node>>, capacity: int, size: int, freeHead: int, isLinear: bool)

  /** The state of a List that was default-initialised or destroyed. */
  const UNINITIALISED_STATE: State :=
    State(None, UNINITIALISED_VAL, UNINITIALISED_VAL, UNINITIALISED_VAL, false)

  /** list_is_initialised: false exactly for the all-default state. */
  predicate IsInitialised(s: State) {
    !(s.freeHead == UNINITIALISED_VAL && s.capacity == UNINITIALISED_VAL &&
      s.size == UNINITIALISED_VAL && !s.isLinear && s.arr.None?)
  }

  lemma InitialisedIffNotDefault(s: State)
    ensures !IsInitialised(s) <==> s == UNINITIALISED_STATE
  {
  }
}
