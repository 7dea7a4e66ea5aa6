/** The bump allocator of backend/common.h and the lazily initialised scratch
    arena of backend/common.c. */
module Arenas {
  import opened Common

  /** Where ArenaPush leaves Offset: the request is rounded up to the word
      size and refused with an abort when `Capacity - Offset` is smaller. */
  function Pushed(offset: nat, capacity: nat, size: nat): Outcome<nat>
    requires offset <= capacity
  {
    if capacity - offset < AlignWord(size) then Abort(OutOfMemory)
    else Ok(offset + AlignWord(size))
  }

  /** A push keeps the arena invariant `Offset <= Capacity`, keeps Offset
      word-aligned, covers the whole request and fails only for want of room. */
  lemma PushedKeepsInvariant(offset: nat, capacity: nat, size: nat)
    requires offset <= capacity
    ensures Pushed(offset, capacity, size).Ok? ==>
      var next := Pushed(offset, capacity, size).value;
      offset + size <= next <= capacity && next - offset < size + 8 &&
      (offset % 8 == 0 ==> next % 8 == 0)
    ensures Pushed(offset, capacity, size).Abort? <==> capacity - offset < AlignWord(size)
  {
    AlignWordIsLeastMultiple(size);
  }

  /** A request that is already a multiple of the word size takes exactly
      its own size when it fits. */
  lemma PushedExact(offset: nat, capacity: nat, size: nat)
    requires size % 8 == 0 && offset + size <= capacity
    ensures Pushed(offset, capacity, size) == Ok(offset + size)
  {
    AlignForwardValue(size, 8);
  }

  /** An arena: a fixed byte buffer, its capacity and the bump offset. */
  class Arena {
    var items: array<Byte>
    var capacity: nat
    var offset: nat

    ghost predicate Valid()
      reads this
    {
      items.Length == capacity && offset <= capacity
    }

    /** ArenaInit: a zero-filled buffer (calloc) of the given capacity,
        nothing allocated yet. */
    constructor Init(capacity: nat)
      ensures Valid() && fresh(items)
      ensures this.capacity == capacity && offset == 0
      ensures items[..] == seq(capacity, _ => 0)
    {
      this.capacity := capacity;
      offset := 0;
      items := new Byte[capacity](_ => 0);
    }

    /** ArenaPush: the region starts at the old Offset, which moves forward by
        the rounded size; it aborts when that does not fit. */
    method Push(size: nat) returns (r: Outcome<nat>)
      requires Valid()
      modifies this
      ensures Valid() && items == old(items) && capacity == old(capacity)
      ensures r.Ok? ==> r.value == old(offset) && Pushed(old(offset), capacity, size) == Ok(offset)
      ensures r.Abort? ==> r.fault == OutOfMemory && Pushed(old(offset), capacity, size).Abort? && offset == old(offset)
    {
      var rounded := AlignWord(size);
      var available := capacity - offset;
      if available < rounded {
        return Abort(OutOfMemory);
      }
      r := Ok(offset);
      offset := offset + rounded;
    }

    /** ARENA_PUSH_ZERO and ARENA_NEW: a push that zeroes exactly the
        requested bytes, not the rounded-up size. */
    method PushZero(size: nat) returns (r: Outcome<nat>)
      requires Valid()
      modifies this, items
      ensures Valid() && items == old(items) && capacity == old(capacity)
      ensures r.Ok? ==> r.value == old(offset) && Pushed(old(offset), capacity, size) == Ok(offset)
      ensures r.Ok? ==> forall i :: 0 <= i < items.Length ==>
        items[i] == if r.value <= i < r.value + size then 0 else old(items[i])
      ensures r.Abort? ==> r.fault == OutOfMemory && Pushed(old(offset), capacity, size).Abort?
      ensures r.Abort? ==> offset == old(offset) && items[..] == old(items[..])
    {
      r := Push(size);
      if r.Ok? {
        PushedKeepsInvariant(old(offset), capacity, size);
        var start := r.value;
        forall i | start <= i < start + size {
          items[i] := 0;
        }
      }
    }

    /** ArenaReset: only Offset returns to zero; capacity and every byte stay. */
    method Reset()
      requires Valid()
      modifies this
      ensures Valid() && offset == 0
      ensures items == old(items) && capacity == old(capacity)
    {
      offset := 0;
    }

    /** ArenaRealloc: a fresh region of the new size whose first bytes are a
        copy of the old region; the old region stays where it was. */
    method Realloc(oldStart: nat, oldSize: nat, newSize: nat) returns (r: Outcome<nat>)
      requires Valid()
      requires oldStart + oldSize <= offset && oldSize <= newSize
      modifies this, items
      ensures Valid() && items == old(items) && capacity == old(capacity)
      ensures r.Ok? ==> r.value == old(offset) && Pushed(old(offset), capacity, newSize) == Ok(offset)
      ensures r.Ok? ==> forall i :: 0 <= i < items.Length ==>
        items[i] == if r.value <= i < r.value + oldSize then old(items[oldStart + i - r.value]) else old(items[i])
      ensures r.Abort? ==> r.fault == OutOfMemory && Pushed(old(offset), capacity, newSize).Abort?
      ensures r.Abort? ==> offset == old(offset) && items[..] == old(items[..])
    {
      r := Push(newSize);
      if r.Ok? {
        PushedKeepsInvariant(old(offset), capacity, newSize);
        var start := r.value;
        forall i | start <= i < start + oldSize {
          items[i] := items[oldStart + i - start];
        }
      }
    }

    /** StringViewCloneCStr: pushes Count + 1 bytes, copies the view and
        puts a NUL at index Count. */
    method CloneCStr(sv: seq<Byte>) returns (r: Outcome<nat>)
      requires Valid()
      modifies this, items
      ensures Valid() && items == old(items) && capacity == old(capacity)
      ensures r.Ok? ==> r.value == old(offset) && Pushed(old(offset), capacity, |sv| + 1) == Ok(offset)
      ensures r.Ok? ==> items[r.value..r.value + |sv| + 1] == sv + [NUL]
      ensures r.Ok? ==> forall i :: 0 <= i < items.Length && !(r.value <= i < r.value + |sv| + 1) ==>
        items[i] == old(items[i])
      ensures r.Abort? ==> r.fault == OutOfMemory && Pushed(old(offset), capacity, |sv| + 1).Abort?
      ensures r.Abort? ==> offset == old(offset) && items[..] == old(items[..])
    {
      r := Push(|sv| + 1);
      if r.Ok? {
        PushedKeepsInvariant(old(offset), capacity, |sv| + 1);
        var start := r.value;
        forall i | start <= i < start + |sv| {
          items[i] := sv[i - start];
        }
        items[start + |sv|] := NUL;
        assert items[start..start + |sv| + 1] == sv + [NUL];
      }
    }
  }

  const DEFAULT_ARRAY_CAPACITY: nat := 7

  /** An arena-backed growable array (`Items`, `Count`, `Capacity`): the
      stored elements, the number of slots, and where the slots start in the
      arena. */
  datatype ArenaArray<T> = ArenaArray(elems: seq<T>, capacity: nat, base: nat)
  {
    predicate Valid() {
      |elems| <= capacity
    }
  }

  /** ARRAY_INIT: Count 0, Capacity 7, zeroed slots pushed from the arena;
      the result pairs the array with the new Offset. */
  function ArrayInitSpec<T>(offset: nat, capacity: nat, elemSize: nat): Outcome<(ArenaArray<T>, nat)>
    requires offset <= capacity
  {
    match Pushed(offset, capacity, elemSize * DEFAULT_ARRAY_CAPACITY)
    case Abort(f) => Abort(f)
    case Ok(next) => Ok((ArenaArray([], DEFAULT_ARRAY_CAPACITY, offset), next))
  }

  /** ARRAY_PUSH: a full array first moves to a region of `(Capacity + 1) * 2`
      slots; the element then goes to index Count. */
  function ArrayPushSpec<T>(arr: ArenaArray<T>, elem: T, elemSize: nat, offset: nat, capacity: nat)
    : Outcome<(ArenaArray<T>, nat)>
    requires offset <= capacity
  {
    if |arr.elems| >= arr.capacity then
      var newCapacity := (arr.capacity + 1) * 2;
      match Pushed(offset, capacity, elemSize * newCapacity)
      case Abort(f) => Abort(f)
      case Ok(next) => Ok((ArenaArray(arr.elems + [elem], newCapacity, offset), next))
    else
      Ok((ArenaArray(arr.elems + [elem], arr.capacity, arr.base), offset))
  }

  /** Pushing keeps `Count <= Capacity`, appends the element after the earlier
      ones, and grows the capacity exactly when the array was full. */
  lemma ArrayPushKeepsElements<T>(arr: ArenaArray<T>, elem: T, elemSize: nat, offset: nat, capacity: nat)
    requires offset <= capacity && arr.Valid()
    ensures ArrayPushSpec(arr, elem, elemSize, offset, capacity).Ok? ==>
      var (grown, next) := ArrayPushSpec(arr, elem, elemSize, offset, capacity).value;
      grown.Valid() && grown.elems == arr.elems + [elem] && offset <= next <= capacity &&
      grown.capacity == (if |arr.elems| == arr.capacity then (arr.capacity + 1) * 2 else arr.capacity)
    ensures ArrayPushSpec(arr, elem, elemSize, offset, capacity).Abort? ==> |arr.elems| == arr.capacity
  {
    PushedKeepsInvariant(offset, capacity, elemSize * ((arr.capacity + 1) * 2));
  }

  /** ARRAY_INIT on a real arena: the seven slots are zeroed, as
      ARENA_PUSH_ZERO does, and no other byte changes. */
  method ArrayInit<T>(arena: Arena, elemSize: nat) returns (r: Outcome<(ArenaArray<T>, nat)>)
    requires arena.Valid()
    modifies arena, arena.items
    ensures arena.Valid() && arena.items == old(arena.items) && arena.capacity == old(arena.capacity)
    ensures r == ArrayInitSpec(old(arena.offset), arena.capacity, elemSize)
    ensures r.Ok? ==> arena.offset == r.value.1
    ensures r.Ok? ==> forall i :: 0 <= i < arena.items.Length ==>
      arena.items[i] == if old(arena.offset) <= i < old(arena.offset) + elemSize * DEFAULT_ARRAY_CAPACITY then 0
                        else old(arena.items[i])
    ensures arena.items[..old(arena.offset)] == old(arena.items[..arena.offset])
  {
    var start := arena.PushZero(elemSize * DEFAULT_ARRAY_CAPACITY);
    if start.Abort? {
      return Abort(start.fault);
    }
    r := Ok((ArenaArray([], DEFAULT_ARRAY_CAPACITY, start.value), arena.offset));
  }

  /** ARRAY_PUSH on a real arena: growth is an ArenaRealloc of the slots. */
  method ArrayPush<T>(arena: Arena, arr: ArenaArray<T>, elem: T, elemSize: nat)
    returns (r: Outcome<(ArenaArray<T>, nat)>)
    requires arena.Valid() && arr.Valid() && elemSize > 0
    requires arr.base + elemSize * arr.capacity <= arena.offset
    modifies arena, arena.items
    ensures arena.Valid() && arena.items == old(arena.items) && arena.capacity == old(arena.capacity)
    ensures r == ArrayPushSpec(arr, elem, elemSize, old(arena.offset), arena.capacity)
    ensures r.Ok? ==> arena.offset == r.value.1
    ensures r.Ok? ==> r.value.0.base + elemSize * r.value.0.capacity <= arena.offset
    ensures arena.items[..old(arena.offset)] == old(arena.items[..arena.offset])
  {
    var grown := arr;
    if |arr.elems| >= arr.capacity {
      var newCapacity := (arr.capacity + 1) * 2;
      MulMonotone(arr.capacity, newCapacity, elemSize);
      var moved := arena.Realloc(arr.base, elemSize * arr.capacity, elemSize * newCapacity);
      if moved.Abort? {
        return Abort(moved.fault);
      }
      PushedKeepsInvariant(old(arena.offset), arena.capacity, elemSize * newCapacity);
      grown := ArenaArray(arr.elems, newCapacity, moved.value);
    }
    r := Ok((ArenaArray(grown.elems + [elem], grown.capacity, grown.base), arena.offset));
  }

  const TEMP_ARENA_CAPACITY: nat := 4 * 1024 * 1024

  /** The static `TempArena` of backend/common.c: no arena until the first
      request for one (`Items == NULL`). */
  class TempArenaSlot {
    var arena: Arena?

    ghost predicate Valid()
      reads this, arena
    {
      arena != null ==> arena.Valid()
    }

    /** Static storage starts zeroed. */
    constructor ()
      ensures Valid() && arena == null
    {
      arena := null;
    }

    /** GetTempArena: initialise 4 MiB on the first call, otherwise reset. */
    method GetTempArena() returns (a: Arena)
      requires Valid()
      modifies this, arena
      ensures Valid() && arena == a && a.Valid() && a.offset == 0
      ensures old(arena) == null ==>
        fresh(a) && fresh(a.items) && a.capacity == TEMP_ARENA_CAPACITY &&
        a.items[..] == seq(TEMP_ARENA_CAPACITY, _ => 0)
      ensures old(arena) != null ==>
        a == old(arena) && a.capacity == old(arena.capacity) && a.items == old(arena.items) &&
        a.items[..] == old(arena.items[..])
    {
      if arena == null {
        arena := new Arena.Init(TEMP_ARENA_CAPACITY);
      } else {
        arena.Reset();
      }
      a := arena;
    }
  }
}
