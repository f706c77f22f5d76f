/** The raw storage owner: one block of `capacity` slots that it allocates and
    releases. Apart from the `destroy_n` its move assignment runs over the
    target's block, it never constructs or destroys the contents. */
module RawStorage {

  /** One slot of raw storage: either no object lives there (`Vacant`, the
      uninitialised memory of the C++ block) or a constructed object does. */
  datatype Slot<T> = Vacant | Live(value: T)

  class RawMemory<T> {
    /** The allocated block. Its length is the slot count (`capacity_`); a
        zero-length array stands for the null block of an empty instance. */
    var buffer: array<Slot<T>>

    /** `Capacity()`: the number of slots in the block, constructed or not. */
    function Capacity(): (c: nat)
      reads this
      ensures c == buffer.Length
    {
      buffer.Length
    }

    /** `RawMemory(capacity)` with `Allocate`: a fresh block of exactly
        `capacity` slots, none of them constructed. */
    constructor (capacity: nat)
      ensures fresh(buffer) && Capacity() == capacity
      ensures forall i :: 0 <= i < capacity ==> buffer[i] == Vacant
    {
      buffer := new Slot<T>[capacity](_ => Vacant);
    }

    /** The move constructor: takes over `other`'s block without touching a
        slot and leaves `other` block-less with capacity 0. */
    constructor Take(other: RawMemory<T>)
      modifies other
      ensures buffer == old(other.buffer)
      ensures fresh(other.buffer) && other.Capacity() == 0
    {
      buffer := other.buffer;
      other.buffer := new Slot<T>[0](_ => Vacant);
    }

    /** Exchanges the blocks (and so the capacities) of the two owners. */
    method Swap(other: RawMemory<T>)
      modifies this, other
      ensures buffer == old(other.buffer) && other.buffer == old(buffer)
    {
      var mine := buffer;
      buffer := other.buffer;
      other.buffer := mine;
    }

    /** Reads slot `index` through `operator[]`, which asserts `index < capacity_`. */
    function Get(index: nat): (slot: Slot<T>)
      reads this, buffer
      requires index < Capacity()
      ensures slot == buffer[index]
    {
      buffer[index]
    }

    /** Writes slot `index` through `operator[]` or `operator+`: placement
        construction stores `Live(v)`, destruction stores `Vacant`. Only that
        slot changes. */
    method Put(index: nat, slot: Slot<T>)
      requires index < Capacity()
      modifies buffer
      ensures buffer[index] == slot
      ensures forall i :: 0 <= i < buffer.Length && i != index ==> buffer[i] == old(buffer[i])
    {
      buffer[index] := slot;
    }
  }
}
