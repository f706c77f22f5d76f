/** The `<memory>` and `<algorithm>` routines the vector runs over raw storage.
    A C++ pointer `mem + k` into a block is the pair (`mem`, `k`). Elements are
    values here: a move leaves its source as it was, so the moving and the
    copying variants of a routine are one method. */
module SlotAlgorithms {
  import opened RawStorage

  /** Every slot in `[from, from + count)` holds a constructed object. */
  ghost predicate AllLive<T>(mem: RawMemory<T>, from: nat, count: nat)
    reads mem, mem.buffer
    requires from + count <= mem.Capacity()
  {
    forall i :: from <= i < from + count ==> mem.buffer[i].Live?
  }

  /** Every slot in `[from, from + count)` is uninitialised. */
  ghost predicate AllVacant<T>(mem: RawMemory<T>, from: nat, count: nat)
    reads mem, mem.buffer
    requires from + count <= mem.Capacity()
  {
    forall i :: from <= i < from + count ==> mem.buffer[i] == Vacant
  }

  /** `std::uninitialized_copy_n` (and `std::uninitialized_move_n`): constructs
      `count` objects at `dst + to` from those at `src + from`. The target slots
      must be uninitialised and the source slots constructed. */
  method UninitializedCopyN<T>(src: RawMemory<T>, from: nat, count: nat, dst: RawMemory<T>, to: nat)
    requires from + count <= src.Capacity() && to + count <= dst.Capacity()
    requires src.buffer != dst.buffer
    requires AllLive(src, from, count) && AllVacant(dst, to, count)
    modifies dst.buffer
    ensures forall i :: 0 <= i < dst.buffer.Length ==>
      dst.buffer[i] == if to <= i < to + count then src.buffer[from + (i - to)] else old(dst.buffer[i])
  {
    var k := 0;
    while k < count
      invariant k <= count
      invariant forall i :: 0 <= i < dst.buffer.Length ==>
        dst.buffer[i] == if to <= i < to + k then src.buffer[from + (i - to)] else old(dst.buffer[i])
    {
      dst.Put(to + k, src.Get(from + k));
      k := k + 1;
    }
  }

  /** `std::uninitialized_value_construct_n`: constructs `count` value-initialised
      objects (each equal to `init`, the value `T()` produces) at `mem + from`. */
  method UninitializedValueConstructN<T>(mem: RawMemory<T>, from: nat, count: nat, init: T)
    requires from + count <= mem.Capacity()
    requires AllVacant(mem, from, count)
    modifies mem.buffer
    ensures forall i :: 0 <= i < mem.buffer.Length ==>
      mem.buffer[i] == if from <= i < from + count then Live(init) else old(mem.buffer[i])
  {
    var k := 0;
    while k < count
      invariant k <= count
      invariant forall i :: 0 <= i < mem.buffer.Length ==>
        mem.buffer[i] == if from <= i < from + k then Live(init) else old(mem.buffer[i])
    {
      mem.Put(from + k, Live(init));
      k := k + 1;
    }
  }

  /** `std::destroy_n`: destroys the `count` constructed objects at `mem + from`,
      leaving those slots uninitialised. */
  method DestroyN<T>(mem: RawMemory<T>, from: nat, count: nat)
    requires from + count <= mem.Capacity()
    requires AllLive(mem, from, count)
    modifies mem.buffer
    ensures forall i :: 0 <= i < mem.buffer.Length ==>
      mem.buffer[i] == if from <= i < from + count then Vacant else old(mem.buffer[i])
  {
    var k := 0;
    while k < count
      invariant k <= count
      invariant forall i :: 0 <= i < mem.buffer.Length ==>
        mem.buffer[i] == if from <= i < from + k then Vacant else old(mem.buffer[i])
    {
      mem.Put(from + k, Vacant);
      k := k + 1;
    }
  }

  /** `std::move_backward(mem + first, mem + last, mem + dLast)`: assigns the
      objects of `[first, last)` to the range that ends at `dLast`, last one
      first, so that a shift to the right never reads a slot it already wrote.
      Assignment needs a constructed object on both sides. */
  method MoveBackward<T>(mem: RawMemory<T>, first: nat, last: nat, dLast: nat)
    requires first <= last <= dLast <= mem.Capacity()
    requires AllLive(mem, first, last - first)
    requires AllLive(mem, dLast - (last - first), last - first)
    modifies mem.buffer
    ensures forall i :: 0 <= i < mem.buffer.Length ==>
      mem.buffer[i] == if dLast - (last - first) <= i < dLast then old(mem.buffer[i - (dLast - last)]) else old(mem.buffer[i])
  {
    var shift := dLast - last;
    var k := 0;
    while k < last - first
      invariant k <= last - first
      invariant forall i :: 0 <= i < mem.buffer.Length ==>
        mem.buffer[i] == if dLast - k <= i < dLast then old(mem.buffer[i - shift]) else old(mem.buffer[i])
    {
      mem.Put(dLast - 1 - k, mem.Get(last - 1 - k));
      k := k + 1;
    }
  }

  /** `std::move(mem + first, mem + last, mem + dFirst)`: assigns the objects of
      `[first, last)` to the range that starts at `dFirst`, first one first, so
      that a shift to the left never reads a slot it already wrote. */
  method MoveRange<T>(mem: RawMemory<T>, first: nat, last: nat, dFirst: nat)
    requires dFirst <= first <= last <= mem.Capacity()
    requires AllLive(mem, first, last - first)
    requires AllLive(mem, dFirst, last - first)
    modifies mem.buffer
    ensures forall i :: 0 <= i < mem.buffer.Length ==>
      mem.buffer[i] == if dFirst <= i < dFirst + (last - first) then old(mem.buffer[i + (first - dFirst)]) else old(mem.buffer[i])
  {
    var shift := first - dFirst;
    var k := 0;
    while k < last - first
      invariant k <= last - first
      invariant forall i :: 0 <= i < mem.buffer.Length ==>
        mem.buffer[i] == if dFirst <= i < dFirst + k then old(mem.buffer[i + shift]) else old(mem.buffer[i])
    {
      mem.Put(dFirst + k, mem.Get(first + k));
      k := k + 1;
    }
  }
}
