/** The growable array: one raw storage owner plus the count of live elements.
    Slots `[0, size)` hold the elements in order, slots `[size, capacity)` are
    uninitialised. Elements are values: moving one leaves its source as it was,
    so every move-or-copy choice of the C++ class is a single copy here. */
module AdvancedVector {
  import opened RawStorage
  import opened SlotAlgorithms
  import opened VectorSpec

  class Vector<T> {
    var data: RawMemory<T>
    var size: nat
    /** The element sequence, `data_[0..size_)`. */
    ghost var Contents: seq<T>

    /** `size_ <= capacity`, slots `[0, size_)` hold `Contents` in order and
        every later slot is uninitialised. */
    ghost predicate Valid()
      reads this, data, data.buffer
    {
      |Contents| == size && Stores(Contents)
    }

    /** The block holds exactly `s`: its first `|s|` slots hold the elements of
        `s` in order and every later slot is uninitialised. */
    ghost predicate Stores(s: seq<T>)
      reads this, data, data.buffer
    {
      && |s| <= data.Capacity()
      && (forall i :: 0 <= i < |s| ==> data.buffer[i] == Live(s[i]))
      && (forall i :: |s| <= i < data.Capacity() ==> data.buffer[i] == Vacant)
    }

    /** `Vector()`: empty, with no storage. */
    constructor ()
      ensures Valid() && Contents == [] && Capacity() == 0
      ensures fresh(data) && fresh(data.buffer)
    {
      data := new RawMemory<T>(0);
      size := 0;
      Contents := [];
    }

    /** `Vector(n)`: exactly `n` slots, all holding the value-initialised
        element `init`. */
    constructor Sized(n: nat, init: T)
      ensures Valid() && Contents == Repeat(init, n) && Capacity() == n
      ensures fresh(data) && fresh(data.buffer)
    {
      data := new RawMemory<T>(n);
      size := n;
      Contents := Repeat(init, n);
      new;
      UninitializedValueConstructN(data, 0, n, init);
    }

    /** The copy constructor: a block of exactly `other.size_` slots holding
        copies of `other`'s elements, sharing nothing with `other`. */
    constructor Copy(other: Vector<T>)
      requires other.Valid()
      ensures Valid() && Contents == other.Contents && Capacity() == other.size
      ensures fresh(data) && fresh(data.buffer)
    {
      data := new RawMemory<T>(other.size);
      size := other.size;
      Contents := other.Contents;
      new;
      UninitializedCopyN(other.data, 0, other.size, data, 0);
    }

    /** The move constructor: takes over `rhs`'s block itself, copying no
        element, and leaves `rhs` empty with capacity 0. */
    constructor Take(rhs: Vector<T>)
      requires rhs.Valid()
      modifies rhs, rhs.data
      ensures Valid() && Contents == old(rhs.Contents) && Capacity() == old(rhs.Capacity())
      ensures fresh(data) && data.buffer == old(rhs.data.buffer)
      ensures rhs.Valid() && rhs.Contents == [] && rhs.Capacity() == 0
      ensures rhs.data == old(rhs.data)
    {
      data := new RawMemory<T>.Take(rhs.data);
      size := rhs.size;
      Contents := rhs.Contents;
      rhs.size := 0;
      rhs.Contents := [];
    }

    /** `Size()`: the number of elements. */
    function Size(): (n: nat)
      reads this, data, data.buffer
      requires Valid()
      ensures n == |Contents|
    {
      size
    }

    /** `Capacity()`: the slot count of the block, never below the size. */
    function Capacity(): (c: nat)
      reads this, data, data.buffer
      requires Valid()
      ensures |Contents| <= c == data.buffer.Length
    {
      data.Capacity()
    }

    /** `operator[]`, which asserts `index < size_`: the element at `index`. */
    function Get(index: nat): (x: T)
      reads this, data, data.buffer
      requires Valid() && index < Size()
      ensures x == Contents[index]
    {
      data.Get(index).value
    }

    /** `Swap`: exchanges the storage and the size of the two vectors. */
    method Swap(other: Vector<T>)
      requires Valid() && other.Valid()
      modifies this, other
      ensures Valid() && other.Valid()
      ensures data == old(other.data) && other.data == old(data)
      ensures Contents == old(other.Contents) && other.Contents == old(Contents)
    {
      var d, s, c := data, size, Contents;
      data, size, Contents := other.data, other.size, other.Contents;
      other.data, other.size, other.Contents := d, s, c;
    }

    /** Copy assignment. Self-assignment changes nothing. When `rhs` has more
        elements than this vector has slots, a full copy of `rhs` is built and
        swapped in; otherwise the existing block is reused: the common prefix is
        assigned element by element, then surplus elements are destroyed or the
        missing ones copy-constructed into uninitialised slots. */
    method Assign(rhs: Vector<T>)
      requires Valid() && rhs.Valid()
      requires this != rhs ==> data.buffer != rhs.data.buffer
      modifies this, data.buffer
      ensures Valid() && rhs.Valid()
      ensures Contents == old(rhs.Contents) && rhs.Contents == old(rhs.Contents)
      ensures Capacity() == if old(rhs.size) <= old(Capacity()) then old(Capacity()) else old(rhs.size)
      ensures old(rhs.size) <= old(Capacity()) ==> data == old(data) && data.buffer == old(data.buffer)
      ensures old(rhs.size) > old(Capacity()) ==> fresh(data) && fresh(data.buffer)
    {
      if this != rhs {
        if rhs.size > data.Capacity() {
          var rhsCopy := new Vector<T>.Copy(rhs);
          Swap(rhsCopy);
        } else {
          AssignReusing(rhs);
          size := rhs.size;
          Contents := rhs.Contents;
        }
      }
    }

    /** The storage-reusing half of copy assignment, for a distinct `rhs` that
        fits in this block: the overlapping prefix is assigned element by
        element, then surplus elements of this vector are destroyed, or the
        missing ones copy-constructed from `rhs` into uninitialised slots. The
        size is left to the caller. */
    method AssignReusing(rhs: Vector<T>)
      requires Valid() && rhs.Valid()
      requires this != rhs && data.buffer != rhs.data.buffer && rhs.size <= Capacity()
      modifies data.buffer
      ensures Stores(rhs.Contents)
    {
      if rhs.size < size {
        var counter := 0;
        while counter < rhs.size
          invariant counter <= rhs.size
          invariant forall i :: 0 <= i < data.buffer.Length ==>
            data.buffer[i] == if i < counter then rhs.data.buffer[i] else old(data.buffer[i])
          modifies data.buffer
        {
          data.Put(counter, rhs.data.Get(counter));
          counter := counter + 1;
        }
        DestroyN(data, rhs.size, size - rhs.size);
        assert Stores(rhs.Contents);
      } else {
        var counter := 0;
        while counter < size
          invariant counter <= size
          invariant forall i :: 0 <= i < data.buffer.Length ==>
            data.buffer[i] == if i < counter then rhs.data.buffer[i] else old(data.buffer[i])
          modifies data.buffer
        {
          data.Put(counter, rhs.data.Get(counter));
          counter := counter + 1;
        }
        UninitializedCopyN(rhs.data, size, rhs.size - size, data, size);
        assert Stores(rhs.Contents);
      }
    }

    /** Move assignment: swaps with `rhs` (unless it is this vector), so `rhs`
        ends up holding this vector's former elements and block. */
    method MoveAssign(rhs: Vector<T>)
      requires Valid() && rhs.Valid()
      modifies this, rhs
      ensures Valid() && rhs.Valid()
      ensures Contents == old(rhs.Contents) && data == old(rhs.data)
      ensures this != rhs ==> rhs.Contents == old(Contents) && rhs.data == old(data)
    {
      if this != rhs {
        Swap(rhs);
      }
    }

    /** `Reserve(n)`: nothing happens when `n` slots are already there;
        otherwise the elements move to a fresh block of exactly `n` slots. */
    method Reserve(newCapacity: nat)
      requires Valid()
      modifies data, data.buffer
      ensures Valid() && Contents == old(Contents) && data == old(data)
      ensures Capacity() == if newCapacity <= old(Capacity()) then old(Capacity()) else newCapacity
      ensures newCapacity <= old(Capacity()) ==> data.buffer == old(data.buffer)
      ensures newCapacity > old(Capacity()) ==> fresh(data.buffer)
    {
      if newCapacity <= data.Capacity() {
        return;
      }
      var newData := new RawMemory<T>(newCapacity);
      UninitializedCopyN(data, 0, size, newData, 0);
      DestroyN(data, 0, size);
      data.Swap(newData);
    }

    /** `Resize(n)`: drops the elements from index `n` on, or appends
        value-initialised elements (`init`) after reserving `n` slots. */
    method Resize(newSize: nat, init: T)
      requires Valid()
      modifies this, data, data.buffer
      ensures Valid() && data == old(data)
      ensures Contents == Resized(old(Contents), newSize, init)
      ensures Capacity() == if newSize <= old(Capacity()) then old(Capacity()) else newSize
      ensures newSize <= old(Capacity()) ==> data.buffer == old(data.buffer)
      ensures newSize > old(Capacity()) ==> fresh(data.buffer)
    {
      if newSize < size {
        DestroyN(data, newSize, size - newSize);
        size := newSize;
        Contents := Contents[..newSize];
      } else if newSize > size {
        Reserve(newSize);
        UninitializedValueConstructN(data, size, newSize - size, init);
        Contents := Contents + Repeat(init, newSize - size);
        size := newSize;
      }
    }

    /** `EmplaceBack(args...)`, whose body the two `PushBack` overloads repeat:
        appends `value`; when the block is full the new element is first
        constructed in its final slot of a block of twice the capacity (one slot
        when empty), then the old elements are moved over. Returns the new last
        element. */
    method EmplaceBack(value: T) returns (last: T)
      requires Valid()
      modifies this, data, data.buffer
      ensures Valid() && data == old(data)
      ensures Contents == old(Contents) + [value] && last == value
      ensures Capacity() == CapacityForOneMore(old(size), old(Capacity()))
      ensures old(size) < old(Capacity()) ==> data.buffer == old(data.buffer)
      ensures old(size) == old(Capacity()) ==> fresh(data.buffer)
    {
      ghost var after := Contents + [value];
      if size == data.Capacity() {
        var newData := new RawMemory<T>(if size != 0 then data.Capacity() * 2 else 1);
        newData.Put(size, Live(value));
        UninitializedCopyN(data, 0, size, newData, 0);
        data.Swap(newData);
        DestroyN(newData, 0, size);
      } else {
        data.Put(size, Live(value));
      }
      size := size + 1;
      Contents := after;
      last := data.Get(size - 1).value;
    }

    /** `PushBack(value)`: appends `value`, as `EmplaceBack` does. */
    method PushBack(value: T)
      requires Valid()
      modifies this, data, data.buffer
      ensures Valid() && data == old(data)
      ensures Contents == old(Contents) + [value]
      ensures Capacity() == CapacityForOneMore(old(size), old(Capacity()))
      ensures old(size) < old(Capacity()) ==> data.buffer == old(data.buffer)
      ensures old(size) == old(Capacity()) ==> fresh(data.buffer)
    {
      var _ := EmplaceBack(value);
    }

    /** `PopBack()`: destroys the last element; the block stays. */
    method PopBack()
      requires Valid() && size > 0
      modifies this, data.buffer
      ensures Valid() && data == old(data) && data.buffer == old(data.buffer)
      ensures Contents == old(Contents)[..old(size) - 1]
    {
      DestroyN(data, size - 1, 1);
      size := size - 1;
      Contents := Contents[..size];
    }

    /** `Emplace(pos, args...)`, whose body the two `Insert` overloads repeat:
        puts `value` at index `p` and returns `p`. The block is replaced by one
        of twice the capacity (one slot when empty) exactly when it is full. */
    method Emplace(p: nat, value: T) returns (r: nat)
      requires Valid() && p <= size
      modifies this, data, data.buffer
      ensures Valid() && data == old(data)
      ensures Contents == Inserted(old(Contents), p, value) && r == p
      ensures Capacity() == CapacityForOneMore(old(size), old(Capacity()))
      ensures old(size) < old(Capacity()) ==> data.buffer == old(data.buffer)
      ensures old(size) == old(Capacity()) ==> fresh(data.buffer)
    {
      if size == data.Capacity() {
        InsertGrowing(p, value);
      } else {
        InsertInPlace(p, value);
      }
      ghost var after := Inserted(Contents, p, value);
      size := size + 1;
      Contents := after;
      r := p;
    }

    /** The reallocating path of `Emplace`: the new element is constructed in
        slot `p` of a block of twice the capacity (one slot when empty), then
        the prefix `[0, p)` and the suffix `[p, size)` are moved around it, the
        new block is swapped in and the originals destroyed. The size is left to
        the caller. */
    method InsertGrowing(p: nat, value: T)
      requires Valid() && p <= size == Capacity()
      modifies data, data.buffer
      ensures data == old(data) && fresh(data.buffer)
      ensures data.Capacity() == CapacityForOneMore(size, old(data.Capacity()))
      ensures Stores(Inserted(Contents, p, value))
    {
      var newData := GrownAround(p, value);
      ghost var grown := newData.buffer;
      data.Swap(newData);
      DestroyN(newData, 0, size);
      assert data.buffer == grown;
    }

    /** The first half of `InsertGrowing`: a fresh block of twice the capacity
        (one slot when empty) holding the new element at `p` and copies of the
        elements around it, as `Inserted` lays them out. */
    method GrownAround(p: nat, value: T) returns (newData: RawMemory<T>)
      requires Valid() && p <= size == Capacity()
      ensures fresh(newData) && fresh(newData.buffer)
      ensures newData.Capacity() == CapacityForOneMore(size, Capacity())
      ensures forall i :: 0 <= i < newData.buffer.Length ==>
        newData.buffer[i] == if i <= size then Live(Inserted(Contents, p, value)[i]) else Vacant
    {
      newData := new RawMemory<T>(if size != 0 then data.Capacity() * 2 else 1);
      newData.Put(p, Live(value));
      UninitializedCopyN(data, 0, p, newData, 0);
      UninitializedCopyN(data, p, size - p, newData, p + 1);
      ghost var after := Inserted(Contents, p, value);
      forall i | 0 <= i < newData.buffer.Length
        ensures newData.buffer[i] == if i <= size then Live(after[i]) else Vacant
      {
        if p < i <= size {
          assert after[i] == Contents[i - 1];
        }
      }
    }

    /** The in-place path of `Emplace`, with the moves in the intended order:
        the last element is move-constructed into slot `size`, `move_backward`
        shifts `[p, size - 1)` to `[p + 1, size)`, and the object left in slot
        `p` is destroyed and the new one constructed there; inserting at the
        end just constructs the new element in slot `size`. (The code as
        written shifts `[p, size)` instead, which is harmless only while a move
        leaves its source as it was; see the module MoveSemantics.) The size is
        left to the caller. */
    method InsertInPlace(p: nat, value: T)
      requires Valid() && p <= size < Capacity()
      modifies data.buffer
      ensures Stores(Inserted(Contents, p, value))
    {
      ghost var elems := Contents;
      ghost var after := Inserted(elems, p, value);
      var n := size;
      if p == n {
        data.Put(n, Live(value));
      } else {
        data.Put(n, data.Get(n - 1));
        ghost var moved := data.buffer[..];
        MoveBackward(data, p, n - 1, n);
        forall i | p < i <= n ensures data.buffer[i] == Live(elems[i - 1]) {
          if i < n {
            assert data.buffer[i] == moved[i - 1];
          } else {
            assert data.buffer[i] == moved[i];
          }
        }
        DestroyN(data, p, 1);
        data.Put(p, Live(value));
        forall i | 0 <= i < data.buffer.Length
          ensures data.buffer[i] == if i <= n then Live(after[i]) else Vacant
        {
          if p < i <= n {
            assert after[i] == elems[i - 1];
          }
        }
      }
    }

    /** `Insert(pos, value)`: puts `value` at index `p`, as `Emplace` does. */
    method Insert(p: nat, value: T) returns (r: nat)
      requires Valid() && p <= size
      modifies this, data, data.buffer
      ensures Valid() && data == old(data)
      ensures Contents == Inserted(old(Contents), p, value) && r == p
      ensures Capacity() == CapacityForOneMore(old(size), old(Capacity()))
      ensures old(size) < old(Capacity()) ==> data.buffer == old(data.buffer)
      ensures old(size) == old(Capacity()) ==> fresh(data.buffer)
    {
      r := Emplace(p, value);
    }

    /** `Erase(pos)`: shifts the elements after index `p` one place left,
        destroys the vacated last slot and returns `p`, now the index of the
        element that followed the erased one. The block stays. */
    method Erase(p: nat) returns (r: nat)
      requires Valid() && p < size
      modifies this, data.buffer
      ensures Valid() && data == old(data) && data.buffer == old(data.buffer)
      ensures Contents == Erased(old(Contents), p) && r == p
    {
      ghost var after := Erased(Contents, p);
      MoveRange(data, p + 1, size, p);
      DestroyN(data, size - 1, 1);
      forall i | 0 <= i < data.buffer.Length
        ensures data.buffer[i] == if i < size - 1 then Live(after[i]) else Vacant
      {
        if p <= i < size - 1 {
          assert after[i] == Contents[i + 1];
        }
      }
      size := size - 1;
      Contents := after;
      r := p;
    }
  }
}
