# advanced-vector in Dafny

A model of `advanced-vector/vector.h`, a growable array built from two class
templates:

- `RawMemory<T>` owns one block of `capacity` uninitialised slots. It allocates
  and releases the block, hands out slot addresses, and swaps or moves the
  block between owners. Apart from its move assignment, which runs
  `destroy_n` over the target's whole capacity first, it never constructs or
  destroys an element.
- `Vector<T>` owns a `RawMemory<T>` and a `size`. Slots `[0, size)` hold the
  elements in order and the rest are uninitialised. When an append or insert
  meets a full block, it moves to a new block of twice the capacity (one slot
  when empty). `Reserve` allocates exactly what it is asked for. Copy
  assignment reuses the block when the right-hand side fits. The move
  constructor takes over the other vector's block; move assignment and `Swap`
  exchange blocks.

The model has these modules:

- `RawStorage` (`raw_memory.dfy`): a slot is `Vacant` (raw memory) or
  `Live(value)` (a constructed object). `RawMemory` is a class over an
  `array<Slot<T>>` whose length is the capacity. A zero-length array stands
  for the null block.
- `SlotAlgorithms` (`slot_algorithms.dfy`): the standard-library routines the
  vector calls on raw storage, as loops over the array:
  - `uninitialized_copy_n` and `uninitialized_move_n`, and their range forms
    `uninitialized_copy` and `uninitialized_move`;
  - `uninitialized_value_construct_n`;
  - `destroy_n`;
  - `move_backward` and `move`.

  A C++ pointer `mem + k` becomes the pair (`mem`, `k`). Each routine demands
  the slot states C++ demands: construction needs vacant targets, assignment
  and destruction need live objects.
- `VectorSpec` (`vector_spec.dfy`): what each operation does to the element
  sequence (`Inserted`, `Erased`, `Resized`, `Repeat`) and to the capacity
  (`CapacityForOneMore`, `CapacityAfterAppends`). It also holds the lemmas
  relating them: undoing an insert or an erase, resizing back, and the
  doubling growth law.
- `AdvancedVector` (`vector.dfy`): the `Vector` class. Its ghost field
  `Contents` is the element sequence. `Valid()` says that slots `[0, size)`
  hold `Contents` and every later slot is vacant. Every public operation
  keeps `Valid()` and states its new `Contents`, capacity and block. Some
  state them directly from the old state and `rhs`; the others state them
  through `Repeat`, `Resized`, `Inserted`, `Erased` and `CapacityForOneMore`. The helpers `AssignReusing`, `InsertGrowing`, `GrownAround`
  and `InsertInPlace` leave `size` to their caller. Instead of keeping
  `Valid()`, they state what the block holds.
- `MoveSemantics` (`move_semantics.dfy`): the in-place insertion over cells
  that can also be moved-from. This is where the finding below is shown.
- `VectorUsage` (`vector_usage.dfy`): client call sequences. They cover:
  - appends from empty follow the growth law;
  - `Reserve(k)` followed by `k` appends never reallocates;
  - a copy is independent of its source;
  - the push / insert / erase scenario.

The model treats elements as values: moving an element leaves its source as it
was. That makes the C++ `if constexpr` choice between moving and copying one
copy. It also makes each overload pair one method:
- `PushBack(const T&)` and `PushBack(T&&)` are one `PushBack` over `EmplaceBack`;
- `Insert(pos, const T&)` and `Insert(pos, T&&)` are one `Insert` over `Emplace`.

Iterators are indices. The value `T()` is a parameter `init`.

## Model

| member | source | states |
|---|---|---|
| RawStorage.RawMemory.constructor | advanced-vector/vector.h:35-38 | a fresh block of exactly `capacity` slots, all uninitialised (capacity 0 is the default-constructed, block-less owner) |
| RawStorage.RawMemory.Take | advanced-vector/vector.h:18-24 | the move constructor takes over the other owner's block itself and leaves it with capacity 0 |
| RawStorage.RawMemory.Capacity | advanced-vector/vector.h:75-77 | the capacity is the slot count of the block |
| RawStorage.RawMemory.Get | advanced-vector/vector.h:53-60 | a read through `operator[]`, for an index below the capacity, yields that slot |
| RawStorage.RawMemory.Swap | advanced-vector/vector.h:62-65 | the two owners exchange blocks, and so capacities |
| RawStorage.RawMemory.Put | advanced-vector/vector.h:44-60 | a write through `operator[]`/`operator+` changes the addressed slot, which must be below the capacity, and no other |
| SlotAlgorithms.UninitializedCopyN | advanced-vector/vector.h:108 | (also the range forms at advanced-vector/vector.h:294-295) `count` objects are constructed in the vacant target slots from the live source slots; every other target slot is unchanged |
| SlotAlgorithms.UninitializedValueConstructN | advanced-vector/vector.h:101 | `count` vacant slots come to hold the value-initialised element; nothing else changes |
| SlotAlgorithms.DestroyN | advanced-vector/vector.h:128 | `count` live slots become uninitialised; nothing else changes |
| SlotAlgorithms.MoveBackward | advanced-vector/vector.h:323 | the live range `[first, last)` is assigned to the live range ending at `dLast`, each slot receiving the object that was `dLast - last` places to its left |
| SlotAlgorithms.MoveRange | advanced-vector/vector.h:428 | the live range `[first, last)` is assigned to the range starting at `dFirst`, each slot receiving the object `first - dFirst` places to its right |
| AdvancedVector.Vector.constructor | advanced-vector/vector.h:95 | an empty vector with capacity 0 |
| AdvancedVector.Vector.Sized | advanced-vector/vector.h:97-102 | `n` value-initialised elements in a block of exactly `n` slots |
| AdvancedVector.Vector.Copy | advanced-vector/vector.h:104-109 | the same elements as `other` in a fresh block of exactly `other.size_` slots |
| AdvancedVector.Vector.Take | advanced-vector/vector.h:111-116 | the new vector holds `rhs`'s elements in `rhs`'s own block (no element copied); `rhs` is left empty with capacity 0 |
| AdvancedVector.Vector.Assign | advanced-vector/vector.h:118-140 | copy assignment yields `rhs`'s elements; the block and its capacity are kept when `rhs.size_` fits, otherwise a fresh block of exactly `rhs.size_`; self-assignment changes nothing |
| AdvancedVector.Vector.AssignReusing | advanced-vector/vector.h:123-137 | assigning over the common prefix, then destroying the surplus or copy-constructing the rest, leaves the block holding exactly `rhs`'s elements |
| AdvancedVector.Vector.MoveAssign | advanced-vector/vector.h:142-147 | move assignment exchanges elements and blocks with `rhs`, unless `rhs` is this vector |
| AdvancedVector.Vector.Swap | advanced-vector/vector.h:149-152 | the two vectors exchange storage owners and element sequences |
| AdvancedVector.Vector.Size | advanced-vector/vector.h:154-156 | the size is the length of the element sequence |
| AdvancedVector.Vector.Capacity | advanced-vector/vector.h:158-160 | the capacity is the block's slot count and never below the size |
| AdvancedVector.Vector.Get | advanced-vector/vector.h:162-169 | for an index below the size, the element at that index |
| AdvancedVector.Vector.Reserve | advanced-vector/vector.h:171-184 | elements unchanged; nothing happens when the capacity suffices, otherwise a fresh block of exactly the requested capacity |
| AdvancedVector.Vector.Resize | advanced-vector/vector.h:186-196 | the elements become `Resized(old, n, init)`: truncated, or extended with value-initialised elements after a `Reserve(n)`; the capacity becomes the larger of the old one and `n`, in the same block when `n` fits and a fresh one otherwise |
| AdvancedVector.Vector.PushBack | advanced-vector/vector.h:198-236 | the value is appended; the capacity becomes `CapacityForOneMore`: unchanged (same block) below capacity, otherwise a fresh block of twice the capacity, or 1 when empty |
| AdvancedVector.Vector.EmplaceBack | advanced-vector/vector.h:243-263 | as `PushBack`, and the returned element is the one appended |
| AdvancedVector.Vector.PopBack | advanced-vector/vector.h:238-241 | on a non-empty vector the last element is removed; the block stays |
| AdvancedVector.Vector.Emplace | advanced-vector/vector.h:379-424 | the elements become `Inserted(old, p, value)`, the result is `p`, and the capacity follows `CapacityForOneMore` with the same block exactly when not full |
| AdvancedVector.Vector.InsertGrowing | advanced-vector/vector.h:382-409 | on a full block: a fresh block of twice the capacity (1 when empty) holds the inserted sequence |
| AdvancedVector.Vector.GrownAround | advanced-vector/vector.h:383-405 | the new block holds the new element at `p`, the prefix before it and the suffix after it, and is vacant beyond |
| AdvancedVector.Vector.InsertInPlace | advanced-vector/vector.h:410-421 | on a block with room, with the moves in the corrected order (see Findings): the block holds the inserted sequence and is vacant beyond |
| AdvancedVector.Vector.Insert | advanced-vector/vector.h:287-377 | as `Emplace` |
| AdvancedVector.Vector.Erase | advanced-vector/vector.h:426-432 | the elements become `Erased(old, p)`, the result is `p`, and the block stays |
| VectorSpec.Repeat | advanced-vector/vector.h:101 | `n` copies of the value-initialised element |
| VectorSpec.Inserted | advanced-vector/vector.h:379-424 | length grows by one, `v` sits at `p`, the elements before `p` stay put and those from `p` on move one place right |
| VectorSpec.Erased | advanced-vector/vector.h:426-432 | length shrinks by one, the elements before `p` stay put and those after `p` move one place left |
| VectorSpec.Resized | advanced-vector/vector.h:186-196 | length `n`, the common prefix kept, value-initialised elements after the old end |
| VectorSpec.CapacityForOneMore | advanced-vector/vector.h:245-246 | the capacity after one more element is above the old size and never below the old capacity; it changes exactly when the block is full, and then becomes twice the capacity, or 1 from 0 |
| VectorSpec.EraseUndoesInsert | advanced-vector/vector.h:426-432 | erasing at `p` right after inserting at `p` gives back the original sequence |
| VectorSpec.InsertUndoesErase | advanced-vector/vector.h:379-424 | reinserting an erased element at its index gives back the original sequence |
| VectorSpec.ResizeBackRestores | advanced-vector/vector.h:186-196 | resizing up and back to the old size restores the sequence; resizing to the current size changes nothing |
| VectorSpec.AppendsWithinCapacityKeepIt | advanced-vector/vector.h:199 | appends that fit in the block never change the capacity |
| VectorSpec.AppendsNeverShrink | advanced-vector/vector.h:199-200 | appends never shrink the block, and it always holds everything appended |
| VectorSpec.GrowthFromEmptyDoubles | advanced-vector/vector.h:199-200 | `k >= 1` appends from empty end with a power of two capacity `c`, `k <= c < 2k` (the 0, 1, 2, 4, 8, ... sequence) |
| VectorSpec.CapacityAfterAppendsSplit | advanced-vector/vector.h:199-200 | `k + 1` appends are `k` appends followed by one more |
| MoveSemantics.Move | advanced-vector/vector.h:415 | a move over cells: the target takes the source's content, the source is left moved-from, every other cell is unchanged |
| MoveSemantics.MoveBackward | advanced-vector/vector.h:416 | `std::move_backward` over cells: each cell of the target range ending at `dLast` takes the content `dLast - last` places to its left; source cells not overwritten are left moved-from; cells between the two ranges and outside `[first, dLast)` are unchanged |
| MoveSemantics.InsertInPlaceAsWritten | advanced-vector/vector.h:415-419 | the in-place steps as written: `v` lands at `p`, the cells strictly between `p` and `size` take their left neighbour's content, and cell `size` (or `size - 1` when inserting at the end) is left moved-from; the others are unchanged |
| MoveSemantics.InsertInPlace | advanced-vector/vector.h:410-421 | the in-place steps in the corrected order: `v` lands at `p`, every cell in `(p, size]` takes its left neighbour's content, and the others are unchanged |
| MoveSemantics.AsWrittenLosesAnElement | advanced-vector/vector.h:415-416 | as written, the in-place insert into a non-empty vector leaves a moved-from cell where the inserted sequence has an element |
| MoveSemantics.LostElementExample | advanced-vector/vector.h:415-419 | inserting 9 at the front of 1, 2 (capacity 3) gives 9, 1, moved-from as written and 9, 1, 2 in the intended order |
| MoveSemantics.InsertInPlaceInserts | advanced-vector/vector.h:410-421 | with the intended moves, the first `size + 1` cells hold the inserted sequence and the cells after them are untouched |
| VectorUsage.AppendAll | advanced-vector/vector.h:198-216 | appending `xs` to an empty vector gives `xs` in push order, with the capacity `CapacityAfterAppends` predicts for that many appends from empty |
| VectorUsage.ReserveThenAppend | advanced-vector/vector.h:171-184 | after `Reserve(k)` on an empty vector, `k` appends never replace the block, and the capacity stays `k` |
| VectorUsage.CopyThenAppend | advanced-vector/vector.h:104-109 | appending to a copy leaves the source's elements as they were |
| VectorUsage.PushInsertErase | advanced-vector/vector.h:287-331 | push 1, 2, 3 gives capacity 4; inserting 99 at 1 and then erasing index 0 gives 99, 2, 3 |

## Left out

- Exceptions are not modelled: allocation failure, element constructors
  that throw, and the `try`/`catch` rollback in `Insert`/`Emplace`
  (advanced-vector/vector.h:298-311). With value semantics nothing can fail.
- The `if constexpr` choice between moving and copying
  (`is_nothrow_move_constructible`) is not modelled, because the two are one
  copy when elements are values. Moved-from states appear only in
  `MoveSemantics`.
- `operator new`, `operator delete`, placement `new` and the destructors are
  not modelled separately. Allocation is a fresh array, release is dropping it,
  construction stores `Live(v)` and destruction stores `Vacant`. The
  destructors are not modelled: `~Vector` (advanced-vector/vector.h:434-436)
  destroys the live elements and `~RawMemory` (advanced-vector/vector.h:40-42)
  then releases the block. After either, nothing reads the object, and
  dropping an array observes nothing under garbage collection.
- `RawMemory::operator=(RawMemory&&)` (advanced-vector/vector.h:26-33) is not
  modelled as a member of its own. The vector reaches it only through
  `std::swap(data_, other.data_)` in `Vector::Swap`
  (advanced-vector/vector.h:150). There `std::swap` move-constructs a
  temporary and then move-assigns twice, and each target has just been emptied.
  So the `destroy_n` at advanced-vector/vector.h:27 runs over 0 slots and the
  whole exchange amounts to swapping the fields. `RawStorage.RawMemory.Swap`
  and `AdvancedVector.Vector.Swap` model it that way.
- The iterators `begin`/`end`/`cbegin`/`cend` (advanced-vector/vector.h:265-285)
  and `GetAddress` are not modelled. Positions are indices into the block, and
  the `const` overloads are the same reads.
- Variadic construction (`Args&&...`) is replaced by the finished value `value`.
  `T()` is the parameter `init`.
- `size_t` arithmetic is unbounded (`nat`), so the overflow of
  `capacity * 2` or `n * sizeof(T)` is not modelled.
- `operator[]` and `EmplaceBack` return `T&`, through which callers can
  write an element. The model returns values, so writes through the
  returned references are not modelled.
- Aliasing between the inserted value and an element of the same vector is not
  modelled. The argument is a value, not a reference into the block.
- The preconditions that the C++ code leaves undefined become `requires`
  clauses:
  - an index below the size;
  - `PopBack` on a non-empty vector;
  - an insert position at most the size;
  - an erase position below the size.
- AdvancedVector.Vector.Assign requires that two distinct vectors do not share a
  block. This is the exclusive ownership that C++ enforces by deleting
  `RawMemory`'s copy operations.
- AdvancedVector.Vector.InsertInPlace uses the corrected order of moves from
  the finding below. The order as written is modelled only over cells in
  `MoveSemantics`, where a move can empty its source.

## Findings

| source | as written | input that shows it | evidently intended | confidence | as-written member | corrected member |
|---|---|---|---|---|---|---|
| advanced-vector/vector.h:415-416 (also 322-323 and 368-369) | with room in the block and a non-empty vector, slot `size` is move-constructed from `data_[size-1]`, then `move_backward(pos, end(), end() + 1)` shifts `[pos, size)`, move-assigning slot `size` again from the already moved-from `data_[size-1]`; when `pos == end()` the moved element is destroyed and `data_[size-1]` stays moved-from | vector holding strings "a", "b" with capacity 3, insert "x" at index 0: the result is "x", "a", moved-from (empty string) | `move_backward(pos, end() - 1, end())` after the first move, and plain construction in slot `size` when inserting at the end | high, not executed | MoveSemantics.AsWrittenLosesAnElement | MoveSemantics.InsertInPlaceInserts |

The class model (`AdvancedVector.Vector.InsertInPlace`) uses the corrected
order. Under value semantics a move leaves its source as it was, so the order
as written would also give the right sequence there. The difference shows only
for element types whose move empties the source, which `MoveSemantics` models.
