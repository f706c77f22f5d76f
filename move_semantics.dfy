/** The in-place path of `Insert`/`Emplace` once a move really empties its
    source, as moving a string or an owning pointer does. The vector class
    treats elements as values, where a move leaves its source as it was; here a
    slot can also hold a moved-from object, which is live but holds nothing.
    Under that reading the code as written loses one element, and the
    corrected order of moves does not. */
module MoveSemantics {
  import opened VectorSpec

  /** A slot: nothing constructed, a live object holding a value, or a live
      object that was moved from. */
  datatype Cell<T> = Vacant | Holds(value: T) | MovedFrom

  /** Move-constructs or move-assigns slot `dst` from slot `src`: `dst` takes
      what `src` held and `src` is left moved-from. */
  function Move<T>(s: seq<Cell<T>>, dst: nat, src: nat): (r: seq<Cell<T>>)
    requires dst < |s| && src < |s| && dst != src
    ensures |r| == |s| && r[dst] == s[src] && r[src] == MovedFrom
    ensures forall i :: 0 <= i < |s| && i != dst && i != src ==> r[i] == s[i]
  {
    s[dst := s[src]][src := MovedFrom]
  }

  /** `std::move_backward(first, last, dLast)` over the cells: moves
      `[first, last)` to the range ending at `dLast`, last cell first. Every
      target cell receives what the cell `dLast - last` places to its left
      held, the source cells not overwritten are left moved-from, and every
      other cell keeps its content. */
  function MoveBackward<T>(s: seq<Cell<T>>, first: nat, last: nat, dLast: nat): (r: seq<Cell<T>>)
    requires first <= last < dLast <= |s|
    ensures |r| == |s|
    ensures forall i :: 0 <= i < |s| && (i < first || dLast <= i) ==> r[i] == s[i]
    ensures forall i :: dLast - (last - first) <= i < dLast ==> r[i] == s[i - (dLast - last)]
    ensures forall i :: first <= i < last && i < dLast - (last - first) ==> r[i] == MovedFrom
    ensures forall i :: last <= i < dLast - (last - first) ==> r[i] == s[i]
    decreases last - first
  {
    if first == last then s
    else MoveBackward(Move(s, dLast - 1, last - 1), first, last - 1, dLast - 1)
  }

  /** The in-place insertion of `v` at `p` into the `size` cells at the front
      of `s`, as the code is written: the last element is moved into cell
      `size`, then `move_backward(pos, end(), end() + 1)` moves `[p, size)` one
      place right, starting by moving cell `size - 1` (already moved from) into
      cell `size`; finally the object in cell `p` is destroyed and `v`
      constructed there. */
  function InsertInPlaceAsWritten<T>(s: seq<Cell<T>>, size: nat, p: nat, v: T): (r: seq<Cell<T>>)
    requires 0 < size < |s| && p <= size
    ensures |r| == |s| && r[p] == Holds(v)
    ensures forall i :: 0 <= i < |s| && ((i < p && i != size - 1) || size < i) ==> r[i] == s[i]
    ensures forall i :: p < i < size ==> r[i] == s[i - 1]
    ensures p < size ==> r[size] == MovedFrom
    ensures p == size ==> r[size - 1] == MovedFrom
  {
    var moved := Move(s, size, size - 1);
    var shifted := MoveBackward(moved, p, size, size + 1);
    shifted[p := Holds(v)]
  }

  /** The in-place insertion with the moves in the order intended: the last
      element is moved into cell `size`, then `move_backward(pos, end() - 1,
      end())` moves only `[p, size - 1)`; inserting at the end just constructs
      `v` in cell `size`. */
  function InsertInPlace<T>(s: seq<Cell<T>>, size: nat, p: nat, v: T): (r: seq<Cell<T>>)
    requires size < |s| && p <= size
    ensures |r| == |s| && r[p] == Holds(v)
    ensures forall i :: 0 <= i < |s| && (i < p || size < i) ==> r[i] == s[i]
    ensures forall i :: p < i <= size ==> r[i] == s[i - 1]
  {
    if p == size then s[size := Holds(v)]
    else
      var moved := Move(s, size, size - 1);
      var shifted := MoveBackward(moved, p, size - 1, size);
      shifted[p := Holds(v)]
  }

  /** The code as written loses an element: whenever the vector is not empty,
      one of the first `size + 1` cells is left moved-from where the inserted
      sequence has an element. */
  lemma AsWrittenLosesAnElement<T>(s: seq<Cell<T>>, xs: seq<T>, p: nat, v: T)
    requires 0 < |xs| < |s| && p <= |xs|
    requires forall i :: 0 <= i < |xs| ==> s[i] == Holds(xs[i])
    ensures var lost := if p < |xs| then |xs| else |xs| - 1;
      InsertInPlaceAsWritten(s, |xs|, p, v)[lost] == MovedFrom != Holds(Inserted(xs, p, v)[lost])
  {
  }

  /** With the moves in the intended order the first `size + 1` cells hold the
      inserted sequence and the cells after them are untouched. */
  lemma InsertInPlaceInserts<T>(s: seq<Cell<T>>, xs: seq<T>, p: nat, v: T)
    requires |xs| < |s| && p <= |xs|
    requires forall i :: 0 <= i < |xs| ==> s[i] == Holds(xs[i])
    ensures forall i :: 0 <= i <= |xs| ==> InsertInPlace(s, |xs|, p, v)[i] == Holds(Inserted(xs, p, v)[i])
    ensures forall i :: |xs| < i < |s| ==> InsertInPlace(s, |xs|, p, v)[i] == s[i]
  {
    var size := |xs|;
    var r := InsertInPlace(s, size, p, v);
    var ins := Inserted(xs, p, v);
    if p < size {
      var moved := Move(s, size, size - 1);
      var shifted := MoveBackward(moved, p, size - 1, size);
      assert r == shifted[p := Holds(v)];
      forall i | 0 <= i <= size ensures r[i] == Holds(ins[i]) {
        if i < p {
          assert shifted[i] == moved[i];
        } else if i == p {
        } else if i < size {
          assert shifted[i] == moved[i - 1];
        } else {
          assert shifted[i] == moved[i];
        }
      }
      forall i | size < i < |s| ensures r[i] == s[i] {
        assert shifted[i] == moved[i];
      }
    }
  }

  /** The smallest case: inserting 9 at the front of the two elements 1, 2
      held in three cells. As written, the element 2 is lost; in the intended
      order it is not. */
  lemma LostElementExample()
    ensures InsertInPlaceAsWritten([Holds(1), Holds(2), Vacant], 2, 0, 9) == [Holds(9), Holds(1), MovedFrom]
    ensures InsertInPlace([Holds(1), Holds(2), Vacant], 2, 0, 9) == [Holds(9), Holds(1), Holds(2)]
  {
    var s := [Holds(1), Holds(2), Vacant];
    var moved := Move(s, 2, 1);
    assert moved == [Holds(1), MovedFrom, Holds(2)];
    assert Move(moved, 2, 1) == [Holds(1), MovedFrom, MovedFrom];
    assert Move(Move(moved, 2, 1), 1, 0) == [MovedFrom, Holds(1), MovedFrom];
    assert Move(moved, 1, 0) == [MovedFrom, Holds(1), Holds(2)];
  }
}
