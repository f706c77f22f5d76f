/** The abstract meaning of the vector's operations: what they do to the
    element sequence `data_[0..size_)` and to the capacity. */
module VectorSpec {

  /** `n` copies of `v`: what value-initialising `n` new slots produces. */
  function Repeat<T>(v: T, n: nat): (r: seq<T>)
    ensures |r| == n
    ensures forall i :: 0 <= i < n ==> r[i] == v
  {
    if n == 0 then [] else Repeat(v, n - 1) + [v]
  }

  /** `s` with `v` placed at index `p`: every element before `p` stays put and
      every element from `p` on moves one place to the right. */
  function Inserted<T>(s: seq<T>, p: nat, v: T): (r: seq<T>)
    requires p <= |s|
    ensures |r| == |s| + 1 && r[p] == v
    ensures forall i :: 0 <= i < p ==> r[i] == s[i]
    ensures forall i :: p < i <= |s| ==> r[i] == s[i - 1]
  {
    s[..p] + [v] + s[p..]
  }

  /** `s` without its element at index `p`: every element after `p` moves one
      place to the left. */
  function Erased<T>(s: seq<T>, p: nat): (r: seq<T>)
    requires p < |s|
    ensures |r| == |s| - 1
    ensures forall i :: 0 <= i < p ==> r[i] == s[i]
    ensures forall i :: p <= i < |s| - 1 ==> r[i] == s[i + 1]
  {
    s[..p] + s[p + 1..]
  }

  /** The sequence `Resize(n)` leaves: the first `n` elements when shrinking,
      `s` followed by value-initialised elements when growing. */
  function Resized<T>(s: seq<T>, n: nat, init: T): (r: seq<T>)
    ensures |r| == n
    ensures forall i :: 0 <= i < n && i < |s| ==> r[i] == s[i]
    ensures forall i :: |s| <= i < n ==> r[i] == init
  {
    if n <= |s| then s[..n] else s + Repeat(init, n - |s|)
  }

  /** The capacity after adding one element to a vector holding `size`
      elements in `capacity` slots: the block is replaced by one of twice the
      size (one slot when empty) exactly when it is full. */
  function CapacityForOneMore(size: nat, capacity: nat): (c: nat)
    requires size <= capacity
    ensures size < c && capacity <= c
    ensures c == capacity <==> size < capacity
    ensures size == capacity ==> c == if capacity == 0 then 1 else 2 * capacity
  {
    if size == capacity then (if size != 0 then capacity * 2 else 1) else capacity
  }

  /** The capacity after `k` appends, starting from `size` elements in
      `capacity` slots. */
  function CapacityAfterAppends(size: nat, capacity: nat, k: nat): nat
    requires size <= capacity
    decreases k
  {
    if k == 0 then capacity
    else CapacityAfterAppends(size + 1, CapacityForOneMore(size, capacity), k - 1)
  }

  /** `n` is 1, 2, 4, 8, ... */
  ghost predicate IsPowerOfTwo(n: nat)
    decreases n
  {
    n == 1 || (n > 1 && n % 2 == 0 && IsPowerOfTwo(n / 2))
  }

  /** Removing an element just inserted gives back the original sequence. */
  lemma EraseUndoesInsert<T>(s: seq<T>, p: nat, v: T)
    requires p <= |s|
    ensures Erased(Inserted(s, p, v), p) == s
  {
    assert Erased(Inserted(s, p, v), p) == s[..p] + s[p..];
    assert s[..p] + s[p..] == s;
  }

  /** Reinserting an erased element at its old place gives back the original. */
  lemma InsertUndoesErase<T>(s: seq<T>, p: nat)
    requires p < |s|
    ensures Inserted(Erased(s, p), p, s[p]) == s
  {
    var r := Inserted(Erased(s, p), p, s[p]);
    assert forall i :: 0 <= i < |s| ==> r[i] == s[i];
  }

  /** Growing with `Resize` and shrinking back to the old size gives back the
      original sequence; resizing to the current size changes nothing. */
  lemma ResizeBackRestores<T>(s: seq<T>, n: nat, init: T)
    requires |s| <= n
    ensures Resized(Resized(s, n, init), |s|, init) == s
    ensures Resized(s, |s|, init) == s
  {
  }

  /** Once `k` more elements fit in the current block, `k` appends never
      reallocate: the capacity stays what it was. */
  lemma {:induction false} AppendsWithinCapacityKeepIt(size: nat, capacity: nat, k: nat)
    requires size + k <= capacity
    ensures CapacityAfterAppends(size, capacity, k) == capacity
    decreases k
  {
    if k > 0 {
      AppendsWithinCapacityKeepIt(size + 1, capacity, k - 1);
    }
  }

  /** Appends never shrink the block, and it always has room for what was
      appended. */
  lemma {:induction false} AppendsNeverShrink(size: nat, capacity: nat, k: nat)
    requires size <= capacity
    ensures capacity <= CapacityAfterAppends(size, capacity, k)
    ensures size + k <= CapacityAfterAppends(size, capacity, k)
    decreases k
  {
    if k > 0 {
      AppendsNeverShrink(size + 1, CapacityForOneMore(size, capacity), k - 1);
    }
  }

  /** Appending `k >= 1` elements to an empty vector goes through capacities
      0, 1, 2, 4, 8, ...: it ends with the least power of two that holds `k`. */
  lemma {:induction false} GrowthFromEmptyDoubles(k: nat)
    requires k >= 1
    ensures IsPowerOfTwo(CapacityAfterAppends(0, 0, k))
    ensures k <= CapacityAfterAppends(0, 0, k) < 2 * k
  {
    if k == 1 {
      assert CapacityAfterAppends(0, 0, 1) == CapacityAfterAppends(1, 1, 0) == 1;
    } else {
      GrowthFromEmptyDoubles(k - 1);
      var c := CapacityAfterAppends(0, 0, k - 1);
      CapacityAfterAppendsSplit(0, 0, k - 1);
      assert CapacityAfterAppends(0, 0, k) == CapacityForOneMore(k - 1, c);
      if k - 1 == c {
        assert (2 * c) / 2 == c;
      }
    }
  }

  /** `k + 1` appends are `k` appends followed by one more. */
  lemma {:induction false} CapacityAfterAppendsSplit(size: nat, capacity: nat, k: nat)
    requires size <= capacity
    ensures size + k <= CapacityAfterAppends(size, capacity, k)
    ensures CapacityAfterAppends(size, capacity, k + 1)
         == CapacityForOneMore(size + k, CapacityAfterAppends(size, capacity, k))
    decreases k
  {
    AppendsNeverShrink(size, capacity, k);
    if k > 0 {
      CapacityAfterAppendsSplit(size + 1, CapacityForOneMore(size, capacity), k - 1);
    }
  }
}
