/** Client call sequences on the vector class: the behaviours its users rely
    on, proved of whole call sequences rather than of one call. */
module VectorUsage {
  import opened VectorSpec
  import opened AdvancedVector

  /** Appending the elements of `xs` one by one to an empty vector leaves them
      in push order, with the capacity that `CapacityAfterAppends` predicts. */
  method AppendAll<T>(xs: seq<T>) returns (v: Vector<T>)
    ensures v.Valid() && v.Contents == xs
    ensures v.Capacity() == CapacityAfterAppends(0, 0, |xs|)
  {
    v := new Vector<T>();
    var k := 0;
    while k < |xs|
      invariant k <= |xs|
      invariant fresh(v) && fresh(v.data) && fresh(v.data.buffer)
      invariant v.Valid() && v.Contents == xs[..k]
      invariant v.Capacity() == CapacityAfterAppends(0, 0, k)
    {
      CapacityAfterAppendsSplit(0, 0, k);
      v.PushBack(xs[k]);
      k := k + 1;
    }
  }

  /** After `Reserve(k)` on an empty vector, `k` appends never replace the
      block: `reallocated` records whether any of them did. */
  method ReserveThenAppend<T>(k: nat, x: T) returns (v: Vector<T>, reallocated: bool)
    ensures !reallocated
    ensures v.Valid() && v.Contents == Repeat(x, k) && v.Capacity() == k
  {
    v := new Vector<T>();
    v.Reserve(k);
    var block := v.data.buffer;
    reallocated := false;
    var n := 0;
    while n < k
      invariant n <= k
      invariant fresh(v) && fresh(v.data) && v.data.buffer == block && fresh(block)
      invariant v.Valid() && v.Contents == Repeat(x, n) && v.Capacity() == k
      invariant !reallocated
    {
      v.PushBack(x);
      reallocated := reallocated || v.data.buffer != block;
      n := n + 1;
    }
  }

  /** A copy shares nothing with its source: appending to the copy leaves the
      source holding what it held. */
  method CopyThenAppend<T>(source: Vector<T>, x: T) returns (copy: Vector<T>)
    requires source.Valid()
    ensures source.Valid() && copy.Valid()
    ensures source.Contents == old(source.Contents)
    ensures copy.Contents == source.Contents + [x]
  {
    copy := new Vector<T>.Copy(source);
    copy.PushBack(x);
  }

  /** Pushing 1, 2, 3 onto an empty vector gives capacity 4 (through 1 and 2);
      inserting 99 at index 1 then gives 1, 99, 2, 3 and erasing index 0 gives
      99, 2, 3. */
  method PushInsertErase() returns (v: Vector<int>, pushedCapacity: nat)
    ensures pushedCapacity == 4
    ensures v.Valid() && v.Contents == [99, 2, 3] && v.Capacity() == 4
  {
    v := new Vector<int>();
    v.PushBack(1);
    v.PushBack(2);
    v.PushBack(3);
    assert v.Contents == [1, 2, 3];
    pushedCapacity := v.Capacity();
    var at := v.Insert(1, 99);
    assert v.Contents == [1, 99, 2, 3];
    at := v.Erase(0);
  }
}
