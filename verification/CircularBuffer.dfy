/**
 The circular buffer that both the bounded queue (03_threads/producer_consumer/queue.c) and the
 thread pool (03_threads/thread_pool/thread_pool.c) keep under their mutex: an array, the index
 of the first item and the number of items.
 */
module CircularBuffer {

  /** `a % cap` for the sums that occur, which are below `2 * cap` (see `Wrapped`). */
  function Wrap(a: nat, cap: nat): (i: nat)
    requires a < 2 * cap
    ensures i < cap
  {
    if a < cap then a else a - cap
  }

  lemma Wrapped(a: nat, cap: nat)
    requires a < 2 * cap
    ensures Wrap(a, cap) == a % cap
  {
  }

  datatype Ring<T> = Ring(items: seq<T>, front: nat, size: nat) {
    predicate Valid() {
      front < |items| && size <= |items|
    }

    function Capacity(): nat { |items| }

    function At(i: nat): T
      requires front < |items| && i < |items|
    {
      items[Wrap(front + i, |items|)]
    }

    function Push(x: T): Ring<T>
      requires front < |items| && size < |items|
    {
      Ring(items[Wrap(front + size, |items|) := x], front, size + 1)
    }

    function Pop(): Ring<T>
      requires front < |items| && size > 0
    {
      Ring(items, Wrap(front + 1, |items|), size - 1)
    }
  }

  /** The items in queue order, oldest first. */
  ghost function Contents<T>(r: Ring<T>): (s: seq<T>)
    requires r.Valid()
    ensures |s| == r.size
  {
    seq(r.size, i requires 0 <= i < r.size => r.At(i))
  }

  lemma PushAppends<T>(r: Ring<T>, x: T)
    requires r.Valid() && r.size < r.Capacity()
    ensures r.Push(x).Valid() && r.Push(x).Capacity() == r.Capacity()
    ensures Contents(r.Push(x)) == Contents(r) + [x]
  {
  }

  lemma PopRemovesFirst<T>(r: Ring<T>)
    requires r.Valid() && r.size > 0
    ensures r.Pop().Valid() && r.Pop().Capacity() == r.Capacity()
    ensures Contents(r) == [r.At(0)] + Contents(r.Pop())
  {
  }

  /** The buffer as the C code holds it: updated in place. */
  class Buffer<T(0)> {
    const items: array<T>
    var front: nat
    var size: nat

    ghost function View(): Ring<T>
      reads this, items
    {
      Ring(items[..], front, size)
    }

    ghost predicate Valid()
      reads this, items
    {
      View().Valid()
    }

    constructor (capacity: nat)
      requires capacity > 0
      ensures Valid() && fresh(items) && items.Length == capacity && Contents(View()) == []
    {
      items := new T[capacity];
      front, size := 0, 0;
    }

    method Enqueue(x: T)
      requires Valid() && size < items.Length
      modifies this, items
      ensures Valid() && View() == old(View()).Push(x)
      ensures Contents(View()) == old(Contents(View())) + [x]
    {
      PushAppends(View(), x);
      Wrapped(front + size, items.Length);
      var back := (front + size) % items.Length;
      items[back] := x;
      size := size + 1;
      assert items[..] == old(items[..])[back := x];
    }

    method Dequeue() returns (x: T)
      requires Valid() && size > 0
      modifies this
      ensures Valid() && View() == old(View()).Pop()
      ensures [x] + Contents(View()) == old(Contents(View()))
    {
      PopRemovesFirst(View());
      Wrapped(front + 1, items.Length);
      x := items[front];
      front := (front + 1) % items.Length;
      size := size - 1;
    }
  }
}
