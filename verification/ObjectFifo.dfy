/**
 The object fifo of fd_object_fifo.c, first as it runs in one thread, then with a producer and a consumer that interleave
 at every read and write of the shared indices. An object is any value of type `T`; a slot holds one.
*/
module ObjectFifo {
  import opened Arithmetic

  /** The place `i` slots after `head`, around the end of the ring. */
  function Place(size: nat, head: nat, i: nat): (p: nat)
    requires head < size && i < size
    ensures p < size
  {
    if head + i < size then head + i else head + i - size
  }

  /** `fd_object_fifo_get_count`, from one reading of each index. */
  function Count(size: nat, head: nat, tail: nat): (n: nat)
    requires head < size && tail < size
    ensures n < size && Place(size, head, n) == tail
  {
    if head <= tail then tail - head else size - head + tail
  }

  /** The next place. */
  function Next(size: nat, p: nat): (q: nat)
    requires p < size
    ensures q < size
  {
    if p + 1 >= size then 0 else p + 1
  }

  /** The remainder with which `fd_object_fifo_view` finds a place. */
  lemma PlaceByRemainder(size: nat, head: nat, i: nat)
    requires head < size && i < size
    ensures (head + i) % size == Place(size, head, i)
  {
    var x := head + i;
    if x < size {
      DivisionIs(x, size, 0, x);
    } else {
      assert (x - size + size) % size == (x - size) % size by {
        RemainderOfSum(x - size, size);
      }
      DivisionIs(x - size, size, 0, x - size);
    }
  }

  lemma RemainderOfSum(x: nat, n: nat)
    requires x < n
    ensures (x + n) % n == x % n
  {
    DivisionIs(x, n, 0, x);
    assert x + n == 1 * n + x;
    QuotientIsUnique(1, x, (x + n) / n, (x + n) % n, n);
  }

  /** Committed objects, oldest first, in their slots. */
  ghost predicate Holds<T>(buffer: seq<T>, head: nat, queue: seq<T>) {
    && head < |buffer| && |queue| < |buffer|
    && forall i :: 0 <= i < |queue| ==> buffer[Place(|buffer|, head, i)] == queue[i]
  }

  function Queue<T>(s: seq<T>, head: nat, tail: nat): (queue: seq<T>)
    requires head < |s| && tail < |s|
    ensures |queue| == Count(|s|, head, tail)
  {
    seq(Count(|s|, head, tail), i requires 0 <= i < Count(|s|, head, tail) => s[Place(|s|, head, i)])
  }

  /** Writing the slot behind the last committed object changes none of them; committing it appends it. */
  lemma HoldsOneMore<T>(buffer: seq<T>, head: nat, queue: seq<T>, item: T)
    requires Holds(buffer, head, queue)
    ensures Holds(buffer[Place(|buffer|, head, |queue|) := item], head, queue)
    ensures |queue| + 1 < |buffer| ==>
              Holds(buffer, head, queue + [buffer[Place(|buffer|, head, |queue|)]])
              && Place(|buffer|, head, |queue| + 1) == Next(|buffer|, Place(|buffer|, head, |queue|))
  {
  }

  /** Moving the head on drops the oldest object. */
  lemma HoldsOneLess<T>(buffer: seq<T>, head: nat, queue: seq<T>)
    requires Holds(buffer, head, queue) && queue != []
    ensures queue[0] == buffer[head] && Holds(buffer, Next(|buffer|, head), queue[1..])
    ensures Place(|buffer|, Next(|buffer|, head), |queue| - 1) == Place(|buffer|, head, |queue|)
  {
    var n := |buffer|;
    assert buffer[Place(n, head, 0)] == queue[0];
    forall i | 0 <= i < |queue| - 1 ensures buffer[Place(n, Next(n, head), i)] == queue[1..][i] {
      assert Place(n, Next(n, head), i) == Place(n, head, i + 1);
      assert buffer[Place(n, head, i + 1)] == queue[i + 1];
    }
  }

  // ---------------------------------------------------------------- in one thread

  class Fifo<T> {
    const buffer: array<T>
    var head: nat
    var tail: nat
    var isAllocated: bool
    var failures: nat

    ghost predicate Valid()
      reads this, buffer
    {
      && head < buffer.Length && tail < buffer.Length
      && (isAllocated ==> Count(buffer.Length, head, tail) + 1 < buffer.Length)
    }

    ghost function Contents(): (queue: seq<T>)
      requires Valid()
      reads this, buffer
      ensures |queue| == Count(buffer.Length, head, tail)
    {
      Queue(buffer[..], head, tail)
    }

    constructor (buffer: array<T>)
      requires buffer.Length >= 1
      ensures Valid() && Contents() == [] && !isAllocated && failures == 0 && this.buffer == buffer
    {
      this.buffer := buffer;
      head, tail, isAllocated, failures := 0, 0, false, 0;
    }

    lemma ContentsAreHeld()
      requires Valid()
      ensures Holds(buffer[..], head, Contents()) && tail == Place(buffer.Length, head, |Contents()|)
    {
    }

    lemma HeldAreContents(queue: seq<T>)
      requires Valid() && Holds(buffer[..], head, queue) && tail == Place(buffer.Length, head, |queue|)
      ensures Contents() == queue
    {
    }

    /** `fd_object_fifo_allocate`: the slot to fill, unless one is waiting already or none is free. */
    method Allocate() returns (slot: int)
      requires Valid()
      modifies this`isAllocated, this`failures
      ensures Valid() && Contents() == old(Contents())
      ensures failures == old(failures) + if old(isAllocated) then 1 else 0
      ensures slot == if !old(isAllocated) && |Contents()| + 1 < buffer.Length then tail else -1
      ensures isAllocated == (old(isAllocated) || slot >= 0)
    {
      if isAllocated {
        failures := failures + 1;
        return -1;
      }
      if Count(buffer.Length, head, tail) >= buffer.Length - 1 {
        return -1;
      }
      isAllocated := true;
      slot := tail;
    }

    /** The owner of the slot fills it: no committed object changes. */
    method Fill(item: T)
      requires Valid() && isAllocated
      modifies buffer
      ensures Valid() && Contents() == old(Contents()) && buffer[tail] == item
    {
      ContentsAreHeld();
      HoldsOneMore(buffer[..], head, Contents(), item);
      ghost var queue, s := Contents(), buffer[..];
      buffer[tail] := item;
      assert buffer[..] == s[tail := item];
      HeldAreContents(queue);
    }

    /** `fd_object_fifo_commit`: what is in the slot is now the newest object. */
    method Commit()
      requires Valid()
      modifies this
      ensures Valid() && !isAllocated && failures == old(failures) + if old(isAllocated) then 0 else 1
      ensures Contents() == if old(isAllocated) then old(Contents()) + [buffer[old(tail)]] else old(Contents())
    {
      if !isAllocated {
        failures := failures + 1;
        return;
      }
      ContentsAreHeld();
      HoldsOneMore(buffer[..], head, Contents(), buffer[tail]);
      ghost var queue := Contents() + [buffer[tail]];
      tail := Next(buffer.Length, tail);
      isAllocated := false;
      HeldAreContents(queue);
    }

    /** `fd_object_fifo_view`: the slot of the n-th committed object. */
    method View(index: nat) returns (slot: int)
      requires Valid()
      ensures if index < |Contents()| then 0 <= slot < buffer.Length && buffer[slot] == Contents()[index] else slot == -1
    {
      if index >= Count(buffer.Length, head, tail) {
        return -1;
      }
      PlaceByRemainder(buffer.Length, head, index);
      slot := (head + index) % buffer.Length;
    }

    /** `fd_object_fifo_deallocate`: the oldest object is gone. */
    method Deallocate()
      requires Valid()
      modifies this
      ensures Valid() && failures == old(failures) + if old(Contents()) == [] then 1 else 0
      ensures Contents() == if old(Contents()) == [] then [] else old(Contents())[1..]
      ensures isAllocated == old(isAllocated) && tail == old(tail)
    {
      if head == tail {
        failures := failures + 1;
        return;
      }
      ContentsAreHeld();
      HoldsOneLess(buffer[..], head, Contents());
      ghost var queue := Contents()[1..];
      head := Next(buffer.Length, head);
      HeldAreContents(queue);
    }
  }
}
