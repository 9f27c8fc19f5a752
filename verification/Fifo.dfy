/** The byte fifo of fd_fifo.c: a ring in which one place always stays empty, so that equal indices mean empty. */
module ByteFifo {
  import opened Bytes

  class Fifo {
    const buffer: array<byte>
    var head: nat
    var tail: nat

    ghost predicate Valid()
      reads this
    {
      head < buffer.Length && tail < buffer.Length
    }

    /** The bytes put and not yet got, oldest first. */
    ghost function Contents(): (s: seq<byte>)
      requires Valid()
      reads this, buffer
      ensures |s| < buffer.Length
    {
      if head <= tail then buffer[head..tail] else buffer[head..] + buffer[..tail]
    }

    /** `fd_fifo_initialize`. */
    constructor (data: array<byte>)
      requires 0 < data.Length
      ensures buffer == data && Valid() && Contents() == []
    {
      buffer := data;
      head, tail := 0, 0;
    }

    /** `fd_fifo_flush`. */
    method Flush()
      requires Valid()
      modifies this
      ensures Valid() && Contents() == []
    {
      head, tail := 0, 0;
    }

    /** `fd_fifo_is_empty`. */
    predicate IsEmpty()
      requires Valid()
      reads this, buffer
      ensures IsEmpty() <==> Contents() == []
    {
      assert head > tail ==> |buffer[head..]| > 0;
      assert head < tail ==> |buffer[head..tail]| > 0;
      head == tail
    }

    /** `fd_fifo_get_count`. */
    function GetCount(): (count: nat)
      requires Valid()
      reads this, buffer
      ensures count == |Contents()|
    {
      if head <= tail then tail - head else buffer.Length - head + tail
    }

    /** `fd_fifo_get`: the oldest byte, unless there is none. */
    method Get() returns (ok: bool, data: byte)
      requires Valid()
      modifies this
      ensures Valid()
      ensures ok <==> old(Contents()) != []
      ensures if ok then old(Contents()) == [data] + Contents() else Contents() == []
    {
      ok, data := head != tail, 0;
      if ok {
        data := buffer[head];
        var next := head + 1;
        head := if next >= buffer.Length then 0 else next;
      }
    }

    /** `fd_fifo_put`: refused when only the place that stays empty is left. */
    method Put(data: byte) returns (ok: bool)
      requires Valid()
      modifies this`tail, buffer
      ensures Valid()
      ensures ok <==> |old(Contents())| < buffer.Length - 1
      ensures Contents() == if ok then old(Contents()) + [data] else old(Contents())
    {
      var next := tail + 1;
      if next >= buffer.Length {
        next := 0;
      }
      ok := next != head;
      if ok {
        buffer[tail] := data;
        tail := next;
      }
    }
  }
}
