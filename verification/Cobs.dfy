/** Consistent-overhead byte stuffing as fd_cobs.c does it: in place, with a small ring that reads ahead of the writing. */
module Cobs {
  import opened Bytes
  import opened ByteFifo

  const FULL := 254

  // ---------------------------------------------------------------- what is computed

  /** A block of bytes other than zero, behind its code. */
  function Coded(block: seq<byte>): (s: seq<byte>)
    requires |block| <= FULL
    ensures |s| == |block| + 1 && s[0] == |block| + 1 && s[1..] == block
  {
    [|block| + 1] + block
  }

  /** The encoding of `data` when `block` holds the bytes since the last code. A full block has no zero to stand for. */
  function EncodeFrom(block: seq<byte>, data: seq<byte>): (encoded: seq<byte>)
    requires |block| < FULL
    decreases |data|
  {
    if data == [] then Coded(block)
    else if data[0] == 0 then Coded(block) + EncodeFrom([], data[1..])
    else if |block| + 1 == FULL then Coded(block + [data[0]]) + EncodeFrom([], data[1..])
    else EncodeFrom(block + [data[0]], data[1..])
  }

  function Encode(data: seq<byte>): (encoded: seq<byte>) {
    EncodeFrom([], data)
  }

  /** How many bytes a code and what follows it take, at most as many as there are. */
  function Extent(encoded: seq<byte>): (n: nat)
    requires encoded != [] && encoded[0] != 0
    ensures 1 <= n <= |encoded|
  {
    if encoded[0] <= |encoded| then encoded[0] else |encoded|
  }

  /** Decoding after a block with code `previous`: every block but a full one ends in a zero, which the next code brings. */
  function DecodeFrom(encoded: seq<byte>, previous: byte): (data: seq<byte>)
    decreases |encoded|
  {
    if encoded == [] then []
    else
      (if previous != 0xff then [0] else [])
      + if encoded[0] == 0 then []
        else encoded[1..Extent(encoded)] + DecodeFrom(encoded[Extent(encoded)..], encoded[0])
  }

  function Decode(encoded: seq<byte>): (data: seq<byte>) {
    DecodeFrom(encoded, 0xff)
  }

  // ---------------------------------------------------------------- properties

  predicate HasNoZero(s: seq<byte>) {
    forall i :: 0 <= i < |s| ==> s[i] != 0
  }

  /** A whole block decodes to its bytes. */
  lemma DecodeOfCoded(block: seq<byte>, rest: seq<byte>, previous: byte)
    requires |block| <= FULL
    ensures DecodeFrom(Coded(block) + rest, previous) ==
            (if previous != 0xff then [0] else []) + (block + DecodeFrom(rest, |block| + 1))
  {
    var encoded := Coded(block) + rest;
    assert Extent(encoded) == |block| + 1;
    assert encoded[1..|block| + 1] == block && encoded[|block| + 1..] == rest;
  }

  lemma {:induction false} DecodeOfEncodeFrom(block: seq<byte>, data: seq<byte>, previous: byte)
    requires |block| < FULL
    ensures DecodeFrom(EncodeFrom(block, data), previous) == (if previous != 0xff then [0] else []) + (block + data)
    decreases |data|
  {
    hide DecodeFrom;
    if data == [] {
      DecodeOfCoded(block, [], previous);
      assert Coded(block) + [] == Coded(block);
      NothingToDecode(|block| + 1);
    } else if data[0] == 0 {
      DecodeOfCoded(block, EncodeFrom([], data[1..]), previous);
      DecodeOfEncodeFrom([], data[1..], |block| + 1);
      assert [0] + ([] + data[1..]) == data;
    } else if |block| + 1 == FULL {
      DecodeOfCoded(block + [data[0]], EncodeFrom([], data[1..]), previous);
      DecodeOfEncodeFrom([], data[1..], 0xff);
      assert (block + [data[0]]) + ([] + ([] + data[1..])) == block + data;
    } else {
      DecodeOfEncodeFrom(block + [data[0]], data[1..], previous);
      assert (block + [data[0]]) + data[1..] == block + data;
    }
  }

  lemma NothingToDecode(previous: byte)
    ensures DecodeFrom([], previous) == []
  {
  }

  /** Decoding restores what was encoded. */
  lemma RoundTrip(data: seq<byte>)
    ensures Decode(Encode(data)) == data
  {
    DecodeOfEncodeFrom([], data, 0xff);
    assert [] + ([] + data) == data;
  }

  lemma {:induction false} EncodeFromHasNoZero(block: seq<byte>, data: seq<byte>)
    requires |block| < FULL && HasNoZero(block)
    ensures HasNoZero(EncodeFrom(block, data))
    decreases |data|
  {
    if data == [] {
    } else {
      if data[0] == 0 || |block| + 1 == FULL {
        EncodeFromHasNoZero([], data[1..]);
      } else {
        EncodeFromHasNoZero(block + [data[0]], data[1..]);
      }
    }
  }

  /** How many blocks come out full. */
  function FullBlocks(open: nat, data: seq<byte>): (n: nat)
    requires open < FULL
    decreases |data|
  {
    if data == [] then 0
    else if data[0] == 0 then FullBlocks(0, data[1..])
    else if open + 1 == FULL then 1 + FullBlocks(0, data[1..])
    else FullBlocks(open + 1, data[1..])
  }

  lemma {:induction false} FullBlocksBound(open: nat, data: seq<byte>)
    requires open < FULL
    ensures FULL * FullBlocks(open, data) <= open + |data|
    decreases |data|
  {
    if data == [] {
    } else {
      FullBlocksBound(if data[0] == 0 || open + 1 == FULL then 0 else open + 1, data[1..]);
    }
  }

  lemma {:induction false} EncodeFromLength(block: seq<byte>, data: seq<byte>)
    requires |block| < FULL
    ensures |EncodeFrom(block, data)| == |block| + 1 + |data| + FullBlocks(|block|, data)
    decreases |data|
  {
    if data == [] {
    } else {
      if data[0] == 0 || |block| + 1 == FULL {
        EncodeFromLength([], data[1..]);
      } else {
        EncodeFromLength(block + [data[0]], data[1..]);
      }
    }
  }

  /** No zero byte comes out, and at most one byte in 254 comes on top of the first code. */
  lemma EncodingIsFramed(data: seq<byte>)
    ensures HasNoZero(Encode(data))
    ensures |data| < |Encode(data)| <= |data| + 1 + |data| / FULL
  {
    EncodeFromHasNoZero([], data);
    EncodeFromLength([], data);
    FullBlocksBound(0, data);
  }

  /** Decoding never makes anything longer, whatever the bytes are. */
  lemma {:induction false} DecodingShrinks(encoded: seq<byte>, previous: byte)
    ensures |DecodeFrom(encoded, previous)| <= |encoded| - (if encoded != [] && previous == 0xff then 1 else 0)
    decreases |encoded|
  {
    if encoded != [] && encoded[0] != 0 {
      DecodingShrinks(encoded[Extent(encoded)..], encoded[0]);
    }
  }

  // ---------------------------------------------------------------- encoding in place

  /** A byte that closes a block moves the encoding on to a new one. */
  lemma BlockCloses(done: seq<byte>, block: seq<byte>, data: seq<byte>)
    requires |block| < FULL && data != [] && (data[0] == 0 || |block| + 1 == FULL)
    ensures done + EncodeFrom(block, data) ==
            (done + Coded(if data[0] == 0 then block else block + [data[0]])) + EncodeFrom([], data[1..])
  {
    var whole := if data[0] == 0 then block else block + [data[0]];
    assert EncodeFrom(block, data) == Coded(whole) + EncodeFrom([], data[1..]);
    hide EncodeFrom, Coded;
    Regroup(done, Coded(whole), EncodeFrom([], data[1..]));
  }

  lemma LastBlock(block: seq<byte>, data: seq<byte>)
    requires |block| < FULL && data == []
    ensures EncodeFrom(block, data) == Coded(block) && FullBlocks(|block|, data) == 0
  {
  }

  lemma AllRead(length: nat, size: nat)
    requires size > 0
    ensures Ahead(length, length, size) == length
  {
  }

  /** Any other byte joins the block. */
  lemma BlockGrows(block: seq<byte>, data: seq<byte>)
    requires |block| + 1 < FULL && data != [] && data[0] != 0
    ensures EncodeFrom(block, data) == EncodeFrom(block + [data[0]], data[1..])
  {
  }

  /** The ring is filled first. */
  method ReadAhead(fifo: Fifo, data: array<byte>, n: nat)
    requires fifo.Valid() && fifo.Contents() == [] && data != fifo.buffer
    requires n <= data.Length && n < fifo.buffer.Length
    modifies fifo, fifo.buffer
    ensures fifo.Valid() && fifo.Contents() == data[..n]
  {
    var offset := 0;
    while offset < n
      invariant 0 <= offset <= n && fifo.Valid() && fifo.Contents() == data[..offset]
    {
      var ok := fifo.Put(data[offset]);
      offset := offset + 1;
    }
  }

  /** One turn's reading: the oldest byte of the ring comes out, the next byte of the input goes in. */
  method NextByte(fifo: Fifo, data: array<byte>, offset: nat, length: nat, ghost d: seq<byte>, ghost c: nat)
    returns (next: byte, newOffset: nat)
    requires fifo.Valid() && data != fifo.buffer && c < length == |d| && length <= data.Length
    requires offset == Ahead(length, c, fifo.buffer.Length) && 1 < fifo.buffer.Length
    requires fifo.Contents() == d[c..offset] && data[offset..length] == d[offset..]
    modifies fifo, fifo.buffer
    ensures fifo.Valid() && next == d[c] && newOffset == Ahead(length, c + 1, fifo.buffer.Length)
    ensures c + 1 <= newOffset <= length
    ensures fifo.Contents() == d[c + 1..newOffset] && data[newOffset..length] == d[newOffset..]
  {
    hide Fifo.Contents;
    newOffset := offset;
    TakeOne(d, data[..], c, offset);
    var ok;
    ok, next := fifo.Get();
    assert fifo.Contents() == d[c + 1..offset];
    if offset < length {
      ok := fifo.Put(data[offset]);
      newOffset := offset + 1;
    }
  }

  lemma TakeOne(d: seq<byte>, s: seq<byte>, c: nat, offset: nat)
    requires c < offset <= |d| <= |s| && s[offset..|d|] == d[offset..]
    ensures d[c..offset] == [d[c]] + d[c + 1..offset]
    ensures offset < |d| ==>
              && s[offset] == d[offset] && d[c + 1..offset] + [d[offset]] == d[c + 1..offset + 1]
              && s[offset + 1..|d|] == d[offset + 1..]
  {
    if offset < |d| {
      assert s[offset..|d|][0] == s[offset];
      assert s[offset..|d|][1..] == s[offset + 1..|d|];
    }
  }

  /** What has been written: finished blocks, a place for a code, and the bytes of the open block. */
  ghost predicate Written(s: seq<byte>, done: seq<byte>, block: seq<byte>) {
    && |done| + 1 + |block| <= |s|
    && s[..|done|] == done && s[|done| + 1..|done| + 1 + |block|] == block
  }

  lemma WriteByte(s: seq<byte>, done: seq<byte>, block: seq<byte>, b: byte)
    requires Written(s, done, block) && |done| + 1 + |block| < |s|
    ensures Written(s[|done| + 1 + |block| := b], done, block + [b])
  {
  }

  lemma WriteCode(s: seq<byte>, done: seq<byte>, block: seq<byte>)
    requires Written(s, done, block) && |block| <= FULL
    ensures s[|done| := |block| + 1][..|done| + 1 + |block|] == done + Coded(block)
    ensures |done| + 1 + |block| < |s| ==> Written(s[|done| := |block| + 1], done + Coded(block), [])
  {
  }

  /** What the writing has left alone: the input not yet read, and everything beyond the room for the encoding. */
  ghost predicate Untouched(s: seq<byte>, d: seq<byte>, offset: nat, end: nat, beyond: seq<byte>) {
    offset <= |d| < end <= |s| && s[offset..|d|] == d[offset..] && s[end..] == beyond
  }

  lemma WriteLeaves(s: seq<byte>, d: seq<byte>, offset: nat, end: nat, beyond: seq<byte>, i: nat, b: byte)
    requires Untouched(s, d, offset, end, beyond) && i < end && (i < offset || offset == |d|)
    ensures Untouched(s[i := b], d, offset, end, beyond)
  {
  }

  lemma Start(s: seq<byte>, d: seq<byte>, end: nat, size: nat)
    requires |d| < end <= |s| && s[..|d|] == d && size > 0
    ensures Ahead(|d|, 0, size) == if |d| > size - 1 then size - 1 else |d|
    ensures Written(s, [], []) && Untouched(s, d, Ahead(|d|, 0, size), end, s[end..])
  {
    var offset := Ahead(|d|, 0, size);
    assert s[offset..|d|] == s[..|d|][offset..];
  }

  lemma UnreadInput(s: seq<byte>, d: seq<byte>, offset: nat, end: nat, beyond: seq<byte>)
    requires Untouched(s, d, offset, end, beyond)
    ensures offset <= |d| < end <= |s| && s[offset..|d|] == d[offset..] && s[end..] == beyond
  {
  }

  lemma StillUntouched(s: seq<byte>, d: seq<byte>, offset: nat, end: nat, beyond: seq<byte>)
    requires offset <= |d| < end <= |s| && s[offset..|d|] == d[offset..] && s[end..] == beyond
    ensures Untouched(s, d, offset, end, beyond)
  {
  }

  /** `*dst++ = byte`. */
  method PutByte(data: array<byte>, dst: nat, next: byte, ghost done: seq<byte>, ghost block: seq<byte>, ghost d: seq<byte>,
                 ghost offset: nat, ghost end: nat, ghost beyond: seq<byte>)
    requires Written(data[..], done, block) && Untouched(data[..], d, offset, end, beyond)
    requires dst == |done| + 1 + |block| < end <= data.Length && (dst < offset || offset == |d|)
    modifies data
    ensures Written(data[..], done, block + [next]) && Untouched(data[..], d, offset, end, beyond)
  {
    hide Written, Untouched;
    WriteByte(data[..], done, block, next);
    WriteLeaves(data[..], d, offset, end, beyond, dst, next);
    ghost var s := data[..];
    data[dst] := next;
    assert data[..] == s[dst := next];
  }

  /** `*code_pointer = code`. */
  method PutCode(data: array<byte>, codePointer: nat, code: byte, ghost done: seq<byte>, ghost block: seq<byte>,
                 ghost d: seq<byte>, ghost offset: nat, ghost end: nat, ghost beyond: seq<byte>)
    requires Written(data[..], done, block) && Untouched(data[..], d, offset, end, beyond)
    requires |block| <= FULL && code == |block| + 1
    requires codePointer == |done| < end <= data.Length && (codePointer < offset || offset == |d|)
    modifies data
    ensures |done| + 1 + |block| <= data.Length && data[..|done| + 1 + |block|] == done + Coded(block)
    ensures |done| + 1 + |block| < data.Length ==> Written(data[..], done + Coded(block), [])
    ensures Untouched(data[..], d, offset, end, beyond)
  {
    hide Untouched, Coded;
    WriteCode(data[..], done, block);
    WriteLeaves(data[..], d, offset, end, beyond, codePointer, code);
    ghost var s := data[..];
    data[codePointer] := code;
    assert data[..] == s[codePointer := code];
  }

  /** One turn's writing: the byte, if it is not zero, and the code, if it closes the block. */
  method Emit(data: array<byte>, next: byte, oldCodePointer: nat, oldDst: nat, oldCode: byte, ghost oldDone: seq<byte>,
              ghost oldBlock: seq<byte>, ghost oldFull: nat, ghost rest: seq<byte>, ghost d: seq<byte>, ghost offset: nat,
              ghost end: nat, ghost beyond: seq<byte>)
    returns (codePointer: nat, dst: nat, code: byte, ghost done: seq<byte>, ghost block: seq<byte>, ghost full: nat)
    requires |oldBlock| < FULL && oldCode == |oldBlock| + 1 && oldCodePointer == |oldDone|
    requires oldDst == oldCodePointer + 1 + |oldBlock| < end <= data.Length && (oldDst < offset || offset == |d|)
    requires next != 0 && |oldBlock| + 1 == FULL ==> oldDst + 1 < end
    requires Written(data[..], oldDone, oldBlock) && Untouched(data[..], d, offset, end, beyond)
    modifies data
    ensures |block| < FULL && code == |block| + 1 && codePointer == |done| && dst == codePointer + 1 + |block| <= end
    ensures dst == oldDst + 1 + (full - oldFull) && FULL * full + |block| <= FULL * oldFull + |oldBlock| + 1
    ensures Written(data[..], done, block) && Untouched(data[..], d, offset, end, beyond)
    ensures full + FullBlocks(|block|, rest) == oldFull + FullBlocks(|oldBlock|, [next] + rest)
    ensures done + EncodeFrom(block, rest) == oldDone + EncodeFrom(oldBlock, [next] + rest)
  {
    hide EncodeFrom, Coded, Written, Untouched;
    codePointer, dst, code, done, block, full := oldCodePointer, oldDst, oldCode, oldDone, oldBlock, oldFull;
    assert ([next] + rest)[1..] == rest;
    if next == 0 || |block| + 1 == FULL {
      BlockCloses(done, block, [next] + rest);
    } else {
      BlockGrows(block, [next] + rest);
    }
    if next != 0 {
      PutByte(data, dst, next, done, block, d, offset, end, beyond);
      dst, code := dst + 1, code + 1;
      block := block + [next];
    }
    if next == 0 || code == 0xff {
      PutCode(data, codePointer, code, done, block, d, offset, end, beyond);
      done := done + Coded(block);
      full := full + if next == 0 then 0 else 1;
      code, codePointer, dst, block := 1, dst, dst + 1, [];
    }
  }

  /** The encoding loop. */
  method EncodeLoop(data: array<byte>, length: nat, fifo: Fifo, startOffset: nat, ghost d: seq<byte>, ghost end: nat,
                    ghost beyond: seq<byte>)
    returns (encodedLength: nat)
    requires data != fifo.buffer && |d| == length && end == length + 1 + FullBlocks(0, d) <= data.Length
    requires length < FULL * (fifo.buffer.Length - 1)
    requires startOffset == Ahead(length, 0, fifo.buffer.Length) <= length
    requires fifo.Valid() && fifo.Contents() == d[..startOffset]
    requires Written(data[..], [], []) && Untouched(data[..], d, startOffset, end, beyond)
    modifies data, fifo, fifo.buffer
    ensures encodedLength == end && data[..encodedLength] == EncodeFrom([], d)
    ensures data[end..] == beyond
  {
    hide EncodeFrom, FullBlocks, Coded, Written, Untouched, Ahead, Fifo.Contents;
    ghost var whole, total, size := EncodeFrom([], d), FullBlocks(0, d), fifo.buffer.Length;
    var offset := startOffset;
    var codePointer, dst, code: byte, remaining := 0, 1, 1, length;
    ghost var done: seq<byte>, block: seq<byte>, full: nat := [], [], 0;
    assert d[0..] == d && done + whole == whole && d[0..offset] == d[..offset];
    while remaining != 0
      invariant remaining <= length && length - remaining <= offset == Ahead(length, length - remaining, size) <= length
      invariant fifo.Valid() && fifo.Contents() == d[length - remaining..offset]
      invariant |block| < FULL && code == |block| + 1
      invariant codePointer == |done| && dst == codePointer + 1 + |block| == 1 + (length - remaining) + full <= end
      invariant FULL * full + |block| <= length - remaining && total == full + FullBlocks(|block|, d[length - remaining..])
      invariant Written(data[..], done, block) && Untouched(data[..], d, offset, end, beyond)
      invariant whole == done + EncodeFrom(block, d[length - remaining..])
    {
      ghost var c := length - remaining;
      remaining := remaining - 1;
      UnreadInput(data[..], d, offset, end, beyond);
      var next;
      next, offset := NextByte(fifo, data, offset, length, d, c);
      StillUntouched(data[..], d, offset, end, beyond);
      assert d[c..] == [next] + d[c + 1..];
      FullBlocksFit(full, |block|, next, d[c + 1..], c, size);
      codePointer, dst, code, done, block, full :=
        Emit(data, next, codePointer, dst, code, done, block, full, d[c + 1..], d, offset, end, beyond);
    }
    AllRead(length, size);
    LastBlock(block, d[length..]);
    PutCode(data, codePointer, code, done, block, d, length, end, beyond);
    UnreadInput(data[..], d, length, end, beyond);
    encodedLength := dst;
  }

  /**
   `fd_cobs_encode`, given room for the result; the C code does not look at the size it is told. It never overwrites a
   byte that it has not read, as long as the ring is long enough.
  */
  method EncodeInPlace(data: array<byte>, length: nat, buffer: array<byte>) returns (encodedLength: nat)
    requires data != buffer && length <= data.Length && |Encode(data[..length])| <= data.Length
    requires length / FULL <= buffer.Length - 2
    modifies data, buffer
    ensures encodedLength == |Encode(old(data[..length]))| && data[..encodedLength] == Encode(old(data[..length]))
    ensures data[encodedLength..] == old(data[encodedLength..])
  {
    hide EncodeFrom, Written, Untouched, Ahead, FullBlocks, Fifo.Contents;
    ghost var d := data[..length];
    EncodeFromLength([], d);
    ghost var end := |Encode(d)|;
    var fifo := new Fifo(buffer);
    var n := if length > buffer.Length - 1 then buffer.Length - 1 else length;
    ReadAhead(fifo, data, n);
    assert data[..n] == d[..n];
    Start(data[..], d, end, buffer.Length);
    encodedLength := EncodeLoop(data, length, fifo, n, d, end, data[end..]);
  }

  /** How far the input has been read when `c` bytes have been taken out of a ring of the given size. */
  function Ahead(length: nat, c: nat, size: nat): (offset: nat)
    requires size > 0
  {
    if c + size - 1 < length then c + size - 1 else length
  }

  /** The writing never catches up with the reading, and never passes the end of the encoding. */
  lemma FullBlocksFit(full: nat, open: nat, next: byte, rest: seq<byte>, c: nat, size: nat)
    requires open < FULL && FULL * full + open <= c && c + 1 + |rest| < FULL * (size - 1)
    ensures var length := c + 1 + |rest|;
            1 + c + full < Ahead(length, c + 1, size) || Ahead(length, c + 1, size) == length
    ensures open + 1 == FULL && next != 0 ==> FullBlocks(open, [next] + rest) >= 1
  {
    assert ([next] + rest)[1..] == rest;
  }

  // ---------------------------------------------------------------- decoding in place

  /** What is still to come when `left` bytes of a block with the given code are missing. */
  function Pending(rest: seq<byte>, left: nat, code: byte): (data: seq<byte>) {
    var n := if left <= |rest| then left else |rest|;
    rest[..n] + DecodeFrom(rest[n..], code)
  }

  lemma NextPending(rest: seq<byte>, left: nat, code: byte)
    requires rest != []
    ensures left > 0 ==> Pending(rest, left, code) == [rest[0]] + Pending(rest[1..], left - 1, code)
    ensures left == 0 ==>
              Pending(rest, 0, code) ==
              (if code != 0xff then [0] else [])
              + (if rest[0] == 0 then [] else Pending(rest[1..], rest[0] - 1, rest[0]))
  {
    if left > 0 {
      var n := if left <= |rest| then left else |rest|;
      assert rest[1..][..n - 1] == rest[1..n] && rest[1..][n - 1..] == rest[n..];
    } else {
      assert rest[..0] == [] && rest[0..] == rest;
      if rest[0] != 0 {
        var n := Extent(rest);
        assert rest[1..][..n - 1] == rest[1..n] && rest[1..][n - 1..] == rest[n..];
      }
    }
  }

  lemma PendingAtEnd(left: nat, code: byte)
    ensures Pending([], left, code) == []
  {
  }

  /** `fd_cobs_decode`, for any bytes. It writes only where it has read, and nothing beyond the result. */
  method DecodeInPlace(data: array<byte>, length: nat) returns (decodedLength: nat)
    requires length <= data.Length
    modifies data
    ensures decodedLength <= length && data[..decodedLength] == Decode(old(data[..length]))
    ensures data[decodedLength..] == old(data[decodedLength..])
  {
    hide Pending;
    ghost var e, was := data[..length], data[..];
    var src, dst, code: byte, blockLength := 0, 0, 0xff as byte, 0;
    StartPending(e);
    while src < length
      invariant dst <= src <= length && if src == 0 then code == 0xff && blockLength == 0 else dst < src
      invariant data[dst..] == was[dst..] && e == was[..length]
      invariant data[..dst] + Pending(e[src..], blockLength, code) == Decode(e)
    {
      NextPending(e[src..], blockLength, code);
      assert e[src..][0] == was[src] == data[src] && e[src..][1..] == e[src + 1..] by {
        assert data[dst..][src - dst] == was[dst..][src - dst];
      }
      if blockLength != 0 {
        Append(data, dst, data[src]);
        dst, src := dst + 1, src + 1;
      } else {
        var next := data[src];
        if code != 0xff {
          Append(data, dst, 0);
          dst := dst + 1;
        }
        code, blockLength, src := next, next, src + 1;
        if code == 0 {
          return dst;
        }
      }
      blockLength := blockLength - 1;
    }
    assert e[src..] == [];
    PendingAtEnd(blockLength, code);
    decodedLength := dst;
  }

  /** `*dst++ = byte` */
  method Append(data: array<byte>, dst: nat, b: byte)
    requires dst < data.Length
    modifies data
    ensures data[..dst + 1] == old(data[..dst]) + [b] && data[dst + 1..] == old(data[dst..])[1..]
  {
    data[dst] := b;
  }

  lemma StartPending(e: seq<byte>)
    ensures [] + Pending(e[0..], 0, 0xff) == Decode(e)
  {
    assert e[0..] == e && e[..0] == [];
  }

  // ---------------------------------------------------------------- frames of other encoders

  /** Nonzero bytes that do not fill the open block leave the count alone; those that just fill it add one. */
  lemma {:induction false} FullBlocksOf(open: nat, block: seq<byte>, rest: seq<byte>)
    requires HasNoZero(block) && open + |block| <= FULL && open < FULL
    ensures FullBlocks(open, block + rest) ==
            if open + |block| == FULL then 1 + FullBlocks(0, rest) else FullBlocks(open + |block|, rest)
    decreases |block|
  {
    if block == [] {
      assert block + rest == rest;
    } else {
      assert (block + rest)[0] == block[0] && (block + rest)[1..] == block[1..] + rest;
      if open + 1 < FULL {
        FullBlocksOf(open + 1, block[1..], rest);
      } else {
        assert block[1..] + rest == rest;
      }
    }
  }

  /** The last block of a frame is a full one, complete with its 254 bytes. */
  predicate EndsFull(frame: seq<byte>)
    requires HasNoZero(frame)
    decreases |frame|
  {
    && frame != []
    && var rest := frame[Extent(frame)..];
       if rest == [] then frame[0] == 0xff && |frame| == FULL + 1 else EndsFull(rest)
  }

  lemma {:induction false} ReencodedLength(frame: seq<byte>)
    requires HasNoZero(frame) && frame != []
    ensures |Decode(frame)| + FullBlocks(0, Decode(frame)) == |frame| - if EndsFull(frame) then 0 else 1
    decreases |frame|
  {
    var n := Extent(frame);
    var block, rest := frame[1..n], frame[n..];
    var more := DecodeFrom(rest, frame[0]);
    assert Decode(frame) == block + more;
    FullBlocksOf(0, block, more);
    if rest == [] {
      NothingToDecode(frame[0]);
    } else {
      ReencodedLength(rest);
      if frame[0] != 0xff {
        assert more == [0] + Decode(rest);
        assert ([0] + Decode(rest))[1..] == Decode(rest);
      }
    }
  }

  /**
   Encoding again what a frame decodes to takes one byte more than the frame exactly if its last block is full, and
   otherwise as many, whoever made the frame.
  */
  lemma ReencodingGrowsExactly(frame: seq<byte>)
    requires HasNoZero(frame) && frame != []
    ensures |Encode(Decode(frame))| == |frame| + if EndsFull(frame) then 1 else 0
  {
    ReencodedLength(frame);
    EncodeFromLength([], Decode(frame));
  }

  /** Any 254 bytes other than zero behind the code 255 are such a frame. */
  lemma FrameThatGrows(block: seq<byte>)
    requires HasNoZero(block) && |block| == FULL
    ensures HasNoZero([0xff] + block) && Decode([0xff] + block) == block && |Encode(block)| == |[0xff] + block| + 1
  {
    var frame := [0xff] + block;
    assert frame[1..FULL + 1] == block && frame[FULL + 1..] == [];
    NothingToDecode(0xff);
    assert block + [] == block;
    ReencodingGrowsExactly(frame);
  }

  // ---------------------------------------------------------------- the encoding, place by place

  /** The place of the first zero, or the end. */
  function NextZero(data: seq<byte>): (n: nat)
    ensures n <= |data| && (forall i :: 0 <= i < n ==> data[i] != 0) && (n < |data| ==> data[n] == 0)
  {
    if data == [] || data[0] == 0 then 0 else 1 + NextZero(data[1..])
  }

  lemma {:induction false} NextZeroBehind(block: seq<byte>, data: seq<byte>)
    requires HasNoZero(block) && (data == [] || data[0] == 0)
    ensures NextZero(block + data) == |block|
  {
    if block == [] {
      assert block + data == data;
    } else {
      assert (block + data)[1..] == block[1..] + data;
      NextZeroBehind(block[1..], data);
    }
  }

  /** What stands in each place: the bytes are moved up by one, and each zero has become the distance to the next. */
  ghost predicate IsStuffed(data: seq<byte>, encoded: seq<byte>) {
    && |encoded| == |data| + 1 && encoded[0] == NextZero(data) + 1
    && forall i :: 0 <= i < |data| ==> encoded[i + 1] == if data[i] != 0 then data[i] else NextZero(data[i + 1..]) + 1
  }

  /** A block and the zero behind it. */
  lemma BlockIsStuffed(block: seq<byte>, rest: seq<byte>, encoded: seq<byte>)
    requires |block| < FULL && HasNoZero(block) && IsStuffed(rest, encoded)
    requires NextZero(block + [0] + rest) == |block|
    ensures IsStuffed(block + [0] + rest, Coded(block) + encoded)
  {
    var whole, e := block + [0] + rest, Coded(block) + encoded;
    forall i | 0 <= i < |whole| ensures e[i + 1] == if whole[i] != 0 then whole[i] else NextZero(whole[i + 1..]) + 1 {
      if i < |block| {
        assert e[i + 1] == block[i];
      } else {
        assert whole[i + 1..] == rest[i - |block|..];
        assert e[i + 1] == encoded[i - |block|];
      }
    }
  }

  lemma LastIsStuffed(block: seq<byte>)
    requires |block| < FULL && HasNoZero(block)
    ensures IsStuffed(block, EncodeFrom(block, []))
  {
    NextZeroBehind(block, []);
    assert block + [] == block;
  }

  /** Where no run reaches 254 bytes, that is what the encoding is. */
  lemma {:induction false} EncodeFromByPlaces(block: seq<byte>, data: seq<byte>)
    requires |block| < FULL && HasNoZero(block) && FullBlocks(|block|, data) == 0
    ensures IsStuffed(block + data, EncodeFrom(block, data))
    decreases |data|
  {
    hide IsStuffed, NextZero;
    if data == [] {
      LastIsStuffed(block);
      assert block + data == block;
    } else if data[0] == 0 {
      EncodeFromByPlaces([], data[1..]);
      assert [] + data[1..] == data[1..];
      NextZeroBehind(block, data);
      assert block + data == block + [0] + data[1..];
      BlockIsStuffed(block, data[1..], EncodeFrom([], data[1..]));
    } else {
      EncodeFromByPlaces(block + [data[0]], data[1..]);
      assert (block + [data[0]]) + data[1..] == block + data;
    }
  }

  lemma EncodeByPlaces(data: seq<byte>)
    requires FullBlocks(0, data) == 0
    ensures IsStuffed(data, Encode(data))
  {
    EncodeFromByPlaces([], data);
    assert [] + data == data;
  }
}
