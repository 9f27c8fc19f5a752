/**
 The streaming interface of sha1.c: a context that buffers what does not fill a block and counts bits in two 32-bit
 words. The ghost field `message` is everything put in so far; `Valid` says that the context is the hash state of it,
 so that the digest cannot depend on how the message was cut into calls.
*/
module Sha1Stream {
  import opened Bytes
  import opened Sha1
  import opened Sha1Block

  /** The part of a message that fills whole blocks. */
  function Whole(m: seq<bv8>): (s: seq<bv8>)
    ensures |s| % 64 == 0
  {
    m[..|m| - |m| % 64]
  }

  /** The part that is waiting in the buffer. */
  function Rest(m: seq<bv8>): (s: seq<bv8>)
    ensures |s| == |m| % 64
  {
    m[|m| - |m| % 64..]
  }

  lemma WholeAndRest(m: seq<bv8>, s: seq<bv8>, t: seq<bv8>)
    requires m == s + t && |s| % 64 == 0 && |t| < 64
    ensures Whole(m) == s && Rest(m) == t
  {
  }

  lemma Rejoin(m: seq<bv8>)
    ensures m == Whole(m) + Rest(m)
  {
  }

  class Context {
    const state: array<word>
    const buffer: array<bv8>
    var count0: nat
    var count1: nat
    ghost var message: seq<bv8>

    ghost predicate Shaped()
      reads this
    {
      state.Length == 5 && buffer.Length == 64
    }

    /** The context between calls. */
    ghost predicate Valid()
      reads this, state, buffer
    {
      && Shaped()
      && count0 < TWO_32 && count1 < TWO_32
      && count0 + TWO_32 * count1 == 8 * |message| % TWO_64
      && RegistersOf(state[..]) == HashBlocks(INITIAL, Whole(message))
      && buffer[..|message| % 64] == Rest(message)
    }

    constructor ()
      ensures Valid() && message == [] && fresh(state) && fresh(buffer)
    {
      state := new word[5];
      buffer := new bv8[64];
      new;
      Init();
    }

    /** `SHA1_Init`. */
    method Init()
      requires Shaped()
      modifies this, state
      ensures Valid() && message == []
    {
      state[0] := 0x67452301;
      state[1] := 0xEFCDAB89;
      state[2] := 0x98BADCFE;
      state[3] := 0x10325476;
      state[4] := 0xC3D2E1F0;
      count0, count1 := 0, 0;
      message := [];
    }

    /** `memcpy` into the buffer. */
    method Fill(j: nat, data: array<bv8>, i: nat, n: nat)
      requires Shaped() && j + n <= 64 && i + n <= data.Length && data != buffer
      modifies buffer
      ensures buffer[..j + n] == old(buffer[..j]) + data[i..i + n]
    {
      var k := 0;
      while k < n
        invariant 0 <= k <= n
        invariant buffer[..j + k] == old(buffer[..j]) + data[i..i + k]
      {
        buffer[j + k] := data[i + k];
        k := k + 1;
      }
    }

    /** The two counter words: bits added modulo 2^64, with the carry worked out as the C code does. */
    method Count(len: nat)
      requires len < TWO_32 && count0 < TWO_32 && count1 < TWO_32
      modifies this`count0, this`count1
      ensures count0 < TWO_32 && count1 < TWO_32
      ensures count0 + TWO_32 * count1 == (old(count0 + TWO_32 * count1) + 8 * len) % TWO_64
    {
      var low := 8 * len % TWO_32;
      count0 := (count0 + low) % TWO_32;
      if count0 < low {
        count1 := (count1 + 1) % TWO_32;
      }
      count1 := (count1 + len / 0x2000_0000) % TWO_32;
      CountCarries(old(count0), old(count1), len, count0, count1);
    }

    /** The loop of `SHA1_Update`: whole blocks straight from the data, through a copy that is used up. */
    method WholeBlocks(data: array<bv8>, start: nat, len: nat) returns (i: nat)
      requires Shaped() && start <= 64 && start <= len <= data.Length && 64 - start + len < TWO_32
      modifies state
      ensures start <= i <= len < i + 64 && (i - start) % 64 == 0
      ensures RegistersOf(state[..]) == HashBlocks(RegistersOf(old(state[..])), data[start..i])
    {
      hide Compress, BlockWords, RegistersOf;
      ghost var h, s := RegistersOf(state[..]), data[..];
      i := start;
      assert s[start..start] == [];
      NoWrap(start, i, len);
      while (i + 63) % TWO_32 < len
        invariant start <= i <= len && (i - start) % 64 == 0 && data[..] == s
        invariant (i + 63) % TWO_32 == i + 63
        invariant RegistersOf(state[..]) == HashBlocks(h, s[start..i])
      {
        var block := new bv8[64](k requires 0 <= k < 64 && i + 64 <= data.Length reads data => data[i + k]);
        assert block[..] == s[i..i + 64];
        HashOneMore(h, s[start..i], s[i..i + 64]);
        assert s[start..i + 64] == s[start..i] + s[i..i + 64];
        Transform(state, block);
        i := i + 64;
        NoWrap(start, i, len);
      }
      assert data[start..i] == s[start..i];
    }

    /** Filling up the buffer and hashing it, when the data reach that far. */
    method FirstBlock(j: nat, data: array<bv8>)
      requires Shaped() && j < 64 <= j + data.Length && data != buffer
      modifies state, buffer
      ensures RegistersOf(state[..]) ==
              Compress(RegistersOf(old(state[..])), BlockWords(old(buffer[..j]) + data[..64 - j]))
    {
      hide Compress, BlockWords, RegistersOf;
      Fill(j, data, 0, 64 - j);
      assert buffer[..64] == buffer[..] && data[0..64 - j] == data[..64 - j];
      Transform(state, buffer);
    }

    /** The part of `SHA1_Update` that runs when the data fill the buffer: all whole blocks are hashed. */
    method HashWhole(j: nat, data: array<bv8>, len: nat, ghost m: seq<bv8>) returns (i: nat)
      requires Shaped() && len <= data.Length && data != buffer && j == |m| % 64 && 63 < j + len < TWO_32
      requires RegistersOf(state[..]) == HashBlocks(INITIAL, Whole(m)) && buffer[..j] == Rest(m)
      modifies state, buffer
      ensures i <= len && Rest(m + data[..len]) == data[i..len]
      ensures RegistersOf(state[..]) == HashBlocks(INITIAL, Whole(m + data[..len]))
    {
      hide HashBlocks, Compress, BlockWords, RegistersOf, Whole, Rest;
      ghost var s := data[..len];
      FirstBlock(j, data);
      var start := 64 - j;
      ghost var block := Rest(m) + s[..start];
      assert data[..64 - j] == s[..start];
      HashOneMore(INITIAL, Whole(m), block);
      i := WholeBlocks(data, start, len);
      SliceOfSlice(data[..], 0, len, start, i);
      SliceOfSlice(data[..], 0, len, i, len);
      assert data[..][0..len] == s && data[..][start..i] == data[start..i] && data[..][i..len] == data[i..len];
      assert s[i..] == s[i..len];
      HashBlocksAppend(INITIAL, Whole(m) + block, s[start..i]);
      CutAt(m, s, start, i);
    }

    /** `SHA1_Update`, for data whose length and the bytes that are waiting have a sum of 32 bits: see `SumWraps`. */
    method Update(data: array<bv8>, len: nat)
      requires Valid() && len <= data.Length && data != buffer
      requires count0 / 8 % 64 + len < TWO_32
      modifies this, state, buffer
      ensures Valid() && message == old(message) + data[..len]
    {
      hide HashBlocks, RegistersOf, Whole, Rest, SumFills;
      ghost var m, s := message, data[..len];
      CountIndex(count0, count1, |m|);
      var j := count0 / 8 % 64;
      Count(len);
      CountAdds(|m|, len);
      var i := 0;
      if SumFills(j, len) {
        i := HashWhole(j, data, len, m);
        j := 0;
        assert buffer[..0] == [];
      } else {
        StillWaiting(m, s);
        assert data[0..len] == s;
      }
      Fill(j, data, i, len - i);
      message := m + s;
    }

    // -------------------------------------------------------------- the end of a message

    /** The counter as bytes, most significant first, picked out of the two words as `SHA1_Final` does. */
    method FinalCount() returns (bytes: array<bv8>)
      requires count0 < TWO_32 && count1 < TWO_32
      ensures fresh(bytes) && bytes.Length == 8 && bytes[..] == BigEndian64(count0 + TWO_32 * count1)
    {
      hide CountByte, BigEndian64;
      bytes := new bv8[8];
      var i := 0;
      while i < 8
        invariant 0 <= i <= 8
        invariant forall k :: 0 <= k < i ==> bytes[k] == CountByte(if k >= 4 then count0 else count1, k % 4)
      {
        bytes[i] := CountByte(if i >= 4 then count0 else count1, i % 4);
        i := i + 1;
      }
      CountBytes(count0, count1);
    }

    /** The marker and the zeros, one byte to a call. */
    method PadOut()
      requires Valid() && 8 * |message| < TWO_64
      modifies this, state, buffer
      ensures Valid() && message == old(message) + [0x80] + Zeros(PadZeros(|old(message)|))
    {
      hide HashBlocks, RegistersOf, Whole, Rest;
      ghost var m := message;
      var one := new bv8[1](_ => 0x80);
      var zero := new bv8[1](_ => 0);
      Update(one, 1);
      assert one[..1] == [0x80];
      ghost var z := 0;
      assert message == m + [0x80] + Zeros(0);
      CountIndex(count0, count1, |message|);
      // (count[0] & 504) != 448 compares bits 3 to 8 of the counter
      while count0 / 8 % 64 != 56
        invariant Valid() && zero[..1] == [0] && zero != buffer && one != buffer
        invariant z <= PadZeros(|m|) && message == m + [0x80] + Zeros(z)
        invariant count0 / 8 % 64 == |message| % 64
        decreases PadZeros(|m|) - z
      {
        LastZero(|m|, z);
        Update(zero, 1);
        z := z + 1;
        assert Zeros(z - 1) + [0] == Zeros(z);
        CountIndex(count0, count1, |message|);
      }
      LastZero(|m|, z);
    }

    /** The whole padding: marker, zeros, and the count from before them. */
    method Finish()
      requires Valid() && 8 * |message| < TWO_64
      modifies this, state, buffer
      ensures Valid() && message == Pad(old(message))
    {
      hide HashBlocks, BigEndian64, RegistersOf, Whole, Rest;
      var finalCount := FinalCount();
      assert finalCount[..] == BigEndian64(8 * |message|);
      hide Valid, PadZeros;
      PadOut();
      Update(finalCount, 8);
      assert finalCount[..8] == finalCount[..];
    }

    method WriteDigest(digest: array<bv8>)
      requires Shaped() && digest.Length == 20
      modifies digest
      ensures digest[..] == DigestBytes(RegistersOf(state[..]))
    {
      hide ByteOf;
      ghost var words := state[..];
      var i := 0;
      while i < 20
        invariant 0 <= i <= 20 && state[..] == words
        invariant forall k :: 0 <= k < i ==> digest[k] == ByteOf(words[k / 4], k % 4)
      {
        assert state[i / 4] == words[i / 4];
        digest[i] := ByteOf(state[i / 4], i % 4);
        i := i + 1;
      }
      DigestByBytes(words);
    }

    /** `SHA1_Final`. Afterwards the context is wiped. */
    method Final(digest: array<bv8>)
      requires Valid() && 8 * |message| < TWO_64
      requires digest.Length == 20 && digest != buffer
      modifies this, state, buffer, digest
      ensures digest[..] == Digest(old(message))
      ensures forall k :: 0 <= k < 5 ==> state[k] == 0
      ensures forall k :: 0 <= k < 64 ==> buffer[k] == 0
      ensures count0 == 0 && count1 == 0
    {
      hide HashBlocks, RegistersOf, DigestBytes, Pad, Rest;
      Finish();
      AllWhole(message);
      WriteDigest(digest);
      Wipe();
    }

    method Wipe()
      requires Shaped()
      modifies this, state, buffer
      ensures forall k :: 0 <= k < 5 ==> state[k] == 0
      ensures forall k :: 0 <= k < 64 ==> buffer[k] == 0
      ensures count0 == 0 && count1 == 0
    {
      forall k | 0 <= k < 5 {
        state[k] := 0;
      }
      forall k | 0 <= k < 64 {
        buffer[k] := 0;
      }
      count0, count1 := 0, 0;
    }
  }

  // ---------------------------------------------------------------- positions

  /** The counter tells where the buffer ends. */
  lemma CountIndex(c0: nat, c1: nat, n: nat)
    requires c0 < TWO_32 && c0 + TWO_32 * c1 == 8 * n % TWO_64
    ensures c0 / 8 % 64 == n % 64
  {
    var q := 8 * n / TWO_64;
    assert 8 * n == c0 + TWO_32 * (c1 + TWO_32 * q);
    assert c0 == 8 * (n - 0x2000_0000 * (c1 + TWO_32 * q));
    assert n == c0 / 8 + 64 * (0x80_0000 * (c1 + TWO_32 * q));
  }

  /**
   The sum of 32 bits that `SHA1_Update` compares takes the right branch exactly if it does not wrap. If it does, the
   data are copied behind the `j` bytes in the buffer, which has no room for them.
  */
  lemma SumWraps(j: nat, len: nat)
    requires j < 64 && len < TWO_32
    ensures ((j + len) % TWO_32 > 63 <==> j + len > 63) <==> j + len < TWO_32
    ensures j + len >= TWO_32 ==> (j + len) % TWO_32 <= 62 && j + len > 64
  {
  }

  /** The condition as `SHA1_Update` computes it. */
  function SumFills(j: nat, len: nat): (fills: bool)
    requires j < 64 && j + len < TWO_32
    ensures fills <==> j + len > 63
  {
    (j + len) % TWO_32 > 63
  }

  /** Where the sum does not wrap, the loop's does not either. */
  lemma NoWrap(start: nat, i: nat, len: nat)
    requires start <= 64 && start <= i <= len && (i - start) % 64 == 0 && 64 - start + len < TWO_32
    ensures (i + 63) % TWO_32 == i + 63
  {
    var k := (i - start) / 64;
    assert i == start + 64 * k;
  }

  lemma CountAdds(n: nat, len: nat)
    ensures (8 * n % TWO_64 + 8 * len) % TWO_64 == 8 * (n + len) % TWO_64
  {
    assert 8 * n == TWO_64 * (8 * n / TWO_64) + 8 * n % TWO_64;
  }

  lemma AllWhole(m: seq<bv8>)
    requires |m| % 64 == 0
    ensures Whole(m) == m
  {
  }

  /** Where the hashed part and the waiting part lie after data that filled the buffer. */
  lemma CutAt(m: seq<bv8>, s: seq<bv8>, start: nat, i: nat)
    requires start <= i <= |s| < i + 64 && start == 64 - |m| % 64 && (i - start) % 64 == 0
    ensures Whole(m + s) == Whole(m) + (Rest(m) + s[..start]) + s[start..i] && Rest(m + s) == s[i..]
  {
    hide Whole, Rest;
    var hashed := Whole(m) + (Rest(m) + s[..start]) + s[start..i];
    Rejoin(m);
    JoinPieces(Whole(m), Rest(m), s, start, i);
    WholeAndRest(m + s, hashed, s[i..]);
  }

  lemma JoinPieces(a: seq<bv8>, b: seq<bv8>, s: seq<bv8>, start: nat, i: nat)
    requires start <= i <= |s|
    ensures (a + b) + s == (a + (b + s[..start]) + s[start..i]) + s[i..]
  {
    assert s == s[..start] + s[start..i] + s[i..];
  }

  lemma StillWaiting(m: seq<bv8>, s: seq<bv8>)
    requires |m| % 64 + |s| < 64
    ensures Whole(m + s) == Whole(m) && Rest(m + s) == Rest(m) + s
  {
    Rejoin(m);
    assert m + s == Whole(m) + (Rest(m) + s);
    WholeAndRest(m + s, Whole(m), Rest(m) + s);
  }

  /** The zeros end exactly where the length has room. */
  lemma LastZero(n: nat, z: nat)
    requires z <= PadZeros(n)
    ensures (n + 1 + z) % 64 == 56 <==> z == PadZeros(n)
  {
  }

  // ---------------------------------------------------------------- bytes of words and counters

  function CountByte(c: nat, k: nat): bv8
    requires k < 4
  {
    LowByte(if k == 0 then c / 0x100_0000 else if k == 1 then c / 0x1_0000 else if k == 2 then c / 0x100 else c)
  }

  lemma SameLowByte(n: nat, m: nat, q: nat)
    requires n == m + 256 * q
    ensures LowByte(n) == LowByte(m)
  {
    hide ToByte;
  }

  lemma CountBytes(c0: nat, c1: nat)
    requires c0 < TWO_32 && c1 < TWO_32
    ensures BigEndian64(c0 + TWO_32 * c1) ==
            [CountByte(c1, 0), CountByte(c1, 1), CountByte(c1, 2), CountByte(c1, 3),
             CountByte(c0, 0), CountByte(c0, 1), CountByte(c0, 2), CountByte(c0, 3)]
  {
    hide LowByte;
    var n := c0 + TWO_32 * c1;
    assert n / 0x1_0000_0000 == c1;
    assert n / 0x100_0000_0000_0000 == c1 / 0x100_0000;
    assert n / 0x1_0000_0000_0000 == c1 / 0x1_0000;
    assert n / 0x100_0000_0000 == c1 / 0x100;
    SameLowByte(n / 0x100_0000, c0 / 0x100_0000, c1);
    SameLowByte(n / 0x1_0000, c0 / 0x1_0000, 0x100 * c1);
    SameLowByte(n / 0x100, c0 / 0x100, 0x1_0000 * c1);
    SameLowByte(n, c0, 0x100_0000 * c1);
  }

  function ByteOf(x: word, k: nat): bv8
    requires k < 4
  {
    if k == 0 then ((x >> 24) & 0xff) as bv8
    else if k == 1 then ((x >> 16) & 0xff) as bv8
    else if k == 2 then ((x >> 8) & 0xff) as bv8
    else (x & 0xff) as bv8
  }

  lemma WordByByte(x: word, k: nat)
    requires k < 4
    ensures WordBytes(x)[k] == ByteOf(x, k)
  {
  }

  lemma DigestByBytes(words: seq<word>)
    requires |words| == 5
    ensures DigestBytes(RegistersOf(words)) ==
            seq(20, k requires 0 <= k < 20 => ByteOf(words[k / 4], k % 4))
  {
    hide WordBytes, ByteOf;
    var d := DigestBytes(RegistersOf(words));
    forall k | 0 <= k < 20 ensures d[k] == ByteOf(words[k / 4], k % 4) {
      assert d[k] == WordBytes(words[k / 4])[k % 4];
      WordByByte(words[k / 4], k % 4);
    }
  }

  // ---------------------------------------------------------------- any number of calls

  lemma ConcatNone()
    ensures Concat<bv8>([]) == []
  {
  }

  /** Initialize, update once a piece, finalize: the digest is that of the whole message, however it was cut. */
  method DigestOfChunks(chunks: seq<array<bv8>>) returns (digest: seq<bv8>)
    requires forall c :: c in chunks ==> c.Length <= TWO_32 - 64
    requires 8 * |Concat(Contents(chunks))| < TWO_64
    ensures digest == Digest(Concat(Contents(chunks)))
  {
    hide HashBlocks, Digest, Whole, Rest, RegistersOf, Concat;
    ConcatNone();
    var context := new Context();
    ghost var all := Contents(chunks);
    assert all[..0] == [];
    var i := 0;
    while i < |chunks|
      invariant 0 <= i <= |chunks| && context.Valid() && fresh(context.buffer)
      invariant Contents(chunks) == all && context.message == Concat(all[..i])
    {
      ConcatLast(all[..i], all[i]);
      assert all[..i + 1] == all[..i] + [all[i]];
      assert chunks[i][..chunks[i].Length] == chunks[i][..] == all[i];
      context.Update(chunks[i], chunks[i].Length);
      i := i + 1;
    }
    assert all[..|chunks|] == all;
    var result := new bv8[20];
    context.Final(result);
    digest := result[..];
  }

  ghost function Contents(chunks: seq<array<bv8>>): (s: seq<seq<bv8>>)
    reads chunks
    ensures |s| == |chunks|
  {
    seq(|chunks|, i requires 0 <= i < |chunks| reads chunks => chunks[i][..])
  }

  lemma CountCarries(c0: nat, c1: nat, len: nat, d0: nat, d1: nat)
    requires c0 < TWO_32 && c1 < TWO_32 && len < TWO_32
    requires d0 == (c0 + 8 * len % TWO_32) % TWO_32
    requires d1 == ((if d0 < 8 * len % TWO_32 then (c1 + 1) % TWO_32 else c1) + len / 0x2000_0000) % TWO_32
    ensures d0 + TWO_32 * d1 == (c0 + TWO_32 * c1 + 8 * len) % TWO_64
  {
    var low, high := 8 * len % TWO_32, len / 0x2000_0000;
    var carry := if c0 + low >= TWO_32 then 1 else 0;
    LowCarry(c0, len, d0);
    var total := c1 + carry + high;
    assert d1 == total % TWO_32;
    var q := total / TWO_32;
    assert total == TWO_32 * q + d1;
    assert c0 + TWO_32 * c1 + 8 * len == TWO_64 * q + (d0 + TWO_32 * d1);
  }

  /** The low word, and whether it carried. */
  lemma LowCarry(c0: nat, len: nat, d0: nat)
    requires c0 < TWO_32 && len < TWO_32 && d0 == (c0 + 8 * len % TWO_32) % TWO_32
    ensures 8 * len == 8 * len % TWO_32 + TWO_32 * (len / 0x2000_0000)
    ensures var carry := if c0 + 8 * len % TWO_32 >= TWO_32 then 1 else 0;
            d0 == c0 + 8 * len % TWO_32 - TWO_32 * carry && (d0 < 8 * len % TWO_32 <==> carry == 1)
  {
  }
}
