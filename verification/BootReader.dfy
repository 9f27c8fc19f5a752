/**
 The readers of fd_boot.c and the hash loop that runs over them: 64-byte pieces, the hash field zeroed where a piece
 holds it whole, deciphered on the way when the reader says so.
*/
module BootReader {
  import opened Bytes
  import Sha1
  import Sha1Stream
  import opened Aes
  import opened AesCbc
  import AesBuffer
  import opened BootFormat

  /** What a reader hands out: stored bytes, or what they decipher to, from the address it starts at. */
  datatype Reader = Plain | Decrypting(aes: AesBuffer.Context)

  /** Memory that starts at an address; a read outside it fails. */
  predicate InMemory(size: nat, base: nat, location: nat, length: nat) {
    base <= location && location + length <= base + size
  }

  method Read(memory: array<bv8>, base: nat, location: nat, data: array<bv8>, length: nat) returns (ok: bool)
    requires length <= data.Length && data != memory
    modifies data
    ensures ok <==> InMemory(memory.Length, base, location, length)
    ensures ok ==> data[..length] == memory[location - base..location - base + length]
  {
    ok := base <= location && location + length <= base + memory.Length;
    if ok {
      forall i | 0 <= i < length {
        data[i] := memory[location - base + i];
      }
    }
  }

  /** `fd_boot_read_and_decrypt`: it takes whole hash blocks only. */
  method ReadAndDecrypt(memory: array<bv8>, base: nat, aes: AesBuffer.Context, location: nat, data: array<bv8>,
                        length: nat, ghost key: Key, ghost rk: Schedule, ghost vector: Block)
    returns (ok: bool)
    requires data.Length == 64 && length <= 64 && data != memory
    requires aes.Valid() && aes.roundKey[..] == rk == Expand(key) && aes.iv[..] == vector
    requires data != aes.roundKey && data != aes.iv && memory != aes.roundKey && memory != aes.iv
    modifies data, aes.roundKey, aes.iv
    ensures aes.roundKey[..] == rk == Expand(key)
    ensures ok <==> InMemory(memory.Length, base, location, length) && length == 64
    ensures ok ==> var cipher := memory[location - base..location - base + 64];
                   data[..] == DecryptWith(rk, vector, cipher) && aes.iv[..] == NextVector(vector, cipher)
  {
    hide Expand, DecryptWith, NextVector;
    ok := Read(memory, base, location, data, length);
    if !ok {
      return;
    }
    if length != 64 {
      return false;
    }
    ghost var cipher := data[..64];
    var out := new bv8[64];
    aes.DecryptUpdate(data, out, 0, 64, key);
    ghost var plain := DecryptWith(rk, vector, cipher);
    assert out[..] == plain;
    forall i | 0 <= i < 64 {
      data[i] := out[i];
    }
    assert data[..] == plain;
    assert cipher == memory[location - base..location - base + 64];
  }

  /** What a reader makes of stored bytes. */
  function Content(cipher: bool, rk: Schedule, vector: Block, stored: Data): (content: Data)
    requires cipher ==> |stored| % 16 == 0
    ensures |content| == |stored|
  {
    if cipher then DecryptWith(rk, vector, stored) else stored
  }

  /** The vector left after the first `p` bytes. */
  function VectorAt(vector: Block, stored: Data, p: nat): Block
    requires p % 16 == 0 && p <= |stored|
  {
    NextVector(vector, stored[..p])
  }

  /** Deciphering a piece with the vector left by what came before gives that piece of the whole. */
  lemma DecryptMiddle(rk: Schedule, vector: Block, a: Data, b: Data, c: Data)
    requires |a| % 16 == 0 && |b| % 16 == 0 && |c| % 16 == 0
    ensures NextVector(NextVector(vector, a), b) == NextVector(vector, a + b)
    ensures |a + b + c| % 16 == 0
    ensures DecryptWith(rk, vector, a + b + c)[|a|..|a| + |b|] == DecryptWith(rk, NextVector(vector, a), b)
  {
    hide DecryptWith, NextVector;
    DecryptInPieces(rk, vector, a + b, c);
    DecryptInPieces(rk, vector, a, b);
  }

  lemma DecryptPiece(rk: Schedule, vector: Block, stored: Data, p: nat, n: nat)
    requires |stored| % 16 == 0 && p % 16 == 0 && n % 16 == 0 && p + n <= |stored|
    ensures |stored[p..p + n]| % 16 == 0 && (p + n) % 16 == 0
    ensures NextVector(VectorAt(vector, stored, p), stored[p..p + n]) == VectorAt(vector, stored, p + n)
    ensures DecryptWith(rk, vector, stored)[p..p + n] == DecryptWith(rk, VectorAt(vector, stored, p), stored[p..p + n])
  {
    hide DecryptWith, NextVector;
    var a, b, c := stored[..p], stored[p..p + n], stored[p + n..];
    assert stored == a + b + c && a + b == stored[..p + n];
    DecryptMiddle(rk, vector, a, b, c);
  }

  lemma MaskedGrows(content: Data, w: nat, n: nat, p: nat, length: nat)
    requires p + length <= |content|
    ensures Masked(content, w, n)[..p] + Masked(content, w, n)[p..p + length] == Masked(content, w, n)[..p + length]
  {
  }

  /** `fd_boot_check_hash`, the part inside the loop: zero the window where the piece holds it, then hash the piece. */
  method HashPiece(sha: Sha1Stream.Context, data: array<bv8>, location: nat, length: nat, zero: Range)
    requires sha.Valid() && data != sha.buffer && data.Length == 64 && length <= 64
    requires zero.location + zero.length < TWO_32
    modifies data, sha, sha.state, sha.buffer
    ensures sha.Valid()
    ensures sha.message == old(sha.message) +
              if location <= zero.location && zero.location + zero.length <= location + length
              then Zeroed(old(data[..length]), zero.location - location, zero.length)
              else old(data[..length])
  {
    ghost var piece := data[..length];
    if location <= zero.location && zero.location + zero.length <= location + length {
      var z := zero.location - location;
      forall i | z <= i < z + zero.length {
        data[i] := 0;
      }
      assert data[..length] == Zeroed(piece, z, zero.length);
    }
    sha.Update(data, length);
  }

  /** The reads of the hash loop all succeed. */
  predicate Readable(size: nat, base: nat, range: Range, cipher: bool)
    requires range.location < TWO_32 && range.length < TWO_32
  {
    var end := Add32(range.location, range.length);
    end <= range.location
    || (base <= range.location && end <= base + size && (cipher ==> (end - range.location) % 64 == 0))
  }

  /** The stored bytes of a range; none when its end wraps around. */
  function Stored(memory: Data, base: nat, range: Range): (stored: Data)
    requires range.location < TWO_32 && range.length < TWO_32 && Readable(|memory|, base, range, false)
  {
    var end := Add32(range.location, range.length);
    if end <= range.location then [] else memory[range.location - base..end - base]
  }

  lemma StoredPieces(memory: Data, base: nat, range: Range, cipher: bool)
    requires range.location < TWO_32 && range.length < TWO_32 && Readable(|memory|, base, range, cipher)
    ensures Readable(|memory|, base, range, false)
    ensures cipher ==> |Stored(memory, base, range)| % 64 == 0 && |Stored(memory, base, range)| % 16 == 0
  {
    if cipher {
      HashBlocksAreCipherBlocks(|Stored(memory, base, range)|);
    }
  }

  lemma StoredSlice(memory: Data, base: nat, range: Range, p: nat, n: nat)
    requires range.location < TWO_32 && range.length < TWO_32 && Readable(|memory|, base, range, false)
    requires range.location + p + n <= Add32(range.location, range.length) && 0 < n
    ensures |Stored(memory, base, range)| == Add32(range.location, range.length) - range.location
    ensures InMemory(|memory|, base, range.location + p, n)
    ensures Stored(memory, base, range)[p..p + n] == memory[range.location + p - base..range.location + p - base + n]
  {
    SliceOfSlice(memory, range.location - base, Add32(range.location, range.length) - base, p, p + n);
  }

  /** What the hash loop hashes. */
  function Hashed(memory: Data, base: nat, range: Range, zero: Range, cipher: bool, rk: Schedule, vector: Block): (h: Data)
    requires range.location < TWO_32 && range.length < TWO_32 && Readable(|memory|, base, range, cipher)
    requires range.location <= zero.location
  {
    var stored := Stored(memory, base, range);
    StoredPieces(memory, base, range, cipher);
    Masked(Content(cipher, rk, vector, stored), zero.location - range.location, zero.length)
  }

  /** A piece with the hash field zeroed where the piece holds it whole. */
  function MaskedHere(piece: Data, location: nat, zero: Range): (t: Data)
    ensures |t| == |piece|
  {
    if location <= zero.location && zero.location + zero.length <= location + |piece|
    then Zeroed(piece, zero.location - location, zero.length)
    else piece
  }

  /** The read of one turn, through whichever reader it is. */
  method ReadPiece(memory: array<bv8>, base: nat, reader: Reader, location: nat, length: nat, ghost key: Key,
                   ghost rk: Schedule, ghost before: Block)
    returns (ok: bool, data: array<bv8>)
    requires length <= 64
    requires reader.Decrypting? ==>
               && reader.aes.Valid() && reader.aes.roundKey[..] == rk == Expand(key) && reader.aes.iv[..] == before
               && memory != reader.aes.roundKey && memory != reader.aes.iv
    modifies if reader.Decrypting? then {reader.aes.roundKey, reader.aes.iv} else {}
    ensures fresh(data) && data.Length == 64
    ensures reader.Decrypting? ==> reader.aes.roundKey[..] == rk
    ensures ok <==> InMemory(memory.Length, base, location, length) && (reader.Decrypting? ==> length == 64)
    ensures ok && reader.Decrypting? ==>
              reader.aes.iv[..] == NextVector(before, memory[location - base..location - base + length])
    ensures ok ==>
              data[..length] == Content(reader.Decrypting?, rk, before, memory[location - base..location - base + length])
  {
    hide Expand, DecryptWith, NextVector;
    data := new bv8[64];
    match reader {
      case Plain =>
        ok := Read(memory, base, location, data, length);
      case Decrypting(aes) =>
        ok := ReadAndDecrypt(memory, base, aes, location, data, length, key, rk, before);
        assert ok ==> data[..length] == data[..];
    }
  }

  /** One turn of the hash loop. */
  method HashNext(memory: array<bv8>, base: nat, reader: Reader, sha: Sha1Stream.Context, location: nat, length: nat,
                  zero: Range, ghost key: Key, ghost rk: Schedule, ghost before: Block)
    returns (ok: bool)
    requires sha.Valid() && 0 < length <= 64 && zero.location + zero.length < TWO_32
    requires memory != sha.buffer
    requires reader.Decrypting? ==>
               && reader.aes.Valid() && reader.aes.roundKey[..] == rk == Expand(key) && reader.aes.iv[..] == before
               && memory != reader.aes.roundKey && memory != reader.aes.iv
               && sha.buffer != reader.aes.roundKey && sha.buffer != reader.aes.iv
    modifies sha, sha.state, sha.buffer, if reader.Decrypting? then {reader.aes.roundKey, reader.aes.iv} else {}
    ensures sha.Valid()
    ensures ok <==> InMemory(memory.Length, base, location, length) && (reader.Decrypting? ==> length == 64)
    ensures reader.Decrypting? ==> reader.aes.roundKey[..] == rk
    ensures ok && reader.Decrypting? ==>
              reader.aes.iv[..] == NextVector(before, memory[location - base..location - base + length])
    ensures ok ==>
              sha.message == old(sha.message) +
                MaskedHere(Content(reader.Decrypting?, rk, before, memory[location - base..location - base + length]),
                           location, zero)
  {
    hide Expand, Content, NextVector, Zeroed, Sha1Stream.Context.Valid;
    var data;
    ok, data := ReadPiece(memory, base, reader, location, length, key, rk, before);
    if ok {
      HashPiece(sha, data, location, length, zero);
    }
  }

  /** The turns of the hash loop add up to what is hashed. */
  lemma PieceOfHashed(memory: Data, base: nat, range: Range, zero: Range, cipher: bool, rk: Schedule, vector: Block, p: nat,
                      length: nat, before: Block, piece: Data)
    requires range.location < TWO_32 && range.length < TWO_32 && Readable(|memory|, base, range, cipher)
    requires range.location <= zero.location && 0 < zero.length
    requires p + length <= |Stored(memory, base, range)| && 0 < length <= 64 && p % 64 == 0
    requires length == 64 || p + length == |Stored(memory, base, range)|
    requires piece == Stored(memory, base, range)[p..p + length]
    requires cipher ==> |piece| % 16 == 0 && p % 16 == 0 && before == VectorAt(vector, Stored(memory, base, range), p)
    ensures |Hashed(memory, base, range, zero, cipher, rk, vector)| == |Stored(memory, base, range)|
    ensures cipher ==> (p + length) % 16 == 0
    ensures cipher ==> NextVector(before, piece) == VectorAt(vector, Stored(memory, base, range), p + length)
    ensures Hashed(memory, base, range, zero, cipher, rk, vector)[..p + length] ==
            Hashed(memory, base, range, zero, cipher, rk, vector)[..p]
            + MaskedHere(Content(cipher, rk, before, piece), range.location + p, zero)
  {
    hide DecryptWith, NextVector, VectorAt, Zeroed, Masked, Stored;
    var stored := Stored(memory, base, range);
    StoredPieces(memory, base, range, cipher);
    var content := Content(cipher, rk, vector, stored);
    var w := zero.location - range.location;
    if cipher {
      DecryptPiece(rk, vector, stored, p, length);
    }
    assert content[p..p + length] == Content(cipher, rk, before, piece);
    MaskedPiece(content, w, zero.length, p, length);
    MaskedGrows(content, w, zero.length, p, length);
  }

  /** Where the hash loop stands after `p` bytes. */
  ghost predicate InStep(memory: Data, base: nat, range: Range, zero: Range, cipher: bool, rk: Schedule, vector: Block, p: nat,
                         message: Data, before: Data)
    requires range.location < TWO_32 && range.length < TWO_32 && Readable(|memory|, base, range, cipher)
    requires range.location <= zero.location
  {
    && |before| == 16 && p <= |Stored(memory, base, range)|
    && |Hashed(memory, base, range, zero, cipher, rk, vector)| == |Stored(memory, base, range)|
    && message == Hashed(memory, base, range, zero, cipher, rk, vector)[..p]
    && (cipher ==> p % 16 == 0 && before == VectorAt(vector, Stored(memory, base, range), p))
  }

  lemma FirstStep(memory: Data, base: nat, range: Range, zero: Range, cipher: bool, rk: Schedule, vector: Block)
    requires range.location < TWO_32 && range.length < TWO_32 && Readable(|memory|, base, range, cipher)
    requires range.location <= zero.location
    ensures InStep(memory, base, range, zero, cipher, rk, vector, 0, [], vector)
  {
    hide Content, Masked;
    StoredPieces(memory, base, range, cipher);
  }

  lemma NextStep(memory: Data, base: nat, range: Range, zero: Range, cipher: bool, rk: Schedule, vector: Block, p: nat,
                 length: nat, message: Data, before: Data, piece: Data, after: Data)
    requires range.location < TWO_32 && range.length < TWO_32 && Readable(|memory|, base, range, cipher)
    requires range.location <= zero.location && 0 < zero.length
    requires p % 64 == 0 && |before| == 16 && 0 < length <= 64
    requires range.location + p + length <= Add32(range.location, range.length)
    requires length == 64 || range.location + p + length == Add32(range.location, range.length)
    requires InMemory(|memory|, base, range.location + p, length) && (cipher ==> length == 64)
    requires piece == memory[range.location + p - base..range.location + p - base + length]
    requires after == if cipher then NextVector(before, piece) else vector
    requires InStep(memory, base, range, zero, cipher, rk, vector, p, message, before)
    ensures InStep(memory, base, range, zero, cipher, rk, vector, p + length,
                   message + MaskedHere(Content(cipher, rk, before, piece), range.location + p, zero), after)
  {
    hide Content, MaskedHere, Hashed, Stored, NextVector, VectorAt;
    StoredSlice(memory, base, range, p, length);
    PieceOfHashed(memory, base, range, zero, cipher, rk, vector, p, length, before, piece);
  }

  lemma LastStep(memory: Data, base: nat, range: Range, zero: Range, cipher: bool, rk: Schedule, vector: Block, p: nat,
                 message: Data, before: Data)
    requires range.location < TWO_32 && range.length < TWO_32 && Readable(|memory|, base, range, cipher)
    requires range.location <= zero.location && |memory| < TWO_32
    requires InStep(memory, base, range, zero, cipher, rk, vector, p, message, before)
    requires range.location + p >= Add32(range.location, range.length)
    ensures message == Hashed(memory, base, range, zero, cipher, rk, vector) && |message| < TWO_32
  {
    hide Hashed;
  }

  lemma FailedRead(size: nat, base: nat, range: Range, cipher: bool, location: nat, length: nat)
    requires range.location < TWO_32 && range.length < TWO_32 && range.location <= location && 0 < length <= 64
    requires length == 64 || location + length == Add32(range.location, range.length)
    requires location + length <= Add32(range.location, range.length)
    requires cipher ==> (location - range.location) % 64 == 0
    requires !(InMemory(size, base, location, length) && (cipher ==> length == 64))
    ensures !Readable(size, base, range, cipher)
  {
  }

  lemma AllRead(size: nat, base: nat, range: Range, cipher: bool, location: nat)
    requires range.location < TWO_32 && range.length < TWO_32 && location >= Add32(range.location, range.length)
    requires location > range.location ==> base <= range.location && location <= base + size
    requires cipher ==> (location - range.location) % 64 == 0
    requires location <= Add32(range.location, range.length) || location == range.location
    ensures Readable(size, base, range, cipher)
  {
  }

  /** The hash loop. */
  method HashRange(memory: array<bv8>, base: nat, reader: Reader, sha: Sha1Stream.Context, range: Range, zero: Range,
                   ghost key: Key, ghost rk: Schedule, ghost vector: Block)
    returns (ok: bool)
    requires base + memory.Length < TWO_32 && range.location < TWO_32 && range.length < TWO_32
    requires range.location <= zero.location && 0 < zero.length && zero.location + zero.length < TWO_32
    requires sha.Valid() && sha.message == [] && memory != sha.buffer
    requires reader.Decrypting? ==>
               && reader.aes.Valid() && reader.aes.roundKey[..] == rk == Expand(key) && reader.aes.iv[..] == vector
               && memory != reader.aes.roundKey && memory != reader.aes.iv
               && sha.buffer != reader.aes.roundKey && sha.buffer != reader.aes.iv
    modifies sha, sha.state, sha.buffer, if reader.Decrypting? then {reader.aes.roundKey, reader.aes.iv} else {}
    ensures ok <==> Readable(memory.Length, base, range, reader.Decrypting?)
    ensures ok ==> sha.Valid() && |sha.message| < TWO_32
    ensures ok ==> sha.message == Hashed(memory[..], base, range, zero, reader.Decrypting?, rk, vector)
  {
    hide Expand, NextVector, VectorAt, Content, MaskedHere, Hashed, Stored, Readable, InStep;
    hide Sha1Stream.Context.Valid;
    ghost var cipher, mem := reader.Decrypting?, memory[..];
    ghost var readable := Readable(memory.Length, base, range, cipher);
    if readable {
      FirstStep(mem, base, range, zero, cipher, rk, vector);
    }
    var location := range.location;
    var end := Add32(range.location, range.length);
    ok := true;
    while location < end
      invariant ok && memory[..] == mem && sha.Valid()
      invariant range.location <= location && (location <= end || location == range.location)
      invariant location >= end || (location - range.location) % 64 == 0
      invariant location > range.location ==> base <= range.location && location <= base + memory.Length
      invariant cipher ==> (location - range.location) % 64 == 0 && reader.aes.roundKey[..] == rk
      invariant readable ==> InStep(mem, base, range, zero, cipher, rk, vector, location - range.location, sha.message,
                                    if cipher then reader.aes.iv[..] else vector)
    {
      var length := if end - location > 64 then 64 else end - location;
      ghost var before, message := if cipher then reader.aes.iv[..] else vector, sha.message;
      ok := HashNext(memory, base, reader, sha, location, length, zero, key, rk, before);
      if !ok {
        FailedRead(memory.Length, base, range, cipher, location, length);
        return;
      }
      if readable {
        NextStep(mem, base, range, zero, cipher, rk, vector, location - range.location, length, message, before,
                 mem[location - base..location - base + length], if cipher then reader.aes.iv[..] else vector);
      }
      location := location + length;
    }
    AllRead(memory.Length, base, range, cipher, location);
    LastStep(mem, base, range, zero, cipher, rk, vector, location - range.location, sha.message,
             if cipher then reader.aes.iv[..] else vector);
  }

  /** `fd_boot_check_hash`. */
  method CheckHash(memory: array<bv8>, base: nat, reader: Reader, storage: Range, range: Range, zero: Range, hash: Data,
                   ghost key: Key, ghost rk: Schedule, ghost vector: Block)
    returns (ok: bool, valid: bool)
    requires base + memory.Length < TWO_32
    requires storage.location < TWO_32 && storage.length < TWO_32 && range.location < TWO_32 && range.length < TWO_32
    requires range.location <= zero.location && 0 < zero.length && zero.location + zero.length < TWO_32
    requires reader.Decrypting? ==>
               && reader.aes.Valid() && reader.aes.roundKey[..] == rk == Expand(key) && reader.aes.iv[..] == vector
               && memory != reader.aes.roundKey && memory != reader.aes.iv
    modifies if reader.Decrypting? then {reader.aes.roundKey, reader.aes.iv} else {}
    ensures ok <==> IsSubrange(storage, range) && Readable(memory.Length, base, range, reader.Decrypting?)
    ensures ok ==> (valid <==> Sha1.Digest(Hashed(memory[..], base, range, zero, reader.Decrypting?, rk, vector)) == hash)
  {
    hide Expand, Sha1.Digest, Hashed, Readable;
    hide Sha1Stream.Context.Valid;
    ok, valid := IsSubrange(storage, range), false;
    if !ok {
      return;
    }
    var sha := new Sha1Stream.Context();
    ok := HashRange(memory, base, reader, sha, range, zero, key, rk, vector);
    if !ok {
      return;
    }
    ghost var mem := memory[..];
    var digest := new bv8[20];
    sha.Final(digest);
    valid := digest[..] == hash;
  }
}
