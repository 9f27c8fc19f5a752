/**
 The boot loader of fd_boot.c over the flash of fd_boot_nrf53.c: metadata checks, the decision, installation. Each method
 is proved to compute the verdicts of BootFormat; what an update as a whole does is the function `UpdateResult`.
*/
module BootLoader {
  import Arithmetic
  import opened Bytes
  import Sha1
  import opened Aes
  import opened AesCbc
  import AesBuffer
  import opened BootFormat
  import opened BootFlash
  import opened BootReader
  import opened BootInstall

  lemma HashedExecutable(s: Data, base: nat, location: nat, offset: nat, length: nat, rk: Schedule, vector: Block)
    requires base <= location < TWO_32 && length < TWO_32 && location + offset + 44 < TWO_32
    requires base <= Add32(location, length) <= base + |s| < TWO_32
    ensures Readable(|s|, base, Range(location, length), false)
    ensures Sha1.Digest(Hashed(s, base, Range(location, length), Range(location + offset + 24, HASH_SIZE), false, rk, vector))
         == ExecutableDigest(s, base, location, offset, length)
  {
    hide Sha1.Digest, Masked;
  }

  lemma HashedWhole(u: Data, rk: Schedule, vector: Block)
    requires |u| < TWO_32
    ensures Readable(|u|, 0, Range(0, |u|), false)
    ensures Hashed(u, 0, Range(0, |u|), Range(44, HASH_SIZE), false, rk, vector) == Masked(u, 44, HASH_SIZE)
  {
    hide Masked;
    assert u[0..|u|] == u;
  }

  lemma ExpectedIs(u: Data, metadata: Data)
    requires HEADER_SIZE + INFO_SIZE <= |u| && metadata == u[8..84]
    ensures Expected(u) == metadata[..36] + Sha1.Zeros(HASH_SIZE) + metadata[56..]
  {
    SliceOfSlice(u, 8, 84, 0, 36);
    SliceOfSlice(u, 8, 84, 56, 76);
    assert metadata[0..36] == metadata[..36] && metadata[56..76] == metadata[56..];
  }

  /** The payload, as the location arithmetic of the C code finds it. */
  lemma HashedPayload(u: Data, key: Key, rk: Schedule, offset: nat, vector: Block, range: Range)
    requires 256 <= |u| < TWO_32 && |u| % 64 == 0 && rk == Expand(key)
    requires range == Range(Sub32(Sub32(|u|, 64), Sub32(|u|, 320)), Sub32(|u|, 320))
    ensures range.location == 256 && IsSubrange(Range(0, |u|), range) && Readable(|u|, 0, range, true)
    ensures Sha1.Digest(Hashed(u, 0, range, Range(256 + offset + 24, HASH_SIZE), true, rk, vector))
         == PayloadDigest(u, key, offset, vector)
  {
    hide Sha1.Digest, Masked, Expand, DecryptWith;
    assert Stored(u, 0, range) == Payload(u);
    HashBlocksAreCipherBlocks(|Payload(u)|);
  }

  class Loader {
    const flash: Flash
    const update: array<bv8>
    const key: Key
    const location: nat
    const offset: nat
    const policy: Policy

    /** The executable lies in flash, update storage starts at address 0, and the two are different memories. */
    ghost predicate Valid() {
      && flash.Valid() && update != flash.memory && update.Length < TWO_32
      && flash.base <= location && location + offset + 44 <= flash.base + flash.memory.Length
      && offset + 300 < TWO_32
    }

    constructor (flash: Flash, update: array<bv8>, key: Key, location: nat, offset: nat, policy: Policy)
      requires flash.Valid() && update != flash.memory && update.Length < TWO_32 && offset + 300 < TWO_32
      requires flash.base <= location && location + offset + 44 <= flash.base + flash.memory.Length
      ensures Valid() && this.flash == flash && this.update == update && this.key == key
      ensures this.location == location && this.offset == offset && this.policy == policy
    {
      this.flash, this.update, this.key, this.location, this.offset := flash, update, key, location, offset;
      this.policy := policy;
    }

    // -------------------------------------------------------------- metadata of the executable

    /** The end of `fd_boot_get_executable_metadata`: trailer and hash. */
    method CheckBody(info: ExecutableInfo) returns (verdict: Verdict<ExecutableInfo>)
      requires Valid() && info.length < TWO_32
      ensures verdict == BodyVerdict(flash.memory[..], flash.base, location, offset, info)
    {
      hide Sha1.Digest, ExecutableDigest, Hashed, Expand, Unpack;
      var storage := Range(flash.base, flash.memory.Length);
      var trailer := Range(Sub32(Add32(location, info.length), 4), 4);
      if !IsSubrange(storage, trailer) {
        return Rejected(Length);
      }
      var data := new bv8[4];
      var ok := Read(flash.memory, flash.base, trailer.location, data, 4);
      if !ok {
        return Error;
      }
      assert data[..4] == data[..] && data[0..4] == data[..];
      if WordIn(data[..], 0) != EXECUTABLE_TRAILER {
        return Rejected(TrailerMagic);
      }
      ghost var rk := Expand(key);
      var valid;
      ok, valid := CheckHash(flash.memory, flash.base, Plain, storage, Range(location, info.length),
                             Range(location + offset + 24, HASH_SIZE), info.hash, key, rk, key);
      if !ok {
        return Error;
      }
      HashedExecutable(flash.memory[..], flash.base, location, offset, info.length, rk, key);
      verdict := if valid then Accepted(info) else Rejected(Hash);
    }

    /** `fd_boot_get_executable_metadata`. */
    method GetExecutableMetadata() returns (verdict: Verdict<ExecutableInfo>)
      requires Valid()
      ensures verdict == ExecutableVerdict(flash.memory[..], flash.base, location, offset)
    {
      hide BodyVerdict, Unpack;
      ghost var s, o := flash.memory[..], location - flash.base + offset;
      var storage := Range(flash.base, flash.memory.Length);
      if !IsSubrange(storage, Range(location + offset, 8)) {
        return Error;
      }
      var header := new bv8[8];
      var ok := Read(flash.memory, flash.base, location + offset, header, 8);
      if !ok {
        return Error;
      }
      WordsOfSlice(s, o, 8, header[..]);
      if WordIn(header[..], 0) != EXECUTABLE_MAGIC {
        return Rejected(HeaderMagic);
      }
      if WordIn(header[..], 4) != EXECUTABLE_VERSION {
        return Rejected(HeaderVersion);
      }
      if !IsSubrange(storage, Range(location + offset + 8, 36)) {
        return Error;
      }
      var metadata := new bv8[36];
      ok := Read(flash.memory, flash.base, location + offset + 8, metadata, 36);
      if !ok {
        return Error;
      }
      WordsOfSlice(s, o + 8, 36, metadata[..]);
      var length := WordIn(metadata[..], 12);
      if length % HASH_BLOCK != 0 {
        return Error;
      }
      SliceOfSlice(s, o + 8, o + 44, 16, 36);
      verdict := CheckBody(ExecutableInfo(ReadVersion(metadata[..], 0), length, metadata[16..36]));
    }

    // -------------------------------------------------------------- metadata of the update

    /** `fd_boot_decrypt_range`: sixteen bytes at a time. */
    method DecryptRange(range: Range, vector: Block, data: array<bv8>) returns (ok: bool)
      requires Valid() && range.location + range.length < TWO_32 && range.length % 16 == 0
      requires data.Length == range.length && data != update
      modifies data
      ensures ok <==> range.length == 0 || range.location + range.length <= update.Length
      ensures ok && 0 < range.length ==>
                data[..] == DecryptBytes(key, vector, update[range.location..range.location + range.length])
    {
      hide Expand, DecryptBytes, NextVector, Deciphered;
      var aes := new AesBuffer.Context();
      aes.DecryptInitialize(key, vector);
      ghost var u, o := update[..], range.location;
      ghost var cipher: Data := [];
      var at, end, dataOffset := range.location, range.location + range.length, 0;
      NothingDeciphered(key, vector);
      ok := true;
      while at < end
        invariant ok && at == o + dataOffset <= end && dataOffset % 16 == 0 && update[..] == u
        invariant if dataOffset == 0 then cipher == [] else at <= |u| && cipher == u[o..at]
        invariant fresh(aes.roundKey) && fresh(aes.iv) && aes.Valid() && aes.roundKey[..] == Expand(key)
        invariant Deciphered(key, vector, cipher, data[..dataOffset], aes.iv[..])
      {
        WholeBlockLeft(range.length, dataOffset);
        var length := if end - at > 16 then 16 else end - at;
        var input := new bv8[16];
        ok := Read(update, 0, at, input, length);
        if !ok {
          return;
        }
        ghost var done, before := data[..dataOffset], aes.iv[..];
        ghost var piece := input[..16];
        aes.DecryptUpdate(input, data, dataOffset, length, key);
        assert data[..dataOffset + 16] == done + DecryptBytes(key, before, piece);
        DecipherMore(key, vector, cipher, done, before, piece);
        assert u[o..at + 16] == cipher + piece;
        cipher := cipher + piece;
        at, dataOffset := at + length, dataOffset + length;
      }
      assert data[..range.length] == data[..];
      if 0 < range.length {
        DecipheredIs(key, vector, cipher, data[..], aes.iv[..]);
      }
    }

    /** The start of `fd_boot_get_update_metadata`: the header. */
    method ReadHeader() returns (verdict: Option<Verdict<UpdateInfo>>)
      requires Valid()
      ensures verdict ==
              if update.Length < HEADER_SIZE then Some(Error)
              else if WordIn(update[..], 0) != UPDATE_MAGIC then Some(Rejected(HeaderMagic))
              else if WordIn(update[..], 4) != UPDATE_VERSION then Some(Rejected(HeaderVersion))
              else None
    {
      hide Unpack;
      if !IsSubrange(Range(0, update.Length), Range(0, 8)) {
        return Some(Error);
      }
      var header := new bv8[8];
      var ok := Read(update, 0, 0, header, 8);
      if !ok {
        return Some(Error);
      }
      WordsOfSlice(update[..], 0, 8, header[..]);
      verdict :=
        if WordIn(header[..], 0) != UPDATE_MAGIC then Some(Rejected(HeaderMagic))
        else if WordIn(header[..], 4) != UPDATE_VERSION then Some(Rejected(HeaderVersion))
        else None;
    }

    /** The 76 bytes of metadata. */
    method ReadMetadata() returns (ok: bool, info: UpdateInfo, metadata: Data)
      requires Valid()
      ensures ok <==> HEADER_SIZE + INFO_SIZE <= update.Length
      ensures ok ==> metadata == update[8..84] && info == ReadUpdateInfo(update[..])
    {
      hide Unpack;
      info, metadata := UpdateInfo(ExecutableInfo(Version(0, 0, 0), 0, []), [], 0, Sha1.Zeros(16)), [];
      ok := IsSubrange(Range(0, update.Length), Range(8, 76));
      if !ok {
        return;
      }
      var data := new bv8[76];
      ok := Read(update, 0, 8, data, 76);
      if !ok {
        return;
      }
      metadata := data[..];
      WordsOfSlice(update[..], 8, 76, metadata);
      SliceOfSlice(update[..], 8, 84, 16, 36);
      SliceOfSlice(update[..], 8, 84, 36, 56);
      SliceOfSlice(update[..], 8, 84, 60, 76);
      info := UpdateInfo(ExecutableInfo(ReadVersion(metadata, 0), WordIn(metadata, 12), metadata[16..36]),
                         metadata[36..56], WordIn(metadata, 56), metadata[60..76]);
    }

    /** The trailer and the hash of the whole update. */
    method CheckWhole(info: UpdateInfo) returns (verdict: Option<Verdict<UpdateInfo>>)
      requires Valid() && HEADER_SIZE + INFO_SIZE <= update.Length
      ensures verdict ==
              if WordIn(update[..], update.Length - 4) != UPDATE_TRAILER then Some(Rejected(TrailerMagic))
              else if Sha1.Digest(Masked(update[..], 44, HASH_SIZE)) != info.hash then Some(Rejected(Hash))
              else None
    {
      hide Unpack, Sha1.Digest, Masked, Expand;
      var storage := Range(0, update.Length);
      if !IsSubrange(storage, Range(Sub32(update.Length, 4), 4)) {
        return Some(Rejected(Length));
      }
      var trailer := new bv8[4];
      var ok := Read(update, 0, update.Length - 4, trailer, 4);
      if !ok {
        return Some(Error);
      }
      WordsOfSlice(update[..], update.Length - 4, 4, trailer[..]);
      if WordIn(trailer[..], 0) != UPDATE_TRAILER {
        return Some(Rejected(TrailerMagic));
      }
      ghost var rk := Expand(key);
      HashedWhole(update[..], rk, key);
      var valid;
      ok, valid := CheckHash(update, 0, Plain, storage, storage, Range(44, HASH_SIZE), info.hash, key, rk, key);
      verdict := if !ok then Some(Error) else if !valid then Some(Rejected(Hash)) else None;
    }

    /** The part that needs the key: the encrypted metadata, then the hash of the executable. */
    method CheckContent(info: UpdateInfo, metadata: Data) returns (verdict: Verdict<UpdateInfo>)
      requires Valid() && update.Length % 64 == 0 && HEADER_SIZE + INFO_SIZE <= update.Length
      requires metadata == update[8..84] && info.executable.length == Room(update[..], info)
      ensures verdict == ContentVerdict(update[..], key, offset, info)
    {
      hide Sha1.Digest, Masked, Expand, DecryptBytes, PayloadDigest, Hashed, Readable;
      if !IsEncrypted(info) {
        return Error;
      }
      ghost var u := update[..];
      var decrypted := new bv8[128];
      var ok := DecryptRange(Range(128, 128), info.vector, decrypted);
      if !ok {
        return Error;
      }
      var expected := metadata[..36] + Sha1.Zeros(HASH_SIZE) + metadata[56..];
      ExpectedIs(u, metadata);
      if expected != decrypted[8..84] {
        return Rejected(Metadata);
      }
      assert decrypted[..][8..84] == decrypted[8..84];
      var aes := new AesBuffer.Context();
      aes.DecryptInitialize(key, info.vector);
      var length := info.executable.length;
      var range := Range(Sub32(Sub32(update.Length, 64), length), length);
      ghost var rk := Expand(key);
      HashedPayload(u, key, rk, offset, info.vector, range);
      var valid;
      ok, valid := CheckHash(update, 0, Decrypting(aes), Range(0, update.Length), range,
                             Range(range.location + offset + 24, HASH_SIZE), info.executable.hash, key, rk, info.vector);
      verdict := if !ok then Error else if valid then Accepted(info) else Rejected(Hash);
    }

    /** `fd_boot_get_update_metadata`. */
    method GetUpdateMetadata() returns (verdict: Verdict<UpdateInfo>)
      requires Valid()
      ensures verdict == UpdateVerdict(update[..], key, offset)
    {
      hide Sha1.Digest, Masked, Unpack, ContentVerdict;
      var early := ReadHeader();
      if early.Some? {
        return early.value;
      }
      var ok, info, metadata := ReadMetadata();
      if !ok {
        return Error;
      }
      var length := info.executable.length;
      if length % HASH_BLOCK != 0 {
        return Rejected(Length);
      }
      var room := Sub32(Sub32(update.Length, 64), 128);
      if IsEncrypted(info) {
        room := Sub32(room, 128);
      }
      if length != room {
        return Rejected(Length);
      }
      early := CheckWhole(info);
      if early.Some? {
        return early.value;
      }
      RoomInPieces(update[..], info);
      verdict := CheckContent(info, metadata);
    }

    // -------------------------------------------------------------- installation

    /** The image of an update fits in flash; the C code leaves that to the board. */
    ghost predicate HasRoom() {
      location + update.Length <= flash.base + flash.memory.Length + 320
    }

    /** One block of `fd_boot_install`: reading and deciphering. */
    method DecipherBlock(aes: AesBuffer.Context, at: nat, ghost before: Block) returns (out: array<bv8>)
      requires Valid() && at + 16 <= update.Length
      requires aes.Valid() && aes.roundKey[..] == Expand(key) && aes.iv[..] == before
      requires update != aes.roundKey && update != aes.iv
      modifies aes.roundKey, aes.iv
      ensures fresh(out) && out.Length == 16
      ensures aes.roundKey[..] == Expand(key) && aes.iv[..] == NextVector(before, update[at..at + 16])
      ensures out[..] == DecryptBytes(key, before, update[at..at + 16])
    {
      hide Expand, DecryptWith, NextVector;
      var data := new bv8[16];
      out := new bv8[16];
      ghost var block := update[at..at + 16];
      var ok := Read(update, 0, at, data, 16);
      assert data[..16] == block;
      aes.DecryptUpdate(data, out, 0, 16, key);
    }

    /** One block of `fd_boot_install`: erasing the next page when it is reached. */
    method EraseWhenReached(flashLocation: nat, nextErase: nat, ghost s: Data, ghost image: Data)
      returns (ok: bool, next: nat)
      requires Valid() && flash.Holds(flashLocation, 16)
      requires flashLocation == location + |image| <= nextErase < flashLocation + PAGE && |image| % 16 == 0
      requires (nextErase - location) % PAGE == 0 && nextErase <= flash.base + flash.memory.Length
      requires |s| == flash.memory.Length && (|image| > 0 ==> location % PAGE == 0)
      requires flash.memory[..] == Filled(s, location - flash.base, image, nextErase - flash.base)
      modifies flash`log, flash.memory
      ensures ok <==> location % PAGE == 0
      ensures !ok ==> flash.memory[..] == old(flash.memory[..]) && flash.log == old(flash.log)
      ensures ok ==> flashLocation + 16 <= next < flashLocation + 16 + PAGE && (next - location) % PAGE == 0
      ensures ok ==> next <= flash.base + flash.memory.Length
      ensures ok ==> flash.log == old(flash.log) + (if |image| % PAGE == 0 then [Erased(flashLocation)] else [])
      ensures ok ==> flash.memory[..] == Filled(s, location - flash.base, image, next - flash.base)
    {
      hide Filled, Cleared, Ones;
      next := nextErase;
      NextErase(location, |image|, nextErase);
      if next == flashLocation {
        AlignedEnd(flash.base, flash.memory.Length, location, |image|);
        ok, next := flash.Erase(flashLocation, update.Length);
        if !ok {
          return;
        }
        EraseFilled(s, location - flash.base, image, flashLocation - flash.base);
      } else {
        ok := true;
      }
    }

    /** One block of `fd_boot_install`: the write. */
    method ProgramBlock(flashLocation: nat, out: array<bv8>, ghost next: nat, ghost s: Data, ghost image: Data)
      returns (ok: bool)
      requires Valid() && flash.Holds(flashLocation, 16) && out.Length == 16 && out != flash.memory
      requires flashLocation == location + |image| && flashLocation + 16 <= next <= flash.base + flash.memory.Length
      requires flashLocation % 4 == 0 && |s| == flash.memory.Length
      requires flash.memory[..] == Filled(s, location - flash.base, image, next - flash.base)
      modifies flash`log, flash.memory
      ensures ok && flash.log == old(flash.log) + BootFlash.Words(flashLocation, 4)
      ensures flash.memory[..] == Filled(s, location - flash.base, image + old(out[..]), next - flash.base)
    {
      hide Filled, Programmed, BootFlash.Words;
      ghost var o, block := location - flash.base, out[..];
      assert out[..16] == block;
      WriteFilled(s, o, image, next - flash.base, block);
      ok := flash.Write(flashLocation, out, 16);
    }

    /** How far an installation has come. */
    ghost predicate Progress(s: Data, log: seq<Event>, vector: Block, image: Data, after: Data, nextErase: nat)
      reads flash, flash.memory, update
    {
      IsProgress(flash.base, location, key, s, log, vector, update[..], flash.memory[..], flash.log, image, after, nextErase)
    }

    /** One turn of the installation loop. */
    method InstallNext(aes: AesBuffer.Context, nextErase: nat, ghost s: Data, ghost log: seq<Event>, ghost vector: Block,
                       at: nat, flashLocation: nat, ghost image: Data)
      returns (ok: bool, next: nat, ghost longer: Data)
      requires Valid() && at + 16 <= update.Length && flash.Holds(flashLocation, 16)
      requires at == 256 + |image| && flashLocation == location + |image|
      requires aes.Valid() && aes.roundKey[..] == Expand(key)
      requires update != aes.roundKey && update != aes.iv && flash.memory != aes.roundKey && flash.memory != aes.iv
      requires Progress(s, log, vector, image, aes.iv[..], nextErase)
      modifies aes.roundKey, aes.iv, flash`log, flash.memory
      ensures aes.roundKey[..] == Expand(key)
      ensures ok <==> location % PAGE == 0
      ensures !ok ==> flash.memory[..] == old(flash.memory[..]) && flash.log == old(flash.log)
      ensures ok ==> |longer| == |image| + 16 && Progress(s, log, vector, longer, aes.iv[..], next)
    {
      hide Expand, DecryptBytes, NextVector, Filled, BootFlash.Words, InstallLog, Deciphered;
      ghost var before, block := aes.iv[..], update[at..at + 16];
      var out := DecipherBlock(aes, at, before);
      longer := image;
      ok, next := EraseWhenReached(flashLocation, nextErase, s, image);
      if !ok {
        return;
      }
      FourAligned(location, |image|);
      ok := ProgramBlock(flashLocation, out, next, s, image);
      ghost var plain := DecryptBytes(key, before, block);
      longer := image + plain;
      ProgressGrows(flash.base, location, key, s, log, vector, update[..], flash.memory[..], flash.log, image, before,
                    block, plain, aes.iv[..], next);
    }

    /** `fd_boot_install`. */
    method Install(info: UpdateInfo) returns (ok: bool)
      requires Valid() && HasRoom() && update.Length % 64 == 0 && 256 <= update.Length
      requires info.executable.length == Sub32(update.Length, 320)
      modifies flash`log, flash.memory
      ensures ok <==> Payload(update[..]) == [] || location % PAGE == 0
      ensures !ok ==> flash.memory[..] == old(flash.memory[..]) && flash.log == old(flash.log)
      ensures ok ==> flash.log == old(flash.log) + InstallLog(location, |Payload(update[..])| / 4)
      ensures |Payload(update[..])| % 16 == 0
      ensures ok ==> IsInstalled(old(flash.memory[..]), flash.memory[..], location - flash.base, key, info.vector,
                                 Payload(update[..]))
    {
      hide Expand, Payload, Add32, Sub32, IsInstalled, Progress, InstallLog;
      ghost var u, s, log := update[..], flash.memory[..], flash.log;
      PayloadBounds(update.Length);
      PayloadLength(u);
      var aes := new AesBuffer.Context();
      aes.DecryptInitialize(key, info.vector);
      var length := info.executable.length;
      var flashLocation: nat, nextErase: nat := location, location;
      var at := Sub32(Sub32(update.Length, 64), length);
      var end := Add32(at, length);
      ghost var image: Data := [];
      FirstProgress(s, log, info.vector);
      ok := true;
      while at < end
        invariant ok && at == 256 + |image| && flashLocation == location + |image| && update[..] == u
        invariant at == 256 || at <= end
        invariant fresh(aes.roundKey) && fresh(aes.iv) && aes.Valid() && aes.roundKey[..] == Expand(key)
        invariant Progress(s, log, info.vector, image, aes.iv[..], nextErase)
      {
        var n := if end - at > 16 then 16 else end - at;
        MidProgress(s, log, info.vector, image, aes.iv[..], nextErase);
        ok, nextErase, image := InstallNext(aes, nextErase, s, log, info.vector, at, flashLocation, image);
        if !ok {
          return;
        }
        at, flashLocation := at + n, flashLocation + n;
      }
      LastProgress(s, log, info.vector, image, aes.iv[..], nextErase);
    }

    lemma LastProgress(s: Data, log: seq<Event>, vector: Block, image: Data, after: Data, nextErase: nat)
      requires Valid() && Progress(s, log, vector, image, after, nextErase)
      requires update.Length % 64 == 0 && |image| == (if update.Length < 320 then 0 else update.Length - 320)
      ensures |Payload(update[..])| % 16 == 0 && |Payload(update[..])| == |image|
      ensures IsInstalled(s, flash.memory[..], location - flash.base, key, vector, Payload(update[..]))
      ensures flash.log == log + InstallLog(location, |Payload(update[..])| / 4)
      ensures image != [] ==> location % PAGE == 0
    {
      hide Filled, InstallLog, Deciphered, IsInstalled, Payload;
      PayloadLength(update[..]);
      assert update[..][256..256 + |image|] == update[256..256 + |image|];
      FinishedInstall(s, flash.memory[..], location - flash.base, key, vector, update[..], 256 + |image|, image, after,
                      nextErase - flash.base);
    }

    lemma FirstProgress(s: Data, log: seq<Event>, vector: Block)
      requires Valid() && s == flash.memory[..] && log == flash.log && 256 <= update.Length
      ensures Progress(s, log, vector, [], vector, location)
    {
      hide Filled, InstallLog, Deciphered;
      NothingDeciphered(key, vector);
      NothingFilled(s, location - flash.base);
      EmptyLog(location);
      assert update[256..256] == [];
    }

    /** Before the end, the log and the flash are as they were only as long as nothing has been written. */
    lemma MidProgress(s: Data, log: seq<Event>, vector: Block, image: Data, after: Data, nextErase: nat)
      requires Valid() && Progress(s, log, vector, image, after, nextErase)
      requires update.Length % 64 == 0 && 256 + |image| < update.Length - 64
      ensures 256 + |image| + 16 <= update.Length - 64
      ensures |image| > 0 ==> location % PAGE == 0
      ensures image == [] && nextErase == location ==> flash.memory[..] == s && flash.log == log
      ensures image == [] ==> nextErase == location
    {
      hide Deciphered, Filled;
      BlockFits(update.Length, |image|);
      if image == [] {
        assert nextErase == location;
        NothingFilled(s, location - flash.base);
      }
    }

    /** `fd_boot_update`. */
    method Update() returns (outcome: Outcome)
      requires Valid() && HasRoom()
      modifies flash`log, flash.memory
      ensures IsBoard(old(flash.memory[..]), flash.base, location, offset, update[..])
      ensures (outcome, flash.memory[..]) ==
              UpdateResult(old(flash.memory[..]), flash.base, location, offset, update[..], key, policy)
      ensures flash.log == old(flash.log)
              || (update.Length % 64 == 0
                  && flash.log == old(flash.log) + InstallLog(location, |Payload(update[..])| / 4))
    {
      hide ExecutableVerdict, UpdateVerdict, DecryptBytes, Installed, Installation, Payload, InstallLog;
      ghost var s, u := flash.memory[..], update[..];
      var executable := GetExecutableMetadata();
      if executable.Error? {
        return Failed;
      }
      var accepted := GetUpdateMetadata();
      if accepted.Error? {
        return Failed;
      }
      match GetAction(policy, ExecutableVersion(executable), UpdateVersion(accepted)) {
        case Nothing => return InvalidFirmware;
        case Run => return Outcome.Valid;
        case Install =>
          AcceptedUpdate(u, key, offset);
          var ok := Install(accepted.info);
          ghost var image := DecryptBytes(key, accepted.info.vector, Payload(u));
          assert |image| == |Payload(u)|;
          InstallationIs(s, flash.base, location, image, ok, flash.memory[..]);
          if !ok {
            return Failed;
          }
          executable := GetExecutableMetadata();
          if executable.Error? {
            return Failed;
          }
          outcome := if executable.Accepted? then Outcome.Valid else InvalidUpdate;
      }
    }
  }

  /** Words of bytes that were read are words of the memory they were read from. */
  lemma WordsOfSlice(s: Data, o: nat, n: nat, data: Data)
    requires o + n <= |s| && |data| == n && data[..n] == s[o..o + n]
    ensures data == s[o..o + n]
    ensures forall i {:trigger WordIn(data, i)} :: 0 <= i <= n - 4 ==> WordIn(data, i) == WordIn(s, o + i)
  {
    hide Unpack;
    assert data[..n] == data;
    forall i | 0 <= i <= n - 4 ensures WordIn(data, i) == WordIn(s, o + i) {
      SliceOfSlice(s, o, o + n, i, i + 4);
    }
  }

  /** The plaintext and the vector after some ciphertext. */
  ghost predicate Deciphered(key: Key, vector: Block, cipher: Data, plain: Data, after: Data) {
    |cipher| % 16 == 0 && after == NextVector(vector, cipher) && plain == DecryptBytes(key, vector, cipher)
  }

  lemma DecipheredIs(key: Key, vector: Block, cipher: Data, plain: Data, after: Data)
    requires Deciphered(key, vector, cipher, plain, after)
    ensures |cipher| % 16 == 0 && plain == DecryptBytes(key, vector, cipher)
  {
    hide DecryptBytes;
  }

  lemma WholeBlockLeft(n: nat, done: nat)
    requires n % 16 == 0 && done % 16 == 0 && done < n
    ensures done + 16 <= n && (done + 16) % 16 == 0
  {
    var a, b := n / 16, done / 16;
    assert n == 16 * a && done == 16 * b;
  }

  lemma NothingDeciphered(key: Key, vector: Block)
    ensures Deciphered(key, vector, [], [], vector)
  {
    hide Expand;
  }

  lemma DecipherMore(key: Key, vector: Block, cipher: Data, plain: Data, before: Block, piece: Data)
    requires Deciphered(key, vector, cipher, plain, before) && |piece| % 16 == 0
    ensures Deciphered(key, vector, cipher + piece, plain + DecryptBytes(key, before, piece), NextVector(before, piece))
  {
    hide Expand, DecryptWith, NextVector;
    DecryptInPieces(Expand(key), vector, cipher, piece);
  }

  /** The next page to erase is the one at hand exactly when the image so far fills its pages. */
  lemma NextErase(location: nat, n: nat, next: nat)
    requires location + n <= next < location + n + PAGE && (next - location) % PAGE == 0 && n % 16 == 0
    ensures next == location + n <==> n % PAGE == 0
    ensures next != location + n ==> location + n + 16 <= next
  {
  }

  /** When the location is aligned, so is a place after whole pages, and a page there that starts in flash ends in it. */
  lemma AlignedEnd(base: nat, size: nat, location: nat, n: nat)
    requires base % PAGE == 0 && size % PAGE == 0 && base <= location && n % PAGE == 0
    requires location + n + 16 <= base + size
    ensures (location + n) % PAGE == 0 <==> location % PAGE == 0
    ensures location % PAGE == 0 ==> location + n + PAGE <= base + size
  {
    var b, m, k := base / PAGE, size / PAGE, n / PAGE;
    assert base == PAGE * b && size == PAGE * m && n == PAGE * k;
    if location % PAGE == 0 {
      var l := location / PAGE;
      assert location == PAGE * l;
      assert PAGE * (l + k) < PAGE * (b + m);
    }
  }

  lemma PayloadBounds(n: nat)
    requires 256 <= n < TWO_32
    ensures Sub32(Sub32(n, 64), Sub32(n, 320)) == 256
    ensures Add32(256, Sub32(n, 320)) == n - 64
  {
  }

  lemma PayloadLength(u: Data)
    requires |u| % 64 == 0
    ensures |Payload(u)| == (if |u| < 320 then 0 else |u| - 320) && |Payload(u)| % 16 == 0
  {
    HashBlocksAreCipherBlocks(|Payload(u)|);
  }

  lemma BlockFits(n: nat, done: nat)
    requires n % 64 == 0 && done % 16 == 0 && 256 + done < n - 64
    ensures 256 + done + 16 <= n - 64
  {
    var a, b := n / 64, done / 16;
    assert n == 64 * a && done == 16 * b;
  }

  lemma EmptyLog(location: nat)
    ensures InstallLog(location, 0) == []
  {
  }

  lemma FourAligned(location: nat, n: nat)
    requires location % PAGE == 0 && n % 16 == 0
    ensures (location + n) % 4 == 0
  {
    var a, b := location / PAGE, n / 16;
    assert location == PAGE * a && n == 16 * b;
    assert location + n == 4 * (0x400 * a + 4 * b);
  }

  lemma WordsOfBlocks(b: nat)
    ensures 16 * b / 4 == 4 * b && (16 * b + 16) / 4 == 4 * b + 4 && 4 * b % 4 == 0
    ensures 4 * b % WORDS_IN_PAGE == 0 <==> 16 * b % PAGE == 0
  {
    var q, r := b / 256, b % 256;
    assert b == 256 * q + r;
    Arithmetic.DivisionIs(4 * b, WORDS_IN_PAGE, q, 4 * r);
    Arithmetic.DivisionIs(16 * b, PAGE, q, 16 * r);
    Arithmetic.DivisionIs(4 * b, 4, b, 0);
    Arithmetic.DivisionIs(16 * b, 4, 4 * b, 0);
    Arithmetic.DivisionIs(16 * b + 16, 4, 4 * b + 4, 0);
  }

  lemma BlockLogged(location: nat, n: nat)
    requires n % 16 == 0
    ensures InstallLog(location, (n + 16) / 4) ==
            InstallLog(location, n / 4) + (if n % PAGE == 0 then [Erased(location + n)] else [])
            + BootFlash.Words(location + n, 4)
  {
    hide InstallLog, BootFlash.Words;
    var b := n / 16;
    WordsOfBlocks(b);
    InstallLogGrows(location, 4 * b);
  }

  /** The new memory is the old one with the deciphered payload installed. */
  predicate IsInstalled(was: Data, now: Data, o: nat, key: Key, vector: Block, payload: Data)
    requires |payload| % 16 == 0
  {
    && o + WholePages(|payload|) <= |was|
    && now == Installed(was, o, DecryptBytes(key, vector, payload))
  }

  lemma FinishedInstall(s: Data, now: Data, o: nat, key: Key, vector: Block, u: Data, at: nat, image: Data, after: Data,
                        end: nat)
    requires 256 <= at <= |u| && |u| % 64 == 0 && at == (if |u| < 320 then 256 else |u| - 64) && |image| == at - 256
    requires o + |image| <= end < o + |image| + PAGE && (end - o) % PAGE == 0 && end <= |s|
    requires Deciphered(key, vector, u[256..at], image, after) && now == Filled(s, o, image, end)
    ensures |Payload(u)| % 16 == 0 && IsInstalled(s, now, o, key, vector, Payload(u))
  {
    hide DecryptBytes, Filled, NextVector;
    HashBlocksAreCipherBlocks(|Payload(u)|);
    assert u[256..at] == Payload(u);
    OnlyPages(|image|, end - o);
  }

  /** `Install` leaves what `Installation` says. */
  lemma InstallationIs(s: Data, base: nat, location: nat, image: Data, ok: bool, now: Data)
    requires base % PAGE == 0 && |s| % PAGE == 0 && base <= location && location + |image| <= base + |s|
    requires location <= base + |s|
    requires ok <==> image == [] || location % PAGE == 0
    requires ok ==> location - base + WholePages(|image|) <= |s| && now == Installed(s, location - base, image)
    ensures Installation(s, base, location, image) == if ok then Some(now) else None
  {
    hide Ones;
    if image == [] {
      NothingFilled(s, location - base);
      assert WholePages(0) == 0;
    }
  }

  /** How far an installation has come: the image so far, deciphered, in flash and in the log. */
  ghost predicate IsProgress(base: nat, location: nat, key: Key, s: Data, log: seq<Event>, vector: Block, u: Data, now: Data,
                             events: seq<Event>, image: Data, after: Data, nextErase: nat)
  {
    && base <= location && |image| % 16 == 0 && 256 + |image| <= |u|
    && location + |image| <= nextErase < location + |image| + PAGE
    && (nextErase - location) % PAGE == 0 && nextErase <= base + |s|
    && (|image| > 0 ==> location % PAGE == 0)
    && Deciphered(key, vector, u[256..256 + |image|], image, after)
    && now == Filled(s, location - base, image, nextErase - base)
    && events == log + InstallLog(location, |image| / 4)
  }

  lemma ProgressGrows(base: nat, location: nat, key: Key, s: Data, log: seq<Event>, vector: Block, u: Data, now: Data,
                      events: seq<Event>, image: Data, before: Block, block: Data, plain: Data, after: Data, next: nat)
    requires base <= location && |image| % 16 == 0 && 256 + |image| + 16 <= |u| && location % PAGE == 0
    requires location + |image| + 16 <= next < location + |image| + 16 + PAGE
    requires (next - location) % PAGE == 0 && next <= base + |s|
    requires block == u[256 + |image|..256 + |image| + 16] && |plain| == 16 && |block| % 16 == 0
    requires events == log + InstallLog(location, |image| / 4)
                       + (if |image| % PAGE == 0 then [Erased(location + |image|)] else [])
                       + BootFlash.Words(location + |image|, 4)
    requires now == Filled(s, location - base, image + plain, next - base)
    requires Deciphered(key, vector, u[256..256 + |image|], image, before)
    requires after == NextVector(before, block) && plain == DecryptBytes(key, before, block)
    ensures IsProgress(base, location, key, s, log, vector, u, now, events, image + plain, after, next)
  {
    hide DecryptBytes, NextVector, Filled, BootFlash.Words, InstallLog, Deciphered;
    var at := 256 + |image|;
    BlockLogged(location, |image|);
    LogsJoin(log, InstallLog(location, |image| / 4), if |image| % PAGE == 0 then [Erased(location + |image|)] else [],
             BootFlash.Words(location + |image|, 4));
    DecipherMore(key, vector, u[256..at], image, before, block);
    assert u[256..at + 16] == u[256..at] + block;
    WholeBlockMore(|image|);
  }

  lemma LogsJoin<T>(a: seq<T>, b: seq<T>, c: seq<T>, d: seq<T>)
    ensures a + b + c + d == a + (b + c + d)
  {
  }

  lemma WholeBlockMore(n: nat)
    requires n % 16 == 0
    ensures (n + 16) % 16 == 0
  {
  }
}
