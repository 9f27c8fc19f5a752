/**
 What the verdicts of fd_boot.c mean: which memory counts as a valid executable, and that a packaged update is accepted
 exactly when the hash loop sees the hash field it has to zero.
*/
module BootVerdicts {
  import opened Bytes
  import Sha1
  import opened Aes
  import opened AesCbc
  import opened BootFormat
  import opened Package

  /** The hash field lies in one of the 64-byte pieces, or leaving it in happens to give the same digest. */
  predicate HashFieldSeen(e: Data, offset: nat)
    requires offset + 44 <= |e| < TWO_32
  {
    InOnePiece(|e|, offset + 24, HASH_SIZE) || Sha1.Digest(e) == e[offset + 24..offset + 44]
  }

  lemma MaskedDigest(e: Data, offset: nat)
    requires IsExecutable(e, offset)
    ensures Sha1.Digest(Masked(e, offset + 24, HASH_SIZE)) == e[offset + 24..offset + 44] <==> HashFieldSeen(e, offset)
  {
    hide Sha1.Digest;
  }

  /** Words of a region are words of the memory around it. */
  lemma WordInRegion(s: Data, a: nat, e: Data, o: nat)
    requires a + |e| <= |s| && s[a..a + |e|] == e && o + 4 <= |e|
    ensures WordIn(s, a + o) == WordIn(e, o)
  {
    SliceOfSlice(s, a, a + |e|, o, o + 4);
  }

  lemma VersionInRegion(s: Data, a: nat, e: Data, o: nat)
    requires a + |e| <= |s| && s[a..a + |e|] == e && o + 12 <= |e|
    ensures ReadVersion(s, a + o) == ReadVersion(e, o)
  {
    hide WordIn;
    WordInRegion(s, a, e, o);
    WordInRegion(s, a, e, o + 4);
    WordInRegion(s, a, e, o + 8);
  }

  /** Memory that holds an executable is accepted exactly when its hash field is seen. */
  lemma ExecutableIsAccepted(s: Data, base: nat, location: nat, offset: nat, e: Data)
    requires base <= location && location + |e| <= base + |s| < TWO_32
    requires IsExecutable(e, offset) && s[location - base..location - base + |e|] == e
    ensures ExecutableVerdict(s, base, location, offset) ==
            if HashFieldSeen(e, offset) then Accepted(InfoOf(e, offset)) else Rejected(Hash)
  {
    hide Sha1.Digest, Masked, Unpack, Zeroed, HashFieldSeen, WordIn;
    var a := location - base;
    WordInRegion(s, a, e, offset);
    WordInRegion(s, a, e, offset + 4);
    WordInRegion(s, a, e, offset + 20);
    WordInRegion(s, a, e, |e| - 4);
    VersionInRegion(s, a, e, offset + 8);
    SliceOfSlice(s, a, a + |e|, offset + 24, offset + 44);
    MaskedDigest(e, offset);
  }

  /** And only such memory is accepted, where the extent does not wrap around the address space. */
  lemma AcceptedIsExecutable(s: Data, base: nat, location: nat, offset: nat)
    requires base <= location && location + offset + 64 <= base + |s| < TWO_32
    requires ExecutableVerdict(s, base, location, offset).Accepted?
    requires var info := ExecutableVerdict(s, base, location, offset).info;
             offset + 64 <= info.length && location + info.length < TWO_32
    requires InOnePiece(WordIn(s, location - base + offset + 20), offset + 24, HASH_SIZE)
    ensures var info := ExecutableVerdict(s, base, location, offset).info;
            && location + info.length <= base + |s|
            && IsExecutable(s[location - base..location - base + info.length], offset)
            && info == InfoOf(s[location - base..location - base + info.length], offset)
  {
    hide Sha1.Digest, Unpack;
    var a := location - base;
    var n := ExecutableVerdict(s, base, location, offset).info.length;
    var e := s[a..a + n];
    WordInRegion(s, a, e, offset);
    WordInRegion(s, a, e, offset + 4);
    WordInRegion(s, a, e, offset + 8);
    WordInRegion(s, a, e, offset + 12);
    WordInRegion(s, a, e, offset + 16);
    WordInRegion(s, a, e, offset + 20);
    WordInRegion(s, a, e, n - 4);
    SliceOfSlice(s, a, a + n, offset + 24, offset + 44);
  }

  lemma ErasedByte()
    ensures ToNat(0xff) == 0xff
  {
    ToByteKeeps(0xff);
    assert ToByte(0xff) == 0xff;
  }

  /** Erased flash holds no executable. */
  lemma ErasedIsRejected(s: Data, base: nat, location: nat, offset: nat)
    requires base <= location && location + offset + 44 <= base + |s| < TWO_32
    requires s[location - base + offset..location - base + offset + 4] == [0xff, 0xff, 0xff, 0xff]
    ensures ExecutableVerdict(s, base, location, offset) == Rejected(HeaderMagic)
  {
    hide ToNat;
    ErasedByte();
  }

  /**
   The check of flash fails, instead of coming to a verdict, exactly on a good header with a length that is no multiple
   of 64 or with which the end of the executable wraps around to one of the addresses 0 to 3.
  */
  lemma ExecutableErrorExactly(s: Data, base: nat, location: nat, offset: nat)
    requires base <= location && location + offset + 44 <= base + |s| < TWO_32
    ensures var o := location - base + offset;
            var length := WordIn(s, o + 20);
            ExecutableVerdict(s, base, location, offset).Error? <==>
            && WordIn(s, o) == EXECUTABLE_MAGIC && WordIn(s, o + 4) == EXECUTABLE_VERSION
            && (length % HASH_BLOCK != 0 || Add32(location, length) < 4)
  {
    hide Sha1.Digest, Masked, Unpack;
  }

  /** Which issue is found with a good header and a length that does not make the check fail. */
  lemma ExecutableIssueExactly(s: Data, base: nat, location: nat, offset: nat)
    requires base <= location && location + offset + 44 <= base + |s| < TWO_32
    ensures var o := location - base + offset;
            var verdict, end := ExecutableVerdict(s, base, location, offset), Add32(location, WordIn(s, o + 20));
            && (verdict == Rejected(HeaderMagic) <==> WordIn(s, o) != 0xb001da1a)
            && (verdict == Rejected(HeaderVersion) <==> WordIn(s, o) == 0xb001da1a && WordIn(s, o + 4) != 1)
            && (WordIn(s, o) == 0xb001da1a && WordIn(s, o + 4) == 1 && WordIn(s, o + 20) % 64 == 0 && 4 <= end ==>
                  if end - 4 < base || base + |s| < end then verdict == Rejected(Length)
                  else if WordIn(s, end - 4 - base) != 0xb001e00d then verdict == Rejected(TrailerMagic)
                  else verdict == Rejected(Hash) || verdict.Accepted?)
  {
    hide Sha1.Digest, Masked, Unpack;
  }

  /** Memory with a good header at `o`, and a length. */
  function WithHeader(s: Data, o: nat, length: nat): (t: Data)
    requires o + 24 <= |s| && length < TWO_32
    ensures |t| == |s|
  {
    s[..o] + (Pack(EXECUTABLE_MAGIC) + Pack(EXECUTABLE_VERSION) + s[o + 8..o + 20] + Pack(length)) + s[o + 24..]
  }

  lemma HeaderWords(s: Data, o: nat, length: nat)
    requires o + 24 <= |s| && length < TWO_32
    ensures var t := WithHeader(s, o, length);
            WordIn(t, o) == EXECUTABLE_MAGIC && WordIn(t, o + 4) == EXECUTABLE_VERSION && WordIn(t, o + 20) == length
  {
    hide Pack, Unpack;
    var t := WithHeader(s, o, length);
    assert t[o..o + 4] == Pack(EXECUTABLE_MAGIC);
    assert t[o + 4..o + 8] == Pack(EXECUTABLE_VERSION);
    assert t[o + 20..o + 24] == Pack(length);
    UnpackOfPack(EXECUTABLE_MAGIC);
    UnpackOfPack(EXECUTABLE_VERSION);
    UnpackOfPack(length);
  }

  // ---------------------------------------------------------------- updates

  lemma FieldsOfMetadata(info: ExecutableInfo, vector: Block)
    requires info.version.major < TWO_32 && info.version.minor < TWO_32 && info.version.patch < TWO_32
    requires info.length < TWO_32 && |info.hash| == HASH_SIZE
    ensures var m := MetadataBytes(info, vector);
            && WordIn(m, 0) == UPDATE_MAGIC && WordIn(m, 4) == UPDATE_VERSION
            && ReadVersion(m, 8) == info.version && WordIn(m, 20) == info.length
            && m[24..44] == info.hash && m[44..64] == Sha1.Zeros(HASH_SIZE)
            && WordIn(m, 64) == FLAG_ENCRYPTED && m[68..84] == vector
  {
    hide Pack, Unpack;
    var m := MetadataBytes(info, vector);
    var v := info.version;
    assert m[0..4] == Pack(UPDATE_MAGIC);
    assert m[4..8] == Pack(UPDATE_VERSION);
    assert m[8..12] == Pack(v.major);
    assert m[12..16] == Pack(v.minor);
    assert m[16..20] == Pack(v.patch);
    assert m[20..24] == Pack(info.length);
    assert m[24..44] == info.hash;
    assert m[44..64] == Sha1.Zeros(HASH_SIZE);
    assert m[64..68] == Pack(FLAG_ENCRYPTED);
    assert m[68..84] == vector;
    UnpackOfPack(UPDATE_MAGIC);
    UnpackOfPack(UPDATE_VERSION);
    UnpackOfPack(v.major);
    UnpackOfPack(v.minor);
    UnpackOfPack(v.patch);
    UnpackOfPack(info.length);
    UnpackOfPack(FLAG_ENCRYPTED);
  }

  /** What decryption makes of the parts of a packaged update. */
  lemma DecryptedParts(u: Data, key: Key, vector: Block, e: Data, offset: nat)
    requires offset + 44 <= |e| && |e| % 64 == 0 && |e| < TWO_32 && IsUpdateOf(u, key, vector, e, offset)
    ensures |u| == 320 + |e| && |u| % 64 == 0 && |Payload(u)| % 16 == 0
    ensures DecryptBytes(key, vector, u[128..256]) == MetadataBytes(InfoOf(e, offset), vector)
    ensures DecryptBytes(key, vector, Payload(u)) == e
  {
    hide EncryptBytes, DecryptBytes, MetadataBytes, Sha1.Digest;
    HashBlocksAreCipherBlocks(|e|);
    DecryptInvertsEncrypt(key, vector, MetadataBytes(InfoOf(e, offset), vector));
    DecryptInvertsEncrypt(key, vector, e);
  }

  /** The plain metadata of a packaged update is the metadata that was encrypted, but for the hash of the update. */
  lemma PlainParts(u: Data, m: Data, em: Data, ee: Data)
    requires HasParts(u, m, em, ee)
    ensures u[..44] == m[..44] && u[64..84] == m[64..84]
    ensures WordIn(u, 0) == WordIn(m, 0) && WordIn(u, 4) == WordIn(m, 4) && ReadVersion(u, 8) == ReadVersion(m, 8)
    ensures WordIn(u, 20) == WordIn(m, 20) && u[24..44] == m[24..44]
    ensures WordIn(u, 64) == WordIn(m, 64) && u[68..84] == m[68..84]
    ensures m[44..64] == Sha1.Zeros(HASH_SIZE) ==> m[8..84] == Expected(u)
  {
    hide Unpack;
    Prefixes(u, m);
    assert u[64..128] == m[64..128];
    SliceOfSlice(u, 64, 128, 0, 4);
    SliceOfSlice(m, 64, 128, 0, 4);
    SliceOfSlice(u, 64, 128, 0, 20);
    SliceOfSlice(m, 64, 128, 0, 20);
    SliceOfSlice(u, 64, 128, 4, 20);
    SliceOfSlice(m, 64, 128, 4, 20);
    if m[44..64] == Sha1.Zeros(HASH_SIZE) {
      assert m[8..84] == m[8..44] + m[44..64] + m[64..84];
    }
  }

  lemma Prefixes(u: Data, m: Data)
    requires 44 <= |u| && 44 <= |m| && u[..44] == m[..44]
    ensures u[0..4] == m[0..4] && u[4..8] == m[4..8] && u[8..12] == m[8..12] && u[12..16] == m[12..16]
    ensures u[16..20] == m[16..20] && u[20..24] == m[20..24] && u[24..44] == m[24..44] && u[8..44] == m[8..44]
  {
    assert u[0..44] == m[0..44];
    SliceOfSlice(u, 0, 44, 0, 4); SliceOfSlice(m, 0, 44, 0, 4);
    SliceOfSlice(u, 0, 44, 4, 8); SliceOfSlice(m, 0, 44, 4, 8);
    SliceOfSlice(u, 0, 44, 8, 12); SliceOfSlice(m, 0, 44, 8, 12);
    SliceOfSlice(u, 0, 44, 12, 16); SliceOfSlice(m, 0, 44, 12, 16);
    SliceOfSlice(u, 0, 44, 16, 20); SliceOfSlice(m, 0, 44, 16, 20);
    SliceOfSlice(u, 0, 44, 20, 24); SliceOfSlice(m, 0, 44, 20, 24);
    SliceOfSlice(u, 0, 44, 24, 44); SliceOfSlice(m, 0, 44, 24, 44);
    SliceOfSlice(u, 0, 44, 8, 44); SliceOfSlice(m, 0, 44, 8, 44);
  }

  /** What the loader takes from an update, once it accepts it: the executable's description and the vector. */
  lemma UpdateIsAccepted(u: Data, key: Key, vector: Block, e: Data, offset: nat)
    requires IsExecutable(e, offset) && IsUpdateOf(u, key, vector, e, offset)
    ensures var info := UpdateInfo(InfoOf(e, offset), u[44..64], FLAG_ENCRYPTED, vector);
            UpdateVerdict(u, key, offset) == if HashFieldSeen(e, offset) then Accepted(info) else Rejected(Hash)
  {
    hide Sha1.Digest, EncryptBytes, DecryptBytes, MetadataBytes, Masked, HasParts, Unpack, IsExecutable, HashFieldSeen,
         Expected, Payload;
    PackagedSize(e, offset);
    HashBlocksAreCipherBlocks(|e|);
    DecryptedParts(u, key, vector, e, offset);
    var info := InfoOf(e, offset);
    var m := MetadataBytes(info, vector);
    FieldsOfMetadata(info, vector);
    PlainParts(u, m, EncryptBytes(key, vector, m), EncryptBytes(key, vector, e));
    MaskedDigest(e, offset);
    WholeUpdateMasked(u);
  }

  lemma PackagedSize(e: Data, offset: nat)
    requires IsExecutable(e, offset)
    ensures offset + 64 <= |e| < TWO_32 && |e| % 64 == 0
  {
  }

  /** The hash field of an update is always seen: it starts at byte 44 of the first piece. */
  lemma WholeUpdateMasked(u: Data)
    requires 64 <= |u|
    ensures Masked(u, 44, HASH_SIZE) == Zeroed(u, 44, HASH_SIZE)
  {
  }

  // ---------------------------------------------------------------- which updates are accepted

  /** The plain metadata, the trailer and the hash of the update over everything but its own field. */
  predicate PlainAgrees(u: Data)
    requires 320 <= |u| < TWO_32
  {
    && WordIn(u, 0) == 0xab09da1e && WordIn(u, 4) == 1 && WordIn(u, 20) == |u| - 320 && WordIn(u, 64) % 2 == 1
    && WordIn(u, |u| - 4) == 0xda1ee00d
    && Sha1.Digest(Zeroed(u, 44, 20)) == u[44..64]
  }

  /** The second copy of the metadata, deciphered, without the hash of the update. */
  predicate CopyAgrees(u: Data, key: Key)
    requires 320 <= |u|
  {
    DecryptBytes(key, u[68..84], u[128..256])[8..84] == u[8..44] + Sha1.Zeros(20) + u[64..84]
  }

  /** The executable, deciphered, and its hash. */
  predicate ImageAgrees(u: Data, key: Key, offset: nat)
    requires 320 <= |u| < TWO_32 && |u| % 64 == 0
  {
    HashBlocksAreCipherBlocks(|u| - 320);
    Sha1.Digest(Masked(DecryptBytes(key, u[68..84], u[256..|u| - 64]), offset + 24, 20)) == u[24..44]
  }

  /** An update is accepted exactly if all of this agrees, whoever made it. */
  lemma AcceptedExactly(u: Data, key: Key, offset: nat)
    requires 320 <= |u| < TWO_32
    ensures UpdateVerdict(u, key, offset).Accepted? <==>
              |u| % 64 == 0 && PlainAgrees(u) && CopyAgrees(u, key) && ImageAgrees(u, key, offset)
  {
    hide Sha1.Digest, DecryptBytes, Unpack, Zeroed, ContentVerdict, CopyAgrees, ImageAgrees;
    WholeUpdateMasked(u);
    var info := ReadUpdateInfo(u);
    if |u| % 64 == 0 {
      ContentExactly(u, key, offset);
    } else if Room(u, info) % 64 == 0 {
      RoomInPieces(u, info);
    }
  }

  lemma ContentExactly(u: Data, key: Key, offset: nat)
    requires 320 <= |u| < TWO_32 && |u| % 64 == 0
    ensures ContentVerdict(u, key, offset, ReadUpdateInfo(u)).Accepted? <==>
              IsEncrypted(ReadUpdateInfo(u)) && CopyAgrees(u, key) && ImageAgrees(u, key, offset)
  {
    hide Sha1.Digest, DecryptBytes, WordIn, Masked;
    HashBlocksAreCipherBlocks(|u| - 320);
  }
}
