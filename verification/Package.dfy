/**
 tools/update/encrypt.py: turning a linked executable into an encrypted update. The methods follow the script; what
 they promise is the layout of the result, on which the boot loader's verdicts are then worked out.
*/
module Package {
  import opened Bytes
  import Sha1
  import opened Aes
  import opened AesCbc
  import opened BootFormat

  // ---------------------------------------------------------------- what the script writes

  const EXECUTABLE_HEADER_MAGIC := 0xb001da1a
  const EXECUTABLE_HEADER_VERSION := 1
  const EXECUTABLE_FOOTER_MAGIC := 0xb001e00d
  const UPDATE_HEADER_MAGIC := 0xab09da1e
  const UPDATE_HEADER_VERSION := 1
  const UPDATE_FOOTER_MAGIC := 0xda1ee00d
  const UPDATE_FLAG_ENCRYPTED := 1

  // ---------------------------------------------------------------- layouts

  /** The metadata a linked executable carries: magic and version set, length, hash and addendum still zero. */
  predicate HasMetadata(data: Data, offset: nat) {
    && offset + 64 <= |data|
    && WordIn(data, offset) == EXECUTABLE_HEADER_MAGIC && WordIn(data, offset + 4) == EXECUTABLE_HEADER_VERSION
    && WordIn(data, offset + 20) == 0 && data[offset + 24..offset + 44] == Sha1.Zeros(HASH_SIZE)
    && WordIn(data, offset + 44) == 0
  }

  /** An executable ready to run: whole blocks, its length, its hash with the hash field zeroed, its trailer. */
  predicate IsExecutable(e: Data, offset: nat) {
    && offset + 64 <= |e| < TWO_32 && |e| % 64 == 0
    && WordIn(e, offset) == EXECUTABLE_HEADER_MAGIC && WordIn(e, offset + 4) == EXECUTABLE_HEADER_VERSION
    && WordIn(e, offset + 20) == |e| && WordIn(e, |e| - 4) == EXECUTABLE_FOOTER_MAGIC
    && e[offset + 24..offset + 44] == Sha1.Digest(Zeroed(e, offset + 24, HASH_SIZE))
  }

  /** `e` is `data` with length, hash, padding and trailer put in and nothing else changed. */
  predicate IsPackagingOf(data: Data, offset: nat, e: Data)
    requires offset + 44 <= |data|
  {
    && |data| + 4 <= |e| <= |data| + 67
    && e[..offset + 20] == data[..offset + 20]
    && e[offset + 44..|data|] == data[offset + 44..]
  }

  function InfoOf(e: Data, offset: nat): (info: ExecutableInfo)
    requires offset + 44 <= |e|
  {
    ExecutableInfo(ReadVersion(e, offset + 8), |e|, e[offset + 24..offset + 44])
  }

  /** The 128 bytes of update metadata, with the hash of the update still zero. */
  function MetadataBytes(info: ExecutableInfo, vector: Block): (m: Data)
    requires info.version.major < TWO_32 && info.version.minor < TWO_32 && info.version.patch < TWO_32
    requires info.length < TWO_32 && |info.hash| == HASH_SIZE
    ensures |m| == METADATA_SIZE
  {
    Pack(UPDATE_HEADER_MAGIC) + Pack(UPDATE_HEADER_VERSION)
    + Pack(info.version.major) + Pack(info.version.minor) + Pack(info.version.patch)
    + Pack(info.length) + info.hash + Sha1.Zeros(20) + Pack(UPDATE_FLAG_ENCRYPTED) + vector + Pack(0) + Sha1.Zeros(40)
  }

  /** The parts of an update in place, apart from the hash field and the footer. */
  predicate HasParts(u: Data, m: Data, em: Data, ee: Data) {
    && |m| == 128 && |em| == 128 && |u| == 320 + |ee|
    && u[..44] == m[..44] && u[64..128] == m[64..] && u[128..256] == em && u[256..|u| - 64] == ee
  }

  /** `u` is the encrypted update that carries the executable `e`. */
  predicate IsUpdateOf(u: Data, key: Key, vector: Block, e: Data, offset: nat)
    requires offset + 44 <= |e| < TWO_32 && |e| % 64 == 0
  {
    HashBlocksAreCipherBlocks(|e|);
    var m := MetadataBytes(InfoOf(e, offset), vector);
    && |u| < TWO_32
    && HasParts(u, m, EncryptBytes(key, vector, m), EncryptBytes(key, vector, e))
    && u[44..64] == Sha1.Digest(Zeroed(u, 44, HASH_SIZE))
    && WordIn(u, |u| - 4) == UPDATE_FOOTER_MAGIC
  }

  // ---------------------------------------------------------------- the script

  /** `os.urandom`: any bytes. */
  method Urandom(n: nat) returns (s: Data)
    ensures |s| == n
  {
    assert |Sha1.Zeros(n)| == n;
    s :| |s| == n;
  }

  /** `Update.pad`, for the block size of 64 that it is called with. */
  method Pad(data: Data) returns (padded: Data)
    ensures |padded| % 64 == 0 && data <= padded && |padded| < |data| + 64
  {
    if |data| % 64 == 0 {
      return data;
    }
    var random := Urandom(64 - |data| % 64);
    padded := data + random;
  }

  /** `Update.replace`: a slice assignment of equal length. */
  function Replaced(s: Data, start: nat, replacement: Data): (t: Data)
    requires start + |replacement| <= |s|
    ensures |t| == |s|
    ensures t[..start] == s[..start] && t[start..start + |replacement|] == replacement
    ensures t[start + |replacement|..] == s[start + |replacement|..]
  {
    s[..start] + replacement + s[start + |replacement|..]
  }

  /** `Update.package_executable`. */
  method PackageExecutable(data: Data, offset: nat) returns (e: Data, hash: Data)
    requires HasMetadata(data, offset) && |data| + 67 < TWO_32
    ensures IsExecutable(e, offset) && IsPackagingOf(data, offset, e)
    ensures hash == e[offset + 24..offset + 44]
  {
    hide HasMetadata;
    ghost var hadMetadata := HasMetadata(data, offset);
    MetadataFits(data, offset);
    e := Pad(data + [0, 0, 0, 0]);
    ghost var padded := e;
    e := Replaced(e, |e| - 4, Pack(EXECUTABLE_FOOTER_MAGIC));
    e := Replaced(e, offset + 20, Pack(|e|));
    ghost var unhashed := e;
    hash := Sha1.Digest(e);
    e := Replaced(e, offset + 24, hash);
    PackagedLayout(data, offset, padded, unhashed, e);
  }

  lemma MetadataFits(data: Data, offset: nat)
    requires HasMetadata(data, offset)
    ensures offset + 64 <= |data| && data[offset + 24..offset + 44] == Sha1.Zeros(HASH_SIZE)
    ensures WordIn(data, offset) == EXECUTABLE_HEADER_MAGIC && WordIn(data, offset + 4) == EXECUTABLE_HEADER_VERSION
  {
  }

  /** The edits of `package_executable` give the layout. */
  lemma PackagedLayout(data: Data, offset: nat, padded: Data, unhashed: Data, e: Data)
    requires HasMetadata(data, offset) && data + [0, 0, 0, 0] <= padded && |padded| <= |data| + 67 < TWO_32
    requires |padded| % 64 == 0
    requires unhashed == Replaced(Replaced(padded, |padded| - 4, Pack(EXECUTABLE_FOOTER_MAGIC)), offset + 20, Pack(|padded|))
    requires e == Replaced(unhashed, offset + 24, Sha1.Digest(unhashed))
    ensures IsExecutable(e, offset) && IsPackagingOf(data, offset, e)
  {
    hide Pack, Unpack, Sha1.Digest;
    var n := |padded|;
    UnpackOfPack(n);
    UnpackOfPack(EXECUTABLE_FOOTER_MAGIC);
    assert forall i :: 0 <= i < |data| ==> padded[i] == data[i];
    assert forall i :: 0 <= i < |data| && !(offset + 20 <= i < offset + 24) ==> unhashed[i] == data[i];
    assert unhashed[offset + 20..offset + 24] == Pack(n);
    assert unhashed[n - 4..] == Pack(EXECUTABLE_FOOTER_MAGIC);
    assert e[..offset + 20] == data[..offset + 20];
    assert e[offset + 44..|data|] == data[offset + 44..];
    assert e[offset..offset + 4] == data[offset..offset + 4];
    assert e[offset + 4..offset + 8] == data[offset + 4..offset + 8];
    assert e[offset + 20..offset + 24] == Pack(n);
    assert e[n - 4..n] == Pack(EXECUTABLE_FOOTER_MAGIC) by {
      SliceOfDrop(e, offset + 44, n - 48 - offset, n - 44 - offset);
      SliceOfDrop(unhashed, offset + 44, n - 48 - offset, n - 44 - offset);
      assert unhashed[n - 4..] == unhashed[n - 4..n];
    }
    assert unhashed[offset + 24..offset + 44] == data[offset + 24..offset + 44] == Sha1.Zeros(HASH_SIZE);
    assert Zeroed(e, offset + 24, HASH_SIZE) == unhashed;
  }

  /** `Update.package_update`: footer, then the hash of it all with the hash field still zero. */
  method PackageUpdate(data: Data) returns (u: Data)
    requires 64 <= |data| < TWO_32 && data[44..64] == Sha1.Zeros(HASH_SIZE)
    ensures |u| == |data| + 64 && u[..44] == data[..44] && u[64..|data|] == data[64..]
    ensures u[44..64] == Sha1.Digest(Zeroed(u, 44, HASH_SIZE))
    ensures WordIn(u, |u| - 4) == UPDATE_FOOTER_MAGIC
  {
    hide Pack, Unpack, Sha1.Digest;
    var random := Urandom(60);
    u := data + random + Pack(UPDATE_FOOTER_MAGIC);
    ghost var unhashed := u;
    var hash := Sha1.Digest(u);
    u := Replaced(u, 44, hash);
    UnpackOfPack(UPDATE_FOOTER_MAGIC);
    assert u[|u| - 4..|u|] == Pack(UPDATE_FOOTER_MAGIC) by {
      SliceOfDrop(u, 64, |u| - 68, |u| - 64);
      SliceOfDrop(unhashed, 64, |u| - 68, |u| - 64);
    }
    assert u[64..|data|] == data[64..] by {
      assert u[64..] == unhashed[64..];
    }
    assert Zeroed(u, 44, HASH_SIZE) == unhashed by {
      assert unhashed[44..64] == data[44..64];
    }
  }

  /** `Update.package` for a binary update; the checks of `get_executable_metadata` come first. */
  method PackageAll(data: Data, offset: nat, key: Key) returns (e: Data, u: Data, vector: Block, ok: bool)
    requires |data| + 67 + 320 < TWO_32
    ensures ok <==> HasMetadata(data, offset)
    ensures ok ==> IsExecutable(e, offset) && IsPackagingOf(data, offset, e)
    ensures ok ==> IsUpdateOf(u, key, vector, e, offset)
  {
    hide IsExecutable, IsPackagingOf, Sha1.Digest, EncryptBytes, MetadataBytes, HasMetadata, HasParts, ReadVersion;
    hide Zeroed, Unpack;
    e, u, vector := [], [], Sha1.Zeros(16);
    ok := HasMetadata(data, offset);
    if !ok {
      return;
    }
    MetadataFits(data, offset);
    var hash;
    e, hash := PackageExecutable(data, offset);
    ExecutableFits(data, offset, e);
    HashBlocksAreCipherBlocks(|e|);
    vector := Urandom(16);
    var encrypted := EncryptBytes(key, vector, e);
    var info := ExecutableInfo(ReadVersion(e, offset + 8), |e|, hash);
    var metadata := MetadataBytes(info, vector);
    MetadataHashField(info, vector);
    var encryptedMetadata := EncryptBytes(key, vector, metadata);
    ghost var body := metadata + encryptedMetadata + encrypted;
    assert body[44..64] == metadata[44..64];
    u := PackageUpdate(metadata + encryptedMetadata + encrypted);
    UpdateLayout(u, metadata, encryptedMetadata, encrypted);
  }

  lemma ExecutableFits(data: Data, offset: nat, e: Data)
    requires offset + 44 <= |data| && IsExecutable(e, offset) && IsPackagingOf(data, offset, e)
    ensures offset + 64 <= |e| <= |data| + 67 && |e| % 64 == 0
    ensures ReadVersion(e, offset + 8).major < TWO_32 && ReadVersion(e, offset + 8).minor < TWO_32
    ensures ReadVersion(e, offset + 8).patch < TWO_32
  {
  }

  lemma MetadataHashField(info: ExecutableInfo, vector: Block)
    requires info.version.major < TWO_32 && info.version.minor < TWO_32 && info.version.patch < TWO_32
    requires info.length < TWO_32 && |info.hash| == HASH_SIZE
    ensures MetadataBytes(info, vector)[44..64] == Sha1.Zeros(HASH_SIZE)
  {
    hide Pack;
  }

  lemma UpdateLayout(u: Data, m: Data, em: Data, ee: Data)
    requires |m| == 128 && |em| == 128 && |u| == 320 + |ee|
    requires u[..44] == (m + em + ee)[..44] && u[64..256 + |ee|] == (m + em + ee)[64..]
    ensures HasParts(u, m, em, ee)
  {
    var b := m + em + ee;
    var t := u[64..256 + |ee|];
    assert t[..64] == b[64..][..64] && b[64..][..64] == m[64..];
    assert t[64..192] == b[64..][64..192] && b[64..][64..192] == em;
    assert t[192..] == b[64..][192..] && b[64..][192..] == ee;
    SliceOfSlice(u, 64, 256 + |ee|, 0, 64);
    SliceOfSlice(u, 64, 256 + |ee|, 64, 192);
    SliceOfSlice(u, 64, 256 + |ee|, 192, 192 + |ee|);
    assert t[..64] == t[0..64] && t[192..] == t[192..192 + |ee|];
  }
}
