/**
 The executable and update formats of fd_boot.h and the verdicts of fd_boot.c on them, as functions of the stored bytes.
 Addresses and lengths are 32-bit: sums and differences wrap around as they do in the C code.
*/
module BootFormat {
  import opened Bytes
  import Sha1
  import opened Aes
  import opened AesCbc

  type Data = seq<bv8>

  // ---------------------------------------------------------------- words

  /** Addition and subtraction modulo 2^32. */
  function Add32(x: nat, y: nat): (z: nat)
    requires x < TWO_32 && y < TWO_32
    ensures z < TWO_32 && z == (x + y) % TWO_32
  {
    if x + y < TWO_32 then x + y else x + y - TWO_32
  }

  function Sub32(x: nat, y: nat): (z: nat)
    requires x < TWO_32 && y < TWO_32
    ensures z < TWO_32 && z == (x - y) % TWO_32
  {
    if x >= y then x - y else x - y + TWO_32
  }

  /** A 32-bit word as stored, least significant byte first. */
  function Pack(n: nat): (s: Data)
    requires n < TWO_32
    ensures |s| == 4
  {
    [Sha1.LowByte(n), Sha1.LowByte(n / 0x100), Sha1.LowByte(n / 0x1_0000), Sha1.LowByte(n / 0x100_0000)]
  }

  function Unpack(s: Data): (n: nat)
    requires |s| == 4
    ensures n < TWO_32
  {
    ToNat(s[0]) + 0x100 * ToNat(s[1]) + 0x1_0000 * ToNat(s[2]) + 0x100_0000 * ToNat(s[3])
  }

  lemma FourDigits(n: nat)
    requires n < TWO_32
    ensures n == n % 256 + 0x100 * (n / 0x100 % 256) + 0x1_0000 * (n / 0x1_0000 % 256) + 0x100_0000 * (n / 0x100_0000)
  {
    assert n == 0x100 * (n / 0x100) + n % 256;
    assert n / 0x100 == 0x100 * (n / 0x1_0000) + n / 0x100 % 256;
    assert n / 0x1_0000 == 0x100 * (n / 0x100_0000) + n / 0x1_0000 % 256;
  }

  lemma LowByteIsRemainder(n: nat)
    ensures ToNat(Sha1.LowByte(n)) == n % 256
  {
    hide ToByte, ToNat;
    ToByteKeeps(n % 256);
  }

  lemma UnpackOfPack(n: nat)
    requires n < TWO_32
    ensures Unpack(Pack(n)) == n
  {
    hide Sha1.LowByte, ToNat;
    LowByteIsRemainder(n);
    LowByteIsRemainder(n / 0x100);
    LowByteIsRemainder(n / 0x1_0000);
    LowByteIsRemainder(n / 0x100_0000);
    FourDigits(n);
  }

  /** The word at offset `o`. */
  function WordIn(s: Data, o: nat): (n: nat)
    requires o + 4 <= |s|
    ensures n < TWO_32
  {
    Unpack(s[o..o + 4])
  }

  /** A hash block is four cipher blocks. */
  lemma HashBlocksAreCipherBlocks(n: nat)
    requires n % 64 == 0
    ensures n % 16 == 0
  {
  }

  // ---------------------------------------------------------------- constants

  const EXECUTABLE_MAGIC := 0xb001da1a
  const EXECUTABLE_VERSION := 1
  const EXECUTABLE_TRAILER := 0xb001e00d
  const UPDATE_MAGIC := 0xab09da1e
  const UPDATE_VERSION := 1
  const UPDATE_TRAILER := 0xda1ee00d
  const FLAG_ENCRYPTED := 1
  const HASH_SIZE := 20
  const HASH_BLOCK := 64

  // ---------------------------------------------------------------- the zeroed window

  /** The hash loop sees the window of `n` bytes at `w` only when it lies in one of its 64-byte pieces. */
  predicate InOnePiece(length: nat, w: nat, n: nat) {
    w % 64 + n <= 64 && w + n <= length
  }

  function Zeroed(s: Data, w: nat, n: nat): (t: Data)
    requires w + n <= |s|
    ensures |t| == |s|
  {
    s[..w] + Sha1.Zeros(n) + s[w + n..]
  }

  /** What is hashed: the bytes with the window zeroed, when the loop sees the window. */
  function Masked(s: Data, w: nat, n: nat): (t: Data)
    ensures |t| == |s|
  {
    if InOnePiece(|s|, w, n) then Zeroed(s, w, n) else s
  }

  lemma ZeroedInside(s: Data, w: nat, n: nat, a: nat, b: nat)
    requires a <= w && w + n <= b <= |s|
    ensures Zeroed(s, w, n)[a..b] == Zeroed(s[a..b], w - a, n)
  {
    var l, r := Zeroed(s, w, n)[a..b], Zeroed(s[a..b], w - a, n);
    forall i | 0 <= i < b - a ensures l[i] == r[i] {
      assert l[i] == Zeroed(s, w, n)[a + i];
    }
  }

  lemma ZeroedOutside(s: Data, w: nat, n: nat, a: nat, b: nat)
    requires a <= b <= |s| && w + n <= |s| && (w + n <= a || b <= w)
    ensures Zeroed(s, w, n)[a..b] == s[a..b]
  {
    var l := Zeroed(s, w, n)[a..b];
    forall i | 0 <= i < b - a ensures l[i] == s[a..b][i] {
      assert l[i] == Zeroed(s, w, n)[a + i];
    }
  }

  /** One piece of what is hashed, worked out from that piece alone. */
  lemma MaskedPiece(s: Data, w: nat, n: nat, p: nat, length: nat)
    requires p % 64 == 0 && length <= 64 && p + length <= |s| && (length == 64 || p + length == |s|) && 0 < n
    ensures Masked(s, w, n)[p..p + length] ==
            if p <= w && w + n <= p + length then Zeroed(s[p..p + length], w - p, n) else s[p..p + length]
  {
    hide Zeroed;
    if InOnePiece(|s|, w, n) {
      if p <= w && w + n <= p + length {
        ZeroedInside(s, w, n, p, p + length);
      } else {
        // the window lies wholly before or wholly after this piece
        assert w + n <= p || p + length <= w by {
          assert w == 64 * (w / 64) + w % 64;
          assert p == 64 * (p / 64);
        }
        ZeroedOutside(s, w, n, p, p + length);
      }
    } else {
      assert w == 64 * (w / 64) + w % 64 && p == 64 * (p / 64);
    }
  }

  // ---------------------------------------------------------------- verdicts on an executable

  datatype Version = Version(major: nat, minor: nat, patch: nat)

  datatype Issue = HeaderMagic | HeaderVersion | Length | TrailerMagic | Hash | Metadata

  datatype ExecutableInfo = ExecutableInfo(version: Version, length: nat, hash: Data)

  /** `Error` is a call that returns false; `Rejected` one that returns an issue. */
  datatype Verdict<+T> = Error | Rejected(issue: Issue) | Accepted(info: T)

  /** A run of bytes between two addresses; empty when a wrapped end lies before the start. */
  function Between(s: Data, a: nat, b: nat): Data
    requires b <= |s|
  {
    if a <= b then s[a..b] else []
  }

  datatype Range = Range(location: nat, length: nat)

  /** `fd_boot_is_valid_subrange`. */
  predicate IsSubrange(range: Range, sub: Range)
    requires range.location < TWO_32 && range.length < TWO_32 && sub.location < TWO_32 && sub.length < TWO_32
  {
    && range.location <= sub.location
    && Add32(sub.location, sub.length) <= Add32(range.location, range.length)
  }

  function ReadVersion(s: Data, o: nat): Version
    requires o + 12 <= |s|
  {
    Version(WordIn(s, o), WordIn(s, o + 4), WordIn(s, o + 8))
  }

  /** What is hashed of an executable of a given length, with its hash field zeroed. */
  function ExecutableDigest(s: Data, base: nat, location: nat, offset: nat, length: nat): (digest: Data)
    requires base <= location < TWO_32 && length < TWO_32
    requires base <= Add32(location, length) <= base + |s| < TWO_32
    ensures |digest| == HASH_SIZE
  {
    Sha1.Digest(Masked(Between(s, location - base, Add32(location, length) - base), offset + 24, HASH_SIZE))
  }

  /** The checks after the header: trailer, extent and hash. */
  function BodyVerdict(s: Data, base: nat, location: nat, offset: nat, info: ExecutableInfo): Verdict<ExecutableInfo>
    requires base <= location < TWO_32 && info.length < TWO_32 && base + |s| < TWO_32
  {
    var trailer := Sub32(Add32(location, info.length), 4);
    if !IsSubrange(Range(base, |s|), Range(trailer, 4)) then Rejected(Length)
    else if trailer + 4 > base + |s| then Error
    else if WordIn(s, trailer - base) != EXECUTABLE_TRAILER then Rejected(TrailerMagic)
    else if Add32(location, info.length) > base + |s| then Error
    else if ExecutableDigest(s, base, location, offset, info.length) != info.hash then Rejected(Hash)
    else Accepted(info)
  }

  /**
   `fd_boot_get_executable_metadata` on memory that holds `s` from address `base` on, with the executable at
   `location` and its metadata `offset` bytes further.
  */
  function ExecutableVerdict(s: Data, base: nat, location: nat, offset: nat): Verdict<ExecutableInfo>
    requires base <= location && location + offset + 44 <= base + |s| < TWO_32
  {
    var o := location - base + offset;
    if WordIn(s, o) != EXECUTABLE_MAGIC then Rejected(HeaderMagic)
    else if WordIn(s, o + 4) != EXECUTABLE_VERSION then Rejected(HeaderVersion)
    else if WordIn(s, o + 20) % HASH_BLOCK != 0 then Error
    else
      BodyVerdict(s, base, location, offset,
                  ExecutableInfo(ReadVersion(s, o + 8), WordIn(s, o + 20), s[o + 24..o + 44]))
  }

  // ---------------------------------------------------------------- verdicts on an update

  datatype UpdateInfo = UpdateInfo(executable: ExecutableInfo, hash: Data, flags: nat, vector: Block)

  const HEADER_SIZE := 8
  /** Version, length, executable hash, update hash, flags and vector. */
  const INFO_SIZE := 76
  const METADATA_SIZE := 128
  const FOOTER_SIZE := 64

  /** The metadata structure, eight bytes into the metadata. */
  function ReadUpdateInfo(u: Data): (info: UpdateInfo)
    requires HEADER_SIZE + INFO_SIZE <= |u|
    ensures |info.hash| == HASH_SIZE
  {
    UpdateInfo(ExecutableInfo(ReadVersion(u, 8), WordIn(u, 20), u[24..44]), u[44..64], WordIn(u, 64), u[68..84])
  }

  /** The flag that matters; the others are ignored. */
  predicate IsEncrypted(info: UpdateInfo) {
    info.flags % 2 == FLAG_ENCRYPTED
  }

  /** The structure with the hash of the update itself taken out, which is what was encrypted. */
  function Expected(u: Data): Data
    requires HEADER_SIZE + INFO_SIZE <= |u|
  {
    u[8..44] + Sha1.Zeros(HASH_SIZE) + u[64..84]
  }

  /** The encrypted executable: what lies between both copies of the metadata and the footer. */
  function Payload(u: Data): (cipher: Data)
    requires |u| % 64 == 0
    ensures |cipher| % 64 == 0
  {
    if |u| < 320 then [] else u[256..|u| - 64]
  }

  function PayloadDigest(u: Data, key: Key, offset: nat, vector: Block): (digest: Data)
    requires |u| % 64 == 0 && |u| < TWO_32
    ensures |digest| == HASH_SIZE
  {
    HashBlocksAreCipherBlocks(|Payload(u)|);
    Sha1.Digest(Masked(DecryptBytes(key, vector, Payload(u)), offset + 24, HASH_SIZE))
  }

  /** The checks that need the key. */
  function ContentVerdict(u: Data, key: Key, offset: nat, info: UpdateInfo): Verdict<UpdateInfo>
    requires HEADER_SIZE + INFO_SIZE <= |u| < TWO_32 && |u| % 64 == 0
  {
    if !IsEncrypted(info) then Error
    else if |u| < 256 then Error
    else if DecryptBytes(key, info.vector, u[128..256])[8..84] != Expected(u) then Rejected(Metadata)
    else if PayloadDigest(u, key, offset, info.vector) != info.executable.hash then Rejected(Hash)
    else Accepted(info)
  }

  /** The length the metadata must give: what the storage holds beyond metadata and footer. */
  function Room(u: Data, info: UpdateInfo): (n: nat)
    requires |u| < TWO_32
    ensures n < TWO_32
  {
    Sub32(|u|, FOOTER_SIZE + METADATA_SIZE + if IsEncrypted(info) then METADATA_SIZE else 0)
  }

  /**
   `fd_boot_get_update_metadata` on update storage that holds `u` from address 0 on, for an encrypted update. An
   update without the flag takes a path that the C code leaves unfinished; it counts as an error here.
  */
  function UpdateVerdict(u: Data, key: Key, offset: nat): Verdict<UpdateInfo>
    requires |u| < TWO_32
  {
    if |u| < HEADER_SIZE then Error
    else if WordIn(u, 0) != UPDATE_MAGIC then Rejected(HeaderMagic)
    else if WordIn(u, 4) != UPDATE_VERSION then Rejected(HeaderVersion)
    else if |u| < HEADER_SIZE + INFO_SIZE then Error
    else
      var info := ReadUpdateInfo(u);
      if info.executable.length % HASH_BLOCK != 0 || info.executable.length != Room(u, info) then Rejected(Length)
      else if WordIn(u, |u| - 4) != UPDATE_TRAILER then Rejected(TrailerMagic)
      else if Sha1.Digest(Masked(u, 44, HASH_SIZE)) != info.hash then Rejected(Hash)
      else
        RoomInPieces(u, info);
        ContentVerdict(u, key, offset, info)
  }

  lemma RoomInPieces(u: Data, info: UpdateInfo)
    requires |u| < TWO_32 && Room(u, info) % 64 == 0
    ensures |u| % 64 == 0
  {
  }
}
