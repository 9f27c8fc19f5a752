/** SHA-1 as FIPS 180-4 defines it: padding, the 80-word message schedule and the five-register round. */
module Sha1 {
  import opened Bytes

  type word = bv32

  function Rol(x: word, n: word): word
    requires 0 < n < 32
  {
    (x << n) | (x >> (32 - n))
  }

  /** Addition modulo 2^32. */
  function Sum(x: word, y: word): word {
    x + y
  }

  function Xor4(w: word, x: word, y: word, z: word): word {
    w ^ x ^ y ^ z
  }

  // ---------------------------------------------------------------- one block (section 6.1.2)

  type Words = s: seq<word> | |s| == 16 witness seq(16, _ => 0)

  /** Word t of the message schedule. */
  function Schedule(block: Words, t: nat): word {
    if t < 16 then block[t]
    else
      Rol(Xor4(Schedule(block, t - 3), Schedule(block, t - 8), Schedule(block, t - 14), Schedule(block, t - 16)), 1)
  }

  function Ch(x: word, y: word, z: word): word { (x & y) ^ (!x & z) }

  function Parity(x: word, y: word, z: word): word { x ^ y ^ z }

  function Maj(x: word, y: word, z: word): word { (x & y) ^ (x & z) ^ (y & z) }

  /** The function of step t (section 4.1.1). */
  function F(t: nat, x: word, y: word, z: word): word {
    if t < 20 then Ch(x, y, z) else if t < 40 then Parity(x, y, z) else if t < 60 then Maj(x, y, z) else Parity(x, y, z)
  }

  /** The constant of step t (section 4.2.1). */
  function K(t: nat): word {
    if t < 20 then 0x5A827999 else if t < 40 then 0x6ED9EBA1 else if t < 60 then 0x8F1BBCDC else 0xCA62C1D6
  }

  datatype Registers = Registers(a: word, b: word, c: word, d: word, e: word)

  function Step(r: Registers, t: nat, w: word): Registers {
    Registers(Sum(r.e, Sum(Sum(Sum(F(t, r.b, r.c, r.d), w), K(t)), Rol(r.a, 5))), r.a, Rol(r.b, 30), r.c, r.d)
  }

  /** The registers after the first t steps. */
  function Steps(block: Words, r: Registers, t: nat): Registers {
    if t == 0 then r else Step(Steps(block, r, t - 1), t - 1, Schedule(block, t - 1))
  }

  function Compress(h: Registers, block: Words): Registers {
    var r := Steps(block, h, 80);
    Registers(Sum(h.a, r.a), Sum(h.b, r.b), Sum(h.c, r.c), Sum(h.d, r.d), Sum(h.e, r.e))
  }

  // ---------------------------------------------------------------- whole messages

  const INITIAL := Registers(0x67452301, 0xEFCDAB89, 0x98BADCFE, 0x10325476, 0xC3D2E1F0)

  /** Four bytes as a word, most significant first. */
  function BigEndian(a: bv8, b: bv8, c: bv8, d: bv8): word {
    ((a as word) << 24) | ((b as word) << 16) | ((c as word) << 8) | (d as word)
  }

  function BlockWords(s: seq<bv8>): Words
    requires |s| == 64
  {
    seq(16, i requires 0 <= i < 16 => BigEndian(s[4 * i], s[4 * i + 1], s[4 * i + 2], s[4 * i + 3]))
  }

  /** The registers after the blocks of `s`. */
  function HashBlocks(h: Registers, s: seq<bv8>): Registers
    requires |s| % 64 == 0
    decreases |s|
  {
    if s == [] then h else HashBlocks(Compress(h, BlockWords(s[..64])), s[64..])
  }

  lemma {:induction false} HashBlocksAppend(h: Registers, a: seq<bv8>, b: seq<bv8>)
    requires |a| % 64 == 0 && |b| % 64 == 0
    ensures HashBlocks(h, a + b) == HashBlocks(HashBlocks(h, a), b)
    decreases |a|
  {
    hide Compress, BlockWords;
    if a == [] {
      assert a + b == b;
    } else {
      assert (a + b)[..64] == a[..64] && (a + b)[64..] == a[64..] + b;
      HashBlocksAppend(Compress(h, BlockWords(a[..64])), a[64..], b);
    }
  }

  /** One block more at the end. */
  lemma HashOneMore(h: Registers, a: seq<bv8>, block: seq<bv8>)
    requires |a| % 64 == 0 && |block| == 64
    ensures HashBlocks(h, a + block) == Compress(HashBlocks(h, a), BlockWords(block))
  {
    hide Compress, BlockWords;
    HashBlocksAppend(h, a, block);
    assert block[..64] == block && block[64..] == [];
    assert HashBlocks(Compress(HashBlocks(h, a), BlockWords(block)), []) == Compress(HashBlocks(h, a), BlockWords(block));
  }

  const TWO_64: int := 0x1_0000_0000_0000_0000

  function LowByte(n: nat): bv8 {
    ToByte(n % 256)
  }

  /** Eight bytes of a number, most significant first. */
  function BigEndian64(n: nat): (s: seq<bv8>)
    requires n < TWO_64
    ensures |s| == 8
  {
    [LowByte(n / 0x100_0000_0000_0000), LowByte(n / 0x1_0000_0000_0000),
     LowByte(n / 0x100_0000_0000), LowByte(n / 0x1_0000_0000),
     LowByte(n / 0x100_0000), LowByte(n / 0x1_0000), LowByte(n / 0x100), LowByte(n)]
  }

  function Zeros(n: nat): (s: seq<bv8>)
    ensures |s| == n && forall i :: 0 <= i < n ==> s[i] == 0
  {
    seq(n, _ => 0)
  }

  /** The fewest zero bytes that bring a message of n bytes, a marker and a length up to whole blocks. */
  function PadZeros(n: nat): (z: nat)
    ensures z < 64 && (n + 1 + z + 8) % 64 == 0
  {
    (119 - n % 64) % 64
  }

  /** Section 5.1.1: a one bit, the fewest zero bits that leave room for the length, and the length in bits. */
  function Pad(m: seq<bv8>): (p: seq<bv8>)
    requires 8 * |m| < TWO_64
    ensures |p| % 64 == 0
  {
    m + [0x80] + Zeros(PadZeros(|m|)) + BigEndian64(8 * |m|)
  }

  function WordBytes(x: word): (s: seq<bv8>)
    ensures |s| == 4
  {
    [((x >> 24) & 0xff) as bv8, ((x >> 16) & 0xff) as bv8, ((x >> 8) & 0xff) as bv8, (x & 0xff) as bv8]
  }

  function DigestBytes(r: Registers): (s: seq<bv8>)
    ensures |s| == 20
  {
    WordBytes(r.a) + WordBytes(r.b) + WordBytes(r.c) + WordBytes(r.d) + WordBytes(r.e)
  }

  /** The digest of a whole message. */
  function Digest(m: seq<bv8>): (s: seq<bv8>)
    requires 8 * |m| < TWO_64
    ensures |s| == 20
  {
    DigestBytes(HashBlocks(INITIAL, Pad(m)))
  }
}
