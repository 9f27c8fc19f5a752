/** CBC mode (section 6.2 of NIST SP 800-38A) over the cipher of `Aes`, and the key expansion, on values. */
module AesCbc {
  import opened Bytes
  import opened AesTables
  import opened Aes

  // ---------------------------------------------------------------- key expansion

  type Key = Block

  /** `Rcon[i]` for the indices a 128-bit key reaches. */
  const RCON: seq<bv8> := [0x8d, 0x01, 0x02, 0x04, 0x08, 0x10, 0x20, 0x40, 0x80, 0x1b, 0x36]

  /** Powers of x, which is what the constants are (section 5.2 of FIPS 197). */
  function PowerOfX(i: nat): bv8 {
    if i == 0 then 1 else Xtime(PowerOfX(i - 1))
  }

  lemma RconIsPower(i: nat)
    requires 1 <= i <= 10
    ensures RCON[i] == PowerOfX(i - 1)
  {
    assert PowerOfX(0) == 0x01 && PowerOfX(1) == 0x02 && PowerOfX(2) == 0x04 && PowerOfX(3) == 0x08;
    assert PowerOfX(4) == 0x10 && PowerOfX(5) == 0x20 && PowerOfX(6) == 0x40 && PowerOfX(7) == 0x80;
    assert PowerOfX(8) == 0x1b && PowerOfX(9) == 0x36;
  }

  type Word = s: seq<bv8> | |s| == 4 witness [0, 0, 0, 0]

  function XorWord(v: Word, w: Word): Word {
    [Plus(v[0], w[0]), Plus(v[1], w[1]), Plus(v[2], w[2]), Plus(v[3], w[3])]
  }

  function RotWord(w: Word): Word {
    [w[1], w[2], w[3], w[0]]
  }

  function SubWord(w: Word): Word {
    [SubByte(w[0]), SubByte(w[1]), SubByte(w[2]), SubByte(w[3])]
  }

  /** The word that is added to word i - 4 to make word i. */
  function Temp(i: nat, previous: Word): Word
    requires 4 <= i
  {
    if i % 4 == 0 then XorWord(SubWord(RotWord(previous)), [PowerOfX(i / 4 - 1), 0, 0, 0]) else previous
  }

  /** Word i of the schedule, by the recurrence of section 5.2 of FIPS 197. */
  function ScheduleWord(key: Key, i: nat): Word {
    if i < 4 then key[4 * i..4 * i + 4]
    else XorWord(ScheduleWord(key, i - 4), Temp(i, ScheduleWord(key, i - 1)))
  }

  /** The first `n` words of the schedule. */
  function Words(key: Key, n: nat): (s: seq<bv8>)
    ensures |s| == 4 * n
  {
    if n == 0 then [] else Words(key, n - 1) + ScheduleWord(key, n - 1)
  }

  function Expand(key: Key): Schedule {
    Words(key, 44)
  }

  lemma {:induction false} WordOfWords(key: Key, n: nat, i: nat)
    requires i < n
    ensures Words(key, n)[4 * i..4 * i + 4] == ScheduleWord(key, i)
  {
    if i == n - 1 {
    } else {
      WordOfWords(key, n - 1, i);
      assert Words(key, n)[4 * i..4 * i + 4] == Words(key, n - 1)[4 * i..4 * i + 4];
    }
  }

  lemma ByteOfExpansion(key: Key, i: nat, j: nat)
    requires i < 44 && j < 4
    ensures Expand(key)[4 * i + j] == ScheduleWord(key, i)[j]
  {
    hide ScheduleWord;
    WordOfWords(key, 44, i);
    assert Words(key, 44)[4 * i..4 * i + 4][j] == Words(key, 44)[4 * i + j];
  }

  lemma NextWordOf(key: Key, i: nat)
    requires 4 <= i
    ensures ScheduleWord(key, i) == XorWord(ScheduleWord(key, i - 4), Temp(i, ScheduleWord(key, i - 1)))
  {
    hide XorWord, Temp;
  }

  lemma PlusNothing(x: bv8)
    ensures Plus(x, 0) == x
  {
  }

  lemma TempByBytes(i: nat, previous: Word, j: nat)
    requires 4 <= i && j < 4
    ensures Temp(i, previous)[j] ==
            if i % 4 != 0 then previous[j]
            else if j != 0 then SubByte(previous[(j + 1) % 4])
            else Plus(SubByte(previous[1]), PowerOfX(i / 4 - 1))
  {
    hide SubByte, PowerOfX, Plus;
    PlusNothing(SubByte(previous[(j + 1) % 4]));
  }

  /**
   The key expansion byte by byte (section 5.2 of FIPS 197): the key first; then each byte is the one four words back plus
   the one a word back, which at the head of a round key is the next one of that word, substituted, with a power of x on
   the first.
  */
  lemma ExpansionByBytes(key: Key, i: nat, j: nat)
    requires i < 44 && j < 4
    ensures var rk := Expand(key);
            rk[4 * i + j] ==
              if i < 4 then key[4 * i + j]
              else if i % 4 != 0 then Plus(rk[4 * (i - 4) + j], rk[4 * (i - 1) + j])
              else if j != 0 then Plus(rk[4 * (i - 4) + j], SubByte(rk[4 * (i - 1) + (j + 1) % 4]))
              else Plus(rk[4 * (i - 4)], Plus(SubByte(rk[4 * (i - 1) + 1]), PowerOfX(i / 4 - 1)))
  {
    hide SubByte, Expand, PowerOfX, Plus, Temp, ScheduleWord;
    ByteOfExpansion(key, i, j);
    if i < 4 {
      FirstBytes(key, i, j);
    } else {
      var k := (j + 1) % 4;
      NextWordOf(key, i);
      TempByBytes(i, ScheduleWord(key, i - 1), j);
      ByteOfExpansion(key, i - 4, j);
      ByteOfExpansion(key, i - 1, j);
      ByteOfExpansion(key, i - 1, k);
      XorWordByBytes(ScheduleWord(key, i - 4), Temp(i, ScheduleWord(key, i - 1)), j);
      hide XorWord;
    }
  }

  lemma FirstBytes(key: Key, i: nat, j: nat)
    requires i < 4 && j < 4
    ensures ScheduleWord(key, i)[j] == key[4 * i + j]
  {
  }

  lemma XorWordByBytes(v: Word, w: Word, j: nat)
    requires j < 4
    ensures XorWord(v, w)[j] == Plus(v[j], w[j])
  {
    hide Plus;
  }

  // ---------------------------------------------------------------- CBC on blocks

  function CbcEncrypt(rk: Schedule, iv: Block, plain: seq<Block>): (cipher: seq<Block>)
    ensures |cipher| == |plain|
    decreases |plain|
  {
    if plain == [] then []
    else
      var block := Cipher(rk, Xor(plain[0], iv));
      [block] + CbcEncrypt(rk, block, plain[1..])
  }

  function CbcDecrypt(rk: Schedule, iv: Block, cipher: seq<Block>): (plain: seq<Block>)
    ensures |plain| == |cipher|
    decreases |cipher|
  {
    if cipher == [] then []
    else [Xor(InvCipher(rk, cipher[0]), iv)] + CbcDecrypt(rk, cipher[0], cipher[1..])
  }

  /** Section 6.2 of NIST SP 800-38A, block by block: each is added to the ciphertext before it and then enciphered. */
  lemma {:induction false} CbcByBlocks(rk: Schedule, iv: Block, plain: seq<Block>, i: nat)
    requires i < |plain|
    ensures var cipher := CbcEncrypt(rk, iv, plain);
            cipher[i] == Cipher(rk, Xor(plain[i], if i == 0 then iv else cipher[i - 1]))
    decreases |plain|
  {
    hide Xor, Cipher;
    if i == 0 {
    } else {
      CbcByBlocks(rk, Cipher(rk, Xor(plain[0], iv)), plain[1..], i - 1);
    }
  }

  /** The initialization vector for what follows `cipher`. */
  function Chain(iv: Block, cipher: seq<Block>): Block {
    if cipher == [] then iv else cipher[|cipher| - 1]
  }

  /** Decrypting what was encrypted gives the plaintext, for every number of blocks. */
  lemma {:induction false} CbcInverse(rk: Schedule, iv: Block, plain: seq<Block>)
    ensures CbcDecrypt(rk, iv, CbcEncrypt(rk, iv, plain)) == plain
    decreases |plain|
  {
    hide Xor, Cipher, InvCipher;
    if plain == [] {
    } else {
      var block := Cipher(rk, Xor(plain[0], iv));
      CipherInverse(rk, Xor(plain[0], iv));
      XorTwice(plain[0], iv);
      CbcInverse(rk, block, plain[1..]);
    }
  }

  /** Decryption can stop and go on at any block boundary, carrying the last ciphertext block over. */
  lemma {:induction false} CbcDecryptSplits(rk: Schedule, iv: Block, a: seq<Block>, b: seq<Block>)
    ensures CbcDecrypt(rk, iv, a + b) == CbcDecrypt(rk, iv, a) + CbcDecrypt(rk, Chain(iv, a), b)
    decreases |a|
  {
    hide Xor, InvCipher;
    if a == [] {
      assert a + b == b;
    } else {
      assert (a + b)[0] == a[0] && (a + b)[1..] == a[1..] + b;
      CbcDecryptSplits(rk, a[0], a[1..], b);
      assert Chain(a[0], a[1..]) == Chain(iv, a);
      var first := [Xor(InvCipher(rk, a[0]), iv)];
      assert CbcDecrypt(rk, iv, a) == first + CbcDecrypt(rk, a[0], a[1..]);
      assert CbcDecrypt(rk, iv, a + b) == first + CbcDecrypt(rk, a[0], a[1..] + b);
    }
  }

  /** One block more at the end. */
  lemma {:induction false} CbcEncryptGrows(rk: Schedule, iv: Block, a: seq<Block>, block: Block)
    ensures CbcEncrypt(rk, iv, a + [block]) ==
            CbcEncrypt(rk, iv, a) + [Cipher(rk, Xor(block, Chain(iv, CbcEncrypt(rk, iv, a))))]
    decreases |a|
  {
    hide Xor, Cipher;
    if a == [] {
      assert a + [block] == [block];
    } else {
      var first := Cipher(rk, Xor(a[0], iv));
      assert (a + [block])[1..] == a[1..] + [block];
      CbcEncryptGrows(rk, first, a[1..], block);
      assert Chain(first, CbcEncrypt(rk, first, a[1..])) == Chain(iv, CbcEncrypt(rk, iv, a));
    }
  }

  /** What a list of update calls puts out, each with the vector the one before it left. */
  function DecryptChunks(rk: Schedule, iv: Block, chunks: seq<seq<Block>>): seq<Block>
    decreases |chunks|
  {
    if chunks == [] then []
    else CbcDecrypt(rk, iv, chunks[0]) + DecryptChunks(rk, Chain(iv, chunks[0]), chunks[1..])
  }

  /** However the ciphertext is cut at block boundaries, the pieces decrypt to the plaintext of the whole. */
  lemma {:induction false} ChunksDecryptTheWhole(rk: Schedule, iv: Block, chunks: seq<seq<Block>>)
    ensures DecryptChunks(rk, iv, chunks) == CbcDecrypt(rk, iv, Concat(chunks))
    decreases |chunks|
  {
    if chunks == [] {
    } else {
      CbcDecryptSplits(rk, iv, chunks[0], Concat(chunks[1..]));
      ChunksDecryptTheWhole(rk, Chain(iv, chunks[0]), chunks[1..]);
    }
  }

  // ---------------------------------------------------------------- bytes and blocks

  function Split(s: seq<bv8>): (blocks: seq<Block>)
    requires |s| % 16 == 0
    ensures 16 * |blocks| == |s|
  {
    if s == [] then [] else [s[..16]] + Split(s[16..])
  }

  function Join(blocks: seq<Block>): (s: seq<bv8>)
    ensures |s| == 16 * |blocks|
  {
    if blocks == [] then [] else blocks[0] + Join(blocks[1..])
  }

  lemma {:induction false} JoinOfSplit(s: seq<bv8>)
    requires |s| % 16 == 0
    ensures Join(Split(s)) == s
  {
    if s == [] {
    } else {
      JoinOfSplit(s[16..]);
      assert s == s[..16] + s[16..];
    }
  }

  lemma {:induction false} SplitOfJoin(blocks: seq<Block>)
    ensures Split(Join(blocks)) == blocks
  {
    if blocks == [] {
    } else {
      var s := Join(blocks);
      assert s[..16] == blocks[0] && s[16..] == Join(blocks[1..]);
      SplitOfJoin(blocks[1..]);
    }
  }

  lemma {:induction false} JoinAppends(a: seq<Block>, b: seq<Block>)
    ensures Join(a + b) == Join(a) + Join(b)
  {
    if a == [] {
      assert a + b == b;
    } else {
      assert (a + b)[0] == a[0] && (a + b)[1..] == a[1..] + b;
      JoinAppends(a[1..], b);
      assert Join(a) == a[0] + Join(a[1..]);
    }
  }

  lemma SplitAppends(a: seq<bv8>, b: seq<bv8>)
    requires |a| % 16 == 0 && |b| % 16 == 0
    ensures Split(a + b) == Split(a) + Split(b)
  {
    JoinAppends(Split(a), Split(b));
    JoinOfSplit(a);
    JoinOfSplit(b);
    SplitOfJoin(Split(a) + Split(b));
  }

  lemma JoinOne(block: Block)
    ensures Join([block]) == block && Split(block) == [block]
  {
    assert block[..16] == block && block[16..] == [];
    assert Join([]) == [];
  }

  // ---------------------------------------------------------------- CBC on bytes

  function EncryptWith(rk: Schedule, iv: Block, plain: seq<bv8>): (cipher: seq<bv8>)
    requires |plain| % 16 == 0
    ensures |cipher| == |plain|
  {
    Join(CbcEncrypt(rk, iv, Split(plain)))
  }

  function DecryptWith(rk: Schedule, iv: Block, cipher: seq<bv8>): (plain: seq<bv8>)
    requires |cipher| % 16 == 0
    ensures |plain| == |cipher|
  {
    Join(CbcDecrypt(rk, iv, Split(cipher)))
  }

  /** CBC encryption under a key. */
  function EncryptBytes(key: Key, iv: Block, plain: seq<bv8>): (cipher: seq<bv8>)
    requires |plain| % 16 == 0
    ensures |cipher| == |plain|
  {
    EncryptWith(Expand(key), iv, plain)
  }

  /** CBC decryption under a key. */
  function DecryptBytes(key: Key, iv: Block, cipher: seq<bv8>): (plain: seq<bv8>)
    requires |cipher| % 16 == 0
    ensures |plain| == |cipher|
  {
    DecryptWith(Expand(key), iv, cipher)
  }

  /** The vector with which decryption goes on after `cipher`: its last sixteen bytes. */
  function NextVector(iv: Block, cipher: seq<bv8>): Block
    requires |cipher| % 16 == 0
  {
    if cipher == [] then iv else cipher[|cipher| - 16..]
  }

  /** Decryption under a key undoes encryption under it, for every plaintext of whole blocks. */
  lemma DecryptInvertsEncrypt(key: Key, iv: Block, plain: seq<bv8>)
    requires |plain| % 16 == 0
    ensures DecryptBytes(key, iv, EncryptBytes(key, iv, plain)) == plain
  {
    hide Expand, CbcEncrypt, CbcDecrypt;
    SplitOfJoin(CbcEncrypt(Expand(key), iv, Split(plain)));
    CbcInverse(Expand(key), iv, Split(plain));
    JoinOfSplit(plain);
  }

  lemma {:induction false} LastOfSplit(iv: Block, s: seq<bv8>)
    requires |s| % 16 == 0
    ensures Chain(iv, Split(s)) == NextVector(iv, s)
    decreases |s|
  {
    if s == [] {
    } else {
      LastOfSplit(s[..16], s[16..]);
      if |s| == 16 {
        assert s[16..] == [] && s[|s| - 16..] == s[..16];
      } else {
        assert s[16..][|s| - 32..] == s[|s| - 16..];
      }
    }
  }

  /** Two update calls decrypt what one call on both pieces does. */
  lemma DecryptInPieces(rk: Schedule, iv: Block, a: seq<bv8>, b: seq<bv8>)
    requires |a| % 16 == 0 && |b| % 16 == 0
    ensures DecryptWith(rk, iv, a + b) == DecryptWith(rk, iv, a) + DecryptWith(rk, NextVector(iv, a), b)
    ensures NextVector(iv, a + b) == NextVector(NextVector(iv, a), b)
  {
    hide CbcDecrypt, Split;
    SplitAppends(a, b);
    CbcDecryptSplits(rk, iv, Split(a), Split(b));
    LastOfSplit(iv, a);
    JoinAppends(CbcDecrypt(rk, iv, Split(a)), CbcDecrypt(rk, Chain(iv, Split(a)), Split(b)));
  }

  /** One block more at the end of the ciphertext. */
  lemma DecryptGrows(rk: Schedule, iv: Block, a: seq<bv8>, block: Block)
    requires |a| % 16 == 0
    ensures DecryptWith(rk, iv, a + block) == DecryptWith(rk, iv, a) + Xor(InvCipher(rk, block), NextVector(iv, a))
    ensures NextVector(iv, a + block) == block
  {
    hide Xor, InvCipher;
    DecryptInPieces(rk, iv, a, block);
    JoinOne(block);
    JoinOne(Xor(InvCipher(rk, block), NextVector(iv, a)));
    assert CbcDecrypt(rk, block, []) == [];
    assert CbcDecrypt(rk, NextVector(iv, a), [block]) == [Xor(InvCipher(rk, block), NextVector(iv, a))];
    assert (a + block)[|a|..] == block;
  }

  /** One block more at the end of the plaintext. */
  lemma EncryptGrows(rk: Schedule, iv: Block, a: seq<bv8>, block: Block)
    requires |a| % 16 == 0
    ensures EncryptWith(rk, iv, a + block) ==
            EncryptWith(rk, iv, a) + Cipher(rk, Xor(block, NextVector(iv, EncryptWith(rk, iv, a))))
  {
    hide Xor, Cipher, CbcEncrypt;
    var cipher := CbcEncrypt(rk, iv, Split(a));
    SplitAppends(a, block);
    JoinOne(block);
    CbcEncryptGrows(rk, iv, Split(a), block);
    SplitOfJoin(cipher);
    LastOfSplit(iv, Join(cipher));
    var last := Cipher(rk, Xor(block, Chain(iv, cipher)));
    JoinAppends(cipher, [last]);
    JoinOne(last);
  }
}
