/**
 SHA-1 of "abc", the one-block message of the examples to FIPS 180-4, worked out step by step: it fixes the schedule, the
 functions, the constants, the first registers and the padding together.
*/
module Sha1Vector {
  import opened Bytes
  import opened Sha1

  const MESSAGE: seq<bv8> := [0x61, 0x62, 0x63]

  /** The padded message: three bytes, the marker, and 24 bits as the length. */
  const ABC: Words := [0x61626380, 0, 0, 0, 0, 0, 0, 0, 0, 0, 0, 0, 0, 0, 0, 24]

  /** The constant of step t is the square root of 2, 3, 5 or 10, with 30 bits behind the point. */
  function Radicand(t: nat): nat {
    if t < 20 then 2 else if t < 40 then 3 else if t < 60 then 5 else 10
  }

  lemma ConstantIsRoot(t: nat)
    ensures var k := K(t) as nat;
            k * k <= Radicand(t) * 0x1000_0000_0000_0000 < (k + 1) * (k + 1)
  {
    assert K(t) as nat ==
      if t < 20 then 0x5A827999 else if t < 40 then 0x6ED9EBA1 else if t < 60 then 0x8F1BBCDC else 0xCA62C1D6;
  }

  /** Word t of its schedule. */
  function W(t: nat): word {
    Schedule(ABC, t)
  }

  /** Five words in a row. */
  predicate Five(t: nat, a: word, b: word, c: word, d: word, e: word) {
    W(t) == a && W(t + 1) == b && W(t + 2) == c && W(t + 3) == d && W(t + 4) == e
  }

  lemma InputWords()
    ensures forall t: nat :: t < 16 ==> W(t) == ABC[t]
  {
  }

  lemma FirstWords(t: nat)
    requires t == 0
    ensures Five(t, 0x61626380, 0x00000000, 0x00000000, 0x00000000, 0x00000000)
    ensures Five(t + 5, 0x00000000, 0x00000000, 0x00000000, 0x00000000, 0x00000000)
    ensures Five(t + 10, 0x00000000, 0x00000000, 0x00000000, 0x00000000, 0x00000000)
    ensures Five(t + 15, 0x00000018, 0xC2C4C700, 0x00000000, 0x00000030, 0x85898E01)
  {
    hide Schedule;
    InputWords();
    FiveWords(t + 16);
  }

  lemma SecondWords(t: nat)
    requires t == 20
    ensures Five(t, 0x00000000, 0x00000060, 0x0B131C03, 0x00000030, 0x85898EC1)
    ensures Five(t + 5, 0x16263806, 0x00000000, 0x00000180, 0x2C4C700C, 0x000000F0)
    ensures Five(t + 10, 0x93AFB507, 0x5898E048, 0x8E9A9202, 0x00000600, 0xB131C0F0)
    ensures Five(t + 15, 0x16263BC6, 0x4EBED41E, 0x626380A1, 0x16263806, 0x000018C0)
  {
    hide Schedule;
    FirstWords(t - 20);
    FiveWords(t);
    FiveWords(t + 5);
    FiveWords(t + 10);
    FiveWords(t + 15);
  }

  lemma ThirdWords(t: nat)
    requires t == 40
    ensures Five(t, 0xD2E138C4, 0x00000F00, 0x3AFB5079, 0x898E04E5, 0xE2BA3C2B)
    ensures Five(t + 5, 0x000060C0, 0x053A37CD, 0x74458547, 0xDA9415ED, 0x26380A16)
    ensures Five(t + 10, 0x626383A1, 0x4EBF54DE, 0x3835B44B, 0x0000F600, 0x1E84C7A3)
    ensures Five(t + 15, 0x98E04D98, 0x651D16A0, 0x62658CA1, 0x458544D6, 0x44584CB7)
  {
    hide Schedule;
    SecondWords(t - 20);
    FiveWords(t);
    FiveWords(t + 5);
    FiveWords(t + 10);
    FiveWords(t + 15);
  }

  lemma LastWords(t: nat)
    requires t == 60
    ensures Five(t, 0x7BA06619, 0x6380AEA2, 0x0AE55269, 0x627B49A1, 0x7CD45C9D)
    ensures Five(t + 5, 0x000F0000, 0xFB50753A, 0xEC6765E8, 0xBA3C2BE2, 0x0060C000)
    ensures Five(t + 10, 0x3A37CD05, 0x458546F4, 0xB8599DD6, 0x380A1A26, 0x01E02203)
    ensures Five(t + 15, 0xE7CC3456, 0xE6E60B69, 0x00F60A00, 0x5795EF4F, 0x822E0879)
  {
    hide Schedule;
    ThirdWords(t - 20);
    FiveWords(t);
    FiveWords(t + 5);
    FiveWords(t + 10);
    FiveWords(t + 15);
  }

  /** Section 6.1.2, step 1. */
  lemma FiveWords(t: nat)
    requires t >= 16
    ensures W(t) == Rol(Xor4(W(t - 3), W(t - 8), W(t - 14), W(t - 16)), 1)
    ensures W(t + 1) == Rol(Xor4(W(t - 2), W(t - 7), W(t - 13), W(t - 15)), 1)
    ensures W(t + 2) == Rol(Xor4(W(t - 1), W(t - 6), W(t - 12), W(t - 14)), 1)
    ensures W(t + 3) == Rol(Xor4(W(t), W(t - 5), W(t - 11), W(t - 13)), 1)
    ensures W(t + 4) == Rol(Xor4(W(t + 1), W(t - 4), W(t - 10), W(t - 12)), 1)
  {
  }

  lemma NoSteps(block: Words, h: Registers)
    ensures Steps(block, h, 0) == h
  {
  }

  lemma OneStep(block: Words, h: Registers, t: nat)
    ensures Steps(block, h, t + 1) == Step(Steps(block, h, t), t, Schedule(block, t))
  {
    hide Step, Schedule;
  }

  lemma FiveSteps(block: Words, h: Registers, t: nat)
    ensures var r1 := Step(Steps(block, h, t), t, Schedule(block, t));
            var r2 := Step(r1, t + 1, Schedule(block, t + 1));
            var r3 := Step(r2, t + 2, Schedule(block, t + 2));
            var r4 := Step(r3, t + 3, Schedule(block, t + 3));
            Steps(block, h, t + 5) == Step(r4, t + 4, Schedule(block, t + 4))
  {
    hide Step, Steps, Schedule;
    OneStep(block, h, t);
    OneStep(block, h, t + 1);
    OneStep(block, h, t + 2);
    OneStep(block, h, t + 3);
    OneStep(block, h, t + 4);
  }

  /** The words of the message itself. */
  lemma EarlyWords()
    ensures Schedule(ABC, 0) == 0x61626380 && Schedule(ABC, 15) == 24
    ensures forall t: nat :: 1 <= t < 15 ==> Schedule(ABC, t) == 0
  {
  }

  lemma FirstSteps()
    ensures Steps(ABC, INITIAL, 10) == Registers(0x8351F929, 0x4B6AE328, 0x27A301F5, 0x664F8C30, 0x0FF1F290)
  {
    hide Steps, Schedule;
    NoSteps(ABC, INITIAL);
    EarlyWords();
    FiveSteps(ABC, INITIAL, 0);
    assert Steps(ABC, INITIAL, 5) == Registers(0xCFD499DE, 0xCDD8E11B, 0x284E43C2, 0x626414DB, 0xC045BF0C);
    FiveSteps(ABC, INITIAL, 5);
  }

  lemma SecondSteps()
    ensures Steps(ABC, INITIAL, 15) == Registers(0x196BEE77, 0x9128F695, 0x1181ED99, 0x18C623F9, 0x7EF6A7A2)
  {
    hide Steps, Schedule;
    FirstSteps();
    EarlyWords();
    FiveSteps(ABC, INITIAL, 10);
  }

  lemma ChoiceSteps()
    ensures Steps(ABC, INITIAL, 20) == Registers(0xFD9E1D7D, 0xDC64901D, 0x20AA99CA, 0xD3A49608, 0xC82F758B)
  {
    hide Steps, Schedule;
    SecondSteps();
    FirstWords(0);
    FiveSteps(ABC, INITIAL, 15);
  }

  lemma FirstParitySteps()
    ensures Steps(ABC, INITIAL, 40) == Registers(0x32DE1CBA, 0x4C986405, 0xF718E5CF, 0x03D447F6, 0xF72EEC32)
  {
    hide Steps, Schedule;
    SecondWords(20);
    ChoiceSteps();
    FiveSteps(ABC, INITIAL, 20);
    assert Steps(ABC, INITIAL, 25) == Registers(0xC7567DC6, 0xD541F12D, 0x884A0D21, 0x0CE88EFF, 0x868DEC32);
    FiveSteps(ABC, INITIAL, 25);
    assert Steps(ABC, INITIAL, 30) == Registers(0xC5FBAF5D, 0x8370B52E, 0xD2AA1365, 0x6F8D7EF5, 0x12104EE9);
    FiveSteps(ABC, INITIAL, 30);
    assert Steps(ABC, INITIAL, 35) == Registers(0x21796AD4, 0x2C0EBC11, 0x811BEA82, 0xCEE1174C, 0xC499ED01);
    FiveSteps(ABC, INITIAL, 35);
  }

  lemma MajoritySteps()
    ensures Steps(ABC, INITIAL, 60) == Registers(0x3F52DE5A, 0x09D785FD, 0x3498BFD4, 0xF211824F, 0xD79915AB)
  {
    hide Steps, Schedule;
    ThirdWords(40);
    FirstParitySteps();
    FiveSteps(ABC, INITIAL, 40);
    assert Steps(ABC, INITIAL, 45) == Registers(0x40F28E09, 0xEE1B1AAF, 0x5FC64F71, 0x25C28357, 0xFF21F7B7);
    FiveSteps(ABC, INITIAL, 45);
    assert Steps(ABC, INITIAL, 50) == Registers(0x120731C5, 0xBAF39337, 0xAFAB40B2, 0x2806E11B, 0x8714787C);
    FiveSteps(ABC, INITIAL, 50);
    assert Steps(ABC, INITIAL, 55) == Registers(0x7B71F76D, 0x27E9F1D8, 0x792410DB, 0x8E11EB59, 0x99076CB3);
    FiveSteps(ABC, INITIAL, 55);
  }

  lemma SecondParitySteps()
    ensures Steps(ABC, INITIAL, 80) == Registers(0x42541B35, 0x5738D5E1, 0x21834873, 0x681E6DF6, 0xD8FDF6AD)
  {
    hide Steps, Schedule;
    LastWords(60);
    MajoritySteps();
    FiveSteps(ABC, INITIAL, 60);
    assert Steps(ABC, INITIAL, 65) == Registers(0x19DFA7AC, 0x6B61C9E1, 0xED9B0082, 0x9523272C, 0xF5D5B051);
    FiveSteps(ABC, INITIAL, 65);
    assert Steps(ABC, INITIAL, 70) == Registers(0x3F2588C2, 0x497093C0, 0xDE37534A, 0x030F7CAD, 0x4405957E);
    FiveSteps(ABC, INITIAL, 70);
    assert Steps(ABC, INITIAL, 75) == Registers(0x5EE76897, 0x11793F6F, 0x3B6D0B79, 0xCE616779, 0xF0667E31);
    FiveSteps(ABC, INITIAL, 75);
  }

  lemma CompressionOfAbc()
    ensures Compress(INITIAL, ABC) == Registers(0xA9993E36, 0x4706816A, 0xBA3E2571, 0x7850C26C, 0x9CD0D89D)
  {
    hide Steps;
    SecondParitySteps();
  }

  lemma PaddingOfAbc()
    ensures Pad(MESSAGE) == [0x61, 0x62, 0x63, 0x80] + Zeros(59) + [24]
  {
    hide ToByte;
    assert ToByte(0) == 0 && ToByte(24) == 24 by {
      SmallBytes();
    }
  }

  lemma SmallBytes()
    ensures ToByte(0) == 0 && ToByte(24) == 24
  {
  }

  lemma WordsOfAbc(block: seq<bv8>)
    requires block == [0x61, 0x62, 0x63, 0x80] + Zeros(59) + [24]
    ensures BlockWords(block) == ABC
  {
    var words := BlockWords(block);
    assert words[0] == 0x61626380 && words[15] == 24;
    forall i | 1 <= i < 15 ensures words[i] == 0 {
      assert block[4 * i] == 0 && block[4 * i + 1] == 0 && block[4 * i + 2] == 0 && block[4 * i + 3] == 0;
    }
  }

  /** The digest is a9993e36 4706816a ba3e2571 7850c26c 9cd0d89d. */
  lemma DigestOfAbc()
    ensures Digest(MESSAGE) == [
              0xa9, 0x99, 0x3e, 0x36, 0x47, 0x06, 0x81, 0x6a, 0xba, 0x3e,
              0x25, 0x71, 0x78, 0x50, 0xc2, 0x6c, 0x9c, 0xd0, 0xd8, 0x9d]
  {
    hide Compress, BlockWords, Pad;
    PaddingOfAbc();
    var block := Pad(MESSAGE);
    WordsOfAbc(block);
    CompressionOfAbc();
    HashOneMore(INITIAL, [], block);
    assert [] + block == block;
  }

  lemma Digit(n: nat, q: nat)
    requires q == n / 0x100
    ensures n == ToNat(LowByte(n)) + 0x100 * q
  {
    hide ToByte, ToNat;
    ToByteKeeps(n % 256);
  }

  lemma LowQuotients(n: nat)
    ensures n / 0x100 / 0x100 == n / 0x1_0000 && n / 0x1_0000 / 0x100 == n / 0x100_0000
    ensures n / 0x100_0000 / 0x100 == n / 0x1_0000_0000
  {
  }

  lemma HighQuotients(n: nat)
    ensures n / 0x1_0000_0000 / 0x100 == n / 0x100_0000_0000
    ensures n / 0x100_0000_0000 / 0x100 == n / 0x1_0000_0000_0000
    ensures n / 0x1_0000_0000_0000 / 0x100 == n / 0x100_0000_0000_0000
    ensures n / 0x100_0000_0000_0000 / 0x100 == n / TWO_64
  {
  }

  /** The number whose digits to the base 256 are these bytes, the highest first. */
  function OfBytes(s: seq<bv8>): nat {
    if s == [] then 0 else 0x100 * OfBytes(s[..|s| - 1]) + ToNat(s[|s| - 1])
  }

  lemma OneMoreDigit(s: seq<bv8>, b: bv8, n: nat, q: nat)
    requires OfBytes(s) == q && q == n / 0x100 && b == LowByte(n)
    ensures OfBytes(s + [b]) == n
  {
    hide LowByte, ToNat;
    Digit(n, q);
    assert (s + [b])[..|s|] == s;
  }

  /** The eight bytes of the length are its digits. */
  lemma LengthByDigits(n: nat)
    requires n < TWO_64
    ensures OfBytes(BigEndian64(n)) == n
  {
    hide LowByte, OfBytes;
    var s := BigEndian64(n);
    LowQuotients(n);
    HighQuotients(n);
    NoBytes();
    OneMoreDigit([], s[0], n / 0x100_0000_0000_0000, 0);
    OneMoreDigit([] + [s[0]], s[1], n / 0x1_0000_0000_0000, n / 0x100_0000_0000_0000);
    OneMoreDigit([] + [s[0]] + [s[1]], s[2], n / 0x100_0000_0000, n / 0x1_0000_0000_0000);
    OneMoreDigit([] + [s[0]] + [s[1]] + [s[2]], s[3], n / 0x1_0000_0000, n / 0x100_0000_0000);
    assert s[..4] == [] + [s[0]] + [s[1]] + [s[2]] + [s[3]];
    LowDigits([] + [s[0]] + [s[1]] + [s[2]] + [s[3]], n, s);
  }

  lemma NoBytes()
    ensures OfBytes([]) == 0
  {
  }

  lemma LowDigits(high: seq<bv8>, n: nat, s: seq<bv8>)
    requires n < TWO_64 && s == BigEndian64(n) && high == s[..4]
    requires OfBytes(high) == n / 0x1_0000_0000
    ensures OfBytes(s) == n
  {
    hide LowByte, OfBytes;
    LowQuotients(n);
    OneMoreDigit(high, s[4], n / 0x100_0000, n / 0x1_0000_0000);
    OneMoreDigit(high + [s[4]], s[5], n / 0x1_0000, n / 0x100_0000);
    OneMoreDigit(high + [s[4]] + [s[5]], s[6], n / 0x100, n / 0x1_0000);
    OneMoreDigit(high + [s[4]] + [s[5]] + [s[6]], s[7], n, n / 0x100);
    assert s == high + [s[4]] + [s[5]] + [s[6]] + [s[7]];
  }
}
