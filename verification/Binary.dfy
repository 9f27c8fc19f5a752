/**
 The bounded buffer of fd_binary.c and its variable-length integers ("Base 128 Varints" in the Protocol Buffers encoding
 guide).
*/
module Binary {
  import Arithmetic
  import opened Bytes
  import opened Bits
  import opened BitPacker
  import Delta

  datatype Error = InvalidRepresentation | OutOfBounds | Overflow

  // ---------------------------------------------------------------- what is computed

  /** Seven bits to a byte, the lowest first; the top bit says that more follow. */
  function Encode(v: nat): (s: seq<byte>)
    ensures s != []
    decreases v
  {
    if v <= 0x7f then [v] else [v % 0x80 + 0x80] + Encode(v / 0x80)
  }

  datatype Result = Result(value: nat, consumed: nat, error: Option<Error>)

  /** The accumulator after one more byte, in 64 bits. */
  function Accumulate(value: nat, b: byte, index: nat): nat {
    Or(value, Low(Shl(And(0x7f, b), 7 * index), 64))
  }

  const TOP_THREE_BITS := 0xe000_0000_0000_0000

  /** `fd_binary_get_varuint` after `index` bytes. */
  function DecodeFrom(s: seq<byte>, value: nat, index: nat): Result
    decreases |s|
  {
    if s == [] then Result(0, index, Some(OutOfBounds))
    else
      var next := Accumulate(value, s[0], index);
      if s[0] < 0x80 then Result(next, index + 1, None)
      else if And(next, TOP_THREE_BITS) != 0 then Result(0, index + 1, Some(InvalidRepresentation))
      else DecodeFrom(s[1..], next, index + 1)
  }

  function Decode(s: seq<byte>): Result {
    DecodeFrom(s, 0, 0)
  }

  // ---------------------------------------------------------------- arithmetic

  lemma Powers()
    ensures Pow2(7) == 0x80 && Pow2(56) == 0x100_0000_0000_0000 && Pow2(61) == 0x2000_0000_0000_0000
    ensures Pow2(63) == 0x8000_0000_0000_0000 && Pow2(64) == 0x1_0000_0000_0000_0000
  {
    PowersOfTwo();
    Pow2Adds(8, 8);
    Pow2Adds(16, 8);
    Pow2Adds(24, 8);
    Pow2Adds(32, 8);
    Pow2Adds(40, 8);
    Pow2Adds(48, 8);
    Pow2Adds(56, 5);
    Pow2Adds(56, 7);
    Pow2Adds(56, 8);
  }

  lemma ShiftTwice(x: nat, n: nat)
    requires n > 0
    ensures Shl(x, n) == 2 * Shl(x, n - 1) && Shr(x, n) == Shr(x / 2, n - 1)
  {
    Arithmetic.Double(Pow2(n - 1), x);
    Arithmetic.DivideTwice(x, Pow2(n - 1));
  }

  lemma {:induction false} AndOfShifted(x: nat, m: nat, n: nat)
    ensures And(x, Shl(m, n)) == Shl(And(Shr(x, n), m), n)
    decreases n
  {
    if n == 0 {
      assert Shl(m, 0) == m && Shr(x, 0) == x;
    } else {
      hide Shl, Shr;
      ShiftTwice(m, n);
      ShiftTwice(x, n);
      ShiftTwice(And(Shr(x, n), m), n);
      AndOfShifted(x / 2, m, n - 1);
      AndOfEven(x, Shl(m, n - 1));
    }
  }

  lemma AndOfEven(x: nat, y: nat)
    ensures And(x, 2 * y) == 2 * And(x / 2, y)
  {
    var even := 2 * y;
    assert even % 2 == 0 && even / 2 == y;
    if x == 0 {
      assert And(x, even) == 0 && And(x / 2, y) == 0;
    } else {
      assert And(x, even) == 2 * And(x / 2, even / 2);
    }
  }

  /** The check on the top three bits asks whether the value has reached 2^61. */
  lemma TopBitsClear(x: nat)
    requires x < Pow2(64)
    ensures And(x, TOP_THREE_BITS) == 0 <==> x < Pow2(61)
  {
    hide And, Shl, Shr, Pow2;
    Powers();
    SevenAtTop();
    AndOfShifted(x, 7, 61);
    var top := Shr(x, 61);
    TopOf(x);
    AndSeven(top);
    NothingShifted(And(top, 7), 61);
  }

  lemma SevenAtTop()
    ensures Shl(7, 61) == TOP_THREE_BITS
  {
    hide Pow2;
    Powers();
  }

  lemma TopOf(x: nat)
    requires x < Pow2(64)
    ensures Shr(x, 61) < 8 && (Shr(x, 61) == 0 <==> x < Pow2(61))
  {
    hide Pow2;
    Powers();
  }

  lemma AndSeven(y: nat)
    requires y < 8
    ensures And(y, 7) == 0 <==> y == 0
  {
    assert And(y / 2, 3) == 0 <==> y / 2 == 0 by {
      assert And(y / 2 / 2, 1) == 0 <==> y / 2 / 2 == 0;
    }
  }

  lemma NothingShifted(y: nat, n: nat)
    ensures Shl(y, n) == 0 <==> y == 0
  {
    if y >= 1 {
      Arithmetic.Commute(Pow2(n), y);
      Arithmetic.AtLeastOnce(y, Pow2(n));
    }
  }

  // ---------------------------------------------------------------- round trip

  /** One byte moves seven bits from what is left to the accumulator. */
  lemma SevenBits(v: nat, w: nat, acc: nat, index: nat)
    requires v == acc + Shl(w, 7 * index) && acc < Pow2(7 * index)
    ensures v == (acc + Shl(w % 0x80, 7 * index)) + Shl(w / 0x80, 7 * (index + 1))
    ensures acc + Shl(w % 0x80, 7 * index) < Pow2(7 * (index + 1))
  {
    hide Pow2;
    Powers();
    var p := Pow2(7 * index);
    Pow2Adds(7 * index, 7);
    assert 7 * index + 7 == 7 * (index + 1);
    SplitProduct(p, w);
    Arithmetic.DigitsFit(acc, p, w % 0x80, 0x80);
  }

  lemma SplitProduct(p: nat, w: nat)
    ensures p * w == p * (w % 0x80) + (p * 0x80) * (w / 0x80)
  {
    assert w == w % 0x80 + 0x80 * (w / 0x80);
    assert p * (w % 0x80 + 0x80 * (w / 0x80)) == p * (w % 0x80) + p * (0x80 * (w / 0x80));
    assert p * (0x80 * (w / 0x80)) == (p * 0x80) * (w / 0x80);
  }

  lemma AccumulateAdds(acc: nat, b: byte, index: nat)
    requires acc < Pow2(7 * index) && acc + Shl(b % 0x80, 7 * index) < Pow2(64)
    ensures Accumulate(acc, b, index) == acc + Shl(b % 0x80, 7 * index)
  {
    hide Pow2, Shl, Or, And, Low;
    Powers();
    AndTakesRemainder(7, b);
    assert And(0x7f, b) == b % 0x80 by { LowSeven(b); }
    LowKeepsSmall(Shl(b % 0x80, 7 * index), 64);
    OrAdds(acc, 7 * index, b % 0x80);
  }

  lemma LowSeven(b: nat)
    ensures Low(b, 7) == b % 0x80
  {
    hide Pow2;
    Powers();
  }

  /** A value that decodes: below 2^63, or with bits 61 and 62 clear. */
  predicate IsRepresentable(v: nat) {
    v < 0x8000_0000_0000_0000 || v % 0x8000_0000_0000_0000 < 0x2000_0000_0000_0000
  }

  lemma {:induction false} DecodeOfEncode(v: nat, w: nat, acc: nat, index: nat, rest: seq<byte>)
    requires v == acc + Shl(w, 7 * index) && acc < Pow2(7 * index) && v < Pow2(64) && index <= 9
    requires index > 0 ==> w > 0
    requires index == 9 ==> IsRepresentable(v)
    ensures DecodeFrom(Encode(w) + rest, acc, index) ==
            if IsRepresentable(v) then Result(v, index + |Encode(w)|, None)
            else Result(0, 9, Some(InvalidRepresentation))
    decreases w
  {
    hide Pow2, Shl, Accumulate, And, IsRepresentable;
    var s := Encode(w) + rest;
    SevenBits(v, w, acc, index);
    var b, next := s[0], acc + Shl(w % 0x80, 7 * index);
    assert b % 0x80 == w % 0x80 && (b < 0x80 <==> w <= 0x7f);
    SmallerPart(v, next, w / 0x80, index);
    AccumulateAdds(acc, b, index);
    if w <= 0x7f {
      SmallValues(v, next, index);
    } else {
      assert s[1..] == Encode(w / 0x80) + rest;
      TopBitsClear(next);
      LateCheck(v, next, w / 0x80, index);
      if next < Pow2(61) {
        DecodeOfEncode(v, w / 0x80, next, index + 1, rest);
      }
    }
  }

  lemma SmallerPart(v: nat, next: nat, more: nat, index: nat)
    requires v == next + Shl(more, 7 * (index + 1)) && v < Pow2(64)
    ensures next < Pow2(64) && (more == 0 ==> v == next)
  {
    hide Pow2;
    if more == 0 {
      Arithmetic.Commute(Pow2(7 * (index + 1)), 0);
    }
  }

  lemma SmallValues(v: nat, next: nat, index: nat)
    requires v == next && next < Pow2(7 * (index + 1)) && index <= 9 && (index == 9 ==> IsRepresentable(v))
    ensures IsRepresentable(v)
  {
    hide Pow2;
    Powers();
    if index < 9 {
      Pow2Grows(7 * (index + 1), 63);
    }
  }

  /** The check can only fail after the ninth byte, on what is then the value without its top bit. */
  lemma LateCheck(v: nat, next: nat, more: nat, index: nat)
    requires v == next + Shl(more, 7 * (index + 1)) && next < Pow2(7 * (index + 1)) && v < Pow2(64)
    requires more > 0 && index <= 9
    ensures index <= 8
    ensures index < 8 ==> next < Pow2(61)
    ensures index == 8 ==> (next < Pow2(61) <==> IsRepresentable(v))
  {
    hide Pow2;
    Powers();
    var p := Pow2(7 * (index + 1));
    Arithmetic.Commute(p, more);
    Arithmetic.AtLeastOnce(more, p);
    if index == 9 {
      Pow2Grows(64, 70);
    } else if index < 8 {
      Pow2Grows(7 * (index + 1), 56);
    } else {
      assert v == more * p + next;
      Arithmetic.DivisionIs(v, p, more, next);
    }
  }

  /**
   A 64-bit number reads back exactly, from exactly its own bytes, if and only if it is below 2^63 or its bits 61 and 62
   are clear; all others are refused after nine bytes.
  */
  lemma UnsignedRoundTrip(v: nat, rest: seq<byte>)
    requires v < 0x1_0000_0000_0000_0000
    ensures Decode(Encode(v) + rest) ==
            if IsRepresentable(v) then Result(v, |Encode(v)|, None) else Result(0, 9, Some(InvalidRepresentation))
  {
    hide Pow2, Encode, DecodeFrom;
    Powers();
    assert Pow2(0) == 1 by { PowersOfTwo(); }
    DecodeOfEncode(v, v, 0, 0, rest);
  }

  // ---------------------------------------------------------------- signed numbers

  const WORD := 0x1_0000_0000_0000_0000

  /** A 64-bit pattern for a signed number. */
  function Pattern(n: int): (p: int)
    requires -WORD / 2 <= n < WORD / 2
    ensures 0 <= p < WORD
  {
    if n < 0 then WORD + n else n
  }

  function Signed(p: nat): (n: int)
    requires p < WORD
  {
    if p < WORD / 2 then p else p - WORD
  }

  /** `^ 0xffffffffffffffff` */
  function Complement(p: nat): (q: nat)
    requires p < WORD
    ensures q < WORD
  {
    WORD - 1 - p
  }

  /** The zigzag of `fd_binary_put_varint`, on patterns. */
  function ZigzagPattern(n: int): (z: nat)
    requires -WORD / 2 <= n < WORD / 2
    ensures z < WORD
  {
    if n < 0 then Complement(2 * Pattern(n) % WORD) else 2 * Pattern(n) % WORD
  }

  /** The zigzag of `fd_binary_get_varint`. */
  function UnzigzagPattern(z: nat): (n: int)
    requires z < WORD
  {
    Signed(if z % 2 == 1 then Complement(z / 2) else z / 2)
  }

  /** On patterns it is the zigzag of numbers. */
  lemma PatternsZigzag(n: int)
    requires -WORD / 2 <= n < WORD / 2
    ensures ZigzagPattern(n) == Delta.Zigzag(n) && UnzigzagPattern(ZigzagPattern(n)) == n
  {
  }

  /** Signed numbers from -2^62 up to 2^62 - 1 read back, and beyond those the ones whose zigzag does. */
  lemma SignedRoundTrip(n: int, rest: seq<byte>)
    requires -WORD / 2 <= n < WORD / 2
    ensures UnzigzagPattern(ZigzagPattern(n)) == n
    ensures -WORD / 4 <= n < WORD / 4 ==> IsRepresentable(ZigzagPattern(n))
    ensures Decode(Encode(ZigzagPattern(n)) + rest) ==
            if IsRepresentable(ZigzagPattern(n)) then Result(ZigzagPattern(n), |Encode(ZigzagPattern(n))|, None)
            else Result(0, 9, Some(InvalidRepresentation))
  {
    hide Encode, DecodeFrom;
    PatternsZigzag(n);
    UnsignedRoundTrip(ZigzagPattern(n), rest);
  }

  // ---------------------------------------------------------------- the buffer

  /** `fd_binary_t`: bytes are put at one index and taken at another; what goes wrong is remembered. */
  class Buffer {
    const buffer: array<byte>
    const size: nat
    var putIndex: nat
    var getIndex: nat
    var errors: set<Error>

    ghost predicate Valid()
      reads this
    {
      putIndex <= buffer.Length && getIndex <= size <= buffer.Length
    }

    /** What has been put. */
    ghost function Contents(): seq<byte>
      requires Valid()
      reads this, buffer
    {
      buffer[..putIndex]
    }

    /** What can still be taken: everything up to the size, whether it was put or not. */
    ghost function Remaining(): seq<byte>
      requires Valid()
      reads this, buffer
    {
      buffer[getIndex..size]
    }

    /** `fd_binary_initialize`. */
    constructor (buffer: array<byte>, size: nat)
      requires size <= buffer.Length
      ensures Valid() && this.buffer == buffer && this.size == size && getIndex == 0
      ensures Contents() == [] && errors == {}
    {
      this.buffer, this.size, putIndex, getIndex, errors := buffer, size, 0, 0, {};
    }

    /** `fd_binary_reset`. */
    method Reset()
      requires Valid()
      modifies this
      ensures Valid() && Contents() == [] && getIndex == 0 && errors == {}
    {
      putIndex, getIndex, errors := 0, 0, {};
    }

    /** `fd_binary_put_uint8`. */
    method PutByte(value: byte)
      requires Valid()
      modifies this`putIndex, this`errors, buffer
      ensures Valid()
      ensures Contents() == if old(putIndex) < size then old(Contents()) + [value] else old(Contents())
      ensures errors == if old(putIndex) < size then old(errors) else old(errors) + {Overflow}
    {
      if putIndex + 1 <= size {
        buffer[putIndex] := value;
        putIndex := putIndex + 1;
      } else {
        errors := errors + {Overflow};
      }
    }

    /** `fd_binary_put_uint16`. */
    method PutWord(value: nat)
      requires Valid() && value < 0x1_0000
      modifies this`putIndex, this`errors, buffer
      ensures Valid()
      ensures Contents() == if old(putIndex) + 2 <= size then old(Contents()) + LE16(value) else old(Contents())
      ensures errors == if old(putIndex) + 2 <= size then old(errors) else old(errors) + {Overflow}
    {
      if putIndex + 2 <= size {
        buffer[putIndex] := value % 0x100;
        buffer[putIndex + 1] := value / 0x100;
        putIndex := putIndex + 2;
      } else {
        errors := errors + {Overflow};
      }
    }

    /** One more byte of something, if there is still room for it. */
    method PutNext(b: byte, ghost before: seq<byte>, ghost was: set<Error>, ghost done: seq<byte>)
      requires Valid() && Contents() == before + Prefix(done, size - |before|)
      requires errors == was + if |done| <= size - |before| || done == [] then {} else {Overflow}
      modifies this`putIndex, this`errors, buffer
      ensures Valid() && Contents() == before + Prefix(done + [b], size - |before|)
      ensures errors == was + if |done| + 1 <= size - |before| then {} else {Overflow}
    {
      hide Prefix;
      PrefixGrows(done, b, size - |before|);
      PutByte(b);
    }

    /** `fd_binary_put_varuint`: as much of the encoding as there is room for, and an overflow if that is not all. */
    method PutVarUint(value: nat)
      requires Valid()
      modifies this`putIndex, this`errors, buffer
      ensures Valid() && Contents() == old(Contents()) + Prefix(Encode(value), size - old(putIndex))
      ensures errors == old(errors) + if old(putIndex) + |Encode(value)| <= size then {} else {Overflow}
    {
      hide Encode, Prefix;
      ghost var before, was := Contents(), errors;
      ghost var room := size - |before|;
      var remainder := value;
      ghost var done: seq<byte> := [];
      assert [] + Encode(value) == Encode(value);
      PrefixOfNothing(room);
      while remainder > 0x7f
        invariant Valid() && Contents() == before + Prefix(done, room)
        invariant errors == was + if |done| <= room || done == [] then {} else {Overflow}
        invariant Encode(value) == done + Encode(remainder)
        decreases remainder
      {
        EncodeStep(done, remainder);
        PutNext(remainder % 0x80 + 0x80, before, was, done);
        done := done + [remainder % 0x80 + 0x80];
        remainder := remainder / 0x80;
      }
      LastByte(remainder);
      PutNext(remainder, before, was, done);
    }

    /** `fd_binary_get_varuint`: on success the get index is just behind the encoding. */
    method GetVarUint() returns (value: nat)
      requires Valid()
      modifies this`getIndex, this`errors
      ensures Valid()
      ensures var result := Decode(old(Remaining()));
              && value == result.value && getIndex == old(getIndex) + result.consumed
              && errors == old(errors) + if result.error.Some? then {result.error.value} else {}
    {
      hide Accumulate, And;
      value := 0;
      ghost var all, start := Remaining(), getIndex;
      var remaining, index := size - getIndex, 0;
      assert all[0..] == all;
      while index < remaining
        invariant index <= remaining == |all| && getIndex == start + index && errors == old(errors) && Valid()
        invariant Decode(all) == DecodeFrom(all[index..], value, index)
      {
        var b := buffer[getIndex];
        assert all[index..][0] == b && all[index..][1..] == all[index + 1..];
        getIndex := getIndex + 1;
        value := Accumulate(value, b, index);
        if b < 0x80 {
          return;
        }
        if And(value, TOP_THREE_BITS) != 0 {
          errors := errors + {InvalidRepresentation};
          return 0;
        }
        index := index + 1;
      }
      errors := errors + {OutOfBounds};
      value := 0;
    }

    /** `fd_binary_get_varint`. */
    method GetVarInt() returns (value: int)
      requires Valid()
      modifies this`getIndex, this`errors
      ensures Valid()
      ensures var result := Decode(old(Remaining()));
              && result.value < WORD && value == UnzigzagPattern(result.value)
              && getIndex == old(getIndex) + result.consumed
              && errors == old(errors) + if result.error.Some? then {result.error.value} else {}
    {
      hide DecodeFrom, Pow2;
      Powers();
      DecodedIsAWord(Remaining(), 0, 0);
      var zigzag := GetVarUint();
      value := UnzigzagPattern(zigzag);
    }

    /** `fd_binary_put_varint`. */
    method PutVarInt(value: int)
      requires Valid() && -WORD / 2 <= value < WORD / 2
      modifies this`putIndex, this`errors, buffer
      ensures Valid() && Contents() == old(Contents()) + Prefix(Encode(ZigzagPattern(value)), size - old(putIndex))
      ensures errors == old(errors) + if old(putIndex) + |Encode(ZigzagPattern(value))| <= size then {} else {Overflow}
    {
      PutVarUint(ZigzagPattern(value));
    }
  }

  /** As many bytes as there is room for. */
  function Prefix(s: seq<byte>, room: int): (t: seq<byte>)
    ensures t <= s
  {
    if room <= 0 then [] else if room < |s| then s[..room] else s
  }

  lemma PrefixOfNothing(room: int)
    ensures Prefix([], room) == []
  {
  }

  lemma PrefixGrows(s: seq<byte>, b: byte, room: int)
    ensures |Prefix(s, room)| < room <==> |s| < room
    ensures Prefix(s + [b], room) == if |s| < room then Prefix(s, room) + [b] else Prefix(s, room)
  {
  }

  lemma EncodeStep(done: seq<byte>, v: nat)
    requires v > 0x7f
    ensures done + Encode(v) == (done + [v % 0x80 + 0x80]) + Encode(v / 0x80)
  {
  }

  lemma LastByte(v: nat)
    requires v <= 0x7f
    ensures Encode(v) == [v]
  {
  }

  lemma {:induction false} DecodedIsAWord(s: seq<byte>, value: nat, index: nat)
    requires value < Pow2(64)
    ensures DecodeFrom(s, value, index).value < Pow2(64)
    decreases |s|
  {
    hide Pow2, Low, And, Shl;
    if s == [] {
    } else {
      OrStaysBelow(value, Low(Shl(And(0x7f, s[0]), 7 * index), 64), 64);
      DecodedIsAWord(s[1..], Accumulate(value, s[0], index), index + 1);
    }
  }

  lemma {:induction false} OrStaysBelow(x: nat, y: nat, n: nat)
    requires x < Pow2(n) && y < Pow2(n)
    ensures Or(x, y) < Pow2(n)
    decreases n
  {
    if n == 0 {
    } else {
      OrStaysBelow(x / 2, y / 2, n - 1);
    }
  }

  // ---------------------------------------------------------------- the digits of a number

  /** The number whose digits to the base 128 are the lower seven bits of the bytes, the lowest first. */
  function OfDigits(s: seq<byte>): nat {
    if s == [] then 0 else s[0] % 0x80 + 0x80 * OfDigits(s[1..])
  }

  /** The bytes of a number are its digits; all but the last have the top bit, and the last is no zero behind others. */
  lemma {:induction false} EncodeIsDigits(v: nat)
    ensures OfDigits(Encode(v)) == v
    ensures var s := Encode(v);
            && (forall i :: 0 <= i < |s| ==> (s[i] >= 0x80 <==> i < |s| - 1))
            && (|s| > 1 ==> s[|s| - 1] != 0)
    decreases v
  {
    if v <= 0x7f {
      assert [v as byte][1..] == [];
    } else {
      EncodeIsDigits(v / 0x80);
      assert Encode(v)[1..] == Encode(v / 0x80);
    }
  }
}
