/** The bit packer of api/python/delta.py: fields of any width, one after the other, lowest bit first. */
module BitPacker {
  import opened Arithmetic
  import opened Bytes
  import opened Bits

  lemma PowersOfTwo()
    ensures Pow2(0) == 1 && Pow2(1) == 2 && Pow2(2) == 4 && Pow2(3) == 8 && Pow2(4) == 16 && Pow2(5) == 32
    ensures Pow2(6) == 64 && Pow2(7) == 128 && Pow2(8) == 256
  {
    assert Pow2(4) == 16;
    assert Pow2(8) == 256;
  }

  lemma {:induction false} Pow2Grows(m: nat, n: nat)
    requires m <= n
    ensures Pow2(m) <= Pow2(n)
    decreases n
  {
    if m == n {
    } else {
      Pow2Grows(m, n - 1);
    }
  }

  lemma Pow2Below(n: nat)
    requires n < 8
    ensures Pow2(n) <= 128
  {
    Pow2Grows(n, 7);
    PowersOfTwo();
  }

  /** `>>` on numbers of either sign. */
  function ShrInt(value: int, n: nat): int {
    value / Pow2(n)
  }

  /** `value >> n` is zero exactly for numbers of at most n bits. */
  lemma ShiftedOut(value: int, n: nat)
    ensures ShrInt(value, n) == 0 <==> 0 <= value < Pow2(n)
  {
    var p := Pow2(n);
    if 0 <= value < p {
      DivisionIs(value, p, 0, value);
    } else if value >= p {
      Divide(value, p);
    }
  }

  // ---------------------------------------------------------------- encoder

  class BitEncoder {
    var data: seq<byte>
    var bitCount: nat
    var pending: nat

    ghost predicate Valid()
      reads this
    {
      |data| == bitCount / 8 && pending < Pow2(bitCount % 8)
    }

    /** Every bit written so far. */
    ghost function Stream(): (bits: Bits)
      requires Valid()
      reads this
      ensures |bits| == bitCount
    {
      DataBits(data) + BitsOf(pending, bitCount % 8)
    }

    constructor ()
      ensures Valid() && Stream() == []
    {
      data, bitCount, pending := [], 0, 0;
    }

    /** The loop of `write`: whole bytes go to the data. */
    method Flush(bits: nat)
      requires pending < Pow2(bits)
      modifies this`data, this`pending
      ensures pending < Pow2(bits % 8) && |data| == old(|data|) + bits / 8
      ensures DataBits(data) + BitsOf(pending, bits % 8) == old(DataBits(data)) + old(BitsOf(pending, bits))
    {
      hide BitsOf, DataBits, Pow2, And, Shr;
      var bitIndex: nat := bits;
      ghost var whole := DataBits(data) + BitsOf(pending, bits);
      while bitIndex >= 8
        invariant bitIndex % 8 == bits % 8 && bitIndex <= bits && |data| == old(|data|) + (bits - bitIndex) / 8
        invariant pending < Pow2(bitIndex)
        invariant DataBits(data) + BitsOf(pending, bitIndex) == whole
      {
        ByteOff(pending, bitIndex);
        DataBitsGrow(data, And(0xff, pending));
        data := data + [And(0xff, pending)];
        pending := Shr(pending, 8);
        bitIndex := bitIndex - 8;
      }
    }

    /** `write`: a value that does not fit its width raises. */
    method Write(value: int, width: nat) returns (ok: bool)
      requires Valid()
      modifies this
      ensures Valid()
      ensures ok <==> 0 <= value < Pow2(width)
      ensures Stream() == if ok then old(Stream()) + BitsOf(value, width) else old(Stream())
    {
      hide BitsOf, DataBits, Or, Shl, ShrInt;
      ShiftedOut(value, width);
      ok := ShrInt(value, width) == 0;
      if !ok {
        return;
      }
      var bitIndex := bitCount % 8;
      ghost var d, p := DataBits(data), pending;
      OrAdds(pending, bitIndex, value);
      BitsOfParts(pending, bitIndex, value, width);
      FitsTogether(pending, bitIndex, value, width);
      pending := Or(pending, Shl(value, bitIndex));
      assert (d + BitsOf(p, bitIndex)) + BitsOf(value, width) == d + BitsOf(pending, bitIndex + width);
      Flush(bitIndex + width);
      Carry(bitCount, width);
      bitCount := bitCount + width;
      Pow2Below(bitCount % 8);
      // a byte of more than 256 would raise here
    }

    /** `finalize`: the last bits fill up a byte. */
    method Finalize()
      requires Valid()
      modifies this`data
      ensures |data| == (bitCount + 7) / 8 && DataBits(data)[..bitCount] == old(Stream())
    {
      hide BitsOf, DataBits;
      var bitIndex := bitCount % 8;
      if bitIndex > 0 {
        Pow2Below(bitIndex);
        DataBitsGrow(data, pending);
        BitsPrefix(pending, 8, bitIndex);
        data := data + [pending];
      } else {
        assert BitsOf(pending, 0) == [];
      }
    }
  }

  /** Taking a byte off the bottom. */
  lemma ByteOff(v: nat, n: nat)
    requires v < Pow2(n) && n >= 8
    ensures And(0xff, v) == v % 256 && Shr(v, 8) < Pow2(n - 8)
    ensures BitsOf(v, n) == BitsOf(v % 256, 8) + BitsOf(Shr(v, 8), n - 8)
  {
    hide BitsOf, And;
    PowersOfTwo();
    AndTakesRemainder(8, v);
    Pow2Adds(8, n - 8);
    BitsOfParts(v % 256, 8, v / 256, n - 8);
  }

  /** Two fields side by side fit the sum of their widths. */
  lemma FitsTogether(v: nat, n: nat, w: nat, m: nat)
    requires v < Pow2(n) && w < Pow2(m)
    ensures v + Shl(w, n) < Pow2(n + m)
  {
    hide Pow2;
    Pow2Adds(n, m);
    DigitsFit(v, Pow2(n), w, Pow2(m));
  }

  lemma Carry(count: nat, width: nat)
    ensures count / 8 + (count % 8 + width) / 8 == (count + width) / 8 && (count % 8 + width) % 8 == (count + width) % 8
  {
  }

  // ---------------------------------------------------------------- decoder

  class BitDecoder {
    const data: seq<byte>
    const bitCount: nat
    var bitIndex: nat

    ghost predicate Valid()
      reads this
    {
      bitIndex <= bitCount <= 8 * |data|
    }

    /** The bits still to be read. */
    ghost function Rest(): (bits: Bits)
      requires Valid()
      reads this
      ensures |bits| == bitCount - bitIndex
    {
      DataBits(data)[bitIndex..bitCount]
    }

    constructor (data: seq<byte>, bitCount: nat)
      requires bitCount <= 8 * |data|
      ensures Valid() && Rest() == DataBits(data)[..bitCount] && this.data == data && this.bitCount == bitCount
    {
      this.data, this.bitCount, bitIndex := data, bitCount, 0;
    }

    /** `read`: too many bits raise, and so does a width over 32, for which the shift of the mask is negative. */
    method Read(width: nat) returns (ok: bool, value: nat)
      requires Valid()
      modifies this`bitIndex
      ensures Valid()
      ensures ok <==> width <= 32 && width <= |old(Rest())|
      ensures if ok then value == ValueOf(old(Rest())[..width]) && Rest() == old(Rest())[width..] else Rest() == old(Rest())
    {
      hide BitsOf, DataBits, ValueOf, And, Or, Pow2, Shl, Shr;
      value := 0;
      ok := bitIndex + width <= bitCount && width <= 32;
      if !ok {
        return;
      }
      ghost var start, bits := bitIndex, DataBits(data);
      var extracted, mask := 0, Pow2(width) - 1;
      ValueOfNothing();
      assert bits[start..start] == [];
      while extracted < width
        invariant extracted <= width && bitIndex == start + extracted && mask == Pow2(width - extracted) - 1
        invariant value == ValueOf(bits[start..bitIndex])
      {
        var index, at := bitIndex / 8, bitIndex % 8;
        var count := if 8 - at > width - extracted then width - extracted else 8 - at;
        Chunk(data, bitIndex, count, width - extracted);
        ChunkJoins(bits, start, bitIndex, count, value);
        value := Or(value, Shl(And(mask, Shr(data[index], at)), extracted));
        MaskMoves(width - extracted, count);
        mask := Shr(mask, count);
        extracted, bitIndex := extracted + count, bitIndex + count;
      }
      assert bits[start..bitCount][..width] == bits[start..start + width];
      assert bits[start..bitCount][width..] == bits[start + width..bitCount];
    }
  }

  lemma ValueOfNothing()
    ensures ValueOf([]) == 0
  {
  }

  /** The next run of bits joins the value. */
  lemma ChunkJoins(bits: Bits, start: nat, at: nat, count: nat, value: nat)
    requires start <= at <= at + count <= |bits| && value == ValueOf(bits[start..at])
    ensures Or(value, Shl(ValueOf(bits[at..at + count]), at - start)) == ValueOf(bits[start..at + count])
  {
    hide ValueOf, Or, Pow2, Shl;
    var next := bits[at..at + count];
    assert bits[start..at + count] == bits[start..at] + next;
    ValueOfParts(bits[start..at], next);
    OrAdds(value, at - start, ValueOf(next));
  }

  /** A run inside a run. */
  lemma InnerRun(bits: Bits, o: nat, inner: Bits, i: nat, count: nat)
    requires o + 8 <= |bits| && bits[o..o + 8] == inner && i + count <= 8
    ensures bits[o + i..o + i + count] == inner[i..i + count]
  {
    SliceOfSlice(bits, o, o + 8, i, i + count);
  }

  lemma RunOfNumber(v: nat, i: nat, count: nat)
    requires i + count <= 8
    ensures ValueOf(BitsOf(v, 8)[i..i + count]) == Low(Shr(v, i), count)
  {
    hide BitsOf, ValueOf, Pow2, Shr, Low;
    BitsInside(v, 8, i, count);
    BitsOfRemainder(Shr(v, i), count);
    ValueOfBitsOf(Low(Shr(v, i), count), count);
  }

  /** A run of bits inside a byte is the low part of the shifted byte. */
  lemma RunOfByte(bits: Bits, b: byte, o: nat, i: nat, count: nat)
    requires o + 8 <= |bits| && i + count <= 8 && bits[o..o + 8] == BitsOf(b, 8)
    ensures ValueOf(bits[o + i..o + i + count]) == Low(Shr(b, i), count)
  {
    hide BitsOf, ValueOf, Shr, Low;
    InnerRun(bits, o, BitsOf(b, 8), i, count);
    RunOfNumber(b, i, count);
  }

  /** What the mask leaves of a shifted byte is the next run of bits. */
  lemma Chunk(data: seq<byte>, bitIndex: nat, count: nat, remaining: nat)
    requires bitIndex / 8 < |data| && 0 < count && bitIndex % 8 + count <= 8
    requires count == remaining || (count < remaining && bitIndex % 8 + count == 8)
    ensures bitIndex + count <= 8 * |data|
    ensures And(Pow2(remaining) - 1, Shr(data[bitIndex / 8], bitIndex % 8))
         == ValueOf(DataBits(data)[bitIndex..bitIndex + count])
  {
    hide DataBits, ValueOf, And, Pow2, Shr;
    var k, i := bitIndex / 8, bitIndex % 8;
    assert bitIndex == 8 * k + i;
    DataBitsAt(data, k);
    ChunkOfByte(DataBits(data), data[k], 8 * k, i, count, remaining);
  }

  lemma ChunkOfByte(bits: Bits, b: byte, o: nat, i: nat, count: nat, remaining: nat)
    requires o + 8 <= |bits| && i + count <= 8 && bits[o..o + 8] == BitsOf(b, 8)
    requires count == remaining || (count < remaining && i + count == 8)
    ensures And(Pow2(remaining) - 1, Shr(b, i)) == ValueOf(bits[o + i..o + i + count])
  {
    hide BitsOf, ValueOf, And, Pow2, Shr, Low;
    var v := Shr(b, i);
    RunOfByte(bits, b, o, i, count);
    AndTakesRemainder(remaining, v);
    if count < remaining {
      HighPart(b, i, count);
      Pow2Grows(count, remaining);
      LowKeepsSmall(v, count);
      LowKeepsSmall(v, remaining);
    }
  }

  lemma LowKeepsSmall(v: nat, n: nat)
    requires v < Pow2(n)
    ensures Low(v, n) == v
  {
    DivisionIs(v, Pow2(n), 0, v);
  }

  lemma HighPart(b: byte, i: nat, count: nat)
    requires i + count == 8
    ensures Shr(b, i) < Pow2(count)
  {
    PowersOfTwo();
    Pow2Adds(i, count);
    var q := b / Pow2(i);
    Divide(b, Pow2(i));
    if q >= Pow2(count) {
      Monotone(Pow2(count), q, Pow2(i));
    }
  }

  lemma MaskMoves(n: nat, k: nat)
    requires k <= n
    ensures Shr(Pow2(n) - 1, k) == Pow2(n - k) - 1
  {
    hide Pow2;
    Pow2Adds(k, n - k);
    OneLess(Pow2(k), Pow2(n - k));
  }
}
