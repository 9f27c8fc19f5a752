/**
 The bit encoder of fd_bit.c: the same packing as api/python/delta.py, but through a 32-bit register, which loses the top
 of a value that does not fit beside the bits already waiting.
*/
module BitPackerC {
  import Arithmetic
  import opened Bytes
  import opened Bits
  import opened BitPacker

  const REGISTER := 32

  /** What is left of a value that is moved up in the register. */
  function Kept(value: nat, offset: nat): (kept: nat)
    requires offset <= REGISTER
  {
    Low(value, REGISTER - offset)
  }

  /** Moving up modulo 2^32 drops exactly the bits beyond the register. */
  lemma MovedUp(value: nat, offset: nat)
    requires offset <= REGISTER
    ensures Low(Shl(value, offset), REGISTER) == Shl(Kept(value, offset), offset)
  {
    var p, q := Pow2(offset), Pow2(REGISTER - offset);
    Pow2Adds(offset, REGISTER - offset);
    hide Pow2;
    RemainderOfProduct(p, q, value);
  }

  lemma RemainderOfProduct(p: nat, q: nat, v: nat)
    requires p >= 1 && q >= 1
    ensures p * q >= 1 && (p * v) % (p * q) == p * (v % q)
  {
    Arithmetic.Divide(v, q);
    Arithmetic.AtLeastOnce(p, q);
    assert p * ((v / q) * q + v % q) == p * ((v / q) * q) + p * (v % q);
    assert p * ((v / q) * q) == (v / q) * (p * q);
    Arithmetic.Monotone(v % q + 1, q, p);
    Arithmetic.Commute(v % q + 1, p);
    Arithmetic.Commute(q, p);
    Arithmetic.Distribute(p, v % q);
    Arithmetic.DivisionIs(p * v, p * q, v / q, p * (v % q));
  }

  /** The bits of a value survive exactly when the value fits beside what is waiting. */
  lemma KeptWhenItFits(value: nat, width: nat, offset: nat)
    requires offset <= REGISTER && value < Pow2(width)
    ensures BitsOf(Kept(value, offset), width) == BitsOf(value, width) <==> value < Pow2(REGISTER - offset)
  {
    hide BitsOf, Pow2;
    var kept := Kept(value, offset);
    if value < Pow2(REGISTER - offset) {
      LowKeepsSmall(value, REGISTER - offset);
    } else if BitsOf(kept, width) == BitsOf(value, width) {
      LowIsSmaller(value, REGISTER - offset);
      ValueOfBitsOf(kept, width);
      ValueOfBitsOf(value, width);
    }
  }

  lemma LowIsSmaller(value: nat, n: nat)
    ensures Low(value, n) <= value
  {
    hide Pow2;
    Arithmetic.RemainderIsSmaller(value, Pow2(n));
  }

  /** In particular when offset and width together are at most 32. */
  lemma NarrowFieldsAreKept(value: nat, width: nat, offset: nat)
    requires offset + width <= REGISTER && value < Pow2(width)
    ensures BitsOf(Kept(value, offset), width) == BitsOf(value, width)
  {
    Pow2Grows(width, REGISTER - offset);
    KeptWhenItFits(value, width, offset);
  }

  /** A field of 32 bits behind a single bit loses its top bit. */
  lemma WideFieldIsLost()
    ensures BitsOf(Kept(0x8000_0000, 1), 32) != BitsOf(0x8000_0000, 32)
  {
    hide BitsOf;
    Powers();
    KeptWhenItFits(0x8000_0000, 32, 1);
  }

  lemma Powers()
    ensures Pow2(31) == 0x8000_0000 && Pow2(32) == 0x1_0000_0000
  {
    PowersOfTwo();
    Pow2Adds(8, 8);
    Pow2Adds(16, 8);
    Pow2Adds(24, 7);
  }

  class Encoder {
    const data: array<byte>
    var bitCount: nat
    var index: nat
    var pending: nat
    var overflow: bool

    ghost predicate Valid()
      reads this
    {
      index == bitCount / 8 && bitCount <= 8 * data.Length && pending < Pow2(bitCount % 8)
    }

    ghost function Stream(): (bits: Bits)
      requires Valid()
      reads this, data
      ensures |bits| == bitCount
    {
      DataBits(data[..index]) + BitsOf(pending, bitCount % 8)
    }

    /** `fd_bit_encoder_initialize`. */
    constructor (data: array<byte>)
      ensures Valid() && Stream() == [] && !overflow && this.data == data
    {
      this.data := data;
      bitCount, index, pending, overflow := 0, 0, 0, false;
    }

    /** The loop of `fd_bit_encoder_write`. */
    method Flush(bits: nat)
      requires pending < Pow2(bits) && index + bits / 8 <= data.Length
      modifies this`index, this`pending, data
      ensures index == old(index) + bits / 8 && pending < Pow2(bits % 8)
      ensures DataBits(data[..index]) + BitsOf(pending, bits % 8)
           == old(DataBits(data[..index])) + old(BitsOf(pending, bits))
    {
      hide BitsOf, DataBits, Pow2, And, Shr;
      var bitIndex: nat := bits;
      ghost var whole := DataBits(data[..index]) + BitsOf(pending, bits);
      while bitIndex >= 8
        invariant bitIndex % 8 == bits % 8 && bitIndex <= bits && index == old(index) + (bits - bitIndex) / 8
        invariant pending < Pow2(bitIndex) && index <= data.Length
        invariant DataBits(data[..index]) + BitsOf(pending, bitIndex) == whole
      {
        ByteOff(pending, bitIndex);
        DataBitsGrow(data[..index], pending % 256);
        data[index] := pending % 256;
        assert data[..index + 1] == data[..index] + [pending % 256];
        index := index + 1;
        pending := Shr(pending, 8);
        bitIndex := bitIndex - 8;
      }
    }

    /**
     `fd_bit_encoder_write`, for a value of the given width, which is what its assertion asks for. When the buffer is too
     short nothing is written; otherwise the field is written with what the register keeps of the value.
    */
    method Write(value: nat, width: nat)
      requires Valid() && 0 < width <= 32 && value < Pow2(width)
      modifies this, data
      ensures Valid() && overflow == (old(overflow) || old(bitCount) + width > 8 * data.Length)
      ensures Stream() == if old(bitCount) + width > 8 * data.Length then old(Stream())
                          else old(Stream()) + BitsOf(Kept(value, old(bitCount) % 8), width)
    {
      hide BitsOf, DataBits, Or, Shl, Low, Kept, Pow2;
      if bitCount + width > 8 * data.Length {
        overflow := true;
        return;
      }
      var bitIndex := bitCount % 8;
      ghost var kept, d, p := Kept(value, bitIndex), DataBits(data[..index]), pending;
      MovedUp(value, bitIndex);
      KeptIsSmaller(value, width, bitIndex);
      OrAdds(pending, bitIndex, kept);
      BitsOfParts(pending, bitIndex, kept, width);
      FitsTogether(pending, bitIndex, kept, width);
      pending := Or(pending, Low(Shl(value, bitIndex), REGISTER));
      assert (d + BitsOf(p, bitIndex)) + BitsOf(kept, width) == d + BitsOf(pending, bitIndex + width);
      Carry(bitCount, width);
      WholeBytesFit(bitCount, width, data.Length);
      Flush(bitIndex + width);
      bitCount := bitCount + width;
    }

    /** `fd_bit_encoder_finalize`. */
    method Finalize()
      requires Valid()
      modifies this`index, data
      ensures index == (bitCount + 7) / 8 <= data.Length && DataBits(data[..index])[..bitCount] == old(Stream())
    {
      hide BitsOf, DataBits;
      var bitIndex := bitCount % 8;
      if bitIndex > 0 {
        Pow2Below(bitIndex);
        DataBitsGrow(data[..index], pending);
        BitsPrefix(pending, 8, bitIndex);
        data[index] := pending;
        assert data[..index + 1] == data[..index] + [pending];
        index := index + 1;
      } else {
        assert BitsOf(pending, 0) == [];
      }
    }
  }

  lemma KeptIsSmaller(value: nat, width: nat, offset: nat)
    requires offset <= REGISTER && value < Pow2(width)
    ensures Kept(value, offset) < Pow2(width)
  {
    LowIsSmaller(value, REGISTER - offset);
  }

  lemma WholeBytesFit(count: nat, width: nat, size: nat)
    requires count + width <= 8 * size
    ensures count / 8 + (count % 8 + width) / 8 <= size
  {
  }
}
