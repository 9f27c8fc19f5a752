/**
 The delta codec of fd_delta.c for 32-bit fields: differences wrap around, zigzag works on patterns, and the encoder is
 the one of fd_bit.c. It reads back every array whose fields fit the encoder's register where they fall.
*/
module DeltaC {
  import Arithmetic
  import opened Bytes
  import opened Bits
  import opened BitPacker
  import opened BitPackerC
  import opened Delta

  // ---------------------------------------------------------------- 32-bit numbers

  predicate IsInt32(v: int) {
    -TWO_32 / 2 <= v < TWO_32 / 2
  }

  /** What is left of a sum or difference in 32 bits. */
  function Wrap(v: int): (w: int)
    requires -TWO_32 <= v < TWO_32
    ensures IsInt32(w)
  {
    if v >= TWO_32 / 2 then v - TWO_32 else if v < -TWO_32 / 2 then v + TWO_32 else v
  }

  function Pattern(v: int): (p: int)
    requires IsInt32(v)
    ensures 0 <= p < TWO_32
  {
    if v < 0 then TWO_32 + v else v
  }

  function Complement(p: int): (q: int)
    requires 0 <= p < TWO_32
    ensures 0 <= q < TWO_32
  {
    TWO_32 - 1 - p
  }

  /** `fd_delta_zigzag_encode`: the sign is spread over all bits and flips them. */
  function ZigzagWord(v: int): (z: nat)
    requires IsInt32(v)
    ensures z < TWO_32
  {
    if v < 0 then Complement(2 * Pattern(v) % TWO_32) else 2 * Pattern(v) % TWO_32
  }

  /** `fd_delta_zigzag_decode`. */
  function UnzigzagWord(z: nat): (v: int)
    requires z < TWO_32
    ensures IsInt32(v)
  {
    var p := if z % 2 == 1 then Complement(z / 2) else z / 2;
    if p < TWO_32 / 2 then p else p - TWO_32
  }

  /** On 32 bits the shifts and masks are the zigzag of numbers, in both directions. */
  lemma WordsZigzag(v: int, z: nat)
    requires IsInt32(v) && z < TWO_32
    ensures ZigzagWord(v) == Zigzag(v) && UnzigzagWord(z) == Unzigzag(z)
    ensures UnzigzagWord(ZigzagWord(v)) == v
  {
  }

  /** A wrapped difference still leads from one value to the next. */
  lemma DifferenceLeadsBack(previous: int, value: int)
    requires IsInt32(previous) && IsInt32(value)
    ensures Wrap(previous + Wrap(value - previous)) == value
  {
  }

  /** `fd_delta_get_resolution` counts leading zeros; on 32 bits that is the resolution of delta.py. */
  lemma ResolutionOfWord(n: nat)
    requires n < TWO_32
    ensures Resolution(n) <= 32
  {
    PowerOf32();
    ResolutionIsLeast(n, 32);
  }

  lemma PowerOf32()
    ensures Pow2(32) == TWO_32
  {
    Powers();
  }

  // ---------------------------------------------------------------- what is computed

  predicate AreInt32(values: seq<int>) {
    forall i :: 0 <= i < |values| ==> IsInt32(values[i])
  }

  function WordDifferences(previous: int, values: seq<int>): (deltas: seq<nat>)
    requires IsInt32(previous) && AreInt32(values)
    ensures |deltas| == |values| && forall i :: 0 <= i < |deltas| ==> deltas[i] < TWO_32
    decreases |values|
  {
    if values == [] then []
    else [ZigzagWord(Wrap(values[0] - previous))] + WordDifferences(values[0], values[1..])
  }

  function ReadWordDifferences(bits: Bits, previous: int, count: nat, width: nat): Option<(seq<int>, Bits)>
    requires IsInt32(previous)
    decreases count
  {
    if count == 0 then Some(([], bits))
    else match ReadField(bits, width)
      case None => None
      case Some((delta, rest)) =>
        FieldIsWord(bits, width);
        var value := Wrap(previous + UnzigzagWord(delta));
        match ReadWordDifferences(rest, value, count - 1, width)
        case None => None
        case Some((values, more)) => Some(([value] + values, more))
  }

  lemma FieldIsWord(bits: Bits, width: nat)
    requires ReadField(bits, width).Some?
    ensures ReadField(bits, width).value.0 < TWO_32
  {
    PowerOf32();
    Pow2Grows(width, 32);
  }

  /** Every value of a channel as `fd_delta_decode` reads it. */
  function ReadWords(bits: Bits, valueResolution: nat, count: nat, deltaResolution: nat): Option<(seq<int>, Bits)>
    requires count > 0
  {
    match ReadField(bits, valueResolution)
    case None => None
    case Some((first, rest)) =>
      FieldIsWord(bits, valueResolution);
      var value := UnzigzagWord(first);
      if deltaResolution == 0 then Some(([value] + Repeat(value, count - 1), rest))
      else match ReadWordDifferences(rest, value, count - 1, deltaResolution)
        case None => None
        case Some((values, left)) => Some(([value] + values, left))
  }

  /** The bits of a channel, when every field fits its width. */
  function WordBits(values: seq<int>, valueResolution: nat, deltaResolution: nat): Option<Bits>
    requires values != [] && AreInt32(values)
  {
    Then(Field(ZigzagWord(values[0]), valueResolution),
         if deltaResolution == 0 then Some([])
         else DifferenceBits(WordDifferences(values[0], values[1..]), deltaResolution))
  }

  // ---------------------------------------------------------------- round trip

  lemma {:induction false} WordDifferencesRoundTrip(previous: int, values: seq<int>, width: nat, rest: Bits)
    requires IsInt32(previous) && AreInt32(values) && width <= 32
    requires DifferenceBits(WordDifferences(previous, values), width).Some?
    ensures ReadWordDifferences(DifferenceBits(WordDifferences(previous, values), width).value + rest, previous, |values|,
                                width) == Some((values, rest))
    decreases |values|
  {
    hide Field, ReadField, ZigzagWord, UnzigzagWord, Wrap;
    var deltas := WordDifferences(previous, values);
    if values == [] {
      assert [] + rest == rest;
    } else {
      assert deltas[1..] == WordDifferences(values[0], values[1..]);
      var first, more := Field(deltas[0], width).value, DifferenceBits(deltas[1..], width).value;
      assert (first + more) + rest == first + (more + rest);
      FieldRoundTrip(deltas[0], width, more + rest);
      WordsZigzag(Wrap(values[0] - previous), 0);
      DifferenceLeadsBack(previous, values[0]);
      WordDifferencesRoundTrip(values[0], values[1..], width, rest);
      assert values == [values[0]] + values[1..];
    }
  }

  lemma {:induction false} NoWordDifferences(previous: int, values: seq<int>)
    requires IsInt32(previous) && AreInt32(values) && AllFit(WordDifferences(previous, values), 0)
    ensures values == Repeat(previous, |values|)
    decreases |values|
  {
    if values == [] {
    } else {
      var deltas := WordDifferences(previous, values);
      assert deltas[0] == 0;
      WordsZigzag(Wrap(values[0] - previous), 0);
      DifferenceLeadsBack(previous, values[0]);
      assert forall i :: 0 <= i < |values| - 1 ==> WordDifferences(values[0], values[1..])[i] == deltas[i + 1];
      NoWordDifferences(values[0], values[1..]);
    }
  }

  /** Every array of 32-bit values whose fields fit their widths is read back exactly. */
  lemma WordsRoundTrip(values: seq<int>, valueResolution: nat, deltaResolution: nat, rest: Bits)
    requires values != [] && AreInt32(values) && valueResolution <= 32 && deltaResolution <= 32
    requires WordBits(values, valueResolution, deltaResolution).Some?
    requires AllFit(WordDifferences(values[0], values[1..]), deltaResolution)
    ensures ReadWords(WordBits(values, valueResolution, deltaResolution).value + rest, valueResolution, |values|,
                      deltaResolution) == Some((values, rest))
  {
    hide Field, ReadField, DifferenceBits, ReadWordDifferences, ZigzagWord, UnzigzagWord, WordDifferences, AllFit;
    var first := Field(ZigzagWord(values[0]), valueResolution).value;
    var deltas := WordDifferences(values[0], values[1..]);
    var more := if deltaResolution == 0 then [] else DifferenceBits(deltas, deltaResolution).value;
    assert (first + more) + rest == first + (more + rest);
    FieldRoundTrip(ZigzagWord(values[0]), valueResolution, more + rest);
    WordsZigzag(values[0], 0);
    assert values == [values[0]] + values[1..];
    if deltaResolution == 0 {
      NoWordDifferences(values[0], values[1..]);
      assert [] + rest == rest;
    } else {
      WordDifferencesRoundTrip(values[0], values[1..], deltaResolution, rest);
    }
  }

  // ---------------------------------------------------------------- the encoder

  /** Fields of one width from a bit position on stay within the register, each behind the bits that wait for it. */
  predicate StaysNarrow(start: nat, width: nat, count: nat) {
    forall k :: 0 <= k < count ==> Offset(start, width, k) + width <= REGISTER
  }

  function Offset(start: nat, width: nat, k: nat): nat {
    (start + k * width) % 8
  }

  /** Up to 25 bits every field does, wherever it falls. */
  lemma UpTo25BitsStayNarrow(start: nat, width: nat, count: nat)
    requires width <= 25
    ensures StaysNarrow(start, width, count)
  {
  }

  /** `fd_delta_get_delta_resolution`: the least width that all differences fit. */
  method GetWordDeltaResolution(values: seq<int>) returns (resolution: nat)
    requires values != [] && AreInt32(values)
    ensures forall width: nat :: AllFit(WordDifferences(values[0], values[1..]), width) <==> resolution <= width
    ensures resolution <= 32
  {
    hide ZigzagWord, Wrap, Resolution, Pow2;
    ghost var deltas := WordDifferences(values[0], values[1..]);
    resolution := 0;
    var previous := values[0];
    for i := 1 to |values|
      invariant previous == values[i - 1] && WordDifferences(values[i - 1], values[i..]) == deltas[i - 1..]
      invariant resolution == Largest(deltas[..i - 1]) <= 32
    {
      var encoded := ZigzagWord(Wrap(values[i] - previous));
      assert values[i..][0] == values[i] && values[i..][1..] == values[i + 1..];
      assert deltas[i - 1..][0] == encoded && deltas[i - 1..][1..] == deltas[i..];
      assert deltas[..i][..i - 1] == deltas[..i - 1];
      ResolutionOfWord(encoded);
      if Resolution(encoded) > resolution {
        resolution := Resolution(encoded);
      }
      previous := values[i];
    }
    assert deltas[..|deltas|] == deltas;
    forall width: nat ensures AllFit(deltas, width) <==> resolution <= width {
      LargestIsLeast(deltas, width);
    }
  }

  /** A field that fits both its width and the register is written in full, or there is no room for it. */
  method WriteField(encoder: BitPackerC.Encoder, value: nat, width: nat)
    requires encoder.Valid() && 0 < width <= 32 && value < Pow2(width)
    modifies encoder, encoder.data
    ensures encoder.Valid()
    ensures var room := old(encoder.bitCount) + width <= 8 * encoder.data.Length;
            && encoder.overflow == (old(encoder.overflow) || !room)
            && (room && old(encoder.bitCount) % 8 + width <= REGISTER ==>
                  && encoder.bitCount == old(encoder.bitCount) + width
                  && Field(value, width).Some? && encoder.Stream() == old(encoder.Stream()) + Field(value, width).value)
  {
    hide BitsOf, Kept, Pow2, BitPackerC.Encoder.Stream;
    ghost var narrow := encoder.bitCount % 8 + width <= REGISTER;
    if narrow {
      NarrowFieldsAreKept(value, width, encoder.bitCount % 8);
    }
    encoder.Write(value, width);
    assert |encoder.Stream()| == encoder.bitCount;
  }

  /** The bits that a channel takes. */
  function ChannelBits(count: nat, valueResolution: nat, deltaResolution: nat): nat
    requires count > 0
  {
    valueResolution + (count - 1) * deltaResolution
  }

  /** `fd_delta_encode`, for fields that fit their widths and the register: it fails exactly when the buffer is short. */
  method EncodeWords(encoder: BitPackerC.Encoder, values: seq<int>, valueResolution: nat, deltaResolution: nat)
    returns (ok: bool)
    requires encoder.Valid() && values != [] && AreInt32(values)
    requires 0 < valueResolution <= 32 && deltaResolution <= 32
    requires WordBits(values, valueResolution, deltaResolution).Some?
    requires encoder.bitCount % 8 + valueResolution <= REGISTER
    requires StaysNarrow(encoder.bitCount + valueResolution, deltaResolution, |values| - 1)
    modifies encoder, encoder.data
    ensures encoder.Valid() && ok == !encoder.overflow
    ensures var room := old(encoder.bitCount) + ChannelBits(|values|, valueResolution, deltaResolution)
                        <= 8 * encoder.data.Length;
            && encoder.overflow == (old(encoder.overflow) || !room)
            && (room ==> encoder.Stream() == old(encoder.Stream())
                                             + WordBits(values, valueResolution, deltaResolution).value)
  {
    hide ZigzagWord, Wrap, Field, Pow2, BitPackerC.Encoder.Valid, BitPackerC.Encoder.Stream;
    hide WordDifferences, DifferenceBits, Offset;
    ghost var begin, start, failed := encoder.bitCount, encoder.Stream(), encoder.overflow;
    ghost var whole := WordBits(values, valueResolution, deltaResolution);
    ghost var total := ChannelBits(|values|, valueResolution, deltaResolution);
    var previous := values[0];
    FieldFits(ZigzagWord(previous), valueResolution);
    RoomFor(|values| - 1, deltaResolution);
    ghost var lost := begin + valueResolution > 8 * encoder.data.Length;
    WriteField(encoder, ZigzagWord(previous), valueResolution);
    WithinBuffer(encoder);
    ghost var done := Field(ZigzagWord(previous), valueResolution);
    if deltaResolution == 0 {
      ThenNothing(done);
      return !encoder.overflow;
    }
    for i := 1 to |values|
      invariant encoder.Valid() && previous == values[i - 1] && encoder.overflow == (failed || lost)
      invariant done.Some? && whole == Then(done, WordDifferenceBits(values, i, deltaResolution))
      invariant if lost then begin + total > 8 * encoder.data.Length
                else && encoder.Stream() == start + done.value
                     && encoder.bitCount == begin + valueResolution + (i - 1) * deltaResolution
    {
      var encoded := ZigzagWord(Wrap(values[i] - previous));
      ghost var field := Field(encoded, deltaResolution);
      NextWord(values, i, deltaResolution);
      ThenIsAssociative(done, field, WordDifferenceBits(values, i + 1, deltaResolution));
      FieldFits(encoded, deltaResolution);
      StaysNarrowAt(begin + valueResolution, deltaResolution, |values| - 1, i - 1);
      Steps(i, |values|, deltaResolution);
      lost := lost || encoder.bitCount + deltaResolution > 8 * encoder.data.Length;
      WriteField(encoder, encoded, deltaResolution);
      Regroup(start, done.value, field.value);
      done := Then(done, field);
      previous := values[i];
    }
    WithinBuffer(encoder);
    NoMoreWords(values, deltaResolution);
    ThenNothing(done);
    ok := !encoder.overflow;
  }

  /** The bits of the differences from the `i`-th value on. */
  function WordDifferenceBits(values: seq<int>, i: nat, width: nat): Option<Bits>
    requires 1 <= i <= |values| && AreInt32(values)
  {
    DifferenceBits(WordDifferences(values[i - 1], values[i..]), width)
  }

  lemma NextWord(values: seq<int>, i: nat, width: nat)
    requires 1 <= i < |values| && AreInt32(values)
    ensures WordDifferenceBits(values, i, width) ==
            Then(Field(ZigzagWord(Wrap(values[i] - values[i - 1])), width), WordDifferenceBits(values, i + 1, width))
  {
    hide ZigzagWord, Wrap, Field;
    assert values[i..][0] == values[i] && values[i..][1..] == values[i + 1..];
    var rest := WordDifferences(values[i], values[i + 1..]);
    assert WordDifferences(values[i - 1], values[i..])[1..] == rest;
  }

  lemma NoMoreWords(values: seq<int>, width: nat)
    requires values != [] && AreInt32(values)
    ensures WordDifferenceBits(values, |values|, width) == Some([])
  {
  }

  lemma StaysNarrowAt(start: nat, width: nat, count: nat, k: nat)
    requires StaysNarrow(start, width, count) && k < count
    ensures (start + k * width) % 8 + width <= REGISTER
  {
    assert Offset(start, width, k) + width <= REGISTER;
  }

  lemma WithinBuffer(encoder: BitPackerC.Encoder)
    requires encoder.Valid()
    ensures encoder.bitCount <= 8 * encoder.data.Length
  {
  }

  lemma FieldFits(value: nat, width: nat)
    ensures Field(value, width).Some? <==> value < Pow2(width)
  {
  }

  lemma RoomFor(n: nat, width: nat)
    ensures n * width >= 0
  {
  }

  lemma Steps(i: nat, n: nat, width: nat)
    requires 1 <= i < n
    ensures i * width == (i - 1) * width + width && i * width <= (n - 1) * width
  {
    Arithmetic.Monotone(i, n - 1, width);
  }

  // ---------------------------------------------------------------- the decoder

  /** `fd_delta_decode`, on bits that are all there. */
  method DecodeWords(decoder: BitDecoder, valueResolution: nat, count: nat, deltaResolution: nat)
    returns (ok: bool, values: seq<int>)
    requires decoder.Valid() && count > 0
    modifies decoder
    ensures decoder.Valid()
    ensures ok <==> ReadWords(old(decoder.Rest()), valueResolution, count, deltaResolution).Some?
    ensures ok ==> ReadWords(old(decoder.Rest()), valueResolution, count, deltaResolution) == Some((values, decoder.Rest()))
  {
    hide UnzigzagWord, Wrap, BitDecoder.Valid, BitDecoder.Rest, ValueOf, Pow2;
    values := [];
    var first;
    FieldOrNone(decoder.Rest(), valueResolution);
    ok, first := decoder.Read(valueResolution);
    if !ok {
      return;
    }
    var previous := UnzigzagWord(first);
    values := [previous];
    ghost var bits := decoder.Rest();
    ContinueNothing(ReadWordDifferences(bits, previous, count - 1, deltaResolution));
    assert values[1..] == [] && values == [previous] + Repeat(previous, 0);
    for i := 1 to count
      invariant decoder.Valid() && ok && |values| == i && values[0] == UnzigzagWord(first) && IsInt32(previous)
      invariant deltaResolution == 0 ==>
                  decoder.Rest() == bits && previous == UnzigzagWord(first)
                  && values == [previous] + Repeat(previous, i - 1)
      invariant deltaResolution > 0 ==>
                  ReadWordDifferences(bits, UnzigzagWord(first), count - 1, deltaResolution) ==
                  Continue(values[1..], ReadWordDifferences(decoder.Rest(), previous, count - i, deltaResolution))
    {
      if deltaResolution == 0 {
        values := values + [previous];
        assert [previous] + Repeat(previous, i) == [previous] + Repeat(previous, i - 1) + [previous];
      } else {
        FieldOrNone(decoder.Rest(), deltaResolution);
        var delta;
        ok, delta := decoder.Read(deltaResolution);
        if !ok {
          return;
        }
        previous := Wrap(previous + UnzigzagWord(delta));
        ContinueOne(values[1..], previous, ReadWordDifferences(decoder.Rest(), previous, count - i - 1, deltaResolution));
        assert (values + [previous])[1..] == values[1..] + [previous];
        values := values + [previous];
      }
    }
    assert values == [values[0]] + values[1..];
    assert values[1..] + [] == values[1..];
  }

  lemma FieldOrNone(bits: Bits, width: nat)
    ensures ReadField(bits, width).Some? ==> ReadField(bits, width).value.0 < TWO_32
  {
    hide ValueOf;
    if ReadField(bits, width).Some? {
      FieldIsWord(bits, width);
    }
  }

  // ---------------------------------------------------------------- through the bytes

  /**
   Packed into `size` bytes, finalized and unpacked, an array is the same again; it is refused exactly when the bytes
   are too few.
  */
  method PackAndUnpack(size: nat, values: seq<int>, valueResolution: nat, deltaResolution: nat)
    returns (ok: bool, result: seq<int>)
    requires values != [] && AreInt32(values) && 0 < valueResolution <= 32 && deltaResolution <= 32
    requires WordBits(values, valueResolution, deltaResolution).Some?
    requires AllFit(WordDifferences(values[0], values[1..]), deltaResolution)
    requires StaysNarrow(valueResolution, deltaResolution, |values| - 1)
    ensures ok <==> ChannelBits(|values|, valueResolution, deltaResolution) <= 8 * size
    ensures ok ==> result == values
  {
    hide WordBits, ReadWords, AllFit, StaysNarrow;
    result := [];
    var data := new byte[size];
    var encoder := new BitPackerC.Encoder(data);
    ok := EncodeWords(encoder, values, valueResolution, deltaResolution);
    if !ok {
      return;
    }
    ghost var bits := encoder.Stream();
    encoder.Finalize();
    var decoder := new BitDecoder(encoder.data[..encoder.index], encoder.bitCount);
    WordsRoundTrip(values, valueResolution, deltaResolution, []);
    assert bits + [] == bits && [] + bits == bits;
    ok, result := DecodeWords(decoder, valueResolution, |values|, deltaResolution);
  }
}
