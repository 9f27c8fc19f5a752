/** The delta encoding of api/python/delta.py: zigzag, the least width for the differences, and whole datasets. */
module Delta {
  import opened Bytes
  import opened Bits
  import opened BitPacker

  // ---------------------------------------------------------------- zigzag and widths

  /** `zigzag_encode`. */
  function Zigzag(value: int): (n: nat) {
    if value >= 0 then 2 * value else 2 * -value - 1
  }

  /** `zigzag_decode`; the shift of a negative number rounds down. */
  function Unzigzag(n: nat): (value: int) {
    if n % 2 == 1 then -(n as int) / 2 else n / 2
  }

  /** Zigzag numbers the integers 0, -1, 1, -2, 2, ... */
  lemma ZigzagIsABijection(value: int, n: nat)
    ensures Unzigzag(Zigzag(value)) == value && Zigzag(Unzigzag(n)) == n
  {
  }

  /** `bit_length`. */
  function Resolution(n: nat): (r: nat)
    decreases n
  {
    if n == 0 then 0 else 1 + Resolution(n / 2)
  }

  lemma {:induction false} ResolutionIsLeast(n: nat, k: nat)
    ensures n < Pow2(k) <==> Resolution(n) <= k
    decreases n
  {
    if n > 0 && k > 0 {
      ResolutionIsLeast(n / 2, k - 1);
    }
  }

  /** The differences between neighbours, behind a value that comes before. */
  function Differences(previous: int, values: seq<int>): (deltas: seq<nat>)
    ensures |deltas| == |values|
    decreases |values|
  {
    if values == [] then [] else [Zigzag(values[0] - previous)] + Differences(values[0], values[1..])
  }

  function Largest(deltas: seq<nat>): (r: nat)
    decreases |deltas|
  {
    if deltas == [] then 0
    else
      var n := |deltas| - 1;
      var r := Largest(deltas[..n]);
      if Resolution(deltas[n]) > r then Resolution(deltas[n]) else r
  }

  predicate AllFit(deltas: seq<nat>, width: nat) {
    forall i :: 0 <= i < |deltas| ==> deltas[i] < Pow2(width)
  }

  lemma {:induction false} LargestIsLeast(deltas: seq<nat>, width: nat)
    ensures AllFit(deltas, width) <==> Largest(deltas) <= width
    decreases |deltas|
  {
    hide Resolution, Pow2;
    if deltas == [] {
    } else {
      var n := |deltas| - 1;
      LargestIsLeast(deltas[..n], width);
      ResolutionIsLeast(deltas[n], width);
      assert forall i :: 0 <= i < n ==> deltas[..n][i] == deltas[i];
      assert deltas == deltas[..n] + [deltas[n]];
    }
  }

  /** `get_delta_resolution`: the least width that all differences fit. */
  method GetDeltaResolution(values: seq<int>) returns (resolution: nat)
    requires values != []
    ensures resolution == Largest(Differences(values[0], values[1..]))
    ensures forall width: nat :: AllFit(Differences(values[0], values[1..]), width) <==> resolution <= width
  {
    hide Zigzag, Resolution, Pow2;
    ghost var deltas := Differences(values[0], values[1..]);
    resolution := 0;
    var previous := values[0];
    assert deltas[..0] == [];
    for i := 1 to |values|
      invariant previous == values[i - 1]
      invariant Differences(values[i - 1], values[i..]) == deltas[i - 1..]
      invariant resolution == Largest(deltas[..i - 1])
    {
      var value := values[i];
      var encoded := Zigzag(value - previous);
      assert values[i..][0] == value && values[i..][1..] == values[i + 1..];
      assert deltas[i - 1..][0] == encoded && deltas[i - 1..][1..] == deltas[i..];
      assert deltas[..i] == deltas[..i - 1] + [encoded];
      assert deltas[..i][..i - 1] == deltas[..i - 1];
      if Resolution(encoded) > resolution {
        resolution := Resolution(encoded);
      }
      previous := value;
    }
    assert deltas[..|deltas|] == deltas;
    forall width: nat ensures AllFit(deltas, width) <==> resolution <= width {
      LargestIsLeast(deltas, width);
    }
  }

  // ---------------------------------------------------------------- fields

  /** What a write appends. */
  function Field(value: int, width: nat): Option<Bits> {
    if 0 <= value < Pow2(width) then Some(BitsOf(value, width)) else None
  }

  /** One after the other, when nothing raises. */
  function Then(a: Option<Bits>, b: Option<Bits>): Option<Bits> {
    if a.Some? && b.Some? then Some(a.value + b.value) else None
  }

  /** What a read takes off the front. */
  function ReadField(bits: Bits, width: nat): Option<(nat, Bits)> {
    if width <= 32 && width <= |bits| then Some((ValueOf(bits[..width]), bits[width..])) else None
  }

  /** A field reads back as the value written. */
  lemma FieldRoundTrip(value: int, width: nat, rest: Bits)
    requires Field(value, width).Some? && width <= 32
    ensures ReadField(Field(value, width).value + rest, width) == Some((value, rest))
  {
    hide BitsOf, ValueOf, Pow2;
    var bits := BitsOf(value, width);
    assert (bits + rest)[..width] == bits && (bits + rest)[width..] == rest;
    ValueOfBitsOf(value, width);
  }

  lemma ThenIsAssociative(a: Option<Bits>, b: Option<Bits>, c: Option<Bits>)
    ensures Then(Then(a, b), c) == Then(a, Then(b, c))
  {
    if a.Some? && b.Some? && c.Some? {
      assert (a.value + b.value) + c.value == a.value + (b.value + c.value);
    }
  }

  lemma ThenNothing(a: Option<Bits>)
    ensures Then(a, Some([])) == a && Then(Some([]), a) == a
  {
    if a.Some? {
      assert a.value + [] == a.value && [] + a.value == a.value;
    }
  }

  // ---------------------------------------------------------------- one channel

  function DifferenceBits(deltas: seq<nat>, width: nat): Option<Bits>
    decreases |deltas|
  {
    if deltas == [] then Some([]) else Then(Field(deltas[0], width), DifferenceBits(deltas[1..], width))
  }

  /** `Delta.encode`: the first value in full, then the differences, unless there are none. */
  function ValueBits(values: seq<int>, valueResolution: nat, deltaResolution: nat): Option<Bits> {
    if values == [] then None
    else
      Then(Field(Zigzag(values[0]), valueResolution),
           if deltaResolution == 0 then Some([])
           else DifferenceBits(Differences(values[0], values[1..]), deltaResolution))
  }

  function ReadDifferences(bits: Bits, previous: int, count: nat, width: nat): Option<(seq<int>, Bits)>
    decreases count
  {
    if count == 0 then Some(([], bits))
    else match ReadField(bits, width)
      case None => None
      case Some((delta, rest)) =>
        var value := previous + Unzigzag(delta);
        match ReadDifferences(rest, value, count - 1, width)
        case None => None
        case Some((values, more)) => Some(([value] + values, more))
  }

  function Repeat(value: int, count: nat): (values: seq<int>)
    ensures |values| == count && forall i :: 0 <= i < count ==> values[i] == value
  {
    seq(count, _ => value)
  }

  /** `Delta.decode`; it gives one value even when none is asked for. */
  function ReadValues(bits: Bits, valueResolution: nat, count: nat, deltaResolution: nat): Option<(seq<int>, Bits)> {
    match ReadField(bits, valueResolution)
    case None => None
    case Some((first, rest)) =>
      var value, more := Unzigzag(first), if count > 0 then count - 1 else 0;
      if deltaResolution == 0 then Some(([value] + Repeat(value, more), rest))
      else match ReadDifferences(rest, value, more, deltaResolution)
        case None => None
        case Some((values, left)) => Some(([value] + values, left))
  }

  lemma {:induction false} DifferencesRoundTrip(previous: int, values: seq<int>, width: nat, rest: Bits)
    requires width <= 32 && DifferenceBits(Differences(previous, values), width).Some?
    ensures ReadDifferences(DifferenceBits(Differences(previous, values), width).value + rest, previous, |values|, width)
         == Some((values, rest))
    decreases |values|
  {
    hide Field, ReadField, Zigzag, Unzigzag;
    var deltas := Differences(previous, values);
    if values == [] {
      assert [] + rest == rest;
    } else {
      assert deltas[1..] == Differences(values[0], values[1..]);
      var first, more := Field(deltas[0], width).value, DifferenceBits(deltas[1..], width).value;
      assert (first + more) + rest == first + (more + rest);
      FieldRoundTrip(deltas[0], width, more + rest);
      ZigzagIsABijection(values[0] - previous, 0);
      DifferencesRoundTrip(values[0], values[1..], width, rest);
      assert values == [values[0]] + values[1..];
    }
  }

  /** Without differences all values are the first. */
  lemma {:induction false} NoDifferences(previous: int, values: seq<int>)
    requires AllFit(Differences(previous, values), 0)
    ensures values == Repeat(previous, |values|)
    decreases |values|
  {
    if values == [] {
    } else {
      var deltas := Differences(previous, values);
      assert deltas[0] == 0;
      assert forall i :: 0 <= i < |values| - 1 ==> Differences(values[0], values[1..])[i] == deltas[i + 1];
      NoDifferences(values[0], values[1..]);
    }
  }

  /** A channel reads back exactly, at its own resolution. */
  lemma ValuesRoundTrip(values: seq<int>, valueResolution: nat, deltaResolution: nat, rest: Bits)
    requires valueResolution <= 32 && deltaResolution <= 32
    requires ValueBits(values, valueResolution, deltaResolution).Some?
    requires AllFit(Differences(values[0], values[1..]), deltaResolution)
    ensures ReadValues(ValueBits(values, valueResolution, deltaResolution).value + rest, valueResolution, |values|,
                       deltaResolution) == Some((values, rest))
  {
    hide Field, ReadField, DifferenceBits, ReadDifferences, Zigzag, Unzigzag, Differences, AllFit;
    var first := Field(Zigzag(values[0]), valueResolution).value;
    var deltas := Differences(values[0], values[1..]);
    var more := if deltaResolution == 0 then [] else DifferenceBits(deltas, deltaResolution).value;
    assert (first + more) + rest == first + (more + rest);
    FieldRoundTrip(Zigzag(values[0]), valueResolution, more + rest);
    ZigzagIsABijection(values[0], 0);
    assert values == [values[0]] + values[1..];
    if deltaResolution == 0 {
      NoDifferences(values[0], values[1..]);
      assert [] + rest == rest;
    } else {
      DifferencesRoundTrip(values[0], values[1..], deltaResolution, rest);
    }
  }

  /** `Delta.encode`. */
  method EncodeValues(encoder: BitEncoder, values: seq<int>, valueResolution: nat, deltaResolution: nat) returns (ok: bool)
    requires encoder.Valid()
    modifies encoder
    ensures encoder.Valid()
    ensures ok <==> ValueBits(values, valueResolution, deltaResolution).Some?
    ensures ok ==> encoder.Stream() == old(encoder.Stream()) + ValueBits(values, valueResolution, deltaResolution).value
  {
    hide Zigzag, BitEncoder.Valid, BitEncoder.Stream, BitsOf;
    if values == [] {
      return false;
    }
    ghost var start, whole := encoder.Stream(), ValueBits(values, valueResolution, deltaResolution);
    var previous := values[0];
    ok := encoder.Write(Zigzag(previous), valueResolution);
    if !ok {
      return;
    }
    ghost var done := BitsOf(Zigzag(previous), valueResolution);
    if deltaResolution == 0 {
      assert done + [] == done;
      return;
    }
    for i := 1 to |values|
      invariant encoder.Valid() && previous == values[i - 1] && encoder.Stream() == start + done
      invariant whole == Then(Some(done), DifferenceBits(Differences(values[i - 1], values[i..]), deltaResolution))
    {
      var value := values[i];
      var delta := Zigzag(value - previous);
      assert values[i..][0] == value && values[i..][1..] == values[i + 1..];
      ghost var deltas := Differences(previous, values[i..]);
      assert deltas[0] == delta && deltas[1..] == Differences(value, values[i + 1..]);
      ThenIsAssociative(Some(done), Field(delta, deltaResolution), DifferenceBits(deltas[1..], deltaResolution));
      ok := encoder.Write(delta, deltaResolution);
      if !ok {
        return;
      }
      assert start + done + BitsOf(delta, deltaResolution) == start + (done + BitsOf(delta, deltaResolution));
      done := done + BitsOf(delta, deltaResolution);
      previous := value;
    }
    ThenNothing(Some(done));
  }

  /** `Delta.decode`. */
  method DecodeValues(decoder: BitDecoder, valueResolution: nat, count: nat, deltaResolution: nat)
    returns (ok: bool, values: seq<int>)
    requires decoder.Valid()
    modifies decoder
    ensures decoder.Valid()
    ensures ok <==> ReadValues(old(decoder.Rest()), valueResolution, count, deltaResolution).Some?
    ensures ok ==> ReadValues(old(decoder.Rest()), valueResolution, count, deltaResolution) == Some((values, decoder.Rest()))
  {
    hide Unzigzag, BitDecoder.Valid, BitDecoder.Rest, ValueOf;
    values := [];
    var first;
    ok, first := decoder.Read(valueResolution);
    if !ok {
      return;
    }
    var previous := Unzigzag(first);
    values := [previous];
    ghost var bits, more := decoder.Rest(), if count > 0 then count - 1 else 0;
    ContinueNothing(ReadDifferences(bits, previous, more, deltaResolution));
    assert values[1..] == [] && values == [previous] + Repeat(previous, 0);
    var i := 1;
    while i < count
      invariant 1 <= i && (i <= count || i == 1) && decoder.Valid() && ok
      invariant |values| == i && values[0] == Unzigzag(first)
      invariant deltaResolution == 0 ==>
                  decoder.Rest() == bits && previous == Unzigzag(first) && values == [previous] + Repeat(previous, i - 1)
      invariant deltaResolution > 0 ==>
                  ReadDifferences(bits, Unzigzag(first), more, deltaResolution) ==
                  Continue(values[1..], ReadDifferences(decoder.Rest(), previous, more - (i - 1), deltaResolution))
    {
      if deltaResolution == 0 {
        values := values + [previous];
        assert [previous] + Repeat(previous, i) == [previous] + Repeat(previous, i - 1) + [previous];
      } else {
        ghost var rest := decoder.Rest();
        var delta;
        ok, delta := decoder.Read(deltaResolution);
        if !ok {
          return;
        }
        previous := previous + Unzigzag(delta);
        ContinueOne(values[1..], previous, ReadDifferences(decoder.Rest(), previous, more - i, deltaResolution));
        assert (values + [previous])[1..] == values[1..] + [previous];
        values := values + [previous];
      }
      i := i + 1;
    }
    assert deltaResolution > 0 ==> values == [values[0]] + values[1..];
    assert values[1..] + [] == values[1..];
  }

  /** A result with values in front. */
  function Continue<T>(values: seq<T>, result: Option<(seq<T>, Bits)>): Option<(seq<T>, Bits)> {
    match result
    case None => None
    case Some((more, rest)) => Some((values + more, rest))
  }

  lemma ContinueNothing<T>(result: Option<(seq<T>, Bits)>)
    ensures Continue([], result) == result
  {
    if result.Some? {
      assert [] + result.value.0 == result.value.0;
    }
  }

  lemma ContinueOne<T>(values: seq<T>, value: T, result: Option<(seq<T>, Bits)>)
    ensures Continue(values, Continue([value], result)) == Continue(values + [value], result)
  {
    if result.Some? {
      assert values + ([value] + result.value.0) == (values + [value]) + result.value.0;
    }
  }
}
