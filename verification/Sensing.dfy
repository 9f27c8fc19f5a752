/** Whole datasets as `SensingDeltaEncoding` in api/python/delta.py packs them. */
module Sensing {
  import opened Bytes
  import opened Bits
  import opened BitPacker
  import opened Delta

  /** One sensor's samples: a list of channels, each with as many values. */
  datatype Data = Data(sensor: nat, ordinal: nat, channels: seq<seq<int>>)

  type Dataset = seq<Data>

  datatype Parameters = Parameters(sensorCount: nat, sensor: nat, sampleCount: nat, ordinal: nat, deltaResolution: nat)

  datatype Sensor = Sensor(valueResolution: nat, channelCount: nat)

  // ---------------------------------------------------------------- what is computed

  /** The width that the encoder picks for a channel. */
  function WidthOf(values: seq<int>): (width: nat) {
    if values == [] then 0 else Largest(Differences(values[0], values[1..]))
  }

  function ChannelBits(p: Parameters, s: Sensor, values: seq<int>): Option<Bits> {
    Then(Field(WidthOf(values), p.deltaResolution), ValueBits(values, s.valueResolution, WidthOf(values)))
  }

  function ChannelsBits(p: Parameters, s: Sensor, channels: seq<seq<int>>): Option<Bits>
    decreases |channels|
  {
    if channels == [] then Some([]) else Then(ChannelBits(p, s, channels[0]), ChannelsBits(p, s, channels[1..]))
  }

  /** A sensor without parameters or without a channel raises. */
  function DataBitsOf(p: Parameters, sensors: map<nat, Sensor>, data: Data): Option<Bits> {
    if data.sensor !in sensors || data.channels == [] then None
    else
      Then(Field(data.sensor, p.sensor),
           Then(Field(|data.channels[0]|, p.sampleCount),
                Then(Field(data.ordinal, p.ordinal), ChannelsBits(p, sensors[data.sensor], data.channels))))
  }

  function AllDataBits(p: Parameters, sensors: map<nat, Sensor>, dataset: Dataset): Option<Bits>
    decreases |dataset|
  {
    if dataset == [] then Some([]) else Then(DataBitsOf(p, sensors, dataset[0]), AllDataBits(p, sensors, dataset[1..]))
  }

  function DatasetBits(p: Parameters, sensors: map<nat, Sensor>, dataset: Dataset): Option<Bits> {
    Then(Field(|dataset|, p.sensorCount), AllDataBits(p, sensors, dataset))
  }

  function ReadChannels(p: Parameters, s: Sensor, bits: Bits, samples: nat, count: nat): Option<(seq<seq<int>>, Bits)>
    decreases count
  {
    if count == 0 then Some(([], bits))
    else match ReadField(bits, p.deltaResolution)
      case None => None
      case Some((width, rest)) =>
        match ReadValues(rest, s.valueResolution, samples, width)
        case None => None
        case Some((values, more)) =>
          match ReadChannels(p, s, more, samples, count - 1)
          case None => None
          case Some((channels, left)) => Some(([values] + channels, left))
  }

  function ReadData(p: Parameters, sensors: map<nat, Sensor>, bits: Bits): Option<(Data, Bits)> {
    match ReadField(bits, p.sensor)
    case None => None
    case Some((sensor, a)) =>
      match ReadField(a, p.sampleCount)
      case None => None
      case Some((samples, b)) =>
        if sensor !in sensors then None
        else match ReadField(b, p.ordinal)
          case None => None
          case Some((ordinal, c)) =>
            match ReadChannels(p, sensors[sensor], c, samples, sensors[sensor].channelCount)
            case None => None
            case Some((channels, rest)) => Some((Data(sensor, ordinal, channels), rest))
  }

  function ReadAllData(p: Parameters, sensors: map<nat, Sensor>, bits: Bits, count: nat): Option<(Dataset, Bits)>
    decreases count
  {
    if count == 0 then Some(([], bits))
    else match ReadData(p, sensors, bits)
      case None => None
      case Some((data, rest)) =>
        match ReadAllData(p, sensors, rest, count - 1)
        case None => None
        case Some((dataset, left)) => Some(([data] + dataset, left))
  }

  function ReadDataset(p: Parameters, sensors: map<nat, Sensor>, bits: Bits): Option<(Dataset, Bits)> {
    match ReadField(bits, p.sensorCount)
    case None => None
    case Some((count, rest)) => ReadAllData(p, sensors, rest, count)
  }

  // ---------------------------------------------------------------- round trip

  /** Channels are not empty, equally long, and as many as the parameters say. */
  predicate IsRegular(sensors: map<nat, Sensor>, data: Data) {
    && data.sensor in sensors && data.channels != [] && |data.channels| == sensors[data.sensor].channelCount
    && forall i :: 0 <= i < |data.channels| ==> data.channels[i] != [] && |data.channels[i]| == |data.channels[0]|
  }

  /** No field is wider than the 32 bits that one read can take. */
  predicate IsNarrow(p: Parameters, sensors: map<nat, Sensor>, data: Data) {
    && p.sensorCount <= 32 && p.sensor <= 32 && p.sampleCount <= 32 && p.ordinal <= 32 && p.deltaResolution <= 32
    && data.sensor in sensors && sensors[data.sensor].valueResolution <= 32
    && forall i :: 0 <= i < |data.channels| ==> WidthOf(data.channels[i]) <= 32
  }

  lemma ChannelRoundTrip(p: Parameters, s: Sensor, values: seq<int>, rest: Bits)
    requires p.deltaResolution <= 32 && s.valueResolution <= 32 && WidthOf(values) <= 32 && values != []
    requires ChannelBits(p, s, values).Some?
    ensures ReadField(ChannelBits(p, s, values).value + rest, p.deltaResolution).Some?
    ensures var (width, more) := ReadField(ChannelBits(p, s, values).value + rest, p.deltaResolution).value;
            ReadValues(more, s.valueResolution, |values|, width) == Some((values, rest))
  {
    hide Field, ReadField, ValueBits, ReadValues, Differences, Largest;
    var width := WidthOf(values);
    var first, more := Field(width, p.deltaResolution).value, ValueBits(values, s.valueResolution, width).value;
    assert (first + more) + rest == first + (more + rest);
    FieldRoundTrip(width, p.deltaResolution, more + rest);
    LargestIsLeast(Differences(values[0], values[1..]), width);
    ValuesRoundTrip(values, s.valueResolution, width, rest);
  }

  lemma {:induction false} ChannelsRoundTrip(p: Parameters, s: Sensor, channels: seq<seq<int>>, samples: nat, rest: Bits)
    requires p.deltaResolution <= 32 && s.valueResolution <= 32 && ChannelsBits(p, s, channels).Some?
    requires forall i :: 0 <= i < |channels| ==>
               channels[i] != [] && |channels[i]| == samples && WidthOf(channels[i]) <= 32
    ensures ReadChannels(p, s, ChannelsBits(p, s, channels).value + rest, samples, |channels|) == Some((channels, rest))
    decreases |channels|
  {
    hide ChannelBits, ReadField, ReadValues, WidthOf;
    if channels == [] {
      assert [] + rest == rest;
    } else {
      var first, more := ChannelBits(p, s, channels[0]).value, ChannelsBits(p, s, channels[1..]).value;
      assert (first + more) + rest == first + (more + rest);
      ChannelRoundTrip(p, s, channels[0], more + rest);
      assert forall i :: 0 <= i < |channels| - 1 ==> channels[1..][i] == channels[i + 1];
      ChannelsRoundTrip(p, s, channels[1..], samples, rest);
      assert channels == [channels[0]] + channels[1..];
    }
  }

  lemma DataRoundTrip(p: Parameters, sensors: map<nat, Sensor>, data: Data, rest: Bits)
    requires IsRegular(sensors, data) && IsNarrow(p, sensors, data) && DataBitsOf(p, sensors, data).Some?
    ensures ReadData(p, sensors, DataBitsOf(p, sensors, data).value + rest) == Some((data, rest))
  {
    hide Field, ReadField, ChannelsBits, ReadChannels, WidthOf;
    var s := sensors[data.sensor];
    var a, b, c := Field(data.sensor, p.sensor).value, Field(|data.channels[0]|, p.sampleCount).value,
                   Field(data.ordinal, p.ordinal).value;
    var d := ChannelsBits(p, s, data.channels).value;
    FourParts(a, b, c, d, rest);
    FieldRoundTrip(data.sensor, p.sensor, b + (c + (d + rest)));
    FieldRoundTrip(|data.channels[0]|, p.sampleCount, c + (d + rest));
    FieldRoundTrip(data.ordinal, p.ordinal, d + rest);
    ChannelsRoundTrip(p, s, data.channels, |data.channels[0]|, rest);
  }

  lemma FourParts(a: Bits, b: Bits, c: Bits, d: Bits, rest: Bits)
    ensures (a + (b + (c + d))) + rest == a + (b + (c + (d + rest)))
  {
  }

  lemma {:induction false} AllDataRoundTrip(p: Parameters, sensors: map<nat, Sensor>, dataset: Dataset, rest: Bits)
    requires forall i :: 0 <= i < |dataset| ==> IsRegular(sensors, dataset[i]) && IsNarrow(p, sensors, dataset[i])
    requires AllDataBits(p, sensors, dataset).Some?
    ensures ReadAllData(p, sensors, AllDataBits(p, sensors, dataset).value + rest, |dataset|) == Some((dataset, rest))
    decreases |dataset|
  {
    hide DataBitsOf, ReadData, IsRegular, IsNarrow;
    if dataset == [] {
      assert [] + rest == rest;
    } else {
      var first, more := DataBitsOf(p, sensors, dataset[0]).value, AllDataBits(p, sensors, dataset[1..]).value;
      assert (first + more) + rest == first + (more + rest);
      DataRoundTrip(p, sensors, dataset[0], more + rest);
      assert forall i :: 0 <= i < |dataset| - 1 ==> dataset[1..][i] == dataset[i + 1];
      AllDataRoundTrip(p, sensors, dataset[1..], rest);
      assert dataset == [dataset[0]] + dataset[1..];
    }
  }

  /** Every dataset of regular data that encodes at all is read back exactly, and every bit written is consumed. */
  lemma DatasetRoundTrip(p: Parameters, sensors: map<nat, Sensor>, dataset: Dataset, rest: Bits)
    requires forall i :: 0 <= i < |dataset| ==> IsRegular(sensors, dataset[i]) && IsNarrow(p, sensors, dataset[i])
    requires p.sensorCount <= 32 && DatasetBits(p, sensors, dataset).Some?
    ensures ReadDataset(p, sensors, DatasetBits(p, sensors, dataset).value + rest) == Some((dataset, rest))
  {
    hide Field, ReadField, AllDataBits, ReadAllData, IsRegular, IsNarrow;
    var first, more := Field(|dataset|, p.sensorCount).value, AllDataBits(p, sensors, dataset).value;
    assert (first + more) + rest == first + (more + rest);
    FieldRoundTrip(|dataset|, p.sensorCount, more + rest);
    AllDataRoundTrip(p, sensors, dataset, rest);
  }

  // ---------------------------------------------------------------- the methods

  /** What a step of encoding did: the bits are there, or it raised as the function says. */
  ghost predicate Wrote(before: Bits, after: Bits, ok: bool, bits: Option<Bits>) {
    (ok <==> bits.Some?) && (ok ==> after == before + bits.value)
  }

  lemma WroteThen(a: Bits, b: Bits, c: Bits, first: Option<Bits>, second: Option<Bits>, ok: bool)
    requires Wrote(a, b, true, first) && Wrote(b, c, ok, second)
    ensures Wrote(a, c, ok, Then(first, second))
  {
    if ok {
      assert (a + first.value) + second.value == a + (first.value + second.value);
    }
  }

  method EncodeField(encoder: BitEncoder, value: nat, width: nat) returns (ok: bool)
    requires encoder.Valid()
    modifies encoder
    ensures encoder.Valid() && Wrote(old(encoder.Stream()), encoder.Stream(), ok, Field(value, width))
  {
    ok := encoder.Write(value, width);
  }

  method EncodeChannels(encoder: BitEncoder, p: Parameters, s: Sensor, channels: seq<seq<int>>) returns (ok: bool)
    requires encoder.Valid()
    modifies encoder
    ensures encoder.Valid() && Wrote(old(encoder.Stream()), encoder.Stream(), ok, ChannelsBits(p, s, channels))
  {
    hide BitEncoder.Valid, BitEncoder.Stream, Field, ValueBits;
    ghost var start, whole := encoder.Stream(), ChannelsBits(p, s, channels);
    ghost var done: Option<Bits> := Some([]);
    ThenNothing(whole);
    assert channels[0..] == channels && start + [] == start;
    ok := true;
    for i := 0 to |channels|
      invariant ok && encoder.Valid() && Wrote(start, encoder.Stream(), true, done)
      invariant whole == Then(done, ChannelsBits(p, s, channels[i..]))
    {
      var values := channels[i];
      ghost var before := encoder.Stream();
      assert channels[i..][0] == values && channels[i..][1..] == channels[i + 1..];
      ThenIsAssociative(done, ChannelBits(p, s, values), ChannelsBits(p, s, channels[i + 1..]));
      ok := EncodeChannel(encoder, p, s, values);
      WroteThen(start, before, encoder.Stream(), done, ChannelBits(p, s, values), ok);
      if !ok {
        return;
      }
      done := Then(done, ChannelBits(p, s, values));
    }
    ThenNothing(done);
  }

  method EncodeChannel(encoder: BitEncoder, p: Parameters, s: Sensor, values: seq<int>) returns (ok: bool)
    requires encoder.Valid()
    modifies encoder
    ensures encoder.Valid() && Wrote(old(encoder.Stream()), encoder.Stream(), ok, ChannelBits(p, s, values))
  {
    hide BitEncoder.Valid, BitEncoder.Stream, Field, Differences, Largest;
    if values == [] {
      return false;
    }
    ghost var start := encoder.Stream();
    var width := GetDeltaResolution(values);
    ok := EncodeField(encoder, width, p.deltaResolution);
    if !ok {
      return;
    }
    ghost var middle := encoder.Stream();
    ok := EncodeValues(encoder, values, s.valueResolution, width);
    WroteThen(start, middle, encoder.Stream(), Field(width, p.deltaResolution),
              ValueBits(values, s.valueResolution, width), ok);
  }

  method EncodeData(encoder: BitEncoder, p: Parameters, sensors: map<nat, Sensor>, data: Data) returns (ok: bool)
    requires encoder.Valid()
    modifies encoder
    ensures encoder.Valid() && Wrote(old(encoder.Stream()), encoder.Stream(), ok, DataBitsOf(p, sensors, data))
  {
    hide BitEncoder.Valid, BitEncoder.Stream, Field, ChannelsBits;
    if data.sensor !in sensors || data.channels == [] {
      return false;
    }
    var s := sensors[data.sensor];
    ghost var s0 := encoder.Stream();
    ok := EncodeField(encoder, data.sensor, p.sensor);
    if !ok {
      return;
    }
    ghost var s1 := encoder.Stream();
    ok := EncodeField(encoder, |data.channels[0]|, p.sampleCount);
    if !ok {
      return;
    }
    ghost var s2 := encoder.Stream();
    ok := EncodeField(encoder, data.ordinal, p.ordinal);
    if !ok {
      return;
    }
    ghost var s3 := encoder.Stream();
    ok := EncodeChannels(encoder, p, s, data.channels);
    ghost var s4 := encoder.Stream();
    ghost var c, d := Field(data.ordinal, p.ordinal), ChannelsBits(p, s, data.channels);
    WroteThen(s2, s3, s4, c, d, ok);
    WroteThen(s1, s2, s4, Field(|data.channels[0]|, p.sampleCount), Then(c, d), ok);
    WroteThen(s0, s1, s4, Field(data.sensor, p.sensor), Then(Field(|data.channels[0]|, p.sampleCount), Then(c, d)), ok);
  }

  /** `SensingDeltaEncoding.encode`. */
  method EncodeDataset(encoder: BitEncoder, p: Parameters, sensors: map<nat, Sensor>, dataset: Dataset) returns (ok: bool)
    requires encoder.Valid()
    modifies encoder
    ensures encoder.Valid() && Wrote(old(encoder.Stream()), encoder.Stream(), ok, DatasetBits(p, sensors, dataset))
  {
    hide BitEncoder.Valid, BitEncoder.Stream, Field, DataBitsOf;
    ghost var start, whole := encoder.Stream(), DatasetBits(p, sensors, dataset);
    ok := EncodeField(encoder, |dataset|, p.sensorCount);
    if !ok {
      return;
    }
    ghost var done := Field(|dataset|, p.sensorCount);
    assert dataset[0..] == dataset;
    for i := 0 to |dataset|
      invariant ok && encoder.Valid() && Wrote(start, encoder.Stream(), true, done)
      invariant whole == Then(done, AllDataBits(p, sensors, dataset[i..]))
    {
      var data := dataset[i];
      ghost var before := encoder.Stream();
      assert dataset[i..][0] == data && dataset[i..][1..] == dataset[i + 1..];
      ThenIsAssociative(done, DataBitsOf(p, sensors, data), AllDataBits(p, sensors, dataset[i + 1..]));
      ok := EncodeData(encoder, p, sensors, data);
      WroteThen(start, before, encoder.Stream(), done, DataBitsOf(p, sensors, data), ok);
      if !ok {
        return;
      }
      done := Then(done, DataBitsOf(p, sensors, data));
    }
    ThenNothing(done);
  }

  method DecodeChannels(decoder: BitDecoder, p: Parameters, s: Sensor, samples: nat, count: nat)
    returns (ok: bool, channels: seq<seq<int>>)
    requires decoder.Valid()
    modifies decoder
    ensures decoder.Valid()
    ensures ok <==> ReadChannels(p, s, old(decoder.Rest()), samples, count).Some?
    ensures ok ==> ReadChannels(p, s, old(decoder.Rest()), samples, count) == Some((channels, decoder.Rest()))
  {
    hide BitDecoder.Valid, BitDecoder.Rest, ReadField, ReadValues;
    ghost var bits := decoder.Rest();
    channels, ok := [], true;
    ContinueNothing(ReadChannels(p, s, bits, samples, count));
    for i := 0 to count
      invariant ok && decoder.Valid() && |channels| == i
      invariant ReadChannels(p, s, bits, samples, count) ==
                Continue(channels, ReadChannels(p, s, decoder.Rest(), samples, count - i))
    {
      var width, values;
      ok, width := DecodeField(decoder, p.deltaResolution);
      if !ok {
        return;
      }
      ok, values := DecodeValues(decoder, s.valueResolution, samples, width);
      if !ok {
        return;
      }
      ContinueOne(channels, values, ReadChannels(p, s, decoder.Rest(), samples, count - i - 1));
      channels := channels + [values];
    }
    assert channels + [] == channels;
  }

  method DecodeField(decoder: BitDecoder, width: nat) returns (ok: bool, value: nat)
    requires decoder.Valid()
    modifies decoder
    ensures decoder.Valid()
    ensures ok <==> ReadField(old(decoder.Rest()), width).Some?
    ensures ok ==> ReadField(old(decoder.Rest()), width) == Some((value, decoder.Rest()))
  {
    ok, value := decoder.Read(width);
  }

  method DecodeData(decoder: BitDecoder, p: Parameters, sensors: map<nat, Sensor>) returns (ok: bool, data: Data)
    requires decoder.Valid()
    modifies decoder
    ensures decoder.Valid()
    ensures ok <==> ReadData(p, sensors, old(decoder.Rest())).Some?
    ensures ok ==> ReadData(p, sensors, old(decoder.Rest())) == Some((data, decoder.Rest()))
  {
    hide BitDecoder.Valid, BitDecoder.Rest, ReadField, ReadChannels;
    data := Data(0, 0, []);
    var sensor, samples, ordinal, channels;
    ok, sensor := DecodeField(decoder, p.sensor);
    if !ok {
      return;
    }
    ok, samples := DecodeField(decoder, p.sampleCount);
    if !ok {
      return;
    }
    if sensor !in sensors {
      return false, data;
    }
    ok, ordinal := DecodeField(decoder, p.ordinal);
    if !ok {
      return;
    }
    ok, channels := DecodeChannels(decoder, p, sensors[sensor], samples, sensors[sensor].channelCount);
    data := Data(sensor, ordinal, channels);
  }

  /** `SensingDeltaEncoding.decode`. */
  method DecodeDataset(decoder: BitDecoder, p: Parameters, sensors: map<nat, Sensor>)
    returns (ok: bool, dataset: Dataset)
    requires decoder.Valid()
    modifies decoder
    ensures decoder.Valid()
    ensures ok <==> ReadDataset(p, sensors, old(decoder.Rest())).Some?
    ensures ok ==> ReadDataset(p, sensors, old(decoder.Rest())) == Some((dataset, decoder.Rest()))
  {
    hide BitDecoder.Valid, BitDecoder.Rest, ReadField, ReadData;
    dataset := [];
    var count;
    ok, count := DecodeField(decoder, p.sensorCount);
    if !ok {
      return;
    }
    ghost var bits := decoder.Rest();
    ContinueNothing(ReadAllData(p, sensors, bits, count));
    for i := 0 to count
      invariant ok && decoder.Valid() && |dataset| == i
      invariant ReadAllData(p, sensors, bits, count) ==
                Continue(dataset, ReadAllData(p, sensors, decoder.Rest(), count - i))
    {
      var data;
      ok, data := DecodeData(decoder, p, sensors);
      if !ok {
        return;
      }
      ContinueOne(dataset, data, ReadAllData(p, sensors, decoder.Rest(), count - i - 1));
      dataset := dataset + [data];
    }
    assert dataset + [] == dataset;
  }

  /** Packing a dataset and unpacking the bytes gives it back and leaves no bit over. */
  method PackAndUnpack(p: Parameters, sensors: map<nat, Sensor>, dataset: Dataset) returns (ok: bool, result: Dataset)
    requires forall i :: 0 <= i < |dataset| ==> IsRegular(sensors, dataset[i]) && IsNarrow(p, sensors, dataset[i])
    requires p.sensorCount <= 32
    ensures ok <==> DatasetBits(p, sensors, dataset).Some?
    ensures ok ==> result == dataset
  {
    hide IsRegular, IsNarrow, DatasetBits, ReadDataset;
    result := [];
    var encoder := new BitEncoder();
    ok := EncodeDataset(encoder, p, sensors, dataset);
    if !ok {
      return;
    }
    ghost var bits := encoder.Stream();
    encoder.Finalize();
    var decoder := new BitDecoder(encoder.data, encoder.bitCount);
    DatasetRoundTrip(p, sensors, dataset, []);
    assert bits + [] == bits && [] + bits == bits;
    ok, result := DecodeDataset(decoder, p, sensors);
  }
}
