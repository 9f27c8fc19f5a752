/** The envelope of fd_envelope.c: a ten-byte trailer with length and checksum, byte-stuffed together with its payload. */
module Envelope {
  import opened Bytes
  import opened Binary
  import Crc16
  import Cobs

  datatype Envelope = Envelope(reserved: byte, kind: byte, subsystem: byte, system: byte, source: byte, target: byte)

  const SIZE := 10
  const RING := 32

  // ---------------------------------------------------------------- the format

  function AsBitVectors(s: seq<byte>): (t: seq<bv8>)
    ensures |t| == |s| && forall i :: 0 <= i < |t| ==> t[i] == ToByte(s[i])
  {
    seq(|s|, i requires 0 <= i < |s| => ToByte(s[i]))
  }

  function AsNumber(crc: bv16): (n: nat)
    ensures n < 0x1_0000
  {
    crc as nat
  }

  function Crc(s: seq<byte>): (n: nat)
    ensures n < 0x1_0000
  {
    AsNumber(Crc16.Checksum(AsBitVectors(s)))
  }

  function Header(payload: seq<byte>, envelope: Envelope): (s: seq<byte>)
    ensures |s| == 8
  {
    [envelope.reserved, envelope.kind, envelope.subsystem, envelope.system, envelope.source, envelope.target]
    + LE16(|payload| % 0x1_0000)
  }

  /** A payload with its trailer, before stuffing. */
  function Sealed(payload: seq<byte>, envelope: Envelope): (message: seq<byte>)
    ensures |message| == |payload| + SIZE
  {
    var covered := payload + Header(payload, envelope);
    covered + LE16(Crc(covered))
  }

  /** What goes over a wire, without the zero that ends it. */
  function Frame(payload: seq<byte>, envelope: Envelope): (frame: seq<byte>) {
    Cobs.Encode(Sealed(payload, envelope))
  }

  /** The checks on an unstuffed message. */
  function Open(message: seq<byte>): (result: Option<(seq<byte>, Envelope)>) {
    if |message| < SIZE then None
    else
      var n := |message| - SIZE;
      var t := message[n..];
      if Crc(message[..|message| - 2]) != UnLE16(t[8..10]) then None
      else if n % 0x1_0000 != UnLE16(t[6..8]) then None
      else Some((message[..n], Envelope(t[0], t[1], t[2], t[3], t[4], t[5])))
  }

  // ---------------------------------------------------------------- properties

  /** Opening what was sealed gives it back, for payloads of any length. */
  lemma OpenOfSealed(payload: seq<byte>, envelope: Envelope)
    ensures Open(Sealed(payload, envelope)) == Some((payload, envelope))
  {
    hide Crc, LE16, UnLE16;
    var message, n := Sealed(payload, envelope), |payload|;
    var covered := payload + Header(payload, envelope);
    var t := message[n..];
    assert message[..n] == payload && message[..|message| - 2] == covered;
    assert t == Header(payload, envelope) + LE16(Crc(covered));
    assert t[6..8] == LE16(n % 0x1_0000) && t[8..10] == LE16(Crc(covered));
    LE16RoundTrip(n % 0x1_0000, t[6..8]);
    LE16RoundTrip(Crc(covered), t[8..10]);
  }

  /** Only sealed messages open: what was opened, sealed again, is the message. */
  lemma SealedOfOpen(message: seq<byte>)
    requires Open(message).Some?
    ensures var (payload, envelope) := Open(message).value; Sealed(payload, envelope) == message
  {
    hide Crc, LE16, UnLE16;
    var n := |message| - SIZE;
    var t := message[n..];
    var (payload, envelope) := Open(message).value;
    LE16RoundTrip(0, t[6..8]);
    LE16RoundTrip(0, t[8..10]);
    assert t == t[..6] + t[6..8] + t[8..10];
    assert t[..6] == [t[0], t[1], t[2], t[3], t[4], t[5]];
    assert message[..|message| - 2] == payload + Header(payload, envelope) by {
      assert message == payload + t;
    }
    assert message == message[..|message| - 2] + t[8..10];
  }

  lemma ToByteIsInjective(a: byte, b: byte)
    requires ToByte(a) == ToByte(b)
    ensures a == b
  {
    hide ToByte, ToNat;
    ToByteKeeps(a);
    ToByteKeeps(b);
  }

  function AsCrc(n: nat): bv16
    requires n < 0x1_0000
  {
    n as bv16
  }

  lemma AsNumberKeeps(x: bv16)
    ensures AsCrc(AsNumber(x)) == x
  {
  }

  lemma AsNumberIsInjective(a: bv16, b: bv16)
    requires AsNumber(a) == AsNumber(b)
    ensures a == b
  {
    hide AsNumber, AsCrc;
    AsNumberKeeps(a);
    AsNumberKeeps(b);
  }

  /** Byte strings of one length whose bits differ only inside sixteen consecutive ones. */
  ghost predicate DifferInBurst(a: seq<byte>, b: seq<byte>, i: nat)
    requires |a| == |b|
  {
    forall j :: 0 <= j < 8 * |a| && Crc16.DataBits(AsBitVectors(a))[j] != Crc16.DataBits(AsBitVectors(b))[j] ==>
      i <= j < i + 16
  }

  /** A message damaged inside sixteen consecutive bits that its checksum covers does not open. */
  lemma DamageIsNoticed(payload: seq<byte>, envelope: Envelope, damaged: seq<byte>, i: nat)
    requires |damaged| == |payload| + SIZE && damaged != Sealed(payload, envelope)
    requires damaged[|payload| + 8..] == Sealed(payload, envelope)[|payload| + 8..]
    requires DifferInBurst(Sealed(payload, envelope)[..|payload| + 8], damaged[..|payload| + 8], i)
    ensures Open(damaged) == None
  {
    hide Crc16.Checksum, Crc16.DataBits, ToByte, AsNumber, LE16, UnLE16;
    var message, n := Sealed(payload, envelope), |payload| + 8;
    var a, b := message[..n], damaged[..n];
    assert message == a + message[n..] && damaged == b + damaged[n..];
    if AsBitVectors(a) == AsBitVectors(b) {
      forall k | 0 <= k < n ensures a[k] == b[k] {
        assert AsBitVectors(a)[k] == AsBitVectors(b)[k];
        ToByteIsInjective(a[k], b[k]);
      }
    }
    Crc16.BurstsAreDetected(AsBitVectors(a), AsBitVectors(b), i);
    if Crc(a) == Crc(b) {
      AsNumberIsInjective(Crc16.Checksum(AsBitVectors(a)), Crc16.Checksum(AsBitVectors(b)));
    }
    OpenOfSealed(payload, envelope);
    assert message[|payload|..][8..10] == message[n..] && damaged[|payload|..][8..10] == damaged[n..];
  }

  /** A frame comes back as what it was made of. */
  lemma FrameRoundTrip(payload: seq<byte>, envelope: Envelope)
    ensures Open(Cobs.Decode(Frame(payload, envelope))) == Some((payload, envelope))
    ensures Cobs.HasNoZero(Frame(payload, envelope)) && Frame(payload, envelope) != []
  {
    Cobs.RoundTrip(Sealed(payload, envelope));
    Cobs.EncodingIsFramed(Sealed(payload, envelope));
    OpenOfSealed(payload, envelope);
  }

  // ---------------------------------------------------------------- in a message buffer

  /**
   A message buffer. Its array has one byte more than the size it is used for, since fd_cobs_encode does not look at the
   size; and the size keeps within what the ring of the encoder allows.
  */
  ghost predicate IsMessage(message: Buffer)
    reads message
  {
    message.Valid() && message.buffer.Length == message.size + 1 && message.size < Cobs.FULL * (RING - 1)
  }

  /** `fd_crc16_update` over the first bytes of a buffer. */
  method CrcOf(message: Buffer, length: nat) returns (crc: nat)
    requires length <= message.buffer.Length
    ensures crc == Crc(message.buffer[..length])
  {
    hide Crc16.Checksum, ToByte, AsNumber;
    var buffer := message.buffer;
    var bits := new bv8[length](i requires 0 <= i < length && length <= buffer.Length reads buffer => ToByte(buffer[i]));
    var crc16 := Crc16.Update(bits, length);
    assert bits[..length] == AsBitVectors(buffer[..length]);
    crc := AsNumber(crc16);
  }

  method PutThree(message: Buffer, a: byte, b: byte, c: byte)
    requires message.Valid() && message.putIndex + 3 <= message.size
    modifies message, message.buffer
    ensures message.Valid() && message.errors == old(message.errors) && message.putIndex == old(message.putIndex) + 3
    ensures message.Contents() == old(message.Contents()) + [a, b, c]
  {
    message.PutByte(a);
    message.PutByte(b);
    message.PutByte(c);
  }

  method PutHeader(message: Buffer, envelope: Envelope)
    requires message.Valid() && message.putIndex + SIZE <= message.size
    modifies message, message.buffer
    ensures message.Valid() && message.errors == old(message.errors) && message.putIndex == old(message.putIndex) + 8
    ensures message.Contents() == old(message.Contents()) + Header(old(message.Contents()), envelope)
  {
    hide LE16;
    ghost var payload := message.Contents();
    var length := message.putIndex % 0x1_0000;
    PutThree(message, envelope.reserved, envelope.kind, envelope.subsystem);
    PutThree(message, envelope.system, envelope.source, envelope.target);
    message.PutWord(length);
    assert message.Contents() == payload + Header(payload, envelope);
  }

  /** `fd_envelope_encode`, for a payload that leaves room for the trailer. */
  method EncodeMessage(message: Buffer, envelope: Envelope) returns (ok: bool)
    requires IsMessage(message) && message.putIndex + SIZE <= message.size
    requires |Frame(message.Contents(), envelope)| <= message.size + 1
    modifies message, message.buffer
    ensures message.Valid() && message.Contents() == Frame(old(message.Contents()), envelope)
    ensures message.errors == old(message.errors) && (ok <==> message.errors == {})
  {
    hide Crc, LE16, Cobs.EncodeFrom;
    ghost var payload := message.Contents();
    PutHeader(message, envelope);
    var crc := CrcOf(message, message.putIndex);
    message.PutWord(crc);
    var ring := new byte[RING];
    assert message.Contents() == Sealed(payload, envelope);
    var length := Cobs.EncodeInPlace(message.buffer, message.putIndex, ring);
    message.putIndex := length;
    ok := message.errors == {};
  }

  /** `fd_envelope_decode`: on success the payload stays, on failure whatever was unstuffed. */
  method DecodeMessage(message: Buffer) returns (result: Option<Envelope>)
    requires message.Valid()
    modifies message, message.buffer
    ensures message.Valid() && message.errors == old(message.errors)
    ensures var opening := Open(Cobs.Decode(old(message.Contents())));
            if opening.Some? then result == Some(opening.value.1) && message.Contents() == opening.value.0
            else result == None && message.Contents() == Cobs.Decode(old(message.Contents()))
  {
    hide Crc, UnLE16, Cobs.DecodeFrom;
    var putIndex := Cobs.DecodeInPlace(message.buffer, message.putIndex);
    message.putIndex := putIndex;
    ghost var unstuffed := message.Contents();
    if putIndex < SIZE {
      return None;
    }
    var n := putIndex - SIZE;
    var t := message.buffer[n..putIndex];
    assert t == unstuffed[n..];
    var crc := CrcOf(message, putIndex - 2);
    assert message.buffer[..putIndex - 2] == unstuffed[..putIndex - 2];
    if crc != UnLE16(t[8..10]) || n % 0x1_0000 != UnLE16(t[6..8]) {
      return None;
    }
    message.putIndex := n;
    result := Some(Envelope(t[0], t[1], t[2], t[3], t[4], t[5]));
  }

  /** Where the parts of a message are: the payload, six bytes of the envelope, its length and the checksum of all that. */
  lemma SealedByPlaces(payload: seq<byte>, e: Envelope, t: seq<byte>)
    requires Sealed(payload, e) == payload + t
    ensures |t| == 10 && t[0] == e.reserved && t[1] == e.kind && t[2] == e.subsystem && t[3] == e.system
    ensures t[4] == e.source && t[5] == e.target && t[6] as int + 0x100 * t[7] as int == |payload| % 0x1_0000
    ensures t[8] as int + 0x100 * t[9] as int == Crc(payload + t[..8])
  {
    hide Crc;
    var covered := payload + Header(payload, e);
    assert t == Sealed(payload, e)[|payload|..] == Header(payload, e) + LE16(Crc(covered));
    assert t[..8] == Header(payload, e);
  }
}
