/**
 The gateway of fd_gateway.c: bytes come in, frames end at zeros, and each frame is processed here or sent on. What the
 gateway does with a stream is a function folded over its bytes.
*/
module Gateway {
  import opened Bytes
  import opened Binary
  import Cobs
  import opened Envelope

  /** A payload with its envelope. */
  datatype Item = Item(payload: seq<byte>, envelope: Envelope)

  /** The gateway's own target, the targets it has endpoints for, and what handlers and endpoints answer. */
  datatype Config = Config(size: nat, target: byte, endpoints: set<byte>, handles: Item -> bool,
                           accepts: (byte, seq<byte>) -> bool)

  datatype Transmission = Transmission(target: byte, bytes: seq<byte>)

  /** The frame so far and whether it overflowed, what was handed on so far, and how many assertions failed. */
  datatype Traffic = Traffic(pending: seq<byte>, overflow: bool, processed: seq<Item>, sent: seq<Transmission>,
                             failures: nat)

  // ---------------------------------------------------------------- what is computed

  function Failure(failed: bool): nat {
    if failed then 1 else 0
  }

  /** `fd_gateway_transmit`: each false result also fails the assertion of the caller. */
  function Transmit(config: Config, t: Traffic, item: Item): Traffic {
    var frame := Frame(item.payload, item.envelope) + [0];
    if t.overflow || |frame| > config.size then t.(failures := t.failures + 2)
    else if item.envelope.target !in config.endpoints then t.(failures := t.failures + 1)
    else
      t.(sent := t.sent + [Transmission(item.envelope.target, frame)],
         failures := t.failures + Failure(!config.accepts(item.envelope.target, frame)))
  }

  /** `fd_gateway_process` on the pending frame. */
  function Process(config: Config, t: Traffic): Traffic {
    match Open(Cobs.Decode(t.pending))
    case None => t.(failures := t.failures + 1)
    case Some((payload, envelope)) =>
      var item := Item(payload, envelope);
      if envelope.target == config.target then
        t.(processed := t.processed + [item], failures := t.failures + Failure(!config.handles(item)))
      else Transmit(config, t, item)
  }

  /** `fd_gateway_message_rx` on one byte. */
  function Receive(config: Config, t: Traffic, b: byte): Traffic {
    if b != 0 then
      if |t.pending| < config.size then t.(pending := t.pending + [b]) else t.(overflow := true)
    else if t.pending == [] then t
    else
      Process(config, t.(failures := t.failures + Failure(t.overflow))).(pending := [], overflow := false)
  }

  function ReceiveAll(config: Config, t: Traffic, bytes: seq<byte>): Traffic
    decreases |bytes|
  {
    if bytes == [] then t else ReceiveAll(config, Receive(config, t, bytes[0]), bytes[1..])
  }

  // ---------------------------------------------------------------- streams of frames

  /** Frames, each followed by a zero. */
  function Stream(items: seq<Item>): (bytes: seq<byte>)
    decreases |items|
  {
    if items == [] then [] else Frame(items[0].payload, items[0].envelope) + [0] + Stream(items[1..])
  }

  /** Cutting a stream into receive calls makes no difference. */
  lemma {:induction false} ReceiveSplits(config: Config, t: Traffic, a: seq<byte>, b: seq<byte>)
    ensures ReceiveAll(config, t, a + b) == ReceiveAll(config, ReceiveAll(config, t, a), b)
    decreases |a|
  {
    hide Receive;
    if a == [] {
      assert a + b == b;
    } else {
      assert (a + b)[0] == a[0] && (a + b)[1..] == a[1..] + b;
      ReceiveSplits(config, Receive(config, t, a[0]), a[1..], b);
    }
  }

  /** Bytes other than zero collect, as long as they fit. */
  lemma {:induction false} Collects(config: Config, t: Traffic, bytes: seq<byte>)
    requires Cobs.HasNoZero(bytes) && |t.pending| + |bytes| <= config.size
    ensures ReceiveAll(config, t, bytes) == t.(pending := t.pending + bytes)
    decreases |bytes|
  {
    if bytes == [] {
      assert t.pending + bytes == t.pending;
    } else {
      Collects(config, t.(pending := t.pending + [bytes[0]]), bytes[1..]);
      assert t.pending + [bytes[0]] + bytes[1..] == t.pending + bytes;
    }
  }

  /** The gateway can do something with an item: it is handled here, or its frame fits and its endpoint accepts it. */
  predicate CanDeliver(config: Config, item: Item) {
    var frame := Frame(item.payload, item.envelope);
    if item.envelope.target == config.target then |frame| <= config.size && config.handles(item)
    else
      && |frame| < config.size && item.envelope.target in config.endpoints
      && config.accepts(item.envelope.target, frame + [0])
  }

  function Here(config: Config, items: seq<Item>): (here: seq<Item>)
    decreases |items|
  {
    if items == [] then []
    else (if items[0].envelope.target == config.target then [items[0]] else []) + Here(config, items[1..])
  }

  function Elsewhere(config: Config, items: seq<Item>): (away: seq<Transmission>)
    decreases |items|
  {
    if items == [] then []
    else
      (if items[0].envelope.target == config.target then []
       else [Transmission(items[0].envelope.target, Frame(items[0].payload, items[0].envelope) + [0])])
      + Elsewhere(config, items[1..])
  }

  /** Between frames. */
  predicate IsIdle(t: Traffic) {
    t.pending == [] && !t.overflow
  }

  lemma OneFrame(config: Config, t: Traffic, item: Item)
    requires IsIdle(t) && CanDeliver(config, item)
    ensures ReceiveAll(config, t, Frame(item.payload, item.envelope) + [0]) ==
            if item.envelope.target == config.target then t.(processed := t.processed + [item])
            else
              t.(sent := t.sent + [Transmission(item.envelope.target, Frame(item.payload, item.envelope) + [0])])
  {
    hide Frame, Open, Cobs.Decode;
    var frame := Frame(item.payload, item.envelope);
    FrameRoundTrip(item.payload, item.envelope);
    ReceiveSplits(config, t, frame, [0]);
    Collects(config, t, frame);
    assert [] + frame == frame;
    Single(config, t.(pending := frame), 0);
  }

  lemma Single(config: Config, t: Traffic, b: byte)
    ensures ReceiveAll(config, t, [b]) == Receive(config, t, b)
  {
  }

  /**
   Every item of a stream of frames arrives, in order, and exactly once: those for this gateway are processed, all
   others are sent to their targets byte for byte, and no assertion fails.
  */
  lemma {:induction false} StreamIsDelivered(config: Config, t: Traffic, items: seq<Item>)
    requires IsIdle(t) && forall i :: 0 <= i < |items| ==> CanDeliver(config, items[i])
    ensures ReceiveAll(config, t, Stream(items)) ==
            t.(processed := t.processed + Here(config, items), sent := t.sent + Elsewhere(config, items))
    decreases |items|
  {
    hide Frame, Receive, CanDeliver;
    if items == [] {
      assert t.processed + [] == t.processed && t.sent + [] == t.sent;
    } else {
      var first := Frame(items[0].payload, items[0].envelope) + [0];
      ReceiveSplits(config, t, first, Stream(items[1..]));
      OneFrame(config, t, items[0]);
      var t' := ReceiveAll(config, t, first);
      assert forall i :: 0 <= i < |items| - 1 ==> items[1..][i] == items[i + 1];
      StreamIsDelivered(config, t', items[1..]);
      assert t'.processed + Here(config, items[1..]) == t.processed + Here(config, items);
      assert t'.sent + Elsewhere(config, items[1..]) == t.sent + Elsewhere(config, items);
    }
  }

  /** A frame that just fits the buffer can be handled here but not sent on: its zero no longer fits. */
  lemma FullBufferIsNotForwarded(config: Config, t: Traffic, item: Item)
    requires IsIdle(t) && |Frame(item.payload, item.envelope)| == config.size
    requires item.envelope.target != config.target
    ensures ReceiveAll(config, t, Frame(item.payload, item.envelope) + [0]) == t.(failures := t.failures + 2)
  {
    hide Frame, Open, Cobs.Decode;
    var frame := Frame(item.payload, item.envelope);
    FrameRoundTrip(item.payload, item.envelope);
    ReceiveSplits(config, t, frame, [0]);
    Collects(config, t, frame);
    assert [] + frame == frame;
    Single(config, t.(pending := frame), 0);
  }

  /** Whatever came before, a zero that ends a frame leaves the gateway ready for the next one. */
  lemma ZeroResynchronizes(config: Config, t: Traffic)
    requires t.overflow ==> t.pending != []
    ensures IsIdle(Receive(config, t, 0))
    ensures t.processed <= Receive(config, t, 0).processed && t.sent <= Receive(config, t, 0).sent
  {
  }

  /**
   A frame ends without a failed assertion exactly if it did not overflow, opens, and is handled here or, with room for its
   zero, accepted by the endpoint of its target; and then it has been processed or sent, and only that.
  */
  lemma FailsExactly(config: Config, t: Traffic)
    requires t.pending != []
    ensures var t', message := Receive(config, t, 0), Open(Cobs.Decode(t.pending));
            t'.failures == t.failures <==>
              && !t.overflow && message.Some?
              && var (payload, e) := message.value;
                 var frame := Frame(payload, e) + [0];
                 if e.target == config.target then config.handles(Item(payload, e))
                 else |frame| <= config.size && e.target in config.endpoints && config.accepts(e.target, frame)
    ensures var t', message := Receive(config, t, 0), Open(Cobs.Decode(t.pending));
            t'.failures == t.failures ==>
              var (payload, e) := message.value;
              if e.target == config.target then t'.processed == t.processed + [Item(payload, e)] && t'.sent == t.sent
              else
                t'.sent == t.sent + [Transmission(e.target, Frame(payload, e) + [0])] && t'.processed == t.processed
  {
    hide Frame, Open, Cobs.Decode;
  }

  // ---------------------------------------------------------------- many hops

  /** The bytes that go out, one transmission after the other. */
  function Outgoing(sent: seq<Transmission>): (bytes: seq<byte>)
    decreases |sent|
  {
    if sent == [] then [] else sent[0].bytes + Outgoing(sent[1..])
  }

  const IDLE := Traffic([], false, [], [], 0)

  /** What is left of a stream after it went through gateways one after the other. */
  function Through(hops: seq<Config>, bytes: seq<byte>): (out: seq<byte>)
    decreases |hops|
  {
    if hops == [] then bytes else Through(hops[1..], Outgoing(ReceiveAll(hops[0], IDLE, bytes).sent))
  }

  lemma {:induction false} ElsewhereIsStream(config: Config, items: seq<Item>)
    requires forall i :: 0 <= i < |items| ==> items[i].envelope.target != config.target
    ensures Outgoing(Elsewhere(config, items)) == Stream(items)
    decreases |items|
  {
    hide Frame;
    if items == [] {
    } else {
      assert forall i :: 0 <= i < |items| - 1 ==> items[1..][i] == items[i + 1];
      ElsewhereIsStream(config, items[1..]);
      var first := Transmission(items[0].envelope.target, Frame(items[0].payload, items[0].envelope) + [0]);
      assert Elsewhere(config, items)[1..] == Elsewhere(config, items[1..]);
    }
  }

  /** Any number of forwarding gateways passes a stream on unchanged. */
  lemma {:induction false} HopsAreTransparent(hops: seq<Config>, items: seq<Item>)
    requires forall h, i :: 0 <= h < |hops| && 0 <= i < |items| ==>
               hops[h].target != items[i].envelope.target && CanDeliver(hops[h], items[i])
    ensures Through(hops, Stream(items)) == Stream(items)
    decreases |hops|
  {
    hide Frame, Receive, ReceiveAll, CanDeliver, Stream, Outgoing;
    if hops == [] {
    } else {
      StreamIsDelivered(hops[0], IDLE, items);
      assert [] + Elsewhere(hops[0], items) == Elsewhere(hops[0], items);
      ElsewhereIsStream(hops[0], items);
      assert forall h :: 0 <= h < |hops| - 1 ==> hops[1..][h] == hops[h + 1];
      HopsAreTransparent(hops[1..], items);
    }
  }

  /** End to end: through any gateways to the one they are meant for. */
  lemma ItemsReachTheirTarget(hops: seq<Config>, last: Config, items: seq<Item>)
    requires forall h, i :: 0 <= h < |hops| && 0 <= i < |items| ==>
               hops[h].target != items[i].envelope.target && CanDeliver(hops[h], items[i])
    requires forall i :: 0 <= i < |items| ==>
               items[i].envelope.target == last.target && CanDeliver(last, items[i])
    ensures ReceiveAll(last, IDLE, Through(hops, Stream(items))) == IDLE.(processed := items)
  {
    hide Frame, Receive, ReceiveAll, CanDeliver, Stream, Through;
    HopsAreTransparent(hops, items);
    StreamIsDelivered(last, IDLE, items);
    AllHere(last, items);
  }

  lemma {:induction false} AllHere(config: Config, items: seq<Item>)
    requires forall i :: 0 <= i < |items| ==> items[i].envelope.target == config.target
    ensures Here(config, items) == items && Elsewhere(config, items) == []
    decreases |items|
  {
    if items == [] {
    } else {
      assert forall i :: 0 <= i < |items| - 1 ==> items[1..][i] == items[i + 1];
      AllHere(config, items[1..]);
      assert items == [items[0]] + items[1..];
    }
  }

  // ---------------------------------------------------------------- the gateway

  /**
   A payload that came out of a frame fits where the frame was, trailer and all. Sent on, it makes a frame that is longer
   than the buffer exactly if the frame filled the buffer and ended in a full block.
  */
  lemma PayloadFits(frame: seq<byte>, size: nat)
    requires Cobs.HasNoZero(frame) && |frame| <= size && Open(Cobs.Decode(frame)).Some?
    ensures var (payload, envelope) := Open(Cobs.Decode(frame)).value;
            && |payload| + SIZE <= size && |Frame(payload, envelope)| <= size + 1
            && (|Frame(payload, envelope)| == size + 1 <==> |frame| == size && Cobs.EndsFull(frame))
  {
    hide Cobs.Encode, Cobs.Decode, Cobs.EndsFull, Open;
    SealedOfOpen(Cobs.Decode(frame));
    Cobs.DecodingShrinks(frame, 0xff);
    NothingInside(frame);
    Cobs.ReencodingGrowsExactly(frame);
  }

  lemma NothingInside(frame: seq<byte>)
    requires Open(Cobs.Decode(frame)).Some?
    ensures |Cobs.Decode(frame)| <= |frame| && frame != []
    ensures var (payload, envelope) := Open(Cobs.Decode(frame)).value; |payload| + SIZE == |Cobs.Decode(frame)|
  {
    Cobs.DecodingShrinks(frame, 0xff);
  }

  class Gateway {
    const config: Config
    const message: Buffer
    var processed: seq<Item>
    var sent: seq<Transmission>
    var failures: nat

    ghost predicate Valid()
      reads this, message, message.buffer
    {
      && IsMessage(message) && message.size == config.size && message.putIndex <= config.size
      && Cobs.HasNoZero(message.Contents())
    }

    ghost function State(): Traffic
      requires Valid()
      reads this, message, message.buffer
    {
      Traffic(message.Contents(), message.errors != {}, processed, sent, failures)
    }

    constructor (config: Config)
      requires config.size < Cobs.FULL * (RING - 1)
      ensures Valid() && State() == IDLE && this.config == config && fresh(message) && fresh(message.buffer)
    {
      this.config := config;
      var buffer := new byte[config.size + 1];
      message := new Buffer(buffer, config.size);
      processed, sent, failures := [], [], 0;
    }

    /** `fd_assert`. */
    method Assert(condition: bool)
      modifies this`failures
      ensures failures == old(failures) + Failure(!condition)
    {
      if !condition {
        failures := failures + 1;
      }
    }

    /** `fd_gateway_transmit` of the payload in the buffer. */
    method TransmitMessage(envelope: Envelope) returns (ok: bool)
      requires IsMessage(message) && message.size == config.size && message.putIndex + SIZE <= config.size
      requires |Frame(message.Contents(), envelope)| <= config.size + 1
      modifies this`sent, this`failures, message, message.buffer
      ensures message.Valid()
      ensures var t := Traffic([], old(message.errors != {}), processed, old(sent), old(failures));
              var t' := Transmit(config, t, Item(old(message.Contents()), envelope));
              sent == t'.sent && failures + Failure(!ok) == t'.failures
    {
      hide Frame;
      ghost var item := Item(message.Contents(), envelope);
      ok := EncodeMessage(message, envelope);
      if !ok {
        Assert(false);
        return;
      }
      message.PutByte(0);
      if message.errors != {} {
        Assert(false);
        return false;
      }
      if envelope.target !in config.endpoints {
        return false;
      }
      var bytes := message.buffer[..message.putIndex];
      sent := sent + [Transmission(envelope.target, bytes)];
      ok := config.accepts(envelope.target, bytes);
    }

    /** `fd_gateway_process`. */
    method ProcessMessage() returns (ok: bool)
      requires Valid()
      modifies this, message, message.buffer
      ensures message.Valid()
      ensures var t' := Process(config, old(State()));
              processed == t'.processed && sent == t'.sent && failures + Failure(!ok) == t'.failures
    {
      hide Frame, Open, Cobs.Decode;
      ghost var frame := message.Contents();
      var result := DecodeMessage(message);
      Cobs.DecodingShrinks(frame, 0xff);
      if result == None {
        return false;
      }
      var envelope := result.value;
      PayloadFits(frame, message.size);
      if envelope.target == config.target {
        var item := Item(message.buffer[..message.putIndex], envelope);
        processed := processed + [item];
        return config.handles(item);
      }
      ok := TransmitMessage(envelope);
    }
  
    /** `fd_gateway_message_rx` for one byte. */
    method ReceiveByte(b: byte)
      requires Valid()
      modifies this, message, message.buffer
      ensures Valid() && State() == Receive(config, old(State()), b)
    {
      hide Process;
      if b == 0 {
        if message.putIndex > 0 {
          ghost var t := State();
          Assert(message.errors == {});
          var result := ProcessMessage();
          Assert(result);
          message.Reset();
        }
      } else {
        message.PutByte(b);
      }
    }

    /** `fd_gateway_message_rx`. */
    method MessageRx(data: array<byte>, length: nat)
      requires Valid() && length <= data.Length && data != message.buffer
      modifies this, message, message.buffer
      ensures Valid() && State() == ReceiveAll(config, old(State()), data[..length])
    {
      hide Receive;
      ghost var t, bytes := State(), data[..length];
      assert bytes[..0] == [];
      for i := 0 to length
        invariant Valid() && data[..length] == bytes && State() == ReceiveAll(config, t, bytes[..i])
      {
        ReceiveSplits(config, t, bytes[..i], [data[i]]);
        assert bytes[..i + 1] == bytes[..i] + [data[i]];
        Single(config, ReceiveAll(config, t, bytes[..i]), data[i]);
        ReceiveByte(data[i]);
      }
      assert bytes[..length] == bytes;
    }
  }
}
