/**
 The reliable stream of api/python/rpc.py: a stop-and-wait protocol over datagrams.

 `Stream` is the object the Python code updates in place. Every handler is proved against a function on
 `Endpoint`, the value of such an object, and the protocol is then a transition system of two endpoints and a
 network that may lose, repeat and reorder whatever was sent. A run is one session: it starts with both ends
 connected and stops at the first disconnect.
*/
module ReliableStream {
  import opened Bytes

  type Payload = seq<byte>
  type Packet = seq<byte>

  /** Bit 31 of a header marks a command; a data packet carries its sequence number there. */
  const COMMAND_FLAG: nat := 0x8000_0000
  const DISCONNECT: nat := 2
  const KEEP_ALIVE: nat := 4
  const ACK: nat := 6
  const NACK: nat := 8

  // ---------------------------------------------------------------- packets

  function DataPacket(number: nat, payload: Payload): Packet
    requires number < TWO_32
  {
    LE32(number) + payload
  }

  function CommandPacket(command: nat, arguments: seq<byte>): Packet
    requires command < COMMAND_FLAG
  {
    LE32(command + COMMAND_FLAG) + arguments
  }

  function AckPacket(number: nat): Packet
    requires number < TWO_32
  {
    CommandPacket(ACK, LE32(number))
  }

  /** What a receiver takes a datagram for. */
  datatype Message =
    | Runt
    | Data(number: nat, payload: Payload)
    | Command(command: nat, arguments: seq<byte>)

  function Classify(p: Packet): Message {
    if |p| < 4 then Runt
    else
      var header := UnLE32(p);
      if header >= COMMAND_FLAG then Command(header - COMMAND_FLAG, p[4..]) else Data(header, p[4..])
  }

  /** A data packet is read back as data exactly when its number leaves the command flag clear. */
  lemma DataIsReadAsData(number: nat, payload: Payload)
    requires number < TWO_32
    ensures Classify(DataPacket(number, payload)) == Data(number, payload) <==> number < COMMAND_FLAG
  {
    LE32RoundTrip(number, payload);
  }

  lemma CommandIsReadAsCommand(command: nat, arguments: seq<byte>)
    requires command < COMMAND_FLAG
    ensures Classify(CommandPacket(command, arguments)) == Command(command, arguments)
  {
    LE32RoundTrip(command + COMMAND_FLAG, arguments);
  }

  lemma AckIsReadAsAck(number: nat)
    requires number < TWO_32
    ensures Classify(AckPacket(number)) == Command(ACK, LE32(number))
    ensures UnLE32(LE32(number)) == number
  {
    CommandIsReadAsCommand(ACK, LE32(number));
    LE32RoundTrip(number, []);
    assert LE32(number) + [] == LE32(number);
  }

  /** What goes over the wire, byte for byte. */
  lemma PacketsByBytes(number: nat, payload: Payload)
    requires number < TWO_32
    ensures UnLE32(DataPacket(number, payload)) == number && DataPacket(number, payload)[4..] == payload
    ensures AckPacket(number) == [6, 0, 0, 0x80] + LE32(number)
    ensures CommandPacket(NACK, LE32(number)) == [8, 0, 0, 0x80] + LE32(number)
    ensures CommandPacket(DISCONNECT, []) == [2, 0, 0, 0x80] && CommandPacket(KEEP_ALIVE, []) == [4, 0, 0, 0x80]
  {
    LE32RoundTrip(number, payload);
    assert LE32(ACK + COMMAND_FLAG) == [6, 0, 0, 0x80] && LE32(NACK + COMMAND_FLAG) == [8, 0, 0, 0x80];
  }

  // ---------------------------------------------------------------- one endpoint

  /**
   One end of a stream with its channel. `acquired` is a payload whose writer has taken the send lock but not
   yet queued it; `last` is the command kept for retransmission. `fault` records a raised exception: releasing a
   lock nobody holds, or unpacking an ack that is too short.
  */
  datatype Endpoint = Endpoint(
    connected: bool,
    receiveNumber: nat,
    sendNumber: nat,
    sendLocked: bool,
    acquired: Option<Payload>,
    queue: seq<Payload>,
    last: Option<Packet>,
    delivered: seq<Payload>,
    fault: bool)

  /** An endpoint and the packets it has just handed to the network. */
  datatype Outcome = Outcome(end: Endpoint, sent: seq<Packet>)

  function Fresh(): Endpoint {
    Endpoint(true, 0, 0, false, None, [], None, [], false)
  }

  function Disconnected(e: Endpoint): Endpoint {
    if e.connected then
      e.(connected := false, sendLocked := false, receiveNumber := 0, sendNumber := 0, last := None)
    else e
  }

  function SendDisconnect(e: Endpoint): Outcome {
    Outcome(Disconnected(e), [CommandPacket(DISCONNECT, [])])
  }

  function ReceivedAck(e: Endpoint, arguments: seq<byte>): Outcome {
    if |arguments| < 4 then Outcome(e.(fault := true), [])
    else
      var number := UnLE32(arguments) % COMMAND_FLAG;
      if number < e.sendNumber then Outcome(e, [])
      else if number == e.sendNumber then
        Outcome(e.(last := None, sendNumber := e.sendNumber + 1, sendLocked := false,
                   fault := e.fault || !e.sendLocked), [])
      else SendDisconnect(e)
  }

  function ReceivedData(e: Endpoint, number: nat, payload: Payload): Outcome
    requires number < COMMAND_FLAG
  {
    if number < e.receiveNumber then Outcome(e, [AckPacket(number)])
    else if number == e.receiveNumber then
      Outcome(e.(receiveNumber := e.receiveNumber + 1, delivered := e.delivered + [payload]), [AckPacket(number)])
    else Outcome(e, [CommandPacket(NACK, LE32(e.sendNumber % TWO_32))])
  }

  /** `receive_message`, except the connection commands: a run of this model is one established session. */
  function Received(e: Endpoint, p: Packet): Outcome {
    match Classify(p)
    case Runt => Outcome(e, [])
    case Data(number, payload) => if e.connected then ReceivedData(e, number, payload) else Outcome(e, [])
    case Command(command, arguments) =>
      if command == DISCONNECT then Outcome(Disconnected(e), [])
      else if command == ACK then ReceivedAck(e, arguments)
      else if command == NACK then SendDisconnect(e)
      else Outcome(e, [])
  }

  /** A writer has taken the send lock for a payload. */
  function Acquired(e: Endpoint, payload: Payload): Endpoint {
    e.(sendLocked := true, acquired := Some(payload))
  }

  /** And has queued it. */
  function Enqueued(e: Endpoint): Endpoint
    requires e.acquired.Some?
  {
    e.(acquired := None, queue := e.queue + [e.acquired.value])
  }

  /** The run loop takes a queued payload and sends it under the current number. */
  function SentQueued(e: Endpoint): Outcome
    requires e.queue != [] && e.sendNumber < TWO_32
  {
    var p := DataPacket(e.sendNumber, e.queue[0]);
    Outcome(e.(last := Some(p), queue := e.queue[1..]), [p])
  }

  /** What the clock tells `check`; the wall clock itself is outside the model. */
  datatype Clock = Clock(resendDue: bool, keepAliveDue: bool, peerSilent: bool)

  function Checked(e: Endpoint, clock: Clock): Outcome {
    if !e.connected then Outcome(e, [])
    else
      var resent := if e.last.Some? && clock.resendDue then [e.last.value] else [];
      var kept := if clock.keepAliveDue then [CommandPacket(KEEP_ALIVE, [])] else [];
      if clock.peerSilent then Outcome(Disconnected(e), resent + kept + [CommandPacket(DISCONNECT, [])])
      else Outcome(e, resent + kept)
  }

  class Stream {
    var connected: bool
    var receiveNumber: nat
    var sendNumber: nat
    var sendLocked: bool
    var acquired: Option<Payload>
    var queue: seq<Payload>
    var last: Option<Packet>
    var delivered: seq<Payload>
    var fault: bool

    function Value(): Endpoint
      reads this
    {
      Endpoint(connected, receiveNumber, sendNumber, sendLocked, acquired, queue, last, delivered, fault)
    }

    constructor ()
      ensures Value() == Fresh()
    {
      connected, receiveNumber, sendNumber, sendLocked := true, 0, 0, false;
      acquired, queue, last, delivered, fault := None, [], None, [], false;
    }

    method Disconnect()
      modifies this
      ensures Value() == Disconnected(old(Value()))
    {
      if !connected {
        return;
      }
      if sendLocked {
        sendLocked := false;
      }
      receiveNumber := 0;
      sendNumber := 0;
      last := None;
      connected := false;
    }

    /** `wait_for_send_ack`: true once the lock is taken, false when the wait times out. */
    method WaitForSendAck(payload: Payload) returns (ok: bool)
      modifies this
      ensures ok <==> !old(sendLocked)
      ensures Value() == if ok then Acquired(old(Value()), payload) else old(Value())
    {
      ok := !sendLocked;
      if ok {
        sendLocked := true;
        acquired := Some(payload);
      }
    }

    /** `send_queue.put`, by the writer that holds the lock. */
    method Enqueue()
      requires acquired.Some?
      modifies this
      ensures Value() == Enqueued(old(Value()))
    {
      queue := queue + [acquired.value];
      acquired := None;
    }

    /** `send_data` of the payload the run loop takes from the queue. */
    method SendData() returns (sent: seq<Packet>)
      requires queue != [] && sendNumber < TWO_32
      modifies this
      ensures Outcome(Value(), sent) == SentQueued(old(Value()))
    {
      var p := DataPacket(sendNumber, queue[0]);
      queue := queue[1..];
      last := Some(p);
      sent := [p];
    }

    method ReceiveAck(arguments: seq<byte>) returns (sent: seq<Packet>)
      modifies this
      ensures Outcome(Value(), sent) == ReceivedAck(old(Value()), arguments)
    {
      sent := [];
      if |arguments| < 4 {
        fault := true;
        return;
      }
      var number := UnLE32(arguments) % COMMAND_FLAG;
      if number < sendNumber {
        return;
      }
      if number == sendNumber {
        last := None;
        sendNumber := sendNumber + 1;
        if !sendLocked {
          fault := true;
        }
        sendLocked := false;
        return;
      }
      sent := [CommandPacket(DISCONNECT, [])];
      Disconnect();
    }

    method ReceiveData(number: nat, payload: Payload) returns (sent: seq<Packet>)
      requires number < COMMAND_FLAG
      modifies this
      ensures Outcome(Value(), sent) == ReceivedData(old(Value()), number, payload)
    {
      if number < receiveNumber {
        sent := [AckPacket(number)];
        return;
      }
      if number == receiveNumber {
        sent := [AckPacket(receiveNumber)];
        delivered := delivered + [payload];
        receiveNumber := receiveNumber + 1;
        return;
      }
      sent := [CommandPacket(NACK, LE32(sendNumber % TWO_32))];
    }

    method ReceiveMessage(p: Packet) returns (sent: seq<Packet>)
      modifies this
      ensures Outcome(Value(), sent) == Received(old(Value()), p)
    {
      sent := [];
      if |p| < 4 {
        return;
      }
      var header := UnLE32(p);
      if header >= COMMAND_FLAG {
        var command := header - COMMAND_FLAG;
        if command == DISCONNECT {
          Disconnect();
        } else if command == ACK {
          sent := ReceiveAck(p[4..]);
        } else if command == NACK {
          sent := [CommandPacket(DISCONNECT, [])];
          Disconnect();
        }
      } else if connected {
        sent := ReceiveData(header, p[4..]);
      }
    }

    /** What is sent again, or to keep alive, or to end the session, and nothing else. */
    method Check(clock: Clock) returns (sent: seq<Packet>)
      modifies this
      ensures Outcome(Value(), sent) == Checked(old(Value()), clock)
      ensures forall p :: p in sent <==>
                old(connected) && (   (clock.resendDue && old(last) == Some(p))
                                   || (clock.keepAliveDue && p == CommandPacket(KEEP_ALIVE, []))
                                   || (clock.peerSilent && p == CommandPacket(DISCONNECT, [])))
      ensures connected <==> old(connected) && !clock.peerSilent
    {
      sent := [];
      if !connected {
        return;
      }
      if last.Some? && clock.resendDue {
        sent := sent + [last.value];
      }
      if clock.keepAliveDue {
        sent := sent + [CommandPacket(KEEP_ALIVE, [])];
      }
      if clock.peerSilent {
        sent := sent + [CommandPacket(DISCONNECT, [])];
        Disconnect();
      }
    }
  }

  // ---------------------------------------------------------------- two endpoints and the network

  /**
   Two ends, the packets on their way to each of them, and every payload a writer took the lock for. A packet on its way
   may be received at any time and any number of times, until the network loses it: it repeats, reorders and loses.
  */
  datatype System = System(
    left: Endpoint, right: Endpoint,
    toRight: set<Packet>, toLeft: set<Packet>,
    leftWritten: seq<Payload>, rightWritten: seq<Payload>)

  const INITIAL := System(Fresh(), Fresh(), {}, {}, [], [])

  function Mirror(s: System): System {
    System(s.right, s.left, s.toLeft, s.toRight, s.rightWritten, s.leftWritten)
  }

  datatype Action =
    | Acquire(payload: Payload)
    | Put
    | SendQueued
    | Receive(packet: Packet)
    | CheckTimers(clock: Clock)
    | Lose(packets: set<Packet>)

  function Elements(s: seq<Packet>): set<Packet> {
    set p | p in s
  }

  /**
   A writer gets through, `send_queue.put` runs, or the run loop makes one turn, at the left end; or the network loses
   packets that it sent.
  */
  predicate LeftStep(s: System, action: Action, s': System) {
    var e := s.left;
    match action
    case Acquire(payload) =>
      && !e.sendLocked
      && s' == s.(left := Acquired(e, payload), leftWritten := s.leftWritten + [payload])
    case Put =>
      && e.acquired.Some?
      && s' == s.(left := Enqueued(e))
    case SendQueued =>
      && e.queue != [] && e.sendNumber < TWO_32
      && var o := SentQueued(e);
      s' == s.(left := o.end, toRight := s.toRight + Elements(o.sent))
    case Receive(p) =>
      && p in s.toLeft
      && var o := Received(e, p);
      s' == s.(left := o.end, toRight := s.toRight + Elements(o.sent))
    case CheckTimers(clock) =>
      var o := Checked(e, clock);
      s' == s.(left := o.end, toRight := s.toRight + Elements(o.sent))
    case Lose(packets) => s' == s.(toRight := s.toRight - packets)
  }

  datatype Side = Left | Right

  /** A step of either end while the session lasts. */
  predicate Step(s: System, side: Side, action: Action, s': System) {
    && s.left.connected && s.right.connected
    && if side == Left then LeftStep(s, action, s') else LeftStep(Mirror(s), action, Mirror(s'))
  }

  ghost predicate Next(s: System, s': System) {
    exists side, action :: Step(s, side, action, s')
  }

  ghost predicate IsRun(run: seq<System>) {
    && |run| > 0
    && run[0] == INITIAL
    && forall i :: 0 < i < |run| ==> Next(run[i - 1], run[i])
  }

  /** Numbers below 2^31 suffice for everything written so far. */
  predicate InRange(s: System) {
    |s.leftWritten| <= COMMAND_FLAG && |s.rightWritten| <= COMMAND_FLAG
  }

  // ---------------------------------------------------------------- what one direction keeps

  function Outstanding(e: Endpoint): nat {
    (if e.acquired.Some? then 1 else 0) + |e.queue| + (if e.last.Some? then 1 else 0)
  }

  /** The sender's numbers, lock, queue and saved command agree with what was written. */
  predicate SenderKeeps(e: Endpoint, written: seq<Payload>) {
    && |written| == e.sendNumber + (if e.sendLocked then 1 else 0)
    && Outstanding(e) == (if e.sendLocked then 1 else 0)
    && (e.acquired.Some? ==> e.acquired.value == written[e.sendNumber])
    && (e.queue != [] ==> e.queue[0] == written[e.sendNumber])
    && (e.last.Some? ==> |written| < TWO_32 && e.last.value == DataPacket(e.sendNumber, written[e.sendNumber]))
  }

  /** The receiver has taken exactly a prefix, and is level with the sender or one ahead. */
  predicate ReceiverKeeps(sender: Endpoint, receiver: Endpoint, written: seq<Payload>) {
    && sender.sendNumber <= receiver.receiveNumber <= sender.sendNumber + 1
    && (receiver.receiveNumber == sender.sendNumber + 1 ==> sender.last.Some?)
    && receiver.receiveNumber <= |written|
    && receiver.delivered == written[..receiver.receiveNumber]
  }

  /** Every packet of the session is a written payload under its own number, an ack, or a keep-alive. */
  predicate PacketKeeps(m: Message, sender: Endpoint, written: seq<Payload>, acked: nat) {
    match m
    case Runt => false
    case Data(number, payload) =>
      && number < |written| && payload == written[number] && number <= sender.sendNumber
      && (number == sender.sendNumber ==> sender.last.Some?)
    case Command(command, arguments) =>
      || command == KEEP_ALIVE
      || (command == ACK && |arguments| == 4 && UnLE32(arguments) < acked)
  }

  /** The left-hand number of acks bounds the acks travelling along with this direction's data. */
  ghost predicate DirectionKeeps(sender: Endpoint, receiver: Endpoint, packets: set<Packet>, written: seq<Payload>) {
    && SenderKeeps(sender, written)
    && ReceiverKeeps(sender, receiver, written)
    && forall p :: p in packets ==> PacketKeeps(Classify(p), sender, written, sender.receiveNumber)
  }

  ghost predicate Keeps(s: System) {
    && s.left.connected && s.right.connected
    && !s.left.fault && !s.right.fault
    && DirectionKeeps(s.left, s.right, s.toRight, s.leftWritten)
    && DirectionKeeps(s.right, s.left, s.toLeft, s.rightWritten)
  }

  /** After the session the deliveries are still prefixes and no exception was raised. */
  predicate EndedWell(s: System) {
    && !s.left.fault && !s.right.fault
    && s.right.delivered <= s.leftWritten
    && s.left.delivered <= s.rightWritten
  }

  lemma KeepsEndsWell(s: System)
    requires Keeps(s)
    ensures EndedWell(s)
  {
  }

  // ---------------------------------------------------------------- every step keeps it

  lemma AcquireKeeps(s: System, payload: Payload, s': System)
    requires Keeps(s) && InRange(s') && LeftStep(s, Acquire(payload), s')
    ensures Keeps(s')
  {
  }

  lemma PutKeeps(s: System, s': System)
    requires Keeps(s) && InRange(s') && LeftStep(s, Put, s')
    ensures Keeps(s')
  {
  }

  lemma SendQueuedKeeps(s: System, s': System)
    requires Keeps(s) && InRange(s') && LeftStep(s, SendQueued, s')
    ensures Keeps(s')
  {
    DataIsReadAsData(s.left.sendNumber, s.left.queue[0]);
  }

  /** Data arriving at the left end: the right end's payloads move on, the left end's packets gain one ack. */
  lemma ReceiveDataKeeps(s: System, p: Packet, s': System)
    requires Keeps(s) && InRange(s') && LeftStep(s, Receive(p), s') && Classify(p).Data?
    ensures Keeps(s')
  {
    var number, payload := Classify(p).number, Classify(p).payload;
    assert PacketKeeps(Classify(p), s.right, s.rightWritten, s.right.receiveNumber);
    AckIsReadAsAck(number);
    var o := ReceivedData(s.left, number, payload);
    assert number <= s.left.receiveNumber && o.sent == [AckPacket(number)];
    assert Elements(o.sent) == {AckPacket(number)};
    assert DirectionKeeps(s'.left, s'.right, s'.toRight, s'.leftWritten) by {
      forall q | q in s'.toRight
        ensures PacketKeeps(Classify(q), s'.left, s'.leftWritten, s'.left.receiveNumber)
      {
        if q in s.toRight {
          assert PacketKeeps(Classify(q), s.left, s.leftWritten, s.left.receiveNumber);
        }
      }
    }
    assert DirectionKeeps(s'.right, s'.left, s'.toLeft, s'.rightWritten);
  }

  /** An ack arriving at the left end either repeats an old one or frees the lock that is held. */
  lemma ReceiveAckKeeps(s: System, p: Packet, s': System)
    requires Keeps(s) && InRange(s') && LeftStep(s, Receive(p), s')
    requires Classify(p).Command? && Classify(p).command == ACK
    ensures Keeps(s')
  {
    assert PacketKeeps(Classify(p), s.right, s.rightWritten, s.right.receiveNumber);
    var number := UnLE32(Classify(p).arguments);
    assert number <= s.left.sendNumber;
    assert Elements([]) == {};
    assert DirectionKeeps(s'.left, s'.right, s'.toRight, s'.leftWritten) by {
      forall q | q in s'.toRight
        ensures PacketKeeps(Classify(q), s'.left, s'.leftWritten, s'.left.receiveNumber)
      {
        assert PacketKeeps(Classify(q), s.left, s.leftWritten, s.left.receiveNumber);
      }
    }
    assert DirectionKeeps(s'.right, s'.left, s'.toLeft, s'.rightWritten);
  }

  lemma ReceiveKeeps(s: System, p: Packet, s': System)
    requires Keeps(s) && InRange(s') && LeftStep(s, Receive(p), s')
    ensures Keeps(s')
  {
    assert PacketKeeps(Classify(p), s.right, s.rightWritten, s.right.receiveNumber);
    if Classify(p).Data? {
      ReceiveDataKeeps(s, p, s');
    } else if Classify(p).command == ACK {
      ReceiveAckKeeps(s, p, s');
    } else {
      assert Elements([]) == {} && s' == s;
    }
  }

  lemma CheckKeeps(s: System, clock: Clock, s': System)
    requires Keeps(s) && InRange(s') && LeftStep(s, CheckTimers(clock), s')
    ensures if clock.peerSilent then EndedWell(s') && !s'.left.connected else Keeps(s')
  {
    if !clock.peerSilent {
      CommandIsReadAsCommand(KEEP_ALIVE, []);
      if s.left.last.Some? {
        DataIsReadAsData(s.left.sendNumber, s.leftWritten[s.left.sendNumber]);
      }
      assert DirectionKeeps(s'.right, s'.left, s'.toLeft, s'.rightWritten);
      hide ReceiverKeeps;
    }
  }

  lemma LoseKeeps(s: System, packets: set<Packet>, s': System)
    requires Keeps(s) && LeftStep(s, Lose(packets), s')
    ensures Keeps(s')
  {
  }

  lemma LeftStepKeeps(s: System, action: Action, s': System)
    requires Keeps(s) && InRange(s') && LeftStep(s, action, s')
    ensures if action.CheckTimers? && action.clock.peerSilent then EndedWell(s') && !s'.left.connected else Keeps(s')
  {
    match action
    case Acquire(payload) => AcquireKeeps(s, payload, s');
    case Put => PutKeeps(s, s');
    case SendQueued => SendQueuedKeeps(s, s');
    case Receive(p) => ReceiveKeeps(s, p, s');
    case CheckTimers(clock) => CheckKeeps(s, clock, s');
    case Lose(packets) => LoseKeeps(s, packets, s');
  }

  /** Only a silent peer ends a session: the nack and the disconnect-on-ack branches are never taken. */
  lemma StepKeeps(s: System, side: Side, action: Action, s': System)
    requires Keeps(s) && InRange(s') && Step(s, side, action, s')
    ensures if action.CheckTimers? && action.clock.peerSilent
            then EndedWell(s') && !(s'.left.connected && s'.right.connected)
            else Keeps(s')
  {
    if side == Left {
      LeftStepKeeps(s, action, s');
    } else {
      LeftStepKeeps(Mirror(s), action, Mirror(s'));
    }
  }

  /** A step never takes back what was written. */
  lemma WrittenGrows(s: System, s': System)
    requires Next(s, s')
    ensures s.leftWritten <= s'.leftWritten && s.rightWritten <= s'.rightWritten
  {
    var side, action :| Step(s, side, action, s');
  }

  /** While the session lasts the invariant holds; deliveries are prefixes of what was written even afterwards. */
  ghost predicate Good(s: System) {
    EndedWell(s) && (s.left.connected && s.right.connected ==> Keeps(s))
  }

  lemma InitialIsGood()
    ensures Good(INITIAL)
  {
  }

  lemma NextIsGood(s: System, s': System)
    requires Good(s) && Next(s, s') && InRange(s')
    ensures Good(s')
  {
    hide Keeps, EndedWell, LeftStep;
    var side, action :| Step(s, side, action, s');
    StepKeeps(s, side, action, s');
    if Keeps(s') {
      KeepsEndsWell(s');
    }
  }

  lemma RangeShrinks(s: System, s': System)
    requires Next(s, s') && InRange(s')
    ensures InRange(s)
  {
    WrittenGrows(s, s');
  }

  /** Every state of every run that stays below 2^31 payloads a side is good. */
  lemma {:induction false} EveryRunKeeps(run: seq<System>, i: nat)
    requires IsRun(run) && i < |run| && InRange(run[i])
    ensures Good(run[i])
  {
    hide Good, Next, InRange;
    if i == 0 {
      InitialIsGood();
    } else {
      assert Next(run[i - 1], run[i]);
      RangeShrinks(run[i - 1], run[i]);
      EveryRunKeeps(run, i - 1);
      NextIsGood(run[i - 1], run[i]);
    }
  }

  // ---------------------------------------------------------------- no run gets stuck

  ghost predicate Leads(path: seq<System>, s: System, s': System) {
    && |path| > 0 && path[0] == s && path[|path| - 1] == s'
    && forall i :: 0 < i < |path| ==> Next(path[i - 1], path[i])
  }

  lemma Extend(path: seq<System>, s: System, s': System, side: Side, action: Action, s'': System)
    requires Leads(path, s, s') && Step(s', side, action, s'')
    ensures Leads(path + [s''], s, s'')
  {
    assert Next(s', s'');
  }

  /** Up to two steps put the outstanding payload on the wire. */
  lemma CanTransmit(s: System) returns (path: seq<System>, s': System)
    requires Keeps(s) && InRange(s) && s.left.sendLocked
    ensures Leads(path, s, s') && Keeps(s') && s'.left.last.Some?
    ensures s'.left.sendLocked && s'.leftWritten == s.leftWritten && InRange(s')
  {
    path, s' := [s], s;
    if s'.left.acquired.Some? {
      var next := s'.(left := Enqueued(s'.left));
      PutKeeps(s', next);
      Extend(path, s, s', Left, Put, next);
      path, s' := path + [next], next;
    }
    if s'.left.queue != [] {
      var o := SentQueued(s'.left);
      var next := s'.(left := o.end, toRight := s'.toRight + Elements(o.sent));
      SendQueuedKeeps(s', next);
      Extend(path, s, s', Left, SendQueued, next);
      path, s' := path + [next], next;
    }
  }

  const RESEND := Clock(true, false, false)

  /** The timer puts the outstanding payload on its way again, whatever the network lost. */
  lemma CanResend(s: System) returns (s': System)
    requires Keeps(s) && InRange(s) && s.left.last.Some?
    ensures Step(s, Left, CheckTimers(RESEND), s') && Keeps(s') && s' == s.(toRight := s'.toRight)
    ensures s.left.last.value in s'.toRight
  {
    var o := Checked(s.left, RESEND);
    assert o.sent == [s.left.last.value] && o.sent[0] in Elements(o.sent);
    s' := s.(left := o.end, toRight := s.toRight + Elements(o.sent));
    CheckKeeps(s, RESEND, s');
  }

  /** The payload arrives, again or for the first time, and is acknowledged. */
  lemma DataArrives(s: System) returns (s': System)
    requires Keeps(s) && InRange(s) && s.left.last.Some? && s.left.last.value in s.toRight
    ensures Step(s, Right, Receive(s.left.last.value), s') && Keeps(s')
    ensures s'.left == s.left && s'.leftWritten == s.leftWritten && s'.right.delivered == s.leftWritten && InRange(s')
    ensures s.left.sendNumber < TWO_32 && AckPacket(s.left.sendNumber) in s'.toLeft
  {
    var number, p := s.left.sendNumber, s.left.last.value;
    DataIsReadAsData(number, s.leftWritten[number]);
    var o := Received(s.right, p);
    assert o.sent == [AckPacket(number)] && o.sent[0] in Elements(o.sent);
    s' := s.(right := o.end, toLeft := s.toLeft + Elements(o.sent));
    assert LeftStep(Mirror(s), Receive(p), Mirror(s'));
    ReceiveKeeps(Mirror(s), p, Mirror(s'));
  }

  /** So does the acknowledgement, and the writer is free. */
  lemma AckArrives(s: System) returns (s': System)
    requires Keeps(s) && InRange(s) && s.left.last.Some? && AckPacket(s.left.sendNumber) in s.toLeft
    ensures Step(s, Left, Receive(AckPacket(s.left.sendNumber)), s') && Keeps(s')
    ensures !s'.left.sendLocked && s'.leftWritten == s.leftWritten && s'.right == s.right
  {
    var p := AckPacket(s.left.sendNumber);
    AckIsReadAsAck(s.left.sendNumber);
    var o := Received(s.left, p);
    s' := s.(left := o.end, toRight := s.toRight + Elements(o.sent));
    ReceiveKeeps(s, p, s');
  }

  /** Once the payload is on its way, it and its acknowledgement can arrive. */
  lemma CanArrive(s: System) returns (path: seq<System>, s': System)
    requires Keeps(s) && InRange(s) && s.left.last.Some? && s.left.last.value in s.toRight
    ensures Leads(path, s, s') && Keeps(s')
    ensures !s'.left.sendLocked && s'.leftWritten == s.leftWritten && s'.right.delivered == s.leftWritten
  {
    hide Keeps, Step, AckPacket;
    path, s' := [s], s;
    var next := DataArrives(s);
    Extend(path, s, s', Right, Receive(s.left.last.value), next);
    path, s' := path + [next], next;
    next := AckArrives(s');
    Extend(path, s, s', Left, Receive(AckPacket(s'.left.sendNumber)), next);
    path, s' := path + [next], next;
  }

  /** At this step the timer at the left end sends the last packet again. */
  ghost predicate ResendsAt(path: seq<System>, i: nat) {
    0 < i < |path| && Step(path[i - 1], Left, CheckTimers(RESEND), path[i])
  }

  lemma Concatenate(a: seq<System>, b: seq<System>, s: System, mid: System, s': System)
    requires Leads(a, s, mid) && Leads(b, mid, s')
    ensures Leads(a + b[1..], s, s')
  {
    var c := a + b[1..];
    forall i | 0 < i < |c| ensures Next(c[i - 1], c[i]) {
      if i >= |a| {
        assert c[i] == b[i - |a| + 1] && c[i - 1] == b[i - |a|];
      }
    }
  }

  /**
   From every state of a session a writer that waits can get through, whatever the network has lost: the protocol has no
   deadlock. The run sends the payload again when the timer is due.
  */
  lemma CanDeliver(s: System) returns (path: seq<System>, i: nat, s': System)
    requires Keeps(s) && InRange(s) && s.left.sendLocked
    ensures Leads(path, s, s') && Keeps(s') && ResendsAt(path, i)
    ensures !s'.left.sendLocked && s'.leftWritten == s.leftWritten
    ensures s'.right.delivered == s.leftWritten
  {
    hide Keeps, Step, LeftStep;
    var mid;
    path, mid := CanTransmit(s);
    var resent := CanResend(mid);
    Extend(path, s, mid, Left, CheckTimers(RESEND), resent);
    i := |path|;
    path := path + [resent];
    var more;
    more, s' := CanArrive(resent);
    assert ResendsAt(path, i);
    Concatenate(path, more, s, resent, s');
    path := path + more[1..];
  }

  /** So it can when both directions are empty. */
  lemma CanDeliverAfterLoss(s: System) returns (path: seq<System>, i: nat, s': System)
    requires Keeps(s) && InRange(s) && s.left.sendLocked
    ensures Leads(path, s.(toRight := {}, toLeft := {}), s') && Keeps(s') && ResendsAt(path, i)
    ensures !s'.left.sendLocked && s'.right.delivered == s.leftWritten
  {
    path, i, s' := CanDeliver(s.(toRight := {}, toLeft := {}));
  }

  /** The outstanding payload has not been received, and no packet on its way carries it. */
  ghost predicate IsLost(s: System) {
    && s.left.last.Some? && s.right.receiveNumber == s.left.sendNumber
    && forall p :: p in s.toRight && Classify(p).Data? ==> Classify(p).number < s.left.sendNumber
  }

  /** It stays lost, and the writer locked out, as long as the session lasts and that timer is not due. */
  lemma LostUntilResent(s: System, side: Side, action: Action, s': System)
    requires Keeps(s) && IsLost(s) && InRange(s') && Step(s, side, action, s')
    requires !(side == Left && action.CheckTimers? && action.clock.resendDue)
    requires s'.left.connected && s'.right.connected
    ensures IsLost(s') && s'.left.sendLocked && s'.right.delivered == s.right.delivered
  {
    if side == Left {
      LeftKeepsLost(s, action, s');
    } else {
      RightKeepsLost(s, action, s');
    }
  }

  lemma LeftKeepsLost(s: System, action: Action, s': System)
    requires Keeps(s) && IsLost(s) && InRange(s') && LeftStep(s, action, s') && s'.left.connected
    requires !(action.CheckTimers? && action.clock.resendDue)
    ensures IsLost(s') && s'.left.sendLocked && s'.right.delivered == s.right.delivered
  {
    if action.Receive? {
      LeftReceiptKeepsLost(s, action.packet, s');
    } else {
      CommandIsReadAsCommand(KEEP_ALIVE, []);
      hide ReceiverKeeps;
    }
  }

  lemma LeftReceiptKeepsLost(s: System, p: Packet, s': System)
    requires Keeps(s) && IsLost(s) && InRange(s') && LeftStep(s, Receive(p), s') && s'.left.connected
    ensures IsLost(s') && s'.left.sendLocked && s'.right.delivered == s.right.delivered
  {
    assert PacketKeeps(Classify(p), s.right, s.rightWritten, s.right.receiveNumber);
    if Classify(p).Data? {
      AckIsReadAsAck(Classify(p).number);
    }
  }

  lemma RightKeepsLost(s: System, action: Action, s': System)
    requires Keeps(s) && IsLost(s) && InRange(s') && LeftStep(Mirror(s), action, Mirror(s')) && s'.right.connected
    ensures IsLost(s') && s'.left.sendLocked && s'.right.delivered == s.right.delivered
  {
    if action.Receive? {
      assert PacketKeeps(Classify(action.packet), s.left, s.leftWritten, s.left.receiveNumber);
    }
  }

  // ---------------------------------------------------------------- outside the session

  /** The lock discipline is a promise of the session only: after a disconnect a late ack frees a free lock. */
  lemma LateAckAfterDisconnect(e: Endpoint)
    requires e.connected
    ensures Received(Disconnected(e), AckPacket(0)).end.fault
  {
    AckIsReadAsAck(0);
  }

  /** `release` meets a free lock exactly when the awaited number is acknowledged and no writer holds the lock. */
  lemma ReleaseFaultsExactly(e: Endpoint, number: nat)
    requires number < COMMAND_FLAG && !e.fault
    ensures Received(e, AckPacket(number)).end.fault <==> number == e.sendNumber && !e.sendLocked
  {
    AckIsReadAsAck(number);
  }

  /** What ends a session: a nack, an acknowledgement of a number not sent yet, and a request to disconnect. */
  lemma RefusalsDisconnect(e: Endpoint, number: nat, arguments: seq<byte>)
    requires e.connected && e.sendNumber < number < COMMAND_FLAG
    ensures Received(e, CommandPacket(NACK, arguments)) == Outcome(Disconnected(e), [CommandPacket(DISCONNECT, [])])
    ensures Received(e, AckPacket(number)) == Outcome(Disconnected(e), [CommandPacket(DISCONNECT, [])])
    ensures Received(e, CommandPacket(DISCONNECT, arguments)) == Outcome(Disconnected(e), [])
  {
    CommandIsReadAsCommand(NACK, arguments);
    CommandIsReadAsCommand(DISCONNECT, arguments);
    AckIsReadAsAck(number);
  }

  /** A disconnected end is as good as a fresh one, but for what has been queued and delivered. */
  lemma DisconnectedIsFresh(e: Endpoint)
    requires e.connected
    ensures Disconnected(e).(connected := true, acquired := None, queue := [], delivered := [], fault := false) == Fresh()
    ensures !Disconnected(e).connected && Disconnected(e).delivered == e.delivered && Disconnected(e).queue == e.queue
  {
  }

  /** A number beyond the next one is a gap: it is refused, and nothing changes. */
  lemma GapIsRefused(e: Endpoint, number: nat, payload: Payload)
    requires e.connected && e.receiveNumber < number < COMMAND_FLAG && e.sendNumber < TWO_32
    ensures Received(e, DataPacket(number, payload)) == Outcome(e, [CommandPacket(NACK, LE32(e.sendNumber))])
  {
    DataIsReadAsData(number, payload);
  }
}
