/**
 The split boot loader: fd_boot_split_peripheral.c updates itself from storage that fd_boot_split_controller.c holds at the
 other end of a link. The link is lossless and ordered and hands over whole messages; what the update does with its
 reads is a parameter.
*/
module SplitBoot {
  import opened Bytes

  const UPDATE := 3
  const GET_UPDATE_STORAGE := 5
  const UPDATE_READ := 6

  /** The longest read for which the controller's response buffer is known to do; the boot loader reads at most 76. */
  const READ_LIMIT := 256

  datatype Kind = Request | Response

  datatype Message = Message(kind: Kind, payload: seq<byte>)

  /** What the peripheral is waiting for. */
  datatype Operation = GetUpdateStorage | UpdateRead(location: nat, length: nat)

  /** What the boot loader gets for it; `Refused` is a call that returns false. */
  datatype Answer = Range(location: nat, length: nat) | Data(bytes: seq<byte>) | Refused

  /** The boot loader asks for what its earlier answers tell it to, until it is finished. */
  datatype Move = Ask(operation: Operation) | Finish(outcome: seq<byte>)

  type Client = seq<Answer> -> Move

  // ---------------------------------------------------------------- payloads

  /** A number of `n` bytes taken at an index; too few bytes give zero and leave the index alone. */
  function Take(payload: seq<byte>, index: nat, n: nat): (result: (nat, nat))
    requires n == 1 || n == 2 || n == 4
    ensures result.1 == index || (result.1 == index + n && result.1 <= |payload|)
  {
    if index + n > |payload| then (0, index)
    else if n == 1 then (payload[index], index + 1)
    else if n == 2 then (UnLE16(payload[index..index + 2]), index + 2)
    else (UnLE32(payload[index..index + 4]), index + 4)
  }

  /** `fd_boot_split_peripheral_get_update_storage_request` and `..._update_read_request`; the length is cut to 16 bits. */
  function RequestFor(operation: Operation): (payload: seq<byte>)
    requires operation.UpdateRead? ==> operation.location < TWO_32
  {
    match operation
    case GetUpdateStorage => LE16(GET_UPDATE_STORAGE)
    case UpdateRead(location, length) => LE16(UPDATE_READ) + LE32(location) + LE16(length % 0x1_0000)
  }

  /** `fd_boot_split_controller_request` for storage that starts at address 0; other operations get no answer. */
  function Respond(storage: seq<byte>, payload: seq<byte>): Option<seq<byte>>
    requires |storage| < TWO_32
  {
    var (code, index) := Take(payload, 0, 2);
    if code == GET_UPDATE_STORAGE then Some(LE16(GET_UPDATE_STORAGE) + LE32(0) + LE32(|storage|))
    else if code == UPDATE_READ then
      var (location, index') := Take(payload, index, 4);
      var (length, _) := Take(payload, index', 2);
      if location >= TWO_32 || length >= 0x1_0000 then None
      else
        Some(LE16(UPDATE_READ) + LE32(location) + LE16(length)
             + if location + length <= |storage| then [1] + storage[location..location + length] else [0])
    else None
  }

  /** The checks of `fd_boot_split_peripheral_update_read_response`. */
  predicate Matches(payload: seq<byte>, location: nat, length: nat) {
    var (where, a) := Take(payload, 2, 4);
    var (long, b) := Take(payload, a, 2);
    var (result, c) := Take(payload, b, 1);
    where == location && long == length && result != 0 && c <= |payload| && |payload| - c == length
  }

  /** What a response does: the operation still pending, the answer if there is one now, whether it was dispatched. */
  datatype Handled = Handled(pending: Option<Operation>, answer: Option<Answer>, dispatched: bool)

  /** `fd_boot_split_peripheral_dispatch_response`, unless it answers another kind of operation than the pending one. */
  function Handle(pending: Option<Operation>, payload: seq<byte>): Handled {
    var (code, _) := Take(payload, 0, 2);
    if code == GET_UPDATE_STORAGE then
      if pending == Some(GetUpdateStorage) then
        var (location, index) := Take(payload, 2, 4);
        Handled(None, Some(Range(location, Take(payload, index, 4).0)), true)
      else Handled(pending, None, true)
    else if code == UPDATE_READ then
      match pending
      case Some(UpdateRead(location, length)) =>
        if Matches(payload, location, length) then
          Handled(None, Some(Data(payload[|payload| - length..])), true)
        else Handled(pending, None, true)
      case _ => Handled(pending, None, true)
    else Handled(pending, None, false)
  }

  /** The C code takes the pending operation for one of the kind that the response is for; here they differ. */
  predicate Confuses(pending: Option<Operation>, payload: seq<byte>) {
    var code := Take(payload, 0, 2).0;
    || (code == GET_UPDATE_STORAGE && pending.Some? && pending.value.UpdateRead?)
    || (code == UPDATE_READ && pending == Some(GetUpdateStorage))
  }

  /** `fd_boot_split_peripheral_io_nested` and what its callers return: only an operation that is done has an answer. */
  function AnswerOf(handled: Handled): Answer {
    if handled.dispatched && handled.pending.None? && handled.answer.Some? then handled.answer.value else Refused
  }

  // ---------------------------------------------------------------- what a response means

  /** A response to a read, by its bytes: the code, location and length, a result and exactly so many bytes. */
  predicate IsReadResponse(payload: seq<byte>, location: nat, length: nat) {
    && |payload| == 9 + length
    && UnLE16(payload[0..2]) == 6 && UnLE32(payload[2..6]) == location && UnLE16(payload[6..8]) == length
    && payload[8] != 0
  }

  /** Responses that are too short, but whose missing numbers count as zero. */
  predicate IsShortResponse(payload: seq<byte>, location: nat) {
    && |payload| >= 3 && UnLE16(payload[0..2]) == 6 && payload[|payload| - 1] != 0
    && match |payload| {
         case 3 => location == 0
         case 5 => location == 0 && UnLE16(payload[2..4]) == 0
         case 7 => location == UnLE32(payload[2..6])
         case _ => false
       }
  }

  /**
   A read is answered only by a response for that location and length that brings exactly so many bytes; a read of no
   bytes also by one of the shorter ones.
  */
  lemma ClearedOnlyByItsResponse(location: nat, length: nat, payload: seq<byte>)
    ensures var handled := Handle(Some(UpdateRead(location, length)), payload);
            && (handled.pending.None? <==>
                  IsReadResponse(payload, location, length) || (length == 0 && IsShortResponse(payload, location)))
            && AnswerOf(handled) == if handled.pending.None? then Data(payload[|payload| - length..]) else Refused
  {
    hide UnLE16, UnLE32;
  }

  /** What the boot loader would read if the storage were its own. */
  function LocalAnswer(storage: seq<byte>, operation: Operation): Answer {
    match operation
    case GetUpdateStorage => Range(0, |storage|)
    case UpdateRead(location, length) =>
      if location + length <= |storage| then Data(storage[location..location + length]) else Refused
  }

  /** Operations that the boot loader asks for. */
  predicate IsAskable(operation: Operation) {
    operation.UpdateRead? ==> operation.location + operation.length < TWO_32 && operation.length <= READ_LIMIT
  }

  lemma TakeNumbers(a: seq<byte>, n: nat, m: nat, rest: seq<byte>)
    requires n < TWO_32 && m < 0x1_0000
    ensures Take(a + LE32(n) + rest, |a|, 4) == (n, |a| + 4)
    ensures Take(a + LE16(m) + rest, |a|, 2) == (m, |a| + 2)
  {
    hide LE16, UnLE16, LE32, UnLE32;
    var s, t := a + LE32(n) + rest, a + LE16(m) + rest;
    assert s[|a|..|a| + 4] == LE32(n) && t[|a|..|a| + 2] == LE16(m);
    LE32RoundTrip(n, []);
    assert LE32(n) + [] == LE32(n);
    LE16RoundTrip(m, LE16(m));
  }

  /** Codes are read as they were written. */
  lemma CodeOf(code: nat, rest: seq<byte>)
    requires code < 0x1_0000
    ensures Take(LE16(code) + rest, 0, 2) == (code, 2)
  {
    hide LE16, Take;
    TakeNumbers([], 0, code, rest);
    assert [] + LE16(code) + rest == LE16(code) + rest;
  }

  /** The controller's answer to a read. */
  function ReadResponse(storage: seq<byte>, location: nat, length: nat): (payload: seq<byte>)
    requires location < TWO_32 && length < 0x1_0000
  {
    LE16(UPDATE_READ) + LE32(location) + LE16(length)
    + if location + length <= |storage| then [1] + storage[location..location + length] else [0]
  }

  lemma ReadIsAnswered(storage: seq<byte>, location: nat, length: nat)
    requires |storage| < TWO_32 && IsAskable(UpdateRead(location, length))
    ensures Respond(storage, RequestFor(UpdateRead(location, length))) == Some(ReadResponse(storage, location, length))
  {
    hide LE16, LE32, Take;
    var code, where, long := LE16(UPDATE_READ), LE32(location), LE16(length);
    var request := RequestFor(UpdateRead(location, length));
    assert request == code + (where + long) == code + where + long == (code + where) + long + [];
    CodeOf(UPDATE_READ, where + long);
    TakeNumbers(code, location, 0, long);
    TakeNumbers(code + where, 0, length, []);
  }

  lemma ReadIsHandled(storage: seq<byte>, location: nat, length: nat)
    requires |storage| < TWO_32 && IsAskable(UpdateRead(location, length))
    ensures var payload := ReadResponse(storage, location, length);
            Take(payload, 0, 2) == (UPDATE_READ, 2)
            && (Matches(payload, location, length) <==> location + length <= |storage|)
            && (location + length <= |storage| ==>
                  length <= |payload| && payload[|payload| - length..] == storage[location..location + length])
  {
    hide LE16, LE32, Take;
    var code, where, long := LE16(UPDATE_READ), LE32(location), LE16(length);
    var tail := if location + length <= |storage| then [1] + storage[location..location + length] else [0];
    var payload := ReadResponse(storage, location, length);
    assert payload == code + (where + long + tail) == code + where + (long + tail) == (code + where) + long + tail;
    CodeOf(UPDATE_READ, where + long + tail);
    TakeNumbers(code, location, 0, long + tail);
    TakeNumbers(code + where, 0, length, tail);
    ResultByte(payload, tail);
    assert |payload| - 9 == |tail| - 1;
    assert payload[9..] == tail[1..];
  }

  lemma ReadOverTheLink(storage: seq<byte>, location: nat, length: nat)
    requires |storage| < TWO_32 && IsAskable(UpdateRead(location, length))
    ensures Respond(storage, RequestFor(UpdateRead(location, length))).Some?
    ensures var payload := Respond(storage, RequestFor(UpdateRead(location, length))).value;
            var handled := Handle(Some(UpdateRead(location, length)), payload);
            && !Confuses(Some(UpdateRead(location, length)), payload)
            && handled.pending == (if location + length <= |storage| then None else Some(UpdateRead(location, length)))
            && AnswerOf(handled) == LocalAnswer(storage, UpdateRead(location, length))
  {
    hide ReadResponse, Respond, RequestFor, Matches, Take;
    ReadIsAnswered(storage, location, length);
    ReadIsHandled(storage, location, length);
  }

  lemma ResultByte(payload: seq<byte>, tail: seq<byte>)
    requires |payload| == 8 + |tail| && tail != [] && payload[8..] == tail
    ensures Take(payload, 8, 1) == (tail[0], 9)
  {
    assert payload[8..][0] == payload[8];
  }

  lemma StorageOverTheLink(storage: seq<byte>)
    requires |storage| < TWO_32
    ensures Respond(storage, RequestFor(GetUpdateStorage)).Some?
    ensures var payload := Respond(storage, RequestFor(GetUpdateStorage)).value;
            var handled := Handle(Some(GetUpdateStorage), payload);
            && !Confuses(Some(GetUpdateStorage), payload) && handled.pending == None
            && AnswerOf(handled) == LocalAnswer(storage, GetUpdateStorage)
  {
    hide LE16, LE32, Take;
    var code, a, b := LE16(GET_UPDATE_STORAGE), LE32(0), LE32(|storage|);
    CodeOf(GET_UPDATE_STORAGE, []);
    assert code + [] == code;
    var payload := code + a + b;
    assert payload == code + (a + b) == (code + a) + b + [];
    CodeOf(GET_UPDATE_STORAGE, a + b);
    TakeNumbers(code, 0, 0, b);
    TakeNumbers(code + a, |storage|, 0, []);
  }

  /** An operation over the link is answered exactly as the storage itself would answer it. */
  lemma OperationOverTheLink(storage: seq<byte>, operation: Operation)
    requires |storage| < TWO_32 && IsAskable(operation)
    ensures Respond(storage, RequestFor(operation)).Some?
    ensures var payload := Respond(storage, RequestFor(operation)).value;
            && !Confuses(Some(operation), payload)
            && AnswerOf(Handle(Some(operation), payload)) == LocalAnswer(storage, operation)
            && (Handle(Some(operation), payload).pending.None? <==> LocalAnswer(storage, operation) != Refused)
  {
    hide Respond, Handle, Confuses, RequestFor, AnswerOf;
    match operation
    case GetUpdateStorage => StorageOverTheLink(storage);
    case UpdateRead(location, length) => ReadOverTheLink(storage, location, length);
  }

  // ---------------------------------------------------------------- the two ends

  datatype Controller = Ready | InRpc | Done(outcome: seq<byte>)

  datatype Peripheral = Idle | Computing | Nested

  /** Both ends, the link, and what the update has been answered so far. */
  datatype State = State(controller: Controller, peripheral: Peripheral, pending: Option<Operation>,
                         toPeripheral: seq<Message>, toController: seq<Message>, history: seq<Answer>, confused: bool)

  datatype Step = StartUpdate | ControllerTakes | PeripheralMoves | PeripheralTakes

  /** The boot loader only asks for what can be asked. */
  ghost predicate IsSane(client: Client) {
    forall history :: client(history).Ask? ==> IsAskable(client(history).operation)
  }

  predicate Enabled(s: State, step: Step) {
    match step
    case StartUpdate => !s.controller.InRpc?
    case ControllerTakes => s.controller.InRpc? && s.toController != []
    case PeripheralMoves => s.peripheral.Computing?
    case PeripheralTakes => (s.peripheral.Idle? || s.peripheral.Nested?) && s.toPeripheral != []
  }

  /** One step of either end; a message that the model does not cover only sets the flag. */
  ghost function Do(client: Client, storage: seq<byte>, s: State, step: Step): State
    requires Enabled(s, step) && IsSane(client) && |storage| < TWO_32
  {
    match step
    case StartUpdate =>
      s.(controller := InRpc, toPeripheral := s.toPeripheral + [Message(Request, LE16(UPDATE))], history := [])
    case ControllerTakes =>
      var message, rest := s.toController[0], s.toController[1..];
      if message.kind.Response? then
        if Take(message.payload, 0, 2).0 == UPDATE then
          s.(toController := rest, controller := Done(message.payload))
        else s.(confused := true)
      else
        (match Respond(storage, message.payload)
         case None => s.(confused := true)
         case Some(payload) =>
           s.(toController := rest, toPeripheral := s.toPeripheral + [Message(Response, payload)]))
    case PeripheralMoves =>
      (match client(s.history)
       case Ask(operation) =>
         s.(peripheral := Nested, pending := Some(operation),
            toController := s.toController + [Message(Request, RequestFor(operation))])
       case Finish(outcome) =>
         s.(peripheral := Idle, toController := s.toController + [Message(Response, LE16(UPDATE) + outcome)]))
    case PeripheralTakes =>
      var message, rest := s.toPeripheral[0], s.toPeripheral[1..];
      if s.peripheral.Idle? then
        if message.kind.Request? && message.payload == LE16(UPDATE) then s.(peripheral := Computing, toPeripheral := rest)
        else s.(confused := true)
      else if message.kind.Request? || Confuses(s.pending, message.payload) then s.(confused := true)
      else
        var handled := Handle(s.pending, message.payload);
        s.(peripheral := Computing, toPeripheral := rest, pending := handled.pending,
           history := s.history + [AnswerOf(handled)])
  }

  // ---------------------------------------------------------------- runs

  /** Every answer is the one that local storage would have given at that point. */
  ghost predicate IsLocal(client: Client, storage: seq<byte>, history: seq<Answer>) {
    forall k :: 0 <= k < |history| ==>
      client(history[..k]).Ask? && history[k] == LocalAnswer(storage, client(history[..k]).operation)
  }

  /** Where the one message or the one computation is. */
  ghost predicate Phase(client: Client, storage: seq<byte>, s: State)
    requires IsSane(client) && |storage| < TWO_32
  {
    match s.controller
    case Ready => s.peripheral.Idle? && s.toPeripheral == [] && s.toController == []
    case Done(outcome) =>
      && s.peripheral.Idle? && s.toPeripheral == [] && s.toController == []
      && client(s.history).Finish? && outcome == LE16(UPDATE) + client(s.history).outcome
    case InRpc =>
      match s.peripheral
      case Computing => s.toPeripheral == [] && s.toController == []
      case Nested =>
        && client(s.history).Ask? && s.pending == Some(client(s.history).operation)
        && var request := RequestFor(client(s.history).operation);
           || (s.toController == [Message(Request, request)] && s.toPeripheral == [])
           || (s.toController == [] && Respond(storage, request).Some?
               && s.toPeripheral == [Message(Response, Respond(storage, request).value)])
      case Idle =>
        || (s.toPeripheral == [Message(Request, LE16(UPDATE))] && s.toController == [] && s.history == [])
        || (s.toPeripheral == [] && client(s.history).Finish?
            && s.toController == [Message(Response, LE16(UPDATE) + client(s.history).outcome)])
  }

  ghost predicate Invariant(client: Client, storage: seq<byte>, s: State)
    requires IsSane(client) && |storage| < TWO_32
  {
    !s.confused && IsLocal(client, storage, s.history) && Phase(client, storage, s)
  }

  predicate IsStart(s: State) {
    s == State(Ready, Idle, None, [], [], [], false)
  }

  lemma StepKeeps(client: Client, storage: seq<byte>, s: State, step: Step)
    requires IsSane(client) && |storage| < TWO_32 && Invariant(client, storage, s) && Enabled(s, step)
    ensures Invariant(client, storage, Do(client, storage, s, step))
  {
    hide Respond, Handle, Confuses, RequestFor, AnswerOf, LE16, Take, LocalAnswer;
    match step {
      case ControllerTakes =>
        if s.peripheral.Nested? {
          OperationOverTheLink(storage, client(s.history).operation);
        } else {
          CodeOf(UPDATE, client(s.history).outcome);
        }
      case PeripheralTakes =>
        if s.peripheral.Nested? {
          OperationOverTheLink(storage, client(s.history).operation);
          HistoryGrows(client, storage, s.history, LocalAnswer(storage, client(s.history).operation));
        }
      case _ =>
    }
  }

  lemma HistoryGrows(client: Client, storage: seq<byte>, history: seq<Answer>, answer: Answer)
    requires IsLocal(client, storage, history) && client(history).Ask?
    requires answer == LocalAnswer(storage, client(history).operation)
    ensures IsLocal(client, storage, history + [answer])
  {
    var longer := history + [answer];
    forall k | 0 <= k < |longer|
      ensures client(longer[..k]).Ask? && longer[k] == LocalAnswer(storage, client(longer[..k]).operation)
    {
      assert longer[..k] == history[..k];
      if k == |history| {
        assert history[..k] == history;
      }
    }
  }

  ghost predicate IsRun(client: Client, storage: seq<byte>, states: seq<State>, steps: seq<Step>)
    requires IsSane(client) && |storage| < TWO_32
  {
    && |states| == |steps| + 1 && IsStart(states[0])
    && forall i :: 0 <= i < |steps| ==>
         Enabled(states[i], steps[i]) && states[i + 1] == Do(client, storage, states[i], steps[i])
  }

  lemma {:induction false} RunsKeep(client: Client, storage: seq<byte>, states: seq<State>, steps: seq<Step>, k: nat)
    requires IsSane(client) && |storage| < TWO_32 && IsRun(client, storage, states, steps) && k < |states|
    ensures Invariant(client, storage, states[k])
    decreases k
  {
    hide Invariant, Do, Enabled;
    if k == 0 {
      StartIsInvariant(client, storage, states[0]);
    } else {
      RunsKeep(client, storage, states, steps, k - 1);
      StepKeeps(client, storage, states[k - 1], steps[k - 1]);
    }
  }

  lemma StartIsInvariant(client: Client, storage: seq<byte>, s: State)
    requires IsSane(client) && |storage| < TWO_32 && IsStart(s)
    ensures Invariant(client, storage, s)
  {
  }

  /**
   In every run, when the controller has its response the peripheral has finished all its reads and nothing is on the
   link; and the update went as it would have with the storage at hand.
  */
  lemma UpdateOverTheLink(client: Client, storage: seq<byte>, states: seq<State>, steps: seq<Step>, k: nat)
    requires IsSane(client) && |storage| < TWO_32 && IsRun(client, storage, states, steps) && k < |states|
    requires states[k].controller.Done?
    ensures states[k].peripheral.Idle? && states[k].toPeripheral == [] && states[k].toController == []
    ensures IsLocal(client, storage, states[k].history) && client(states[k].history).Finish?
    ensures states[k].controller.outcome == LE16(UPDATE) + client(states[k].history).outcome
  {
    RunsKeep(client, storage, states, steps, k);
  }

  /** No state is stuck: until the controller has its response, exactly one step is possible. */
  lemma OneStepIsPossible(client: Client, storage: seq<byte>, s: State)
    requires IsSane(client) && |storage| < TWO_32 && Invariant(client, storage, s)
    ensures exists step :: Enabled(s, step)
    ensures forall a, b :: Enabled(s, a) && Enabled(s, b) ==> a == b
  {
    assert Enabled(s, if !s.controller.InRpc? then StartUpdate
                      else if s.peripheral.Computing? then PeripheralMoves
                      else if s.toController != [] then ControllerTakes
                      else PeripheralTakes);
  }
}
