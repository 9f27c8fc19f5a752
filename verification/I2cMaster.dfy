/**
 The bit-banged master of fd_i2cm_bitbang.c. What the slave answers is a parameter: a bit for every time the master reads.
 The methods move the lines; their contracts say which tokens an observer of the lines has read.
*/
module I2cMaster {
  import opened Bytes
  import opened Bits
  import opened I2cBus

  /** The slave's bits, in the order in which the master reads them. */
  type Answers = nat -> bool

  datatype Transfer = Tx(bytes: seq<byte>) | Rx(count: nat)

  // ---------------------------------------------------------------- what is expected on the bus

  function AnswerBits(answers: Answers, taken: nat, n: nat): (bits: seq<bool>)
    ensures |bits| == n
  {
    seq(n, i requires 0 <= i < n => answers(taken + i))
  }

  /** A byte that the slave sends. */
  function AnswerByte(answers: Answers, taken: nat): byte {
    ByteIsSmall(AnswerBits(answers, taken, 8));
    FromMsb(AnswerBits(answers, taken, 8))
  }

  /** The bytes that go out, up to the first that is not acknowledged. */
  function TxTokens(bytes: seq<byte>, answers: Answers, taken: nat): (result: (seq<Token>, bool))
    decreases |bytes|
  {
    if bytes == [] then ([], true)
    else if answers(taken) then ([ByteToken(bytes[0], false)], false)
    else
      var (tokens, acked) := TxTokens(bytes[1..], answers, taken + 1);
      ([ByteToken(bytes[0], true)] + tokens, acked)
  }

  function RxBytes(count: nat, answers: Answers, taken: nat): (bytes: seq<byte>)
    ensures |bytes| == count
  {
    seq(count, i requires 0 <= i < count => AnswerByte(answers, taken + 8 * i))
  }

  /** The bytes that come in; the last is acknowledged only when more are to follow. */
  function RxTokens(count: nat, answers: Answers, taken: nat, more: bool): (tokens: seq<Token>)
    ensures |tokens| == count
  {
    seq(count, i requires 0 <= i < count => ByteToken(AnswerByte(answers, taken + 8 * i), more || i < count - 1))
  }

  /** Tokens, whether the last byte written was acknowledged, how many bits were read, and what came in. */
  datatype Io = Io(tokens: seq<Token>, acked: bool, taken: nat, received: seq<seq<byte>>)

  function Before(tokens: seq<Token>, bytes: seq<byte>, io: Io): Io {
    io.(tokens := tokens + io.tokens, received := [bytes] + io.received)
  }

  /** The address byte: seven bits and the direction. */
  function AddressByte(address: nat, reading: bool): byte {
    2 * address % 0x100 + if reading then 1 else 0
  }

  predicate MoreToRead(transfers: seq<Transfer>, i: nat) {
    i + 1 < |transfers| && transfers[i + 1].Rx?
  }

  /**
   Before transfer `i` the master still pulls the data line down: it acknowledged the last byte it read, because another
   read was to follow, and that has not had any bytes.
  */
  predicate Held(transfers: seq<Transfer>, i: nat): (held: bool)
    requires i <= |transfers|
    ensures held ==> i > 0 && transfers[i - 1].Rx?
  {
    if i == 0 then false
    else
      match transfers[i - 1]
      case Tx(_) => false
      case Rx(count) => if count > 0 then MoreToRead(transfers, i - 1) else Held(transfers, i - 1)
  }

  /**
   A START and the address come first wherever the direction is not that of the transfer before. Letting go of a data
   line that is held down is a STOP: the clock is up by then.
  */
  function Opening(address: nat, reading: bool, last: Option<bool>, held: bool, answers: Answers, taken: nat)
      : (tokens: seq<Token>)
    ensures tokens == [] <==> last == Some(reading)
  {
    if last == Some(reading) then []
    else (if held then [StopToken] else []) + [StartToken, ByteToken(AddressByte(address, reading), !answers(taken))]
  }

  /** One transfer: its tokens, whether all that was written was acknowledged, how far the reading got, what came in. */
  datatype Step = Step(tokens: seq<Token>, acked: bool, taken: nat, bytes: seq<byte>)

  function TransferStep(address: nat, transfers: seq<Transfer>, i: nat, last: Option<bool>, answers: Answers, taken: nat): Step
    requires i < |transfers|
  {
    var opening := Opening(address, transfers[i].Rx?, last, Held(transfers, i), answers, taken);
    if opening != [] && answers(taken) then Step(opening, false, taken + 1, [])
    else
      var start := taken + if opening == [] then 0 else 1;
      match transfers[i]
      case Tx(bytes) =>
        var (tokens, acked) := TxTokens(bytes, answers, start);
        Step(opening + tokens, acked, start + |tokens|, [])
      case Rx(count) =>
        Step(opening + RxTokens(count, answers, start, MoreToRead(transfers, i)), true, start + 8 * count,
             RxBytes(count, answers, start))
  }

  /** Everything from transfer `i` on, without the last STOP; the first byte that is not acknowledged is the last. */
  function Expected(address: nat, transfers: seq<Transfer>, i: nat, last: Option<bool>, answers: Answers, taken: nat): Io
    requires i <= |transfers|
    decreases |transfers| - i
  {
    if i == |transfers| then Io([], true, taken, [])
    else
      var step := TransferStep(address, transfers, i, last, answers, taken);
      if !step.acked then Io(step.tokens, false, step.taken, [])
      else
        Before(step.tokens, step.bytes,
               Expected(address, transfers, i + 1, Some(transfers[i].Rx?), answers, step.taken))
  }

  // ---------------------------------------------------------------- the lines

  class Bus {
    const answers: Answers
    var lines: Lines
    var taken: nat
    ghost var trace: seq<Event>
    ghost var tokens: seq<Token>

    /** The lines are what the trace makes of an idle bus. */
    ghost predicate Consistent()
      reads this
    {
      lines == ObserveAll(IDLE, trace)
    }

    /** And the symbols are those of the tokens. */
    ghost predicate Valid()
      reads this
    {
      Consistent() && lines.symbols == AllSymbols(tokens)
    }

    constructor (answers: Answers)
      ensures Valid() && lines == IDLE && taken == 0 && tokens == [] && this.answers == answers
    {
      this.answers := answers;
      lines, taken, trace, tokens := IDLE, 0, [], [];
    }

    /** `fd_gpio_set`, and the slave's side of the data line. */
    method Set(e: Event)
      requires Consistent()
      modifies this`lines, this`trace
      ensures Consistent() && lines == Observe(old(lines), e) && trace == old(trace) + [e]
    {
      assert (trace + [e])[..|trace|] == trace;
      lines := Observe(lines, e);
      trace := trace + [e];
    }

    /** Between bits the clock is low and the slave has let go of the data line. */
    predicate Low()
      reads this
    {
      !lines.scl && lines.slave && lines.pending == None
    }

    predicate Free()
      reads this
    {
      lines.scl && lines.sda && lines.slave && lines.pending == None
    }

    /** `fd_i2cm_bitbang_start`; between bits, a data line that was down goes up first, which is a STOP. */
    method StartCondition()
      requires Valid() && (Free() || Low())
      modifies this`lines, this`trace, this`tokens
      ensures Valid() && Low()
      ensures tokens == old(tokens) + if old(lines.sda) then [StartToken] else [StopToken, StartToken]
    {
      hide ObserveAll;
      ghost var held, before := !lines.sda, tokens;
      Set(Scl(true));
      Set(Sda(true));
      if held {
        AddToken(StopToken);
      }
      Set(Sda(false));
      Set(Scl(false));
      AddToken(StartToken);
      assert held ==> before + [StopToken] + [StartToken] == before + [StopToken, StartToken];
    }

    /** `fd_i2cm_bitbang_stop`; on a free bus the first move of the data line is a START. */
    method StopCondition()
      requires Valid() && (Low() || Free())
      modifies this`lines, this`trace, this`tokens
      ensures Valid() && Free()
      ensures tokens == old(tokens) + if old(Free()) then [StartToken, StopToken] else [StopToken]
    {
      hide ObserveAll;
      ghost var free, before := Free(), tokens;
      Set(Sda(false));
      if free {
        AddToken(StartToken);
      }
      Set(Scl(true));
      Set(Sda(true));
      AddToken(StopToken);
      assert free ==> before + [StartToken] + [StopToken] == before + [StartToken, StopToken];
    }

    /** The symbols of one more token have been seen. */
    ghost method AddToken(token: Token)
      requires Consistent() && lines.symbols == AllSymbols(tokens) + SymbolsOf(token)
      modifies this`tokens
      ensures Valid() && tokens == old(tokens) + [token]
    {
      hide AllSymbols, SymbolsOf;
      SymbolsAppend(tokens, [token]);
      OneToken(token);
      tokens := tokens + [token];
    }

    /** `fd_i2cm_bitbang_write_bit`. */
    method WriteBit(bit: bool)
      requires Consistent() && Low()
      modifies this`lines, this`trace
      ensures Consistent() && Low() && lines.sda == bit && lines.symbols == old(lines.symbols) + [Bit(bit)]
    {
      hide ObserveAll;
      Set(Sda(bit));
      Set(Scl(true));
      Set(Scl(false));
    }

    /** `fd_i2cm_bitbang_read_bit`; the slave moves its side only while the clock is low. */
    method ReadBit() returns (bit: bool)
      requires Consistent() && Low()
      modifies this`lines, this`trace, this`taken
      ensures Consistent() && Low() && lines.sda && lines.symbols == old(lines.symbols) + [Bit(bit)]
      ensures bit == answers(old(taken)) && taken == old(taken) + 1
    {
      hide ObserveAll;
      Set(Sda(true));
      Set(Slave(answers(taken)));
      Set(Scl(true));
      bit := Level(lines);
      taken := taken + 1;
      Set(Scl(false));
      Set(Slave(true));
    }

    /** `fd_i2cm_bitbang_write_byte`. */
    method WriteByte(b: byte) returns (ack: bool)
      requires Valid() && Low()
      modifies this
      ensures Valid() && Low() && lines.sda && taken == old(taken) + 1
      ensures ack == !answers(old(taken)) && tokens == old(tokens) + [ByteToken(b, ack)]
    {
      hide ObserveAll, AllSymbols;
      ghost var symbols := lines.symbols;
      var shifting: nat := b;
      for i := 0 to 8
        invariant Consistent() && Low() && shifting < 0x100 && tokens == old(tokens) && taken == old(taken)
        invariant symbols + BitSymbols(MsbBits(b, 8)) == lines.symbols + BitSymbols(MsbBits(shifting, 8 - i))
      {
        NextMsb(lines.symbols, shifting, 8 - i);
        WriteBit(shifting >= 0x80);
        shifting := 2 * shifting % 0x100;
      }
      assert lines.symbols == symbols + BitSymbols(MsbBits(b, 8));
      Set(Sda(true));
      var bit := ReadBit();
      Set(Sda(true));
      ack := !bit;
      assert symbols + BitSymbols(MsbBits(b, 8)) + [Bit(bit)] == symbols + (BitSymbols(MsbBits(b, 8)) + [Bit(bit)]);
      AddToken(ByteToken(b, ack));
    }

    /** `fd_i2cm_bitbang_read_byte`. */
    method ReadByte(ack: bool) returns (b: byte)
      requires Valid() && Low()
      modifies this
      ensures Valid() && Low() && lines.sda == !ack && taken == old(taken) + 8
      ensures b == AnswerByte(answers, old(taken)) && tokens == old(tokens) + [ByteToken(b, ack)]
    {
      hide ObserveAll, AllSymbols, FromMsb, MsbBits;
      ghost var symbols, start := lines.symbols, taken;
      ghost var all := AnswerBits(answers, start, 8);
      Set(Sda(true));
      var value: nat := 0;
      NothingMsb();
      assert BitSymbols([]) == [];
      for i := 0 to 8
        invariant Consistent() && Low() && tokens == old(tokens) && taken == start + i
        invariant value == FromMsb(AnswerBits(answers, start, i))
        invariant lines.symbols == symbols + BitSymbols(AnswerBits(answers, start, i))
      {
        var bit := ReadBit();
        MoreMsb(answers, start, i);
        assert BitSymbols(AnswerBits(answers, start, i + 1)) == BitSymbols(AnswerBits(answers, start, i)) + [Bit(bit)];
        value := 2 * value + if bit then 1 else 0;
      }
      ByteIsSmall(all);
      b := value;
      Set(Sda(true));
      WriteBit(!ack);
      MsbOfNumber(all);
      assert symbols + BitSymbols(all) + [Bit(!ack)] == symbols + (BitSymbols(all) + [Bit(!ack)]);
      AddToken(ByteToken(b, ack));
    }

    /** `fd_i2cm_bitbang_bus_tx`. */
    method BusTx(bytes: seq<byte>) returns (ack: bool)
      requires Valid() && Low() && lines.sda
      modifies this
      ensures Valid() && Low() && lines.sda
      ensures var (added, acked) := TxTokens(bytes, answers, old(taken));
              ack == acked && tokens == old(tokens) + added && taken == old(taken) + |added|
    {
      hide Valid, Consistent, TxTokens;
      ghost var start, before := taken, tokens;
      ghost var done: seq<Token> := [];
      assert bytes[0..] == bytes && [] + TxTokens(bytes, answers, taken).0 == TxTokens(bytes, answers, taken).0;
      for i := 0 to |bytes|
        invariant Valid() && Low() && lines.sda && |done| == i && taken == start + i && tokens == before + done
        invariant var (rest, acked) := TxTokens(bytes[i..], answers, taken);
                  TxTokens(bytes, answers, start) == (done + rest, acked)
      {
        NextTx(bytes, i, answers, taken, done, before);
        ack := WriteByte(bytes[i]);
        if !ack {
          return;
        }
        done := done + [ByteToken(bytes[i], true)];
      }
      NoMoreTx(bytes[|bytes|..], answers, taken, done);
      ack := true;
    }

    /** `fd_i2cm_bitbang_bus_rx`. */
    method BusRx(count: nat, more: bool) returns (bytes: seq<byte>)
      requires Valid() && Low()
      modifies this
      ensures Valid() && Low() && lines.sda == if count > 0 then !more else old(lines.sda)
      ensures bytes == RxBytes(count, answers, old(taken)) && taken == old(taken) + 8 * count
      ensures tokens == old(tokens) + RxTokens(count, answers, old(taken), more)
    {
      hide ObserveAll, AllSymbols;
      ghost var start, before, all := taken, tokens, RxTokens(count, answers, taken, more);
      bytes := [];
      for i := 0 to count
        invariant Valid() && Low() && taken == start + 8 * i && tokens == before + all[..i]
        invariant bytes == RxBytes(count, answers, start)[..i]
        invariant i == 0 ==> lines == old(lines)
        invariant i == count && 0 < count ==> lines.sda == !more
      {
        var b := ReadByte(more || i < count - 1);
        assert all[..i + 1] == all[..i] + [ByteToken(b, more || i < count - 1)];
        assert before + all[..i] + [ByteToken(b, more || i < count - 1)] == before + all[..i + 1];
        bytes := bytes + [b];
      }
      assert all[..count] == all;
    }

    /** `fd_i2cm_bitbang_start_write` and `fd_i2cm_bitbang_start_read`, when the direction is a new one. */
    method Open(address: nat, reading: bool, last: Option<bool>) returns (ack: bool)
      requires Valid() && (Free() || Low()) && (Free() ==> last == None)
      modifies this
      ensures Valid() && Low() && (if last != Some(reading) then lines.sda else lines == old(lines))
      ensures var opening := Opening(address, reading, last, !old(lines.sda), answers, old(taken));
              && tokens == old(tokens) + opening && taken == old(taken) + (if opening == [] then 0 else 1)
              && ack == (opening == [] || !answers(old(taken)))
    {
      hide ObserveAll, AllSymbols;
      ack := true;
      assert tokens + [] == tokens;
      if last != Some(reading) {
        ghost var before, held := tokens, !lines.sda;
        StartCondition();
        ghost var started := tokens;
        ack := WriteByte(AddressByte(address, reading));
        assert started + [ByteToken(AddressByte(address, reading), ack)]
            == before + Opening(address, reading, last, held, answers, taken - 1);
      }
    }

    /** One turn of the loop over the transfers. */
    method OneTransfer(address: nat, transfers: seq<Transfer>, i: nat, last: Option<bool>)
      returns (ack: bool, bytes: seq<byte>)
      requires i < |transfers| && last == (if i == 0 then None else Some(transfers[i - 1].Rx?))
      requires Valid() && (if last == None then Free() else Low()) && lines.sda == !Held(transfers, i)
      modifies this
      ensures Valid() && Low()
      ensures var step := TransferStep(address, transfers, i, last, answers, old(taken));
              ack == step.acked && tokens == old(tokens) + step.tokens && taken == step.taken && (ack ==> bytes == step.bytes)
      ensures ack ==> lines.sda == !Held(transfers, i + 1)
    {
      hide ObserveAll, AllSymbols, TxTokens, RxTokens, RxBytes;
      bytes := [];
      ghost var before, opening := tokens, Opening(address, transfers[i].Rx?, last, Held(transfers, i), answers, taken);
      ack := Open(address, transfers[i].Rx?, last);
      if !ack {
        return;
      }
      ghost var start, middle := taken, tokens;
      match transfers[i] {
        case Tx(data) =>
          ack := BusTx(data);
          assert middle + TxTokens(data, answers, start).0 == before + (opening + TxTokens(data, answers, start).0);
        case Rx(count) =>
          bytes := BusRx(count, MoreToRead(transfers, i));
          ghost var added := RxTokens(count, answers, start, MoreToRead(transfers, i));
          assert middle + added == before + (opening + added);
      }
    }

    /** `fd_i2cm_bitbang_device_io`. */
    method DeviceIo(address: nat, transfers: seq<Transfer>) returns (ack: bool, received: seq<seq<byte>>)
      requires Valid() && Free()
      modifies this
      ensures Valid() && Free()
      ensures var io := Expected(address, transfers, 0, None, answers, old(taken));
              && ack == io.acked && taken == io.taken && received == io.received
              && tokens == old(tokens) + (if transfers == [] then [StartToken] else io.tokens) + [StopToken]
    {
      hide Valid, Consistent, TransferStep;
      ghost var before, whole := tokens, Expected(address, transfers, 0, None, answers, taken);
      ghost var done: seq<Token> := [];
      var last: Option<bool> := None;
      ack, received := true, [];
      BeforeNothing(whole);
      assert before + [] == before;
      var i := 0;
      while ack && i < |transfers|
        invariant i <= |transfers| && Valid() && tokens == before + done && (if last == None then Free() else Low())
        invariant (last == None ==> i == 0 && done == [] && ack) && (ack && i > 0 ==> last == Some(transfers[i - 1].Rx?))
        invariant ack && i == 0 ==> last == None
        invariant ack ==> lines.sda == !Held(transfers, i)
        invariant if ack then whole == Ahead(done, received, Expected(address, transfers, i, last, answers, taken))
                  else whole == Io(done, false, taken, received)
        decreases |transfers| - i, ack
      {
        var bytes;
        ghost var step := TransferStep(address, transfers, i, last, answers, taken);
        ack, bytes := OneTransfer(address, transfers, i, last);
        assert tokens == before + (done + step.tokens);
        last := Some(transfers[i].Rx?);
        if ack {
          AheadBefore(done, received, step.tokens, bytes, Expected(address, transfers, i + 1, last, answers, taken));
          received := received + [bytes];
          i := i + 1;
        } else {
          Stops(done, received, Io(step.tokens, false, taken, []));
        }
        done := done + step.tokens;
      }
      if ack {
        Stops(done, received, Io([], true, taken, []));
        assert done + [] == done;
      }
      StopCondition();
      assert transfers == [] ==> before + [StartToken, StopToken] == before + [StartToken] + [StopToken];
    }
  }

  /** Another byte moves from what is to be sent to what has been sent. */
  lemma NextTx(bytes: seq<byte>, i: nat, answers: Answers, taken: nat, done: seq<Token>, before: seq<Token>)
    requires i < |bytes|
    ensures var (rest, acked) := TxTokens(bytes[i..], answers, taken);
            if answers(taken) then
              !acked && |rest| == 1 && (before + done) + [ByteToken(bytes[i], false)] == before + (done + rest)
            else
              var (more, last) := TxTokens(bytes[i + 1..], answers, taken + 1);
              && acked == last && done + rest == (done + [ByteToken(bytes[i], true)]) + more
              && (before + done) + [ByteToken(bytes[i], true)] == before + (done + [ByteToken(bytes[i], true)])
  {
    assert bytes[i..][0] == bytes[i] && bytes[i..][1..] == bytes[i + 1..];
  }

  lemma NoMoreTx(bytes: seq<byte>, answers: Answers, taken: nat, done: seq<Token>)
    requires bytes == []
    ensures TxTokens(bytes, answers, taken) == ([], true) && done + [] == done
  {
  }

  lemma NextMsb(symbols: seq<Symbol>, b: nat, n: nat)
    requires n > 0
    ensures symbols + BitSymbols(MsbBits(b, n)) ==
            (symbols + [Bit(b >= 0x80)]) + BitSymbols(MsbBits(2 * b % 0x100, n - 1))
  {
    var rest := MsbBits(2 * b % 0x100, n - 1);
    assert BitSymbols(MsbBits(b, n)) == [Bit(b >= 0x80)] + BitSymbols(rest);
  }

  lemma NothingMsb()
    ensures FromMsb([]) == 0
  {
  }

  lemma MoreMsb(answers: Answers, start: nat, i: nat)
    ensures AnswerBits(answers, start, i + 1) == AnswerBits(answers, start, i) + [answers(start + i)]
    ensures FromMsb(AnswerBits(answers, start, i + 1)) ==
            2 * FromMsb(AnswerBits(answers, start, i)) + if answers(start + i) then 1 else 0
  {
    var bits := AnswerBits(answers, start, i + 1);
    assert bits[..i] == AnswerBits(answers, start, i);
  }

  /** Eight bits are the bits of their number. */
  lemma MsbOfNumber(bits: seq<bool>)
    requires |bits| == 8
    ensures MsbBits(FromMsb(bits), 8) == bits
  {
    hide FromMsb, MsbBits;
    ByteIsSmall(bits);
    MsbRoundTrip(FromMsb(bits));
    MsbIsInjective(MsbBits(FromMsb(bits), 8), bits);
  }

  lemma {:induction false} MsbIsInjective(a: seq<bool>, b: seq<bool>)
    requires |a| == |b| && FromMsb(a) == FromMsb(b)
    ensures a == b
    decreases |a|
  {
    if a == [] {
    } else {
      var n := |a| - 1;
      assert a[n] == b[n];
      MsbIsInjective(a[..n], b[..n]);
      assert a == a[..n] + [a[n]] && b == b[..n] + [b[n]];
    }
  }

  /** An exchange with a part already done. */
  function Ahead(tokens: seq<Token>, received: seq<seq<byte>>, io: Io): Io {
    io.(tokens := tokens + io.tokens, received := received + io.received)
  }

  lemma BeforeNothing(io: Io)
    ensures Ahead([], [], io) == io
  {
    assert [] + io.tokens == io.tokens && [] + io.received == io.received;
  }

  lemma AheadBefore(tokens: seq<Token>, received: seq<seq<byte>>, more: seq<Token>, bytes: seq<byte>, io: Io)
    ensures Ahead(tokens, received, Before(more, bytes, io)) == Ahead(tokens + more, received + [bytes], io)
  {
    assert tokens + (more + io.tokens) == (tokens + more) + io.tokens;
    assert received + ([bytes] + io.received) == (received + [bytes]) + io.received;
  }

  lemma Stops(tokens: seq<Token>, received: seq<seq<byte>>, io: Io)
    requires io.received == []
    ensures Ahead(tokens, received, io) == io.(tokens := tokens + io.tokens, received := received)
  {
    assert received + [] == received;
  }

  /** What a receiver reads off an idle bus, sampling the trace of the lines: exactly what is expected, and a last STOP. */
  method Exchange(address: nat, transfers: seq<Transfer>, answers: Answers)
    returns (ack: bool, received: seq<seq<byte>>, ghost trace: seq<Event>)
    ensures var io := Expected(address, transfers, 0, None, answers, 0);
            ack == io.acked && received == io.received
    ensures var io := Expected(address, transfers, 0, None, answers, 0);
            Tokenize(ObserveAll(IDLE, trace).symbols)
            == Some((if transfers == [] then [StartToken] else io.tokens) + [StopToken])
  {
    hide Expected, AllSymbols, Tokenize, ObserveAll;
    var bus := new Bus(answers);
    ack, received := bus.DeviceIo(address, transfers);
    trace := bus.trace;
    TokenizeSymbols(bus.tokens);
    ghost var tokens := Expected(address, transfers, 0, None, answers, 0).tokens;
    assert [] + tokens + [StopToken] == tokens + [StopToken];
    assert [] + [StartToken] + [StopToken] == [StartToken] + [StopToken];
  }

  // ---------------------------------------------------------------- STOPs that were not meant

  /** A read of at least a byte, then only reads of none but at least one of those, then a write. */
  predicate Breaks(transfers: seq<Transfer>, i: nat, j: nat) {
    && i + 1 < j < |transfers|
    && transfers[i].Rx? && transfers[i].count > 0 && transfers[j].Tx?
    && forall k :: i < k < j ==> transfers[k] == Rx(0)
  }

  lemma {:induction false} HeldExactly(transfers: seq<Transfer>, j: nat)
    requires j <= |transfers|
    ensures Held(transfers, j) <==>
            exists i: nat :: i < j && MoreToRead(transfers, i) && transfers[i].Rx? && transfers[i].count > 0
                             && forall k :: i < k < j ==> transfers[k] == Rx(0)
  {
    if j == 0 {
    } else {
      HeldExactly(transfers, j - 1);
      if Held(transfers, j) && transfers[j - 1].count == 0 {
        assert transfers[j - 1] == Rx(0);
      }
    }
  }

  predicate Broken(transfers: seq<Transfer>, j: nat) {
    j < |transfers| && transfers[j].Tx? && Held(transfers, j)
  }

  lemma BrokenExactly(transfers: seq<Transfer>, j: nat)
    ensures Broken(transfers, j) <==> exists i: nat :: Breaks(transfers, i, j)
  {
    if j < |transfers| {
      HeldExactly(transfers, j);
      if Broken(transfers, j) {
        var i: nat :| i < j && MoreToRead(transfers, i) && transfers[i].Rx? && transfers[i].count > 0
                      && forall k :: i < k < j ==> transfers[k] == Rx(0);
        assert Breaks(transfers, i, j);
      }
    }
  }

  lemma {:induction false} TxHasNoStop(bytes: seq<byte>, answers: Answers, taken: nat)
    ensures StopToken !in TxTokens(bytes, answers, taken).0
    decreases |bytes|
  {
    if bytes != [] && !answers(taken) {
      TxHasNoStop(bytes[1..], answers, taken + 1);
    }
  }

  /** Only the opening of a write can hold one. */
  lemma StopOfStep(address: nat, transfers: seq<Transfer>, i: nat, last: Option<bool>, answers: Answers, taken: nat)
    requires i < |transfers| && last == (if i == 0 then None else Some(transfers[i - 1].Rx?))
    ensures StopToken in TransferStep(address, transfers, i, last, answers, taken).tokens <==> Broken(transfers, i)
  {
    hide TxTokens, RxTokens, RxBytes;
    var opening := Opening(address, transfers[i].Rx?, last, Held(transfers, i), answers, taken);
    assert StopToken in opening <==> Broken(transfers, i) by {
      if Broken(transfers, i) {
        assert opening[0] == StopToken;
      }
    }
    match transfers[i]
    case Tx(bytes) =>
      TxHasNoStop(bytes, answers, taken);
      TxHasNoStop(bytes, answers, taken + 1);
    case Rx(count) =>
      RxHasNoStop(count, answers, taken, MoreToRead(transfers, i));
      RxHasNoStop(count, answers, taken + 1, MoreToRead(transfers, i));
  }

  lemma RxHasNoStop(count: nat, answers: Answers, taken: nat, more: bool)
    ensures StopToken !in RxTokens(count, answers, taken, more)
  {
  }

  /** A transfer is reached when all before it were acknowledged, and each of those has its entry in `received`. */
  lemma {:induction false} StopsFrom(address: nat, transfers: seq<Transfer>, i: nat, last: Option<bool>, answers: Answers,
                                     taken: nat)
    requires i <= |transfers| && last == (if i == 0 then None else Some(transfers[i - 1].Rx?))
    ensures var io := Expected(address, transfers, i, last, answers, taken);
            StopToken in io.tokens <==> exists j: nat :: i <= j <= i + |io.received| && Broken(transfers, j)
    decreases |transfers| - i
  {
    hide TransferStep, Held;
    if i == |transfers| {
    } else {
      StopOfStep(address, transfers, i, last, answers, taken);
      var step := TransferStep(address, transfers, i, last, answers, taken);
      if step.acked {
        StopsFrom(address, transfers, i + 1, Some(transfers[i].Rx?), answers, step.taken);
        var more := Expected(address, transfers, i + 1, Some(transfers[i].Rx?), answers, step.taken);
        assert Expected(address, transfers, i, last, answers, taken) == Before(step.tokens, step.bytes, more);
      }
    }
  }

  /** The observer reads a STOP before the last one if and only if the exchange comes to such a write. */
  lemma UnintendedStopExactly(address: nat, transfers: seq<Transfer>, answers: Answers)
    ensures var io := Expected(address, transfers, 0, None, answers, 0);
            StopToken in io.tokens <==> exists i: nat, j: nat :: j <= |io.received| && Breaks(transfers, i, j)
  {
    hide Expected, Broken, Breaks;
    var io := Expected(address, transfers, 0, None, answers, 0);
    StopsFrom(address, transfers, 0, None, answers, 0);
    if StopToken in io.tokens {
      var j: nat :| j <= |io.received| && Broken(transfers, j);
      BrokenExactly(transfers, j);
    }
    if i: nat, j: nat :| j <= |io.received| && Breaks(transfers, i, j) {
      BrokenExactly(transfers, j);
    }
  }

  /** A byte read, no byte read, and a byte written, all acknowledged: the STOP is the fourth token. */
  lemma StopBeforeWrite(address: nat, b: byte)
    ensures var answers := (_: nat) => false;
            Expected(address, [Rx(1), Rx(0), Tx([b])], 0, None, answers, 0).tokens ==
            [StartToken, ByteToken(AddressByte(address, true), true), ByteToken(0, true),
             StopToken, StartToken, ByteToken(AddressByte(address, false), true), ByteToken(b, true)]
  {
    hide AddressByte, AnswerByte, TransferStep;
    var answers := (_: nat) => false;
    var transfers := [Rx(1), Rx(0), Tx([b])];
    StepsBeforeWrite(address, b, answers);
    var step := TransferStep(address, transfers, 2, Some(true), answers, 9);
    assert Expected(address, transfers, 3, Some(false), answers, step.taken) == Io([], true, step.taken, []);
    assert Expected(address, transfers, 2, Some(true), answers, 9).tokens == step.tokens;
    assert Expected(address, transfers, 1, Some(true), answers, 9).tokens == step.tokens;
  }

  lemma StepsBeforeWrite(address: nat, b: byte, answers: Answers)
    requires forall k :: !answers(k)
    ensures var transfers := [Rx(1), Rx(0), Tx([b])];
            var write := TransferStep(address, transfers, 2, Some(true), answers, 9);
            && TransferStep(address, transfers, 0, None, answers, 0) ==
               Step([StartToken, ByteToken(AddressByte(address, true), true), ByteToken(0, true)], true, 9, [0])
            && TransferStep(address, transfers, 1, Some(true), answers, 9) == Step([], true, 9, [])
            && write.acked && write.tokens ==
               [StopToken, StartToken, ByteToken(AddressByte(address, false), true), ByteToken(b, true)]
  {
    hide AddressByte, AnswerByte, TxTokens;
    var transfers := [Rx(1), Rx(0), Tx([b])];
    ZeroByte(answers, 1);
    assert Held(transfers, 1) && Held(transfers, 2);
    OneByteOut(b, answers, 10);
  }

  lemma OneByteOut(b: byte, answers: Answers, taken: nat)
    requires !answers(taken)
    ensures TxTokens([b], answers, taken).0 == [ByteToken(b, true)] && TxTokens([b], answers, taken).1
  {
    var bytes: seq<byte> := [b];
    var sent: seq<Token> := [ByteToken(b, true)];
    assert bytes[1..] == [] && TxTokens(bytes[1..], answers, taken + 1) == ([], true);
    assert bytes[0] == b && sent + [] == sent;
  }

  lemma ZeroByte(answers: Answers, taken: nat)
    requires forall k :: !answers(k)
    ensures AnswerByte(answers, taken) == 0
  {
    Zeros(AnswerBits(answers, taken, 8));
  }

  lemma {:induction false} Zeros(bits: seq<bool>)
    requires forall i :: 0 <= i < |bits| ==> !bits[i]
    ensures FromMsb(bits) == 0
    decreases |bits|
  {
    if bits == [] {
    } else {
      Zeros(bits[..|bits| - 1]);
    }
  }

  // ---------------------------------------------------------------- addresses and acknowledgements

  /** Seven bits of address, and the direction in the lowest bit. */
  lemma AddressByBits(address: nat, reading: bool)
    requires address < 0x80
    ensures AddressByte(address, reading) / 2 == address
    ensures AddressByte(address, reading) % 2 == if reading then 1 else 0
  {
  }

  /** A transfer in a new direction starts with a START and that byte, and no other transfer does. */
  lemma TransferIsAddressed(address: nat, transfers: seq<Transfer>, i: nat, last: Option<bool>, answers: Answers, taken: nat)
    requires i < |transfers| && address < 0x80
    ensures var tokens := TransferStep(address, transfers, i, last, answers, taken).tokens;
            if last == Some(transfers[i].Rx?) then StartToken !in tokens
            else
              var k := if Held(transfers, i) then 1 else 0;
              && k + 1 < |tokens| && tokens[k] == StartToken && tokens[k + 1].ByteToken?
              && tokens[k + 1].value / 2 == address && (tokens[k + 1].value % 2 == 1 <==> transfers[i].Rx?)
              && forall j :: 0 <= j < |tokens| && tokens[j] == StartToken ==> j == k
  {
    hide TxTokens, RxTokens, RxBytes, AddressByte;
    AddressByBits(address, transfers[i].Rx?);
    match transfers[i]
    case Tx(bytes) =>
      TxHasNoStart(bytes, answers, taken);
      TxHasNoStart(bytes, answers, taken + 1);
    case Rx(count) =>
      RxByBytes(count, answers, taken, MoreToRead(transfers, i));
      RxByBytes(count, answers, taken + 1, MoreToRead(transfers, i));
  }

  lemma {:induction false} TxHasNoStart(bytes: seq<byte>, answers: Answers, taken: nat)
    ensures StartToken !in TxTokens(bytes, answers, taken).0
    decreases |bytes|
  {
    if bytes == [] || answers(taken) {
    } else {
      TxHasNoStart(bytes[1..], answers, taken + 1);
    }
  }

  /** Of the bytes that are read, only the last before a write or the STOP is not acknowledged. */
  lemma RxByBytes(count: nat, answers: Answers, taken: nat, more: bool)
    ensures var tokens := RxTokens(count, answers, taken, more);
            && StartToken !in tokens
            && (forall k :: 0 <= k < count ==> tokens[k].ByteToken? && (tokens[k].acked <==> more || k + 1 < count))
  {
  }

  /** Of the bytes that are written, those up to the first that the slave does not acknowledge go out, as they are. */
  lemma {:induction false} TxByBytes(bytes: seq<byte>, answers: Answers, taken: nat)
    ensures var (tokens, acked) := TxTokens(bytes, answers, taken);
            && |tokens| <= |bytes| && (acked ==> |tokens| == |bytes|) && (!acked ==> tokens != [])
            && forall k :: 0 <= k < |tokens| ==>
                 tokens[k] == ByteToken(bytes[k], !answers(taken + k)) && (answers(taken + k) <==> !acked && k == |tokens| - 1)
    decreases |bytes|
  {
    if bytes == [] || answers(taken) {
    } else {
      TxByBytes(bytes[1..], answers, taken + 1);
    }
  }

  /** An exchange that is not acknowledged ends with the byte that was not. */
  lemma {:induction false} RefusalIsLast(address: nat, transfers: seq<Transfer>, i: nat, last: Option<bool>,
                                         answers: Answers, taken: nat)
    requires i <= |transfers|
    ensures var io := Expected(address, transfers, i, last, answers, taken);
            !io.acked ==> io.tokens != [] && var token := io.tokens[|io.tokens| - 1]; token.ByteToken? && !token.acked
    decreases |transfers| - i
  {
    if i == |transfers| {
    } else {
      hide TransferStep;
      RefusedStep(address, transfers, i, last, answers, taken);
      var step := TransferStep(address, transfers, i, last, answers, taken);
      if step.acked {
        RefusalIsLast(address, transfers, i + 1, Some(transfers[i].Rx?), answers, step.taken);
        var more := Expected(address, transfers, i + 1, Some(transfers[i].Rx?), answers, step.taken);
        assert Expected(address, transfers, i, last, answers, taken) == Before(step.tokens, step.bytes, more);
        hide Expected;
      }
    }
  }

  lemma RefusedStep(address: nat, transfers: seq<Transfer>, i: nat, last: Option<bool>, answers: Answers, taken: nat)
    requires i < |transfers|
    ensures var step := TransferStep(address, transfers, i, last, answers, taken);
            !step.acked ==>
              step.tokens != [] && var token := step.tokens[|step.tokens| - 1]; token.ByteToken? && !token.acked
  {
    hide TxTokens, RxTokens, RxBytes;
    if transfers[i].Tx? {
      TxByBytes(transfers[i].bytes, answers, taken);
      TxByBytes(transfers[i].bytes, answers, taken + 1);
    }
  }
}
