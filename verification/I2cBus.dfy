/**
 The two lines of an I2C bus, what an observer reads off them under the bus rules (sections 3.1.3 to 3.1.6 of UM10204), and
 the bytes that this adds up to.
*/
module I2cBus {
  import opened Arithmetic
  import opened Bytes
  import opened Bits
  import opened BitPacker

  // ---------------------------------------------------------------- lines

  /** The master moves the clock or its side of the data line; the slave moves its own side. */
  datatype Event = Scl(level: bool) | Sda(level: bool) | Slave(level: bool)

  datatype Symbol = Start | Stop | Bit(bit: bool)

  /** The lines and what the observer has seen; a bit is pending from the rise of the clock to its fall. */
  datatype Lines = Lines(scl: bool, sda: bool, slave: bool, pending: Option<bool>, symbols: seq<Symbol>)

  const IDLE := Lines(true, true, true, None, [])

  /** Either side can pull the data line down. */
  predicate Level(l: Lines) {
    l.sda && l.slave
  }

  /** The data line moved: while the clock is high that is a START or a STOP, whatever was meant. */
  function Moved(before: Lines, after: Lines): Lines {
    if !before.scl || Level(before) == Level(after) then after
    else after.(pending := None, symbols := after.symbols + [if Level(before) then Start else Stop])
  }

  function Observe(l: Lines, e: Event): Lines {
    match e
    case Sda(level) => Moved(l, l.(sda := level))
    case Slave(level) => Moved(l, l.(slave := level))
    case Scl(level) =>
      if level == l.scl then l
      else if level then l.(scl := true, pending := Some(Level(l)))
      else
        l.(scl := false, pending := None,
           symbols := l.symbols + if l.pending.Some? then [Bit(l.pending.value)] else [])
  }

  function ObserveAll(l: Lines, events: seq<Event>): Lines
    decreases |events|
  {
    if events == [] then l else Observe(ObserveAll(l, events[..|events| - 1]), events[|events| - 1])
  }

  // ---------------------------------------------------------------- bytes, most significant bit first

  /** The first `n` bits of a byte as it is shifted out. */
  function MsbBits(b: nat, n: nat): (bits: seq<bool>)
    ensures |bits| == n
    decreases n
  {
    if n == 0 then [] else [b >= 0x80] + MsbBits(2 * b % 0x100, n - 1)
  }

  /** The number that bits make as they are shifted in. */
  function FromMsb(bits: seq<bool>): (v: nat)
    ensures v < Pow2(|bits|)
    decreases |bits|
  {
    if bits == [] then 0
    else 2 * FromMsb(bits[..|bits| - 1]) + if bits[|bits| - 1] then 1 else 0
  }

  lemma {:induction false} FromMsbFront(x: bool, s: seq<bool>)
    ensures FromMsb([x] + s) == (if x then Pow2(|s|) else 0) + FromMsb(s)
    decreases |s|
  {
    var all := [x] + s;
    if s == [] {
      assert all[..0] == [] && FromMsb(all[..0]) == 0;
    } else {
      var n := |s| - 1;
      assert all[..n + 1] == [x] + s[..n] && all[n + 1] == s[n];
      FromMsbFront(x, s[..n]);
    }
  }

  lemma {:induction false} MsbRoundTripFrom(b: nat, n: nat, k: nat)
    requires n <= 8 && b < 0x100 && b == k * Pow2(8 - n) && k < Pow2(n)
    ensures FromMsb(MsbBits(b, n)) == k
    decreases n
  {
    if n == 0 {
    } else {
      PowersOfTwo();
      Pow2Adds(n - 1, 9 - n);
      var p, d, x := Pow2(n - 1), Pow2(8 - n), b >= 0x80;
      assert Pow2(9 - n) == 2 * d && p * (2 * d) == 0x100;
      assert p * d == 0x80 by {
        Commute(p, 2 * d);
        Double(d, p);
        Commute(d, p);
      }
      TopBit(k, p, d, b);
      var k' := if x then k - p else k;
      MsbRoundTripFrom(2 * b % 0x100, n - 1, k');
      FromMsbFront(x, MsbBits(2 * b % 0x100, n - 1));
    }
  }

  lemma TopBit(k: nat, p: nat, d: nat, b: nat)
    requires b == k * d && b < 0x100 && p * d == 0x80 && k < 2 * p && d >= 1
    ensures b >= 0x80 <==> k >= p
    ensures 2 * b % 0x100 == (if b >= 0x80 then k - p else k) * (2 * d)
  {
    if k >= p {
      Monotone(p, k, d);
    } else {
      Monotone(k + 1, p, d);
      assert (k + 1) * d == k * d + d;
    }
    Double(d, k);
    Commute(k, 2 * d);
    Commute(k, d);
    if b >= 0x80 {
      assert (k - p) * (2 * d) == k * (2 * d) - p * (2 * d);
      assert p * (2 * d) == 0x100 by {
        Double(d, p);
        Commute(p, 2 * d);
        Commute(p, d);
      }
    }
  }

  lemma MsbRoundTrip(b: byte)
    ensures FromMsb(MsbBits(b, 8)) == b
  {
    PowersOfTwo();
    MsbRoundTripFrom(b, 8, b);
  }

  // ---------------------------------------------------------------- tokens

  datatype Token = StartToken | StopToken | ByteToken(value: byte, acked: bool)

  function BitSymbols(bits: seq<bool>): (symbols: seq<Symbol>)
    ensures |symbols| == |bits| && forall i :: 0 <= i < |bits| ==> symbols[i] == Bit(bits[i])
  {
    seq(|bits|, i requires 0 <= i < |bits| => Bit(bits[i]))
  }

  /** A byte is eight bits and an acknowledgement, which is a low line. */
  function SymbolsOf(token: Token): (symbols: seq<Symbol>)
    ensures symbols != []
  {
    match token
    case StartToken => [Start]
    case StopToken => [Stop]
    case ByteToken(value, acked) => BitSymbols(MsbBits(value, 8)) + [Bit(!acked)]
  }

  function AllSymbols(tokens: seq<Token>): (symbols: seq<Symbol>)
    decreases |tokens|
  {
    if tokens == [] then [] else SymbolsOf(tokens[0]) + AllSymbols(tokens[1..])
  }

  predicate IsByteBits(symbols: seq<Symbol>) {
    |symbols| >= 9 && forall i :: 0 <= i < 9 ==> symbols[i].Bit?
  }

  function EightBits(symbols: seq<Symbol>): (bits: seq<bool>)
    requires IsByteBits(symbols)
    ensures |bits| == 8
  {
    seq(8, i requires 0 <= i < 8 => symbols[i].bit)
  }

  /** What a receiver makes of the symbols; nothing when they do not come in whole bytes. */
  function Tokenize(symbols: seq<Symbol>): Option<seq<Token>>
    decreases |symbols|
  {
    if symbols == [] then Some([])
    else if symbols[0].Start? || symbols[0].Stop? then
      match Tokenize(symbols[1..])
      case None => None
      case Some(more) => Some([if symbols[0].Start? then StartToken else StopToken] + more)
    else if !IsByteBits(symbols) then None
    else
      ByteIsSmall(EightBits(symbols));
      match Tokenize(symbols[9..])
      case None => None
      case Some(more) => Some([ByteToken(FromMsb(EightBits(symbols)), !symbols[8].bit)] + more)
  }

  lemma ByteIsSmall(bits: seq<bool>)
    requires |bits| == 8
    ensures FromMsb(bits) < 256
  {
    PowersOfTwo();
  }

  /** Symbols of whole tokens tokenize to those tokens. */
  lemma {:induction false} TokenizeSymbols(tokens: seq<Token>)
    ensures Tokenize(AllSymbols(tokens)) == Some(tokens)
    decreases |tokens|
  {
    hide MsbBits, FromMsb, Pow2;
    if tokens == [] {
    } else {
      var first, more := SymbolsOf(tokens[0]), AllSymbols(tokens[1..]);
      var all := first + more;
      TokenizeSymbols(tokens[1..]);
      assert all[|first|..] == more && all[..|first|] == first;
      if tokens[0].ByteToken? {
        MsbRoundTrip(tokens[0].value);
        assert forall i :: 0 <= i < 9 ==> all[i] == first[i];
        assert EightBits(all) == MsbBits(tokens[0].value, 8);
      }
      assert tokens == [tokens[0]] + tokens[1..];
    }
  }

  lemma {:induction false} SymbolsAppend(a: seq<Token>, b: seq<Token>)
    ensures AllSymbols(a + b) == AllSymbols(a) + AllSymbols(b)
    decreases |a|
  {
    hide SymbolsOf;
    if a == [] {
      assert a + b == b;
    } else {
      assert (a + b)[0] == a[0] && (a + b)[1..] == a[1..] + b;
      SymbolsAppend(a[1..], b);
    }
  }

  lemma OneToken(token: Token)
    ensures AllSymbols([token]) == SymbolsOf(token)
  {
    assert AllSymbols([]) == [];
    assert SymbolsOf(token) + [] == SymbolsOf(token);
  }
}
