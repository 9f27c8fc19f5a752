/**
 The checksum of fd_crc16.c: its unmasked 32-bit loop, the remainder of a division by x^16 + x^12 + x^5 + 1 that the loop
 computes, and the errors that the remainder always shows.
*/
module Crc16 {
  type Bits = seq<bool>

  // ---------------------------------------------------------------- one bit

  const GENERATOR: bv16 := 0x1021

  function Sum(x: bv16, y: bv16): bv16 {
    x ^ y
  }

  function Up(r: bv16): bv16 {
    r << 1
  }

  predicate High(r: bv16) {
    r & 0x8000 != 0
  }

  /** The register moves up by one place; what falls off the top comes back as the polynomial. */
  function Shift(r: bv16): bv16 {
    if High(r) then Sum(Up(r), GENERATOR) else Up(r)
  }

  function Top(b: bool): bv16 {
    if b then 0x8000 else 0
  }

  /** Feeding a bit: it is added at the top. */
  function Feed(r: bv16, b: bool): bv16 {
    Shift(Sum(r, Top(b)))
  }

  /** The remainder of a bit string, most significant bit first, after a remainder `r`. */
  function FeedAll(r: bv16, bits: Bits): bv16
    decreases |bits|
  {
    if bits == [] then r else FeedAll(Feed(r, bits[0]), bits[1..])
  }

  function Remainder(bits: Bits): bv16 {
    FeedAll(0, bits)
  }

  lemma {:induction false} FeedAllSplits(r: bv16, a: Bits, b: Bits)
    ensures FeedAll(r, a + b) == FeedAll(FeedAll(r, a), b)
    decreases |a|
  {
    hide Feed;
    if a == [] {
      assert a + b == b;
    } else {
      assert (a + b)[0] == a[0] && (a + b)[1..] == a[1..] + b;
      FeedAllSplits(Feed(r, a[0]), a[1..], b);
    }
  }

  // ---------------------------------------------------------------- linearity

  function XorBits(a: Bits, b: Bits): (c: Bits)
    requires |a| == |b|
    ensures |c| == |a| && forall i :: 0 <= i < |c| ==> c[i] == (a[i] != b[i])
  {
    seq(|a|, i requires 0 <= i < |a| => a[i] != b[i])
  }

  lemma SumLaws(x: bv16, y: bv16, s: bv16, t: bv16)
    ensures Sum(Sum(x, y), Sum(s, t)) == Sum(Sum(x, s), Sum(y, t))
    ensures Sum(x, y) == Sum(y, x) && Sum(Sum(x, y), s) == Sum(x, Sum(y, s))
    ensures Sum(x, x) == 0 && Sum(x, 0) == x
  {
  }

  lemma UpIsLinear(x: bv16, y: bv16)
    ensures Up(Sum(x, y)) == Sum(Up(x), Up(y))
  {
    assert (x ^ y) << 1 == (x << 1) ^ (y << 1);
  }

  lemma HighIsLinear(x: bv16, y: bv16)
    ensures High(Sum(x, y)) <==> High(x) != High(y)
  {
    assert (x ^ y) & 0x8000 != 0 <==> (x & 0x8000 != 0) != (y & 0x8000 != 0);
  }

  lemma ShiftIsLinear(x: bv16, y: bv16)
    ensures Shift(Sum(x, y)) == Sum(Shift(x), Shift(y))
  {
    hide Sum, Up, High;
    UpIsLinear(x, y);
    HighIsLinear(x, y);
    SumLaws(Up(x), Up(y), GENERATOR, GENERATOR);
    SumLaws(Up(x), GENERATOR, Up(y), 0);
    SumLaws(Up(x), Up(y), GENERATOR, 0);
    SumLaws(Sum(Up(x), Up(y)), 0, 0, 0);
    SumLaws(GENERATOR, GENERATOR, 0, 0);
    SumLaws(Up(y), GENERATOR, 0, 0);
  }

  lemma TopIsLinear(a: bool, b: bool)
    ensures Top(a != b) == Sum(Top(a), Top(b))
  {
  }

  lemma FeedIsLinear(x: bv16, y: bv16, a: bool, b: bool)
    ensures Feed(Sum(x, y), a != b) == Sum(Feed(x, a), Feed(y, b))
  {
    hide Shift, Sum, Top;
    ShiftIsLinear(Sum(x, Top(a)), Sum(y, Top(b)));
    TopIsLinear(a, b);
    SumLaws(x, y, Top(a), Top(b));
  }

  /** The remainder is linear over exclusive or. */
  lemma {:induction false} RemainderIsLinear(x: bv16, y: bv16, a: Bits, b: Bits)
    requires |a| == |b|
    ensures FeedAll(Sum(x, y), XorBits(a, b)) == Sum(FeedAll(x, a), FeedAll(y, b))
    decreases |a|
  {
    hide Feed, Sum;
    if a == [] {
    } else {
      FeedIsLinear(x, y, a[0], b[0]);
      assert XorBits(a, b)[1..] == XorBits(a[1..], b[1..]);
      RemainderIsLinear(Feed(x, a[0]), Feed(y, b[0]), a[1..], b[1..]);
    }
  }

  // ---------------------------------------------------------------- it is the remainder of a division

  /** x^16 + x^12 + x^5 + 1 */
  const POLYNOMIAL: Bits :=
    [true, false, false, false, true, false, false, false, false, false, false, true, false, false, false, false, true]

  function Zeros(n: nat): (z: Bits)
    ensures |z| == n && forall i :: 0 <= i < n ==> !z[i]
  {
    seq(n, _ => false)
  }

  /** The product of a bit string and the polynomial. */
  function Times(q: Bits): (product: Bits)
    ensures |product| == |q| + 16
  {
    if q == [] then Zeros(16)
    else
      var n := |q| - 1;
      XorBits(Times(q[..n]) + [false], Zeros(n) + if q[n] then POLYNOMIAL else Zeros(17))
  }

  const MASKS: seq<bv16> :=
    [0x8000, 0x4000, 0x2000, 0x1000, 0x800, 0x400, 0x200, 0x100, 0x80, 0x40, 0x20, 0x10, 8, 4, 2, 1]

  function Masked(r: bv16, mask: bv16): bool {
    r & mask != 0
  }

  function BitOf(r: bv16, i: nat): bool
    requires i < 16
  {
    Masked(r, MASKS[i])
  }

  function BitsOf(r: bv16): (bits: Bits)
    ensures |bits| == 16 && forall i :: 0 <= i < 16 ==> bits[i] == BitOf(r, i)
  {
    seq(16, i requires 0 <= i < 16 => BitOf(r, i))
  }

  /** The bits fed back are the quotient. */
  function Quotient(bits: Bits): (q: Bits)
    ensures |q| == |bits|
  {
    if bits == [] then []
    else
      var n := |bits| - 1;
      Quotient(bits[..n]) + [BitOf(Remainder(bits[..n]), 0) != bits[n]]
  }

  lemma MaskedUp(x: bv16, m: bv16)
    ensures Masked(Up(x), m) == Masked(x, m >> 1)
  {
    assert (x << 1) & m == (x & (m >> 1)) << 1;
    NothingLost(x, m);
  }

  lemma NothingLost(x: bv16, m: bv16)
    ensures (x & (m >> 1)) << 1 == 0 <==> x & (m >> 1) == 0
  {
  }

  lemma MaskedSum(x: bv16, y: bv16, m: bv16)
    requires m & (m - 1) == 0
    ensures Masked(Sum(x, y), m) == (Masked(x, m) != Masked(y, m))
  {
    assert ((x ^ y) & m != 0) <==> (x & m != 0) != (y & m != 0);
  }

  lemma MaskAt(i: nat)
    requires i < 16
    ensures MASKS[i] & (MASKS[i] - 1) == 0
    ensures i < 15 ==> MASKS[i] >> 1 == MASKS[i + 1]
  {
  }

  lemma BitsMove(x: bv16, y: bv16, i: nat)
    requires i < 16
    ensures BitOf(Sum(x, y), i) == (BitOf(x, i) != BitOf(y, i))
    ensures BitOf(Up(x), i) == if i < 15 then BitOf(x, i + 1) else false
  {
    hide Masked;
    MaskAt(i);
    MaskedSum(x, y, MASKS[i]);
    MaskedUp(x, MASKS[i]);
    NoMask(x);
  }

  lemma NoMask(x: bv16)
    ensures !Masked(x, MASKS[15] >> 1)
  {
    assert MASKS[15] >> 1 == 0;
    assert x & 0 == 0;
  }

  lemma TopBits(b: bool, i: nat)
    requires i < 16
    ensures BitOf(Top(b), i) == (b && i == 0)
  {
  }

  lemma GeneratorBits(i: nat)
    requires i < 16
    ensures BitOf(GENERATOR, i) == POLYNOMIAL[i + 1]
  {
  }

  /** The register after one more bit, bit by bit. */
  lemma FedBit(r: bv16, b: bool, i: nat)
    requires i < 16
    ensures BitOf(Feed(r, b), i) ==
            ((if i < 15 then BitOf(r, i + 1) else false) != (BitOf(r, 0) != b && POLYNOMIAL[i + 1]))
  {
    hide BitOf, Sum, Up, Top;
    var x := Sum(r, Top(b));
    HighBit(x);
    BitsMove(r, Top(b), 0);
    TopBits(b, 0);
    BitsMove(x, 0, i);
    BitsMove(Up(x), GENERATOR, i);
    GeneratorBits(i);
    if i < 15 {
      BitsMove(r, Top(b), i + 1);
      TopBits(b, i + 1);
    }
  }

  lemma HighBit(x: bv16)
    ensures High(x) == BitOf(x, 0)
  {
  }

  lemma RemainderGrows(bits: Bits)
    requires bits != []
    ensures Remainder(bits) == Feed(Remainder(bits[..|bits| - 1]), bits[|bits| - 1])
  {
    hide Feed;
    var n := |bits| - 1;
    assert bits == bits[..n] + [bits[n]];
    FeedAllSplits(0, bits[..n], [bits[n]]);
  }

  /**
   The register is the remainder: a message followed by sixteen zeros is a multiple of the polynomial plus what the
   register holds, over the two-element field.
  */
  lemma {:induction false} DivisionWithRemainder(bits: Bits)
    ensures bits + Zeros(16) == XorBits(Times(Quotient(bits)), Zeros(|bits|) + BitsOf(Remainder(bits)))
    decreases |bits|
  {
    hide Feed, BitOf, Times;
    if bits == [] {
      forall i | 0 <= i < 16 ensures !BitOf(0, i) {
        NoBits(i);
      }
      TimesNothing();
    } else {
      var n := |bits| - 1;
      var m, b := bits[..n], bits[n];
      var q, r := Quotient(m), Remainder(m);
      DivisionWithRemainder(m);
      RemainderGrows(bits);
      var f := BitOf(r, 0) != b;
      assert Quotient(bits) == q + [f];
      TimesGrows(q, f);
      assert bits == m + [b];
      DivisionStep(m, b, q, r);
    }
  }

  lemma TimesNothing()
    ensures Times([]) == Zeros(16)
  {
  }

  lemma TimesGrows(q: Bits, f: bool)
    ensures Times(q + [f]) == XorBits(Times(q) + [false], Zeros(|q|) + if f then POLYNOMIAL else Zeros(17))
  {
    assert (q + [f])[..|q|] == q;
  }

  lemma DivisionStep(m: Bits, b: bool, q: Bits, r: bv16)
    requires |q| == |m| && m + Zeros(16) == XorBits(Times(q), Zeros(|m|) + BitsOf(r))
    ensures var f := BitOf(r, 0) != b;
            (m + [b]) + Zeros(16) ==
            XorBits(XorBits(Times(q) + [false], Zeros(|m|) + if f then POLYNOMIAL else Zeros(17)),
                    Zeros(|m| + 1) + BitsOf(Feed(r, b)))
  {
    hide Feed, BitOf, Times;
    forall i | 0 <= i < |m| + 17
      ensures var f := BitOf(r, 0) != b;
              (m + [b] + Zeros(16))[i] ==
              (((Times(q) + [false])[i] != (Zeros(|m|) + if f then POLYNOMIAL else Zeros(17))[i])
               != (Zeros(|m| + 1) + BitsOf(Feed(r, b)))[i])
    {
      DivisionAt(m, b, q, r, i);
    }
  }

  lemma NoBits(i: nat)
    requires i < 16
    ensures !BitOf(0, i)
  {
    assert 0 & MASKS[i] == 0;
  }

  lemma DivisionAt(m: Bits, b: bool, q: Bits, r: bv16, i: nat)
    requires |q| == |m| && m + Zeros(16) == XorBits(Times(q), Zeros(|m|) + BitsOf(r)) && i < |m| + 17
    ensures var f := BitOf(r, 0) != b;
            (m + [b] + Zeros(16))[i] ==
            (((Times(q) + [false])[i] != (Zeros(|m|) + if f then POLYNOMIAL else Zeros(17))[i])
             != (Zeros(|m| + 1) + BitsOf(Feed(r, b)))[i])
  {
    hide Feed, BitOf, Times;
    var n := |m|;
    if i < n + 16 {
      assert (m + Zeros(16))[i] == (Times(q)[i] != (Zeros(n) + BitsOf(r))[i]);
    }
    if i > n {
      FedBit(r, b, i - n - 1);
    }
  }

  // ---------------------------------------------------------------- the loop

  /** The register after `n` bits without adding anything. */
  function ShiftAll(r: bv16, n: nat): bv16
    decreases n
  {
    if n == 0 then r else ShiftAll(Shift(r), n - 1)
  }

  function Down(r: bv16): bv16 {
    r >> 1
  }

  /** Bits placed at the top of a register. */
  function AtTop(bits: Bits): bv16
    decreases |bits|
  {
    if bits == [] then 0 else Sum(Top(bits[0]), Down(AtTop(bits[1..])))
  }

  lemma MaskedDown(x: bv16, m: bv16)
    ensures Masked(Down(x), m) == Masked(x, m << 1)
  {
    assert (x >> 1) & m == (x & (m << 1)) >> 1;
    NothingLostBelow(x, m);
  }

  lemma NothingLostBelow(x: bv16, m: bv16)
    ensures (x & (m << 1)) >> 1 == 0 <==> x & (m << 1) == 0
  {
  }

  lemma MaskAbove(i: nat)
    requires i < 16
    ensures i > 0 ==> MASKS[i] << 1 == MASKS[i - 1]
    ensures MASKS[0] << 1 == 0
  {
  }

  lemma BitsDown(x: bv16, i: nat)
    requires i < 16
    ensures BitOf(Down(x), i) == (i > 0 && BitOf(x, i - 1))
  {
    hide Masked;
    MaskAbove(i);
    MaskedDown(x, MASKS[i]);
    NoMaskAbove(x);
  }

  lemma NoMaskAbove(x: bv16)
    ensures !Masked(x, 0)
  {
    assert x & 0 == 0;
  }

  lemma {:induction false} BitsAtTop(bits: Bits, i: nat)
    requires |bits| <= 16 && i < 16
    ensures BitOf(AtTop(bits), i) == (i < |bits| && bits[i])
    decreases |bits|
  {
    hide BitOf, Sum, Top;
    if bits == [] {
      NoBits(i);
    } else {
      BitsMove(Top(bits[0]), Down(AtTop(bits[1..])), i);
      TopBits(bits[0], i);
      BitsDown(AtTop(bits[1..]), i);
      if i > 0 {
        BitsAtTop(bits[1..], i - 1);
      }
    }
  }

  /** Bits can all be added first and shifted afterwards. */
  lemma {:induction false} FeedByShifting(r: bv16, bits: Bits)
    requires |bits| <= 16
    ensures FeedAll(r, bits) == ShiftAll(Sum(r, AtTop(bits)), |bits|)
    decreases |bits|
  {
    hide Sum, Shift, Top, Down, BitOf;
    if bits == [] {
      SumLaws(r, 0, 0, 0);
    } else {
      var x, y := Sum(r, Top(bits[0])), AtTop(bits[1..]);
      FeedByShifting(Feed(r, bits[0]), bits[1..]);
      SumLaws(r, Top(bits[0]), Down(y), 0);
      BitsAtTop(bits[1..], 15);
      ShiftDelayed(x, y);
    }
  }

  lemma ShiftDelayed(x: bv16, y: bv16)
    requires !BitOf(y, 15)
    ensures Shift(Sum(x, Down(y))) == Sum(Shift(x), y)
  {
    hide Sum, Up, High, Down;
    ShiftIsLinear(x, Down(y));
    DownAndUp(y);
  }

  lemma DownAndUp(y: bv16)
    requires !BitOf(y, 15)
    ensures !High(Down(y)) && Up(Down(y)) == y
  {
    LowestBit(y);
    hide BitOf;
    DownUp(y);
    NeverHigh(y);
  }

  lemma LowestBit(y: bv16)
    ensures BitOf(y, 15) <==> y & 1 != 0
  {
  }

  lemma DownUp(y: bv16)
    requires y & 1 == 0
    ensures Up(Down(y)) == y
  {
    ShiftedBack(y);
  }

  lemma ShiftedBack(y: bv16)
    requires y & 1 == 0
    ensures (y >> 1) << 1 == y
  {
  }

  lemma NeverHigh(y: bv16)
    ensures !High(Down(y))
  {
    assert (y >> 1) & 0x8000 == 0;
  }

  // ---------------------------------------------------------------- errors that always show

  lemma ShiftKeepsNonzero(r: bv16)
    requires r != 0
    ensures Shift(r) != 0
  {
    assert (r << 1) ^ 0x1021 != 0;
    assert r & 0x8000 == 0 ==> r << 1 != 0;
  }

  lemma {:induction false} ShiftAllKeepsNonzero(r: bv16, n: nat)
    requires r != 0
    ensures ShiftAll(r, n) != 0
    decreases n
  {
    hide Shift;
    if n == 0 {
    } else {
      ShiftKeepsNonzero(r);
      ShiftAllKeepsNonzero(Shift(r), n - 1);
    }
  }

  lemma {:induction false} FeedZeros(r: bv16, bits: Bits)
    requires forall i :: 0 <= i < |bits| ==> !bits[i]
    ensures FeedAll(r, bits) == ShiftAll(r, |bits|)
    decreases |bits|
  {
    hide Shift;
    if bits == [] {
    } else {
      assert Feed(r, bits[0]) == Shift(r) by {
        SumLaws(r, 0, 0, 0);
      }
      FeedZeros(Shift(r), bits[1..]);
    }
  }

  lemma {:induction false} ShiftAllOfZero(n: nat)
    ensures ShiftAll(0, n) == 0
    decreases n
  {
    if n == 0 {
    } else {
      assert Shift(0) == 0;
      ShiftAllOfZero(n - 1);
    }
  }

  /** A single burst of up to sixteen bits leaves a remainder, wherever it is in however long a string. */
  lemma BurstRemainder(bits: Bits, i: nat, k: nat)
    requires k < |bits| && bits[k]
    requires forall j :: 0 <= j < |bits| && bits[j] ==> i <= j < i + 16
    ensures Remainder(bits) != 0
  {
    hide Feed, Shift, Sum, BitOf;
    var e := if i + 16 < |bits| then i + 16 else |bits|;
    var before, burst, after := bits[..i], bits[i..e], bits[e..];
    assert bits == before + burst + after;
    FeedAllSplits(0, before + burst, after);
    FeedAllSplits(0, before, burst);
    FeedZeros(0, before);
    ShiftAllOfZero(|before|);
    FeedByShifting(0, burst);
    SumLaws(AtTop(burst), 0, 0, 0);
    BitsAtTop(burst, k - i);
    NoBits(k - i);
    ShiftAllKeepsNonzero(AtTop(burst), |burst|);
    FeedZeros(FeedAll(0, burst), after);
    ShiftAllKeepsNonzero(FeedAll(0, burst), |after|);
  }

  // ---------------------------------------------------------------- bytes

  const BYTE_MASKS: seq<bv8> := [0x80, 0x40, 0x20, 0x10, 8, 4, 2, 1]

  function BitOfByte(b: bv8, i: nat): bool
    requires i < 8
  {
    b & BYTE_MASKS[i] != 0
  }

  function ByteBits(b: bv8): (bits: Bits)
    ensures |bits| == 8 && forall i :: 0 <= i < 8 ==> bits[i] == BitOfByte(b, i)
  {
    seq(8, i requires 0 <= i < 8 => BitOfByte(b, i))
  }

  function DataBits(data: seq<bv8>): (bits: Bits)
    ensures |bits| == 8 * |data|
  {
    if data == [] then [] else DataBits(data[..|data| - 1]) + ByteBits(data[|data| - 1])
  }

  function Checksum(data: seq<bv8>): bv16 {
    Remainder(DataBits(data))
  }

  lemma ByteHasBits(a: bv8, b: bv8)
    requires forall i :: 0 <= i < 8 ==> BitOfByte(a, i) == BitOfByte(b, i)
    ensures a == b
  {
    assert BitOfByte(a, 0) == BitOfByte(b, 0) && BitOfByte(a, 1) == BitOfByte(b, 1);
    assert BitOfByte(a, 2) == BitOfByte(b, 2) && BitOfByte(a, 3) == BitOfByte(b, 3);
    assert BitOfByte(a, 4) == BitOfByte(b, 4) && BitOfByte(a, 5) == BitOfByte(b, 5);
    assert BitOfByte(a, 6) == BitOfByte(b, 6) && BitOfByte(a, 7) == BitOfByte(b, 7);
  }

  lemma {:induction false} DataHasBits(a: seq<bv8>, b: seq<bv8>)
    requires |a| == |b| && DataBits(a) == DataBits(b)
    ensures a == b
    decreases |a|
  {
    hide BitOfByte;
    if a == [] {
    } else {
      var n := |a| - 1;
      var x, y := ByteBits(a[n]), ByteBits(b[n]);
      assert DataBits(a)[..8 * n] == DataBits(a[..n]) && DataBits(b)[..8 * n] == DataBits(b[..n]);
      assert DataBits(a)[8 * n..] == x && DataBits(b)[8 * n..] == y;
      DataHasBits(a[..n], b[..n]);
      forall i | 0 <= i < 8 ensures BitOfByte(a[n], i) == BitOfByte(b[n], i) {
        assert x[i] == y[i];
      }
      ByteHasBits(a[n], b[n]);
      assert a == a[..n] + [a[n]] && b == b[..n] + [b[n]];
    }
  }

  /** Byte strings of one length whose bits differ only inside sixteen consecutive ones have different checksums. */
  lemma BurstsAreDetected(a: seq<bv8>, b: seq<bv8>, i: nat)
    requires |a| == |b| && a != b
    requires forall j :: 0 <= j < 8 * |a| && DataBits(a)[j] != DataBits(b)[j] ==> i <= j < i + 16
    ensures Checksum(a) != Checksum(b)
  {
    hide FeedAll, DataBits, Sum;
    var x, y := DataBits(a), DataBits(b);
    if x == y {
      DataHasBits(a, b);
    }
    var k :| 0 <= k < |x| && x[k] != y[k];
    BurstRemainder(XorBits(x, y), i, k);
    RemainderIsLinear(0, 0, x, y);
    SumLaws(0, 0, 0, 0);
    SumLaws(Checksum(a), 0, 0, 0);
  }

  // ---------------------------------------------------------------- the C loop

  /** The sixteen bits that are returned of a 32-bit register. */
  function Low(crc: bv32): bv16 {
    (crc & 0xffff) as bv16
  }

  /** One turn of the inner loop; the bits that move above the sixteenth are never cleared. */
  function WideShift(crc: bv32): bv32 {
    if crc & 0x8000 != 0 then (crc << 1) ^ 0x1021 else crc << 1
  }

  function Widen(b: bv8): bv32 {
    b as bv32
  }

  lemma WideShiftIsShift(crc: bv32)
    ensures Low(WideShift(crc)) == Shift(Low(crc))
  {
    hide Low, High, Up, Sum;
    LowOf(crc);
    LowOfGenerator(crc << 1);
  }

  lemma LowOf(crc: bv32)
    ensures High(Low(crc)) <==> crc & 0x8000 != 0
    ensures Low(crc << 1) == Up(Low(crc))
  {
    LowIsLow(crc);
  }

  lemma LowIsLow(crc: bv32)
    ensures (crc & 0xffff) as bv16 & 0x8000 != 0 <==> crc & 0x8000 != 0
    ensures ((crc << 1) & 0xffff) as bv16 == ((crc & 0xffff) as bv16) << 1
  {
  }

  lemma LowOfGenerator(crc: bv32)
    ensures Low(crc ^ 0x1021) == Sum(Low(crc), GENERATOR)
  {
    assert ((crc ^ 0x1021) & 0xffff) as bv16 == (crc & 0xffff) as bv16 ^ 0x1021;
  }

  lemma WideSum(crc: bv32, b: bv8)
    ensures Low(crc ^ (Widen(b) << 8)) == Sum(Low(crc), (b as bv16) << 8)
  {
  }

  lemma ByteAtTop(b: bv8)
    ensures AtTop(ByteBits(b)) == (b as bv16) << 8
  {
    hide BitOf, AtTop;
    forall i | 0 <= i < 16 ensures BitOf(AtTop(ByteBits(b)), i) == BitOf((b as bv16) << 8, i) {
      BitsAtTop(ByteBits(b), i);
      HighByte(b, i);
    }
    RegisterHasBits(AtTop(ByteBits(b)), (b as bv16) << 8);
  }

  lemma HighByte(b: bv8, i: nat)
    requires i < 16
    ensures BitOf((b as bv16) << 8, i) == (i < 8 && BitOfByte(b, i))
  {
  }

  lemma RegisterHasBits(x: bv16, y: bv16)
    requires forall i :: 0 <= i < 16 ==> BitOf(x, i) == BitOf(y, i)
    ensures x == y
  {
    FirstFourBits(x, y);
    SecondFourBits(x, y);
    ThirdFourBits(x, y);
    LastFourBits(x, y);
    QuartersAgree(x, y);
  }

  lemma SameBit(x: bv16, y: bv16, i: nat)
    requires i < 16 && BitOf(x, i) == BitOf(y, i)
    ensures Sum(x, y) & MASKS[i] == 0
  {
    hide Masked, Sum;
    MaskAt(i);
    SameMasked(x, y, MASKS[i]);
  }

  lemma SameMasked(x: bv16, y: bv16, m: bv16)
    requires m & (m - 1) == 0 && Masked(x, m) == Masked(y, m)
    ensures Sum(x, y) & m == 0
  {
    hide Sum;
    MaskedSum(x, y, m);
  }

  lemma FirstFourBits(x: bv16, y: bv16)
    requires forall i :: 0 <= i < 16 ==> BitOf(x, i) == BitOf(y, i)
    ensures Sum(x, y) & 0xf000 == 0
  {
    hide BitOf, Sum;
    SameBit(x, y, 0);
    SameBit(x, y, 1);
    SameBit(x, y, 2);
    SameBit(x, y, 3);
    FirstFour(Sum(x, y));
  }

  lemma FirstFour(z: bv16)
    requires z & 0x8000 == 0 && z & 0x4000 == 0 && z & 0x2000 == 0 && z & 0x1000 == 0
    ensures z & 0xf000 == 0
  {
  }

  lemma SecondFourBits(x: bv16, y: bv16)
    requires forall i :: 0 <= i < 16 ==> BitOf(x, i) == BitOf(y, i)
    ensures Sum(x, y) & 0xf00 == 0
  {
    hide BitOf, Sum;
    SameBit(x, y, 4);
    SameBit(x, y, 5);
    SameBit(x, y, 6);
    SameBit(x, y, 7);
    SecondFour(Sum(x, y));
  }

  lemma SecondFour(z: bv16)
    requires z & 0x800 == 0 && z & 0x400 == 0 && z & 0x200 == 0 && z & 0x100 == 0
    ensures z & 0xf00 == 0
  {
  }

  lemma ThirdFourBits(x: bv16, y: bv16)
    requires forall i :: 0 <= i < 16 ==> BitOf(x, i) == BitOf(y, i)
    ensures Sum(x, y) & 0xf0 == 0
  {
    hide BitOf, Sum;
    SameBit(x, y, 8);
    SameBit(x, y, 9);
    SameBit(x, y, 10);
    SameBit(x, y, 11);
    ThirdFour(Sum(x, y));
  }

  lemma ThirdFour(z: bv16)
    requires z & 0x80 == 0 && z & 0x40 == 0 && z & 0x20 == 0 && z & 0x10 == 0
    ensures z & 0xf0 == 0
  {
  }

  lemma LastFourBits(x: bv16, y: bv16)
    requires forall i :: 0 <= i < 16 ==> BitOf(x, i) == BitOf(y, i)
    ensures Sum(x, y) & 0xf == 0
  {
    hide BitOf, Sum;
    SameBit(x, y, 12);
    SameBit(x, y, 13);
    SameBit(x, y, 14);
    SameBit(x, y, 15);
    LastFour(Sum(x, y));
  }

  lemma LastFour(z: bv16)
    requires z & 8 == 0 && z & 4 == 0 && z & 2 == 0 && z & 1 == 0
    ensures z & 0xf == 0
  {
  }

  lemma QuartersAgree(x: bv16, y: bv16)
    requires (x ^ y) & 0xf000 == 0 && (x ^ y) & 0xf00 == 0 && (x ^ y) & 0xf0 == 0 && (x ^ y) & 0xf == 0
    ensures x == y
  {
  }

  lemma ChecksumGrows(data: seq<bv8>, b: bv8)
    ensures Checksum(data + [b]) == ShiftAll(Sum(Checksum(data), (b as bv16) << 8), 8)
  {
    hide FeedAll, ShiftAll, AtTop, BitOfByte, Sum;
    assert (data + [b])[..|data|] == data;
    FeedAllSplits(0, DataBits(data), ByteBits(b));
    FeedByShifting(Checksum(data), ByteBits(b));
    ByteAtTop(b);
  }

  lemma {:induction false} ShiftOneMore(r: bv16, n: nat)
    ensures ShiftAll(r, n + 1) == Shift(ShiftAll(r, n))
    decreases n
  {
    hide Shift;
    if n == 0 {
    } else {
      ShiftOneMore(Shift(r), n - 1);
    }
  }

  /** The inner loop. */
  method ShiftByte(start: bv32) returns (crc: bv32)
    ensures Low(crc) == ShiftAll(Low(start), 8)
  {
    hide Low, Shift;
    crc := start;
    for j := 0 to 8
      invariant Low(crc) == ShiftAll(Low(start), j)
    {
      WideShiftIsShift(crc);
      ShiftOneMore(Low(start), j);
      var temp := crc << 1;
      if crc & 0x8000 != 0 {
        temp := temp ^ 0x1021;
      }
      crc := temp;
    }
  }

  /** `fd_crc16_update`. */
  method Update(data: array<bv8>, length: nat) returns (crc16: bv16)
    requires length <= data.Length
    ensures crc16 == Checksum(data[..length])
  {
    hide Low, Checksum, ShiftAll, Widen;
    var crc: bv32 := 0;
    assert Low(0) == 0 && Checksum([]) == 0 by {
      NothingChecked();
    }
    assert data[..0] == [];
    for i := 0 to length
      invariant Low(crc) == Checksum(data[..i])
    {
      var b := data[i];
      WideSum(crc, b);
      ChecksumGrows(data[..i], b);
      assert data[..i + 1] == data[..i] + [b];
      crc := ShiftByte(crc ^ (Widen(b) << 8));
    }
    crc16 := Low(crc);
  }

  lemma NothingChecked()
    ensures Low(0) == 0 && Checksum([]) == 0
  {
  }

  // ---------------------------------------------------------------- the check value

  function ByteStep(r: bv16, b: bv8): bv16 {
    var x := Sum(r, (b as bv16) << 8);
    Shift(Shift(Shift(Shift(Shift(Shift(Shift(Shift(x))))))))
  }

  lemma ShiftEight(r: bv16)
    ensures ShiftAll(r, 8) == Shift(Shift(Shift(Shift(Shift(Shift(Shift(Shift(r))))))))
  {
    hide Shift;
    var r1, r2, r3 := Shift(r), Shift(Shift(r)), Shift(Shift(Shift(r)));
    var r4 := Shift(r3);
    assert ShiftAll(r4, 4) == Shift(Shift(Shift(Shift(r4))));
    assert ShiftAll(r, 8) == ShiftAll(r1, 7) == ShiftAll(r2, 6) == ShiftAll(r3, 5) == ShiftAll(r4, 4);
  }

  const DIGITS: seq<bv8> := [0x31, 0x32, 0x33, 0x34, 0x35, 0x36, 0x37, 0x38, 0x39]

  lemma NextDigit(k: nat, before: bv16, after: bv16)
    requires k < 9 && Checksum(DIGITS[..k]) == before && ByteStep(before, DIGITS[k]) == after
    ensures Checksum(DIGITS[..k + 1]) == after
  {
    hide Checksum, ShiftAll, Shift, Sum;
    assert DIGITS[..k + 1] == DIGITS[..k] + [DIGITS[k]];
    ChecksumGrows(DIGITS[..k], DIGITS[k]);
    ShiftEight(Sum(before, (DIGITS[k] as bv16) << 8));
  }

  lemma NoDigits()
    ensures Checksum(DIGITS[..0]) == 0
  {
  }

  lemma Digit1()
    ensures ByteStep(0x0000, 0x31) == 0x2672
  {
  }

  lemma Digit2()
    ensures ByteStep(0x2672, 0x32) == 0x20b5
  {
  }

  lemma Digit3()
    ensures ByteStep(0x20b5, 0x33) == 0x9752
  {
  }

  lemma Digit4()
    ensures ByteStep(0x9752, 0x34) == 0xd789
  {
  }

  lemma Digit5()
    ensures ByteStep(0xd789, 0x35) == 0x546c
  {
  }

  lemma Digit6()
    ensures ByteStep(0x546c, 0x36) == 0x20e4
  {
  }

  lemma Digit7()
    ensures ByteStep(0x20e4, 0x37) == 0x86d6
  {
  }

  lemma Digit8()
    ensures ByteStep(0x86d6, 0x38) == 0x9015
  {
  }

  lemma Digit9()
    ensures ByteStep(0x9015, 0x39) == 0x31c3
  {
  }

  /** The check value of this checksum: that of the digits from 1 to 9 is 31c3. */
  lemma CheckValue()
    ensures Checksum(DIGITS) == 0x31c3
  {
    hide Checksum, ByteStep;
    NoDigits();
    Digit1();
    NextDigit(0, 0x0000, 0x2672);
    Digit2();
    NextDigit(1, 0x2672, 0x20b5);
    Digit3();
    NextDigit(2, 0x20b5, 0x9752);
    Digit4();
    NextDigit(3, 0x9752, 0xd789);
    Digit5();
    NextDigit(4, 0xd789, 0x546c);
    Digit6();
    NextDigit(5, 0x546c, 0x20e4);
    Digit7();
    NextDigit(6, 0x20e4, 0x86d6);
    Digit8();
    NextDigit(7, 0x86d6, 0x9015);
    Digit9();
    NextDigit(8, 0x9015, 0x31c3);
    assert DIGITS[..9] == DIGITS;
  }
}
