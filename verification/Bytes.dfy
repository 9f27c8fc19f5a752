/** Bytes, optional values and the little-endian numbers of the wire formats. */
module Bytes {
  type byte = x: int | 0 <= x < 256

  datatype Option<+T> = None | Some(value: T)

  const TWO_32: int := 0x1_0000_0000

  /** The four bytes of a 32-bit word, least significant first. */
  function LE32(n: nat): (s: seq<byte>)
    requires n < TWO_32
    ensures |s| == 4
  {
    [n % 256, (n / 0x100) % 256, (n / 0x1_0000) % 256, n / 0x100_0000]
  }

  /** The word held in the first four bytes. */
  function UnLE32(s: seq<byte>): (n: nat)
    requires |s| >= 4
    ensures n < TWO_32
  {
    s[0] as int + 0x100 * s[1] as int + 0x1_0000 * s[2] as int + 0x100_0000 * s[3] as int
  }

  lemma LE32RoundTrip(n: nat, rest: seq<byte>)
    requires n < TWO_32
    ensures UnLE32(LE32(n) + rest) == n
    ensures (LE32(n) + rest)[4..] == rest
  {
    var s := LE32(n) + rest;
    assert s[0] == n % 256 && s[1] == (n / 0x100) % 256 && s[2] == (n / 0x1_0000) % 256 && s[3] == n / 0x100_0000;
    assert n / 0x100 == 0x100 * (n / 0x1_0000) + (n / 0x100) % 256;
  }

  /** A 16-bit number, least significant byte first. */
  function LE16(n: nat): (s: seq<byte>)
    requires n < 0x1_0000
    ensures |s| == 2
  {
    [n % 0x100, n / 0x100]
  }

  function UnLE16(s: seq<byte>): (n: nat)
    requires |s| == 2
    ensures n < 0x1_0000
  {
    s[0] as int + 0x100 * s[1] as int
  }

  lemma LE16RoundTrip(n: nat, s: seq<byte>)
    requires n < 0x1_0000 && |s| == 2
    ensures UnLE16(LE16(n)) == n && LE16(UnLE16(s)) == s
  {
  }

  /** Numbers below 256 as eight bits, and back. */
  function ToByte(n: nat): bv8
    requires n < 256
  {
    var low, high := n % 16, n / 16;
    Packed(Digit(low, 1), Digit(low, 2), Digit(low, 4), Digit(low, 8),
           Digit(high, 1), Digit(high, 2), Digit(high, 4), Digit(high, 8))
  }

  /** A binary digit of a number below 16. */
  predicate Digit(n: nat, place: nat)
    requires n < 16
  {
    if place == 8 then n >= 8
    else if place == 4 then n % 8 >= 4
    else if place == 2 then n % 4 >= 2
    else n % 2 == 1
  }

  function BitIf(isSet: bool, mask: bv8): bv8 {
    if isSet then mask else 0
  }

  function Packed(b0: bool, b1: bool, b2: bool, b3: bool, b4: bool, b5: bool, b6: bool, b7: bool): bv8 {
    BitIf(b0, 1) | BitIf(b1, 2) | BitIf(b2, 4) | BitIf(b3, 8) | BitIf(b4, 0x10) | BitIf(b5, 0x20) | BitIf(b6, 0x40)
    | BitIf(b7, 0x80)
  }

  function Weight(b: bv8, mask: bv8, weight: nat): (w: nat)
    ensures w <= weight
  {
    if b & mask != 0 then weight else 0
  }

  function ToNat(b: bv8): (n: nat)
    ensures n < 256
  {
    Weight(b, 1, 1) + Weight(b, 2, 2) + Weight(b, 4, 4) + Weight(b, 8, 8)
    + 16 * (Weight(b, 0x10, 1) + Weight(b, 0x20, 2) + Weight(b, 0x40, 4) + Weight(b, 0x80, 8))
  }

  lemma BitsOfPacked(b0: bool, b1: bool, b2: bool, b3: bool, b4: bool, b5: bool, b6: bool, b7: bool)
    ensures var b := Packed(b0, b1, b2, b3, b4, b5, b6, b7);
            && (b & 1 != 0) == b0 && (b & 2 != 0) == b1 && (b & 4 != 0) == b2 && (b & 8 != 0) == b3
            && (b & 0x10 != 0) == b4 && (b & 0x20 != 0) == b5 && (b & 0x40 != 0) == b6 && (b & 0x80 != 0) == b7
  {
  }

  lemma BinaryDigits(n: nat)
    requires n < 16
    ensures n == (if Digit(n, 1) then 1 else 0) + (if Digit(n, 2) then 2 else 0) + (if Digit(n, 4) then 4 else 0)
                 + if Digit(n, 8) then 8 else 0
  {
  }

  lemma ToNatOfDigits(b: bv8, low: nat, high: nat)
    requires low < 16 && high < 16
    requires (b & 1 != 0) == Digit(low, 1) && (b & 2 != 0) == Digit(low, 2)
    requires (b & 4 != 0) == Digit(low, 4) && (b & 8 != 0) == Digit(low, 8)
    requires (b & 0x10 != 0) == Digit(high, 1) && (b & 0x20 != 0) == Digit(high, 2)
    requires (b & 0x40 != 0) == Digit(high, 4) && (b & 0x80 != 0) == Digit(high, 8)
    ensures ToNat(b) == low + 16 * high
  {
    hide Digit;
    BinaryDigits(low);
    BinaryDigits(high);
  }

  lemma ToByteKeeps(n: nat)
    requires n < 256
    ensures ToNat(ToByte(n)) == n
  {
    hide Packed, Digit, ToNat;
    var low, high := n % 16, n / 16;
    BitsOfPacked(Digit(low, 1), Digit(low, 2), Digit(low, 4), Digit(low, 8),
                 Digit(high, 1), Digit(high, 2), Digit(high, 4), Digit(high, 8));
    ToNatOfDigits(ToByte(n), low, high);
  }

  /** A slice of a slice. */
  lemma SliceOfSlice<T>(s: seq<T>, a: nat, b: nat, c: nat, d: nat)
    requires a + d <= b <= |s| && c <= d
    ensures s[a..b][c..d] == s[a + c..a + d]
  {
    var l, r := s[a..b][c..d], s[a + c..a + d];
    forall i | 0 <= i < d - c ensures l[i] == r[i] {
      assert s[a..b][c + i] == s[a + c + i];
    }
  }

  /** A slice of a suffix. */
  lemma SliceOfDrop<T>(s: seq<T>, a: nat, c: nat, d: nat)
    requires a + d <= |s| && c <= d
    ensures s[a..][c..d] == s[a + c..a + d]
    ensures s[a..][c..] == s[a + c..]
  {
    SliceOfSlice(s, a, |s|, c, d);
    SliceOfSlice(s, a, |s|, c, |s| - a);
    assert s[a..] == s[a..|s|] && s[a + c..] == s[a + c..|s|];
    assert s[a..][c..] == s[a..][c..|s| - a];
  }

  lemma Regroup<T>(a: seq<T>, b: seq<T>, c: seq<T>)
    ensures a + (b + c) == (a + b) + c
  {
  }

  /** The pieces of a list, one after the other. */
  function Concat<T>(pieces: seq<seq<T>>): seq<T> {
    if pieces == [] then [] else pieces[0] + Concat(pieces[1..])
  }

  lemma {:induction false} ConcatLast<T>(pieces: seq<seq<T>>, s: seq<T>)
    ensures Concat(pieces + [s]) == Concat(pieces) + s
  {
    if pieces == [] {
      assert pieces + [s] == [s] && Concat([s]) == s + Concat([]);
    } else {
      assert (pieces + [s])[1..] == pieces[1..] + [s];
      ConcatLast(pieces[1..], s);
    }
  }
}
