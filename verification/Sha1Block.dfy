/**
 `SHA1_Transform` of sha1.c: sixteen words expanded in place in the block itself, and five registers that change their
 roles from step to step instead of being moved. The eighty macro lines of the C file are a loop here, with the role
 of register k in step t worked out from t as those lines spell it out.
*/
module Sha1Block {
  import opened Sha1

  /** The block as the words a little-endian processor sees. */
  function LittleEndian(a: bv8, b: bv8, c: bv8, d: bv8): word {
    ((d as word) << 24) | ((c as word) << 16) | ((b as word) << 8) | (a as word)
  }

  function WordAt(s: seq<bv8>, i: nat): word
    requires 4 * i + 4 <= |s|
  {
    LittleEndian(s[4 * i], s[4 * i + 1], s[4 * i + 2], s[4 * i + 3])
  }

  /** `blk0` turns such a word round. */
  function SwapBytes(x: word): word {
    (Rol(x, 24) & 0xFF00FF00) | (Rol(x, 8) & 0x00FF00FF)
  }

  lemma SwapIsBigEndian(a: bv8, b: bv8, c: bv8, d: bv8)
    ensures SwapBytes(LittleEndian(a, b, c, d)) == BigEndian(a, b, c, d)
  {
  }

  function Byte0(x: word): bv8 { (x & 0xff) as bv8 }
  function Byte1(x: word): bv8 { ((x >> 8) & 0xff) as bv8 }
  function Byte2(x: word): bv8 { ((x >> 16) & 0xff) as bv8 }
  function Byte3(x: word): bv8 { ((x >> 24) & 0xff) as bv8 }

  lemma BytesOfWord(x: word)
    ensures LittleEndian(Byte0(x), Byte1(x), Byte2(x), Byte3(x)) == x
  {
  }

  // ---------------------------------------------------------------- the functions as the macros write them

  /** `R0` and `R1` write the choice with one operation less, `R3` the majority with or. */
  function MacroF(t: nat, w: word, x: word, y: word): word {
    if t < 20 then (w & (x ^ y)) ^ y
    else if t < 40 then w ^ x ^ y
    else if t < 60 then ((w | x) & y) | (w & x)
    else w ^ x ^ y
  }

  lemma ChoiceByMacro(w: word, x: word, y: word)
    ensures (w & (x ^ y)) ^ y == Ch(w, x, y)
  {
  }

  lemma MajorityByMacro(w: word, x: word, y: word)
    ensures ((w | x) & y) | (w & x) == Maj(w, x, y)
  {
  }

  lemma MacroIsF(t: nat, w: word, x: word, y: word)
    ensures MacroF(t, w, x, y) == F(t, w, x, y)
  {
    hide Ch, Maj;
    ChoiceByMacro(w, x, y);
    MajorityByMacro(w, x, y);
  }

  /** The constants, one to each kind of line. */
  function MacroK(t: nat): word {
    if t < 20 then 0x5A827999
    else if t < 40 then 0x6ED9EBA1
    else if t < 60 then 0x8F1BBCDC
    else 0xCA62C1D6
  }

  lemma MacroKIsK(t: nat)
    ensures MacroK(t) == K(t)
  {
  }

  // ---------------------------------------------------------------- the circular schedule

  /** What word k of the block holds when step t begins: the latest schedule word of its place, or the input word. */
  function Slot(block: Words, raw: Words, t: nat, k: nat): word
    requires k < 16
  {
    if k < t then Schedule(block, t - 1 - (t - 1 - k) % 16) else raw[k]
  }

  /** The word of `d` steps ago is still there. */
  lemma SlotBack(block: Words, raw: Words, t: nat, d: nat)
    requires 1 <= d <= 16 <= t
    ensures Slot(block, raw, t, (t - d) % 16) == Schedule(block, t - d)
  {
    hide Schedule;
    var k := (t - d) % 16;
    assert (t - 1 - k) % 16 == (d - 1) % 16 by {
      assert t - 1 - k == 16 * ((t - d) / 16) + (d - 1);
    }
  }

  lemma SamePlace(n: nat)
    ensures (n + 16) % 16 == n % 16
  {
  }

  /** The four places that `blk` reads. */
  lemma SlotsBack(block: Words, raw: Words, t: nat)
    requires 16 <= t
    ensures Slot(block, raw, t, (t + 13) % 16) == Schedule(block, t - 3)
    ensures Slot(block, raw, t, (t + 8) % 16) == Schedule(block, t - 8)
    ensures Slot(block, raw, t, (t + 2) % 16) == Schedule(block, t - 14)
    ensures Slot(block, raw, t, t % 16) == Schedule(block, t - 16)
  {
    hide Schedule, Slot;
    SlotBack(block, raw, t, 3);
    SlotBack(block, raw, t, 8);
    SlotBack(block, raw, t, 14);
    SlotBack(block, raw, t, 16);
    SamePlace(t - 3);
    SamePlace(t - 8);
    SamePlace(t - 14);
    SamePlace(t - 16);
  }

  lemma SlotStep(block: Words, raw: Words, t: nat, k: nat)
    requires k < 16
    ensures Slot(block, raw, t + 1, k) == if k == t % 16 then Schedule(block, t) else Slot(block, raw, t, k)
  {
    hide Schedule;
    if k < t + 1 {
      if k == t % 16 {
        assert (t - k) % 16 == 0;
      } else {
        assert (t - k) % 16 == (t - 1 - k) % 16 + 1;
      }
    }
  }

  // ---------------------------------------------------------------- rotating roles

  type Five = s: seq<word> | |s| == 5 witness [0, 0, 0, 0, 0]

  /** The registers read off with `a` at place p. */
  function Roles(r: Five, p: nat): Registers
    requires p < 5
  {
    Registers(r[p], r[(p + 1) % 5], r[(p + 2) % 5], r[(p + 3) % 5], r[(p + 4) % 5])
  }

  /** One macro line: `z` takes the sum and `w` is rotated; then everything has moved one place. */
  lemma RolesStep(r: Five, p: nat, t: nat, s: word)
    requires p < 5
    ensures var v, w, x, y, z := r[p], r[(p + 1) % 5], r[(p + 2) % 5], r[(p + 3) % 5], r[(p + 4) % 5];
            var r' := r[(p + 4) % 5 := Sum(z, Sum(Sum(Sum(MacroF(t, w, x, y), s), MacroK(t)), Rol(v, 5)))]
                       [(p + 1) % 5 := Rol(w, 30)];
            Roles(r', (p + 4) % 5) == Step(Roles(r, p), t, s)
  {
    hide Rol, Sum, F, MacroF, K, MacroK;
    MacroKIsK(t);
    var v, w, x, y, z := r[p], r[(p + 1) % 5], r[(p + 2) % 5], r[(p + 3) % 5], r[(p + 4) % 5];
    MacroIsF(t, w, x, y);
  }

  // ---------------------------------------------------------------- in place

  /** The block's words. */
  predicate Holds(s: seq<bv8>, l: Words) {
    |s| == 64 && forall k :: 0 <= k < 16 ==> WordAt(s, k) == l[k]
  }

  method LoadWord(buffer: array<bv8>, i: nat, ghost l: Words) returns (x: word)
    requires i < 16 && Holds(buffer[..], l)
    ensures x == l[i]
  {
    x := LittleEndian(buffer[4 * i], buffer[4 * i + 1], buffer[4 * i + 2], buffer[4 * i + 3]);
    assert x == WordAt(buffer[..], i);
  }

  method StoreWord(buffer: array<bv8>, i: nat, x: word, ghost l: Words)
    requires i < 16 && Holds(buffer[..], l)
    modifies buffer
    ensures Holds(buffer[..], l[i := x])
  {
    hide LittleEndian, Byte0, Byte1, Byte2, Byte3;
    ghost var s := buffer[..];
    buffer[4 * i] := Byte0(x);
    buffer[4 * i + 1] := Byte1(x);
    buffer[4 * i + 2] := Byte2(x);
    buffer[4 * i + 3] := Byte3(x);
    BytesOfWord(x);
    forall k | 0 <= k < 16 ensures WordAt(buffer[..], k) == l[i := x][k] {
      if k != i {
        assert WordAt(buffer[..], k) == WordAt(s, k);
      }
    }
  }

  /** `blk0` and `blk`: the schedule word of step t, left in its place. */
  method NextWord(buffer: array<bv8>, t: nat, ghost block: Words, ghost raw: Words, ghost l: Words)
      returns (x: word, ghost l': Words)
    requires t < 80 && Holds(buffer[..], l)
    requires forall k :: 0 <= k < 16 ==> l[k] == Slot(block, raw, t, k)
    requires forall k :: 0 <= k < 16 ==> block[k] == SwapBytes(raw[k])
    modifies buffer
    ensures x == Schedule(block, t) && Holds(buffer[..], l')
    ensures forall k :: 0 <= k < 16 ==> l'[k] == Slot(block, raw, t + 1, k)
  {
    hide Holds, Slot, SwapBytes, Rol, Xor4;
    if t < 16 {
      x := LoadWord(buffer, t, l);
      SlotAtFirst(block, raw, t);
      x := SwapBytes(x);
    } else {
      SlotsBack(block, raw, t);
      var x3 := LoadWord(buffer, (t + 13) % 16, l);
      var x8 := LoadWord(buffer, (t + 8) % 16, l);
      var x14 := LoadWord(buffer, (t + 2) % 16, l);
      var x16 := LoadWord(buffer, t % 16, l);
      x := Rol(Xor4(x3, x8, x14, x16), 1);
    }
    StoreWord(buffer, t % 16, x, l);
    l' := l[t % 16 := x];
    forall k | 0 <= k < 16 ensures l'[k] == Slot(block, raw, t + 1, k) {
      SlotStep(block, raw, t, k);
    }
  }

  lemma SlotAtFirst(block: Words, raw: Words, t: nat)
    requires t < 16
    ensures Slot(block, raw, t, t) == raw[t]
  {
  }

  function RawWords(s: seq<bv8>): Words
    requires |s| == 64
  {
    seq(16, i requires 0 <= i < 16 => WordAt(s, i))
  }

  lemma RawIsSwapped(s: seq<bv8>)
    requires |s| == 64
    ensures Holds(s, RawWords(s))
    ensures forall k :: 0 <= k < 16 ==> BlockWords(s)[k] == SwapBytes(RawWords(s)[k])
  {
    hide SwapBytes, LittleEndian, BigEndian;
    forall k | 0 <= k < 16 ensures BlockWords(s)[k] == SwapBytes(RawWords(s)[k]) {
      SwapIsBigEndian(s[4 * k], s[4 * k + 1], s[4 * k + 2], s[4 * k + 3]);
    }
  }

  function RegistersOf(s: seq<word>): Registers
    requires |s| == 5
  {
    Registers(s[0], s[1], s[2], s[3], s[4])
  }

  /** The eighty macro lines. */
  method Rounds(r0: Five, buffer: array<bv8>) returns (r: Five)
    requires buffer.Length == 64
    modifies buffer
    ensures Roles(r, 0) == Steps(BlockWords(old(buffer[..])), Roles(r0, 0), 80)
  {
    hide Holds, Slot, SwapBytes, Rol, Sum, F, MacroF, K, MacroK, Schedule, Step, BlockWords, RawWords, Roles;
    ghost var block, raw := BlockWords(buffer[..]), RawWords(buffer[..]);
    RawIsSwapped(buffer[..]);
    SlotsAtStart(block, raw);
    ghost var l: Words := raw;
    r := r0;
    var t, p := 0, 0;
    while t < 80
      invariant 0 <= t <= 80 && p == 4 * t % 5
      invariant Roles(r, p) == Steps(block, Roles(r0, 0), t)
      invariant Holds(buffer[..], l)
      invariant forall k :: 0 <= k < 16 ==> l[k] == Slot(block, raw, t, k)
    {
      var s;
      s, l := NextWord(buffer, t, block, raw, l);
      RolesStep(r, p, t, s);
      var v, w, x, y, z := r[p], r[(p + 1) % 5], r[(p + 2) % 5], r[(p + 3) % 5], r[(p + 4) % 5];
      r := r[(p + 4) % 5 := Sum(z, Sum(Sum(Sum(MacroF(t, w, x, y), s), MacroK(t)), Rol(v, 5)))];
      r := r[(p + 1) % 5 := Rol(w, 30)];
      p := (p + 4) % 5;
      t := t + 1;
    }
  }

  /** `SHA1_Transform`: the block is used up, the state takes in the compression of what it held. */
  method Transform(state: array<word>, buffer: array<bv8>)
    requires state.Length == 5 && buffer.Length == 64
    modifies state, buffer
    ensures RegistersOf(state[..]) == Compress(RegistersOf(old(state[..])), BlockWords(old(buffer[..])))
  {
    hide Sum, Steps, BlockWords;
    var r0: Five := [state[0], state[1], state[2], state[3], state[4]];
    var r := Rounds(r0, buffer);
    state[0] := Sum(state[0], r[0]);
    state[1] := Sum(state[1], r[1]);
    state[2] := Sum(state[2], r[2]);
    state[3] := Sum(state[3], r[3]);
    state[4] := Sum(state[4], r[4]);
  }

  lemma SlotsAtStart(block: Words, raw: Words)
    ensures forall k :: 0 <= k < 16 ==> raw[k] == Slot(block, raw, 0, k)
  {
  }
}
