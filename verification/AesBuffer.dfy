/**
 The in-place code of fd_crypto_aes.c. The C file works on a 4 by 4 byte window (`state`) that points into the output
 buffer; here the window is an array and an offset. Every step is proved to replace the window by the value of the
 corresponding function of `Aes` and to touch nothing else.
*/
module AesBuffer {
  import opened Bytes
  import opened AesTables
  import opened Aes
  import opened AesCbc

  // ---------------------------------------------------------------- windows

  function Get(s: seq<bv8>, o: nat): Block
    requires o + 16 <= |s|
  {
    s[o..o + 16]
  }

  /** `s` with the window at `o` replaced. */
  function Put(s: seq<bv8>, o: nat, w: Block): (t: seq<bv8>)
    requires o + 16 <= |s|
    ensures |t| == |s|
  {
    s[..o] + w + s[o + 16..]
  }

  lemma GetOfPut(s: seq<bv8>, o: nat, w: Block)
    requires o + 16 <= |s|
    ensures Get(Put(s, o, w), o) == w
    ensures forall k :: 0 <= k < 16 ==> Put(s, o, w)[o + k] == w[k]
  {
  }

  lemma PutOfPut(s: seq<bv8>, o: nat, v: Block, w: Block)
    requires o + 16 <= |s|
    ensures Put(Put(s, o, v), o, w) == Put(s, o, w)
  {
  }

  lemma PutOfGet(s: seq<bv8>, o: nat)
    requires o + 16 <= |s|
    ensures Put(s, o, Get(s, o)) == s
  {
  }

  lemma PutByte(s: seq<bv8>, o: nat, w: Block, n: nat, x: bv8)
    requires o + 16 <= |s| && n < 16
    ensures Put(s, o, w)[o + n := x] == Put(s, o, w[n := x])
  {
  }

  /** `v` with `f` applied to the first `n` bytes in the order of the double loop, row by row. */
  function Partial(f: bv8 -> bv8, v: Block, n: nat): Block {
    seq(16, k requires 0 <= k < 16 => if 4 * (k % 4) + k / 4 < n then f(v[k]) else v[k])
  }

  lemma PartialEnds(f: bv8 -> bv8, v: Block)
    ensures Partial(f, v, 0) == v
    ensures Partial(f, v, 16) == seq(16, k requires 0 <= k < 16 => f(v[k]))
  {
  }

  lemma PartialGrows(f: bv8 -> bv8, v: Block, i: nat, j: nat)
    requires i < 4 && j < 4
    ensures Partial(f, v, 4 * i + j)[4 * j + i] == v[4 * j + i]
    ensures Partial(f, v, 4 * i + j)[4 * j + i := f(v[4 * j + i])] == Partial(f, v, 4 * i + j + 1)
  {
    forall k | 0 <= k < 16 ensures 4 * (k % 4) + k / 4 == 4 * i + j <==> k == 4 * j + i {
    }
    var t := Partial(f, v, 4 * i + j)[4 * j + i := f(v[4 * j + i])];
    forall k | 0 <= k < 16 ensures t[k] == Partial(f, v, 4 * i + j + 1)[k] {
    }
  }

  lemma KeyByte(key: Schedule, round: nat, n: nat)
    requires round <= ROUNDS && n < 16
    ensures RoundKey(key, round)[n] == key[16 * round + n]
  {
  }

  lemma RowMoves(v: Block, w: Block)
    requires w == v[1 := v[5]][5 := v[9]][9 := v[13]][13 := v[1]]
                   [2 := v[10]][10 := v[2]][6 := v[14]][14 := v[6]]
                   [3 := v[15]][15 := v[11]][11 := v[7]][7 := v[3]]
    ensures w == Aes.ShiftRows(v)
  {
  }

  lemma PutPointwise(s: seq<bv8>, t: seq<bv8>, o: nat, x: Block)
    requires o + 16 <= |s| == |t|
    requires forall k :: 0 <= k < |s| ==> t[k] == if o <= k < o + 16 then x[k - o] else s[k]
    ensures t == Put(s, o, x)
  {
  }

  class Context {
    const roundKey: array<bv8>
    const iv: array<bv8>

    ghost predicate Valid()
      reads this
    {
      roundKey.Length == 176 && iv.Length == 16 && roundKey != iv
    }

    constructor ()
      ensures Valid() && fresh(roundKey) && fresh(iv)
    {
      roundKey := new bv8[176];
      iv := new bv8[16];
    }

    // -------------------------------------------------------------- the steps of a round

    /** One byte of the window. */
    method Store(state: array<bv8>, o: nat, n: nat, x: bv8, ghost s: seq<bv8>, ghost w: Block)
      requires o + 16 <= state.Length == |s| && n < 16 && state[..] == Put(s, o, w)
      modifies state
      ensures state[..] == Put(s, o, w[n := x])
    {
      state[o + n] := x;
      PutByte(s, o, w, n, x);
    }

    method Load(state: array<bv8>, o: nat, n: nat, ghost s: seq<bv8>, ghost w: Block) returns (x: bv8)
      requires o + 16 <= state.Length == |s| && n < 16 && state[..] == Put(s, o, w)
      ensures x == w[n]
    {
      GetOfPut(s, o, w);
      x := state[o + n];
      assert x == state[..][o + n];
    }

    /** Copies one byte of the window to another. */
    method Move(state: array<bv8>, o: nat, from: nat, to: nat, ghost s: seq<bv8>, ghost w: Block) returns (ghost w': Block)
      requires o + 16 <= state.Length == |s| && from < 16 && to < 16 && state[..] == Put(s, o, w)
      modifies state
      ensures w' == w[to := w[from]] && state[..] == Put(s, o, w')
    {
      var x := Load(state, o, from, s, w);
      Store(state, o, to, x, s, w);
      w' := w[to := w[from]];
    }

    method AddRoundKey(state: array<bv8>, o: nat, round: nat)
      requires Valid() && o + 16 <= state.Length && round <= ROUNDS && state != roundKey
      modifies state
      ensures state[..] == Put(old(state[..]), o, Xor(Get(old(state[..]), o), RoundKey(roundKey[..], round)))
    {
      ghost var s, key := state[..], roundKey[..];
      ghost var v, rk := Get(s, o), RoundKey(key, round);
      ghost var w := v;
      PutOfGet(s, o);
      hide Put, Get, RoundKey, Plus;
      var i := 0;
      while i < 4
        invariant 0 <= i <= 4 && |w| == 16
        invariant roundKey[..] == key && state[..] == Put(s, o, w)
        invariant forall k :: 0 <= k < 16 ==> w[k] == if k < 4 * i then Plus(v[k], rk[k]) else v[k]
      {
        var j := 0;
        while j < 4
          invariant 0 <= j <= 4 && |w| == 16
          invariant roundKey[..] == key && state[..] == Put(s, o, w)
          invariant forall k :: 0 <= k < 16 ==> w[k] == if k < 4 * i + j then Plus(v[k], rk[k]) else v[k]
        {
          var n := i * 4 + j;
          GetOfPut(s, o, w);
          KeyByte(key, round, n);
          assert state[o + n] == state[..][o + n] && roundKey[round * 16 + n] == key[round * 16 + n];
          Store(state, o, n, Plus(state[o + n], roundKey[round * 16 + i * 4 + j]), s, w);
          w := w[n := Plus(v[n], rk[n])];
          j := j + 1;
        }
        i := i + 1;
      }
      assert w == Xor(v, rk);
    }

    method SubBytes(state: array<bv8>, o: nat)
      requires o + 16 <= state.Length
      modifies state
      ensures state[..] == Put(old(state[..]), o, Aes.SubBytes(Get(old(state[..]), o)))
    {
      ghost var s := state[..];
      ghost var v := Get(s, o);
      PutOfGet(s, o);
      PartialEnds(SubByte, v);
      hide Put, Get, SubByte, Partial;
      var i := 0;
      while i < 4
        invariant 0 <= i <= 4 && state[..] == Put(s, o, Partial(SubByte, v, 4 * i))
      {
        var j := 0;
        while j < 4
          invariant 0 <= j <= 4 && state[..] == Put(s, o, Partial(SubByte, v, 4 * i + j))
        {
          ghost var w := Partial(SubByte, v, 4 * i + j);
          PartialGrows(SubByte, v, i, j);
          var x := Load(state, o, 4 * j + i, s, w);
          Store(state, o, 4 * j + i, SubByte(x), s, w);
          j := j + 1;
        }
        i := i + 1;
      }
      assert Partial(SubByte, v, 16) == Aes.SubBytes(v);
    }

    method ShiftRows(state: array<bv8>, o: nat)
      requires o + 16 <= state.Length
      modifies state
      ensures state[..] == Put(old(state[..]), o, Aes.ShiftRows(Get(old(state[..]), o)))
    {
      ghost var s := state[..];
      ghost var v := Get(s, o);
      PutOfGet(s, o);
      hide Put, Get, Aes.ShiftRows;
      // row 1, one column to the left
      ghost var w := v;
      var temp := Load(state, o, 1, s, w);
      w := Move(state, o, 5, 1, s, w);
      w := Move(state, o, 9, 5, s, w);
      w := Move(state, o, 13, 9, s, w);
      Store(state, o, 13, temp, s, w);
      w := w[13 := temp];
      // row 2, two columns
      temp := Load(state, o, 2, s, w);
      w := Move(state, o, 10, 2, s, w);
      Store(state, o, 10, temp, s, w);
      w := w[10 := temp];
      temp := Load(state, o, 6, s, w);
      w := Move(state, o, 14, 6, s, w);
      Store(state, o, 14, temp, s, w);
      w := w[14 := temp];
      // row 3, three columns
      temp := Load(state, o, 3, s, w);
      w := Move(state, o, 15, 3, s, w);
      w := Move(state, o, 11, 15, s, w);
      w := Move(state, o, 7, 11, s, w);
      Store(state, o, 7, temp, s, w);
      w := w[7 := temp];
      RowMoves(v, w);
    }

    method InvSubBytes(state: array<bv8>, o: nat)
      requires o + 16 <= state.Length
      modifies state
      ensures state[..] == Put(old(state[..]), o, Aes.InvSubBytes(Get(old(state[..]), o)))
    {
      ghost var s := state[..];
      ghost var v := Get(s, o);
      PutOfGet(s, o);
      PartialEnds(InvSubByte, v);
      hide Put, Get, InvSubByte, Partial;
      var i := 0;
      while i < 4
        invariant 0 <= i <= 4 && state[..] == Put(s, o, Partial(InvSubByte, v, 4 * i))
      {
        var j := 0;
        while j < 4
          invariant 0 <= j <= 4 && state[..] == Put(s, o, Partial(InvSubByte, v, 4 * i + j))
        {
          ghost var w := Partial(InvSubByte, v, 4 * i + j);
          PartialGrows(InvSubByte, v, i, j);
          var x := Load(state, o, 4 * j + i, s, w);
          Store(state, o, 4 * j + i, InvSubByte(x), s, w);
          j := j + 1;
        }
        i := i + 1;
      }
      assert Partial(InvSubByte, v, 16) == Aes.InvSubBytes(v);
    }

    method InvShiftRows(state: array<bv8>, o: nat)
      requires o + 16 <= state.Length
      modifies state
      ensures state[..] == Put(old(state[..]), o, Aes.InvShiftRows(Get(old(state[..]), o)))
    {
      ghost var s := state[..];
      ghost var v := Get(s, o);
      PutOfGet(s, o);
      hide Put, Get, Aes.InvShiftRows;
      // row 1, one column to the right
      ghost var w := v;
      var temp := Load(state, o, 13, s, w);
      w := Move(state, o, 9, 13, s, w);
      w := Move(state, o, 5, 9, s, w);
      w := Move(state, o, 1, 5, s, w);
      Store(state, o, 1, temp, s, w);
      w := w[1 := temp];
      // row 2, two columns
      temp := Load(state, o, 2, s, w);
      w := Move(state, o, 10, 2, s, w);
      Store(state, o, 10, temp, s, w);
      w := w[10 := temp];
      temp := Load(state, o, 6, s, w);
      w := Move(state, o, 14, 6, s, w);
      Store(state, o, 14, temp, s, w);
      w := w[14 := temp];
      // row 3, three columns
      temp := Load(state, o, 3, s, w);
      w := Move(state, o, 7, 3, s, w);
      w := Move(state, o, 11, 7, s, w);
      w := Move(state, o, 15, 11, s, w);
      Store(state, o, 15, temp, s, w);
      w := w[15 := temp];
      InvRowMoves(v, w);
    }

    /** The turn of the loop in `MixColumns` for column `c`. */
    method MixOneColumn(state: array<bv8>, o: nat, c: nat, ghost s: seq<bv8>, ghost v: Block) returns (ghost w: Block)
      requires o + 16 <= state.Length == |s| && c < 4 && state[..] == Put(s, o, v)
      modifies state
      ensures state[..] == Put(s, o, w) && w == WithColumn(v, c, MixColumn(GetColumn(v, c)))
    {
      hide Put, Xtime, Plus;
      w := v;
      var t := Load(state, o, 4 * c, s, w);
      var x1 := Load(state, o, 4 * c + 1, s, w);
      var x2 := Load(state, o, 4 * c + 2, s, w);
      var x3 := Load(state, o, 4 * c + 3, s, w);
      var all := Plus(Plus(Plus(t, x1), x2), x3);
      var tm := Xtime(Plus(t, x1));
      Store(state, o, 4 * c, Plus(t, Plus(tm, all)), s, w);
      w := w[4 * c := Plus(t, Plus(tm, all))];
      x1 := Load(state, o, 4 * c + 1, s, w);
      x2 := Load(state, o, 4 * c + 2, s, w);
      tm := Xtime(Plus(x1, x2));
      Store(state, o, 4 * c + 1, Plus(x1, Plus(tm, all)), s, w);
      w := w[4 * c + 1 := Plus(x1, Plus(tm, all))];
      x2 := Load(state, o, 4 * c + 2, s, w);
      x3 := Load(state, o, 4 * c + 3, s, w);
      tm := Xtime(Plus(x2, x3));
      Store(state, o, 4 * c + 2, Plus(x2, Plus(tm, all)), s, w);
      w := w[4 * c + 2 := Plus(x2, Plus(tm, all))];
      x3 := Load(state, o, 4 * c + 3, s, w);
      tm := Xtime(Plus(x3, t));
      Store(state, o, 4 * c + 3, Plus(x3, Plus(tm, all)), s, w);
      w := w[4 * c + 3 := Plus(x3, Plus(tm, all))];
    }

    method MixColumns(state: array<bv8>, o: nat)
      requires o + 16 <= state.Length
      modifies state
      ensures state[..] == Put(old(state[..]), o, Aes.MixColumns(Get(old(state[..]), o)))
    {
      ghost var s := state[..];
      ghost var v := Get(s, o);
      PutOfGet(s, o);
      hide Put, Get, MixColumn, GetColumn, WithColumn, Aes.MixColumns;
      ghost var w := v;
      var i := 0;
      while i < 4
        invariant 0 <= i <= 4 && state[..] == Put(s, o, w)
        invariant forall c: nat :: c < 4 ==>
                    GetColumn(w, c) == if c < i then MixColumn(GetColumn(v, c)) else GetColumn(v, c)
      {
        ghost var w0 := w;
        w := MixOneColumn(state, o, i, s, w);
        ColumnsOfWith(w0, i, MixColumn(GetColumn(w0, i)));
        i := i + 1;
      }
      MixedByColumn(v, w);
    }

    method InvMixOneColumn(state: array<bv8>, o: nat, i: nat, ghost s: seq<bv8>, ghost v: Block) returns (ghost w: Block)
      requires o + 16 <= state.Length == |s| && i < 4 && state[..] == Put(s, o, v)
      modifies state
      ensures state[..] == Put(s, o, w) && w == WithColumn(v, i, InvMixColumn(GetColumn(v, i)))
    {
      hide Put, Dot;
      var a := Load(state, o, 4 * i, s, v);
      var b := Load(state, o, 4 * i + 1, s, v);
      var c := Load(state, o, 4 * i + 2, s, v);
      var d := Load(state, o, 4 * i + 3, s, v);
      var p := Column(a, b, c, d);
      w := v;
      Store(state, o, 4 * i, Dot(p, 0x0e, 0x0b, 0x0d, 0x09), s, w);
      w := w[4 * i := Dot(p, 0x0e, 0x0b, 0x0d, 0x09)];
      Store(state, o, 4 * i + 1, Dot(p, 0x09, 0x0e, 0x0b, 0x0d), s, w);
      w := w[4 * i + 1 := Dot(p, 0x09, 0x0e, 0x0b, 0x0d)];
      Store(state, o, 4 * i + 2, Dot(p, 0x0d, 0x09, 0x0e, 0x0b), s, w);
      w := w[4 * i + 2 := Dot(p, 0x0d, 0x09, 0x0e, 0x0b)];
      Store(state, o, 4 * i + 3, Dot(p, 0x0b, 0x0d, 0x09, 0x0e), s, w);
      w := w[4 * i + 3 := Dot(p, 0x0b, 0x0d, 0x09, 0x0e)];
    }

    method InvMixColumns(state: array<bv8>, o: nat)
      requires o + 16 <= state.Length
      modifies state
      ensures state[..] == Put(old(state[..]), o, Aes.InvMixColumns(Get(old(state[..]), o)))
    {
      ghost var s := state[..];
      ghost var v := Get(s, o);
      PutOfGet(s, o);
      hide Put, Get, InvMixColumn, GetColumn, WithColumn, Aes.InvMixColumns;
      ghost var w := v;
      var i := 0;
      while i < 4
        invariant 0 <= i <= 4 && state[..] == Put(s, o, w)
        invariant forall c: nat :: c < 4 ==>
                    GetColumn(w, c) == if c < i then InvMixColumn(GetColumn(v, c)) else GetColumn(v, c)
      {
        ghost var w0 := w;
        w := InvMixOneColumn(state, o, i, s, w);
        ColumnsOfWith(w0, i, InvMixColumn(GetColumn(w0, i)));
        i := i + 1;
      }
      InvMixedByColumn(v, w);
    }

    // -------------------------------------------------------------- the cipher

    /** One turn of the loop in `Cipher`, from the state `w` in the window. */
    method Round(state: array<bv8>, o: nat, round: nat, ghost s: seq<bv8>, ghost w: Block)
      requires Valid() && o + 16 <= state.Length == |s| && round <= ROUNDS && state != roundKey
      requires state[..] == Put(s, o, w)
      modifies state
      ensures state[..] ==
              Put(s, o, Xor(Aes.MixColumns(Aes.ShiftRows(Aes.SubBytes(w))), RoundKey(roundKey[..], round)))
    {
      hide Put, Get, Xor, RoundKey, Aes.SubBytes, Aes.ShiftRows, Aes.MixColumns;
      ghost var key := roundKey[..];
      SubBytes(state, o);
      Compose(s, o, w, Aes.SubBytes(w));
      ShiftRows(state, o);
      Compose(s, o, Aes.SubBytes(w), Aes.ShiftRows(Aes.SubBytes(w)));
      MixColumns(state, o);
      ghost var mixed := Aes.MixColumns(Aes.ShiftRows(Aes.SubBytes(w)));
      Compose(s, o, Aes.ShiftRows(Aes.SubBytes(w)), mixed);
      assert roundKey[..] == key;
      AddRoundKey(state, o, round);
      Compose(s, o, mixed, Xor(mixed, RoundKey(key, round)));
    }

    /** The last round, without the mixing of columns. */
    method LastRound(state: array<bv8>, o: nat, ghost s: seq<bv8>, ghost w: Block)
      requires Valid() && o + 16 <= state.Length == |s| && state != roundKey
      requires state[..] == Put(s, o, w)
      modifies state
      ensures state[..] == Put(s, o, Xor(Aes.ShiftRows(Aes.SubBytes(w)), RoundKey(roundKey[..], ROUNDS)))
    {
      hide Put, Get, Xor, RoundKey, Aes.SubBytes, Aes.ShiftRows;
      ghost var key := roundKey[..];
      SubBytes(state, o);
      Compose(s, o, w, Aes.SubBytes(w));
      ShiftRows(state, o);
      ghost var shifted := Aes.ShiftRows(Aes.SubBytes(w));
      Compose(s, o, Aes.SubBytes(w), shifted);
      assert roundKey[..] == key;
      AddRoundKey(state, o, ROUNDS);
      Compose(s, o, shifted, Xor(shifted, RoundKey(key, ROUNDS)));
    }

    method Cipher(state: array<bv8>, o: nat)
      requires Valid() && o + 16 <= state.Length && state != roundKey
      modifies state
      ensures state[..] == Put(old(state[..]), o, Aes.Cipher(roundKey[..], Get(old(state[..]), o)))
    {
      hide Put, Get, Xor, RoundKey, Aes.SubBytes, Aes.ShiftRows, Aes.MixColumns;
      ghost var s, key := state[..], roundKey[..];
      ghost var v := Get(s, o);
      AddRoundKey(state, o, 0);
      var round := 1;
      while round < ROUNDS
        invariant 1 <= round <= ROUNDS && roundKey[..] == key
        invariant state[..] == Put(s, o, Rounds(key, v, round - 1))
      {
        Round(state, o, round, s, Rounds(key, v, round - 1));
        round := round + 1;
      }
      LastRound(state, o, s, Rounds(key, v, ROUNDS - 1));
    }

    /** Undoing the shift and the substitution, then adding a round key: the part every inverse round starts with. */
    method InvRoundStart(state: array<bv8>, o: nat, round: nat, ghost s: seq<bv8>, ghost w: Block)
      requires Valid() && o + 16 <= state.Length == |s| && round <= ROUNDS && state != roundKey
      requires state[..] == Put(s, o, w)
      modifies state
      ensures state[..] == Put(s, o, Xor(Aes.InvSubBytes(Aes.InvShiftRows(w)), RoundKey(roundKey[..], round)))
    {
      hide Put, Get, Xor, RoundKey, Aes.InvSubBytes, Aes.InvShiftRows;
      ghost var key := roundKey[..];
      ghost var shifted := Aes.InvShiftRows(w);
      InvShiftRows(state, o);
      Compose(s, o, w, shifted);
      ghost var subbed := Aes.InvSubBytes(shifted);
      InvSubBytes(state, o);
      Compose(s, o, shifted, subbed);
      assert roundKey[..] == key;
      AddRoundKey(state, o, round);
      Compose(s, o, subbed, Xor(subbed, RoundKey(key, round)));
    }

    method InvCipher(state: array<bv8>, o: nat)
      requires Valid() && o + 16 <= state.Length && state != roundKey
      modifies state
      ensures state[..] == Put(old(state[..]), o, Aes.InvCipher(roundKey[..], Get(old(state[..]), o)))
    {
      hide Put, Get, Xor, RoundKey, Aes.InvSubBytes, Aes.InvShiftRows, Aes.InvMixColumns;
      ghost var s, key := state[..], roundKey[..];
      ghost var v := Get(s, o);
      AddRoundKey(state, o, ROUNDS);
      var round := ROUNDS - 1;
      while round > 0
        invariant 0 <= round < ROUNDS && roundKey[..] == key
        invariant state[..] == Put(s, o, InvRounds(key, v, round + 1))
      {
        ghost var w := InvRounds(key, v, round + 1);
        InvRoundStart(state, o, round, s, w);
        ghost var added := Xor(Aes.InvSubBytes(Aes.InvShiftRows(w)), RoundKey(key, round));
        InvMixColumns(state, o);
        Compose(s, o, added, Aes.InvMixColumns(added));
        round := round - 1;
      }
      InvRoundStart(state, o, 0, s, InvRounds(key, v, 1));
    }

    // -------------------------------------------------------------- key expansion

    method StoreWord(i: nat, w: Word)
      requires Valid() && i < 44
      modifies roundKey
      ensures roundKey[..4 * i + 4] == old(roundKey[..4 * i]) + w
    {
      roundKey[4 * i] := w[0];
      roundKey[4 * i + 1] := w[1];
      roundKey[4 * i + 2] := w[2];
      roundKey[4 * i + 3] := w[3];
    }

    method LoadWord(i: nat) returns (w: Word)
      requires Valid() && i < 44
      ensures w == roundKey[4 * i..4 * i + 4]
    {
      w := [roundKey[4 * i], roundKey[4 * i + 1], roundKey[4 * i + 2], roundKey[4 * i + 3]];
    }

    method KeyExpansion(key: Key)
      requires Valid()
      modifies roundKey
      ensures roundKey[..] == Expand(key)
    {
      hide Temp, XorWord, SubWord, RotWord;
      var i: nat := 0;
      while i < 4
        invariant 0 <= i <= 4 && roundKey[..4 * i] == Words(key, i)
      {
        StoreWord(i, key[4 * i..4 * i + 4]);
        i := i + 1;
      }
      while i < 44
        invariant 4 <= i <= 44 && roundKey[..4 * i] == Words(key, i)
      {
        WordsInPlace(key, roundKey[..], i);
        var tempa := LoadWord(i - 1);
        TempByCode(i, tempa);
        if i % 4 == 0 {
          tempa := SubWord(RotWord(tempa));
          tempa := XorWord(tempa, [RCON[i / 4], 0, 0, 0]);
        }
        var earlier := LoadWord(i - 4);
        StoreWord(i, XorWord(earlier, tempa));
        i := i + 1;
      }
      assert roundKey[..176] == roundKey[..];
    }

    // -------------------------------------------------------------- CBC

    method BlockCopy(output: array<bv8>, oo: nat, input: array<bv8>, io: nat)
      requires oo + 16 <= output.Length && io + 16 <= input.Length && input != output
      modifies output
      ensures output[..] == Put(old(output[..]), oo, Get(input[..], io))
    {
      var i := 0;
      while i < 16
        invariant 0 <= i <= 16
        invariant output[..] == old(output[..oo]) + input[io..io + i] + old(output[oo + i..])
      {
        output[oo + i] := input[io + i];
        i := i + 1;
      }
    }

    method XorWithIv(buf: array<bv8>, o: nat)
      requires Valid() && o + 16 <= buf.Length && buf != iv
      modifies buf
      ensures buf[..] == Put(old(buf[..]), o, Xor(Get(old(buf[..]), o), iv[..]))
    {
      ghost var s, key := buf[..], iv[..];
      ghost var x := Xor(Get(s, o), key);
      assert forall k :: 0 <= k < 16 ==> x[k] == Plus(s[o + k], key[k]);
      hide Plus, Xor;
      var i := 0;
      while i < 16
        invariant 0 <= i <= 16 && iv[..] == key
        invariant forall k :: 0 <= k < buf.Length ==> buf[k] == if o <= k < o + i then x[k - o] else s[k]
      {
        assert buf[o + i] == s[o + i] && iv[i] == key[i];
        buf[o + i] := Plus(buf[o + i], iv[i]);
        i := i + 1;
      }
      PutPointwise(s, buf[..], o, x);
    }

    method SetIv(input: array<bv8>, io: nat)
      requires Valid() && io + 16 <= input.Length && input != iv
      modifies iv
      ensures iv[..] == Get(input[..], io)
    {
      var i := 0;
      while i < 16
        invariant 0 <= i <= 16 && iv[..i] == input[io..io + i]
      {
        iv[i] := input[io + i];
        i := i + 1;
      }
    }

    /** A missing key or vector leaves the one in use, so that decryption can go on. */
    method SetKeyAndIv(key: Option<Key>, vector: Option<Block>)
      requires Valid()
      modifies roundKey, iv
      ensures roundKey[..] == if key.Some? then Expand(key.value) else old(roundKey[..])
      ensures iv[..] == if vector.Some? then vector.value else old(iv[..])
    {
      if key.Some? {
        KeyExpansion(key.value);
      }
      if vector.Some? {
        var v := vector.value;
        var i := 0;
        while i < 16
          invariant 0 <= i <= 16 && iv[..i] == v[..i]
          invariant roundKey[..] == if key.Some? then Expand(key.value) else old(roundKey[..])
        {
          iv[i] := v[i];
          i := i + 1;
        }
      }
    }

    /** The turn of the loop in `AES128_CBC_decrypt_buffer` for one block. */
    method DecryptBlock(output: array<bv8>, oo: nat, input: array<bv8>, io: nat)
      requires Valid() && oo + 16 <= output.Length && io + 16 <= input.Length
      requires input != output && output != roundKey && output != iv && input != iv
      modifies output, iv
      ensures iv[..] == Get(input[..], io)
      ensures output[..] ==
              Put(old(output[..]), oo, Xor(Aes.InvCipher(roundKey[..], Get(input[..], io)), old(iv[..])))
    {
      hide Put, Get, Xor, Aes.InvCipher;
      ghost var s, block := output[..], Get(input[..], io);
      BlockCopy(output, oo, input, io);
      ghost var rk := roundKey[..];
      InvCipher(output, oo);
      Compose(s, oo, block, Aes.InvCipher(rk, block));
      XorWithIv(output, oo);
      Compose(s, oo, Aes.InvCipher(rk, block), Xor(Aes.InvCipher(rk, block), iv[..]));
      SetIv(input, io);
    }

    method DecryptBlocks(output: array<bv8>, oo: nat, input: array<bv8>, io: nat, length: nat)
      requires Valid() && length % 16 == 0 && oo + length <= output.Length && io + length <= input.Length
      requires input != output && output != roundKey && output != iv && input != iv && input != roundKey
      modifies output, iv
      ensures iv[..] == NextVector(old(iv[..]), input[io..io + length])
      ensures output[..] == Decrypted(old(output[..]), oo, roundKey[..], old(iv[..]), input[..], io, length)
    {
      hide Put, Get, Xor, Aes.InvCipher, Decrypted, DecryptWith, NextVector;
      ghost var s, rk, vector0: Block, cipher := output[..], roundKey[..], iv[..], input[..];
      NothingDecrypted(s, oo, rk, vector0, cipher, io);
      var i := 0;
      while i < length
        invariant 0 <= i <= length && i % 16 == 0
        invariant roundKey[..] == rk && input[..] == cipher && iv[..] == NextVector(vector0, cipher[io..io + i])
        invariant output[..] == Decrypted(s, oo, rk, vector0, cipher, io, i)
      {
        DecryptGrowsAt(rk, vector0, cipher, io, i);
        ghost var block := Xor(Aes.InvCipher(rk, Get(cipher, io + i)), iv[..]);
        DecryptBlock(output, oo + i, input, io + i);
        DecryptedIs(s, oo, rk, vector0, cipher, io, i);
        DecryptedIs(s, oo, rk, vector0, cipher, io, i + 16);
        PutAtEnd(s, Decrypted(s, oo, rk, vector0, cipher, io, i), oo, i, DecryptWith(rk, vector0, cipher[io..io + i]), block);
        DecryptVectorMoves(vector0, cipher, io, i);
        i := i + 16;
      }
    }

    /**
     `AES128_CBC_decrypt_buffer` on whole blocks, which is what the file's own note asks of its callers. The copy
     before the loop makes a call with length zero overwrite one block of the output.
    */
    method CbcDecryptBuffer(output: array<bv8>, oo: nat, input: array<bv8>, io: nat, length: nat,
                            key: Option<Key>, vector: Option<Block>)
      requires Valid() && length % 16 == 0
      requires oo + 16 <= output.Length && oo + length <= output.Length
      requires io + 16 <= input.Length && io + length <= input.Length
      requires input != output && output != roundKey && output != iv && input != iv && input != roundKey
      modifies output, roundKey, iv
      ensures roundKey[..] == if key.Some? then Expand(key.value) else old(roundKey[..])
      ensures var vector0: Block := if vector.Some? then vector.value else old(iv[..]);
              && iv[..] == NextVector(vector0, input[io..io + length])
              && (length > 0 ==>
                  output[..] == Decrypted(old(output[..]), oo, roundKey[..], vector0, input[..], io, length))
    {
      hide Expand, Decrypted, DecryptWith, Put, Get;
      ghost var s, block := output[..], Get(input[..], io);
      BlockCopy(output, oo, input, io);
      SetKeyAndIv(key, vector);
      DecryptBlocks(output, oo, input, io, length);
      if length > 0 {
        DecryptedHides(s, oo, block, roundKey[..], if vector.Some? then vector.value else old(iv[..]), input[..], io, length);
      }
    }

    /** The turn of the loop in `AES128_CBC_encrypt_buffer` for one block; it leaves the input block masked. */
    method EncryptBlock(output: array<bv8>, oo: nat, input: array<bv8>, io: nat)
      requires Valid() && oo + 16 <= output.Length && io + 16 <= input.Length
      requires input != output && output != roundKey && output != iv && input != iv && input != roundKey
      modifies output, input, iv
      ensures input[..] == Put(old(input[..]), io, Xor(Get(old(input[..]), io), old(iv[..])))
      ensures iv[..] == Aes.Cipher(roundKey[..], Xor(Get(old(input[..]), io), old(iv[..])))
      ensures output[..] == Put(old(output[..]), oo, iv[..])
    {
      hide Put, Get, Xor, Aes.Cipher;
      ghost var s, plain, rk := output[..], Get(input[..], io), roundKey[..];
      XorWithIv(input, io);
      ghost var masked := Xor(plain, iv[..]);
      Compose(old(input[..]), io, masked, masked);
      BlockCopy(output, oo, input, io);
      assert roundKey[..] == rk;
      Cipher(output, oo);
      Compose(s, oo, masked, Aes.Cipher(rk, masked));
      Compose(s, oo, Aes.Cipher(rk, masked), masked);
      SetIv(output, oo);
    }

    method EncryptBlocks(output: array<bv8>, oo: nat, input: array<bv8>, io: nat, length: nat)
      requires Valid() && length % 16 == 0 && oo + length <= output.Length && io + length <= input.Length
      requires input != output && output != roundKey && output != iv && input != iv && input != roundKey
      modifies output, input, iv
      ensures iv[..] == EncryptVector(roundKey[..], old(iv[..]), old(input[io..io + length]))
      ensures output[..] == Encrypted(old(output[..]), oo, roundKey[..], old(iv[..]), old(input[..]), io, length)
      ensures input[..io] == old(input[..io]) && input[io + length..] == old(input[io + length..])
    {
      hide Put, Get, Xor, Aes.Cipher, Encrypted, EncryptVector, EncryptWith;
      ghost var s, rk, vector0: Block, plain := output[..], roundKey[..], iv[..], input[..];
      NothingEncrypted(s, oo, rk, vector0, plain, io);
      var i := 0;
      while i < length
        invariant 0 <= i <= length && i % 16 == 0 && |input[..]| == |plain|
        invariant roundKey[..] == rk && input[..io] == plain[..io] && input[io + i..] == plain[io + i..]
        invariant iv[..] == EncryptVector(rk, vector0, plain[io..io + i])
        invariant output[..] == Encrypted(s, oo, rk, vector0, plain, io, i)
      {
        ghost var now := input[..];
        SameAhead(plain, now, io + i);
        EncryptGrowsAt(rk, vector0, plain, io, i);
        EncryptBlock(output, oo + i, input, io + i);
        EncryptVectorIs(rk, vector0, plain, io, i);
        EncryptedIs(s, oo, rk, vector0, plain, io, i);
        EncryptedIs(s, oo, rk, vector0, plain, io, i + 16);
        PutAtEnd(s, Encrypted(s, oo, rk, vector0, plain, io, i), oo, i, EncryptWith(rk, vector0, plain[io..io + i]), iv[..]);
        PutBehind(now, io, io + i, Xor(Get(plain, io + i), EncryptVector(rk, vector0, plain[io..io + i])));
        i := i + 16;
      }
    }

    /** `AES128_CBC_encrypt_buffer` on whole blocks. The input buffer is used as scratch space. */
    method CbcEncryptBuffer(output: array<bv8>, oo: nat, input: array<bv8>, io: nat, length: nat,
                            key: Option<Key>, vector: Option<Block>)
      requires Valid() && length % 16 == 0
      requires oo + 16 <= output.Length && oo + length <= output.Length
      requires io + 16 <= input.Length && io + length <= input.Length
      requires input != output && output != roundKey && output != iv && input != iv && input != roundKey
      modifies output, input, roundKey, iv
      ensures roundKey[..] == if key.Some? then Expand(key.value) else old(roundKey[..])
      ensures var vector0: Block := if vector.Some? then vector.value else old(iv[..]);
              && iv[..] == EncryptVector(roundKey[..], vector0, old(input[io..io + length]))
              && (length > 0 ==>
                  output[..] == Encrypted(old(output[..]), oo, roundKey[..], vector0, old(input[..]), io, length))
      ensures input[..io] == old(input[..io]) && input[io + length..] == old(input[io + length..])
    {
      hide Expand, EncryptVector, Encrypted, Put, Get;
      ghost var s, plain, block := output[..], input[..], Get(input[..], io);
      BlockCopy(output, oo, input, io);
      SetKeyAndIv(key, vector);
      EncryptBlocks(output, oo, input, io, length);
      if length > 0 {
        EncryptedHides(s, oo, block, roundKey[..], if vector.Some? then vector.value else old(iv[..]), plain, io, length);
      }
    }

    // -------------------------------------------------------------- the interface of the boot loader

    /** `fd_crypto_aes_decrypt_initialize`. */
    method DecryptInitialize(key: Key, vector: Block)
      requires Valid()
      modifies roundKey, iv
      ensures roundKey[..] == Expand(key) && iv[..] == vector
    {
      var output, input := new bv8[16], new bv8[16](_ => 0);
      CbcDecryptBuffer(output, 0, input, 0, 0, Some(key), Some(vector));
      assert input[0..0] == [];
    }

    /** `fd_crypto_aes_decrypt_update`. */
    method DecryptUpdate(input: array<bv8>, output: array<bv8>, oo: nat, length: nat, ghost key: Key)
      requires Valid() && roundKey[..] == Expand(key)
      requires 0 < length <= input.Length && length % 16 == 0 && oo + length <= output.Length
      requires input != output && output != roundKey && output != iv && input != iv && input != roundKey
      modifies output, iv, roundKey
      ensures roundKey[..] == Expand(key)
      ensures iv[..] == NextVector(old(iv[..]), input[..length])
      ensures output[..] == old(output[..oo]) + DecryptBytes(key, old(iv[..]), input[..length])
                            + old(output[oo + length..])
    {
      hide Expand, DecryptWith;
      CbcDecryptBuffer(output, oo, input, 0, length, None, None);
      assert input[0..length] == input[..length] == input[..][0..length];
    }
  }

  /** A buffer with the decryption of `cipher[io..io + n]` written at `oo`. */
  function Decrypted(s: seq<bv8>, oo: nat, rk: Schedule, iv: Block, cipher: seq<bv8>, io: nat, n: nat): (t: seq<bv8>)
    requires n % 16 == 0 && oo + n <= |s| && io + n <= |cipher|
    ensures |t| == |s|
  {
    s[..oo] + DecryptWith(rk, iv, cipher[io..io + n]) + s[oo + n..]
  }

  lemma NothingDecrypted(s: seq<bv8>, oo: nat, rk: Schedule, iv: Block, cipher: seq<bv8>, io: nat)
    requires oo <= |s| && io <= |cipher|
    ensures Decrypted(s, oo, rk, iv, cipher, io, 0) == s && NextVector(iv, cipher[io..io + 0]) == iv
  {
    NoBlocks(rk, iv);
    assert cipher[io..io + 0] == [];
  }

  lemma DecryptVectorMoves(iv: Block, cipher: seq<bv8>, io: nat, i: nat)
    requires i % 16 == 0 && io + i + 16 <= |cipher|
    ensures NextVector(iv, cipher[io..io + i + 16]) == Get(cipher, io + i)
  {
  }

  lemma DecryptedIs(s: seq<bv8>, oo: nat, rk: Schedule, iv: Block, cipher: seq<bv8>, io: nat, n: nat)
    requires n % 16 == 0 && oo + n <= |s| && io + n <= |cipher|
    ensures Decrypted(s, oo, rk, iv, cipher, io, n) == s[..oo] + DecryptWith(rk, iv, cipher[io..io + n]) + s[oo + n..]
  {
    hide DecryptWith;
  }

  lemma DecryptGrowsAt(rk: Schedule, iv: Block, cipher: seq<bv8>, io: nat, i: nat)
    requires i % 16 == 0 && io + i + 16 <= |cipher|
    ensures DecryptWith(rk, iv, cipher[io..io + i + 16]) ==
            DecryptWith(rk, iv, cipher[io..io + i])
            + Xor(Aes.InvCipher(rk, Get(cipher, io + i)), NextVector(iv, cipher[io..io + i]))
  {
    hide Xor, Aes.InvCipher, DecryptWith;
    assert cipher[io..io + i + 16] == cipher[io..io + i] + Get(cipher, io + i);
    DecryptGrows(rk, iv, cipher[io..io + i], Get(cipher, io + i));
  }

  /** A buffer with the encryption of `plain[io..io + n]` written at `oo`. */
  function Encrypted(s: seq<bv8>, oo: nat, rk: Schedule, iv: Block, plain: seq<bv8>, io: nat, n: nat): (t: seq<bv8>)
    requires n % 16 == 0 && oo + n <= |s| && io + n <= |plain|
    ensures |t| == |s|
  {
    s[..oo] + EncryptWith(rk, iv, plain[io..io + n]) + s[oo + n..]
  }

  /** The last block of the ciphertext, with which encryption goes on. */
  function EncryptVector(rk: Schedule, iv: Block, plain: seq<bv8>): Block
    requires |plain| % 16 == 0
  {
    NextVector(iv, EncryptWith(rk, iv, plain))
  }

  lemma NothingEncrypted(s: seq<bv8>, oo: nat, rk: Schedule, iv: Block, plain: seq<bv8>, io: nat)
    requires oo <= |s| && io <= |plain|
    ensures Encrypted(s, oo, rk, iv, plain, io, 0) == s && EncryptVector(rk, iv, plain[io..io + 0]) == iv
  {
    NoBlocks(rk, iv);
    assert plain[io..io + 0] == [];
  }

  lemma EncryptedIs(s: seq<bv8>, oo: nat, rk: Schedule, iv: Block, plain: seq<bv8>, io: nat, n: nat)
    requires n % 16 == 0 && oo + n <= |s| && io + n <= |plain|
    ensures Encrypted(s, oo, rk, iv, plain, io, n) == s[..oo] + EncryptWith(rk, iv, plain[io..io + n]) + s[oo + n..]
  {
    hide EncryptWith;
  }

  lemma EncryptVectorIs(rk: Schedule, iv: Block, plain: seq<bv8>, io: nat, i: nat)
    requires i % 16 == 0 && io + i + 16 <= |plain|
    ensures EncryptVector(rk, iv, plain[io..io + i + 16]) == EncryptWith(rk, iv, plain[io..io + i + 16])[i..i + 16]
  {
    hide EncryptWith;
  }

  lemma EncryptGrowsAt(rk: Schedule, iv: Block, plain: seq<bv8>, io: nat, i: nat)
    requires i % 16 == 0 && io + i + 16 <= |plain|
    ensures EncryptWith(rk, iv, plain[io..io + i + 16]) ==
            EncryptWith(rk, iv, plain[io..io + i])
            + Aes.Cipher(rk, Xor(Get(plain, io + i), EncryptVector(rk, iv, plain[io..io + i])))
  {
    hide Xor, Aes.Cipher, EncryptWith;
    assert plain[io..io + i + 16] == plain[io..io + i] + Get(plain, io + i);
    EncryptGrows(rk, iv, plain[io..io + i], Get(plain, io + i));
  }

  /** What the first block of the output held does not show in the result. */
  lemma DecryptedHides(s: seq<bv8>, oo: nat, w: Block, rk: Schedule, iv: Block, cipher: seq<bv8>, io: nat, n: nat)
    requires n % 16 == 0 && 0 < n && oo + n <= |s| && io + n <= |cipher|
    ensures Decrypted(Put(s, oo, w), oo, rk, iv, cipher, io, n) == Decrypted(s, oo, rk, iv, cipher, io, n)
  {
    SameAround(s, oo, w, n);
  }

  lemma EncryptedHides(s: seq<bv8>, oo: nat, w: Block, rk: Schedule, iv: Block, plain: seq<bv8>, io: nat, n: nat)
    requires n % 16 == 0 && 0 < n && oo + n <= |s| && io + n <= |plain|
    ensures Encrypted(Put(s, oo, w), oo, rk, iv, plain, io, n) == Encrypted(s, oo, rk, iv, plain, io, n)
  {
    SameAround(s, oo, w, n);
  }

  lemma SameAround(s: seq<bv8>, oo: nat, w: Block, n: nat)
    requires 16 <= n && oo + n <= |s|
    ensures Put(s, oo, w)[..oo] == s[..oo] && Put(s, oo, w)[oo + n..] == s[oo + n..]
  {
  }

  lemma SameAhead(s: seq<bv8>, t: seq<bv8>, o: nat)
    requires |s| == |t| && o + 16 <= |s| && s[o..] == t[o..]
    ensures Get(s, o) == Get(t, o) && s[o + 16..] == t[o + 16..]
  {
    SliceOfDrop(s, o, 0, 16);
    SliceOfDrop(t, o, 0, 16);
    SliceOfDrop(s, o, 16, 16);
    SliceOfDrop(t, o, 16, 16);
  }

  lemma PutBehind(s: seq<bv8>, io: nat, o: nat, w: Block)
    requires io <= o && o + 16 <= |s|
    ensures Put(s, o, w)[..io] == s[..io] && Put(s, o, w)[o + 16..] == s[o + 16..]
  {
  }

  lemma WordsInPlace(key: Key, s: seq<bv8>, i: nat)
    requires 4 <= i && 4 * i <= |s| && s[..4 * i] == Words(key, i)
    ensures s[4 * (i - 1)..4 * (i - 1) + 4] == ScheduleWord(key, i - 1)
    ensures s[4 * (i - 4)..4 * (i - 4) + 4] == ScheduleWord(key, i - 4)
  {
    hide ScheduleWord, Words;
    WordOfWords(key, i, i - 1);
    WordOfWords(key, i, i - 4);
    assert s[..4 * i] == s[0..4 * i];
    SliceOfSlice(s, 0, 4 * i, 4 * (i - 1), 4 * (i - 1) + 4);
    SliceOfSlice(s, 0, 4 * i, 4 * (i - 4), 4 * (i - 4) + 4);
  }

  /** The code's word before the final addition is the one of the recurrence. */
  lemma TempByCode(i: nat, w: Word)
    requires 4 <= i < 44
    ensures Temp(i, w) == if i % 4 == 0 then XorWord(SubWord(RotWord(w)), [RCON[i / 4], 0, 0, 0]) else w
  {
    hide XorWord, SubWord, RotWord;
    if i % 4 == 0 {
      RconIsPower(i / 4);
    }
  }

  lemma NoBlocks(rk: Schedule, iv: Block)
    ensures DecryptWith(rk, iv, []) == [] && EncryptWith(rk, iv, []) == []
  {
  }

  /** A window written right after what has been put out so far. */
  lemma PutAtEnd(s: seq<bv8>, before: seq<bv8>, oo: nat, i: nat, done: seq<bv8>, block: Block)
    requires oo + i + 16 <= |s| && |done| == i && before == s[..oo] + done + s[oo + i..]
    ensures Put(before, oo + i, block) == s[..oo] + (done + block) + s[oo + i + 16..]
  {
    assert before[..oo + i] == s[..oo] + done;
    assert before[oo + i + 16..] == s[oo + i..][16..] == s[oo + i + 16..];
  }

  /** The window after one step and then another. */
  lemma Compose(s: seq<bv8>, o: nat, v: Block, w: Block)
    requires o + 16 <= |s|
    ensures Get(Put(s, o, v), o) == v && Put(Put(s, o, v), o, w) == Put(s, o, w)
  {
    GetOfPut(s, o, v);
    PutOfPut(s, o, v, w);
  }

  function WithColumn(v: Block, c: nat, p: Column): Block
    requires c < 4
  {
    v[4 * c := p.a][4 * c + 1 := p.b][4 * c + 2 := p.c][4 * c + 3 := p.d]
  }

  lemma ColumnsOfWith(v: Block, c: nat, p: Column)
    requires c < 4
    ensures forall d: nat :: d < 4 ==> GetColumn(WithColumn(v, c, p), d) == if d == c then p else GetColumn(v, d)
  {
  }

  lemma MixedByColumn(v: Block, w: Block)
    requires forall c: nat :: c < 4 ==> GetColumn(w, c) == MixColumn(GetColumn(v, c))
    ensures w == Aes.MixColumns(v)
  {
    hide MixColumn, GetColumn, OfColumns;
    OfItsColumns(w);
  }

  lemma InvMixedByColumn(v: Block, w: Block)
    requires forall c: nat :: c < 4 ==> GetColumn(w, c) == InvMixColumn(GetColumn(v, c))
    ensures w == Aes.InvMixColumns(v)
  {
    hide InvMixColumn, GetColumn, OfColumns;
    OfItsColumns(w);
  }

  lemma InvRowMoves(v: Block, w: Block)
    requires w == v[13 := v[9]][9 := v[5]][5 := v[1]][1 := v[13]]
                   [2 := v[10]][10 := v[2]][6 := v[14]][14 := v[6]]
                   [3 := v[7]][7 := v[11]][11 := v[15]][15 := v[3]]
    ensures w == Aes.InvShiftRows(v)
  {
  }
}
