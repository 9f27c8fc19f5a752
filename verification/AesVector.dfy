/**
 AES-128 column by column, for every key and block, and the example vector of appendix C.1 of FIPS 197 worked out round by
 round: it fixes both tables' use, the column mix, the row shift, the key expansion and the order of the rounds together.
*/
module AesVector {
  import opened AesTables
  import opened Aes
  import opened AesCbc

  /** A state or a round key as its four columns. */
  datatype Columns = Columns(p: Column, q: Column, r: Column, s: Column)

  function ColumnsOf(b: Block): Columns {
    Columns(GetColumn(b, 0), GetColumn(b, 1), GetColumn(b, 2), GetColumn(b, 3))
  }

  function AddAll(s: Columns, k: Columns): Columns {
    Columns(Add(s.p, k.p), Add(s.q, k.q), Add(s.r, k.r), Add(s.s, k.s))
  }

  function SubColumn(a: bv8, b: bv8, c: bv8, d: bv8): Column {
    Column(SubByte(a), SubByte(b), SubByte(c), SubByte(d))
  }

  /** Each column takes its four bytes, substituted, from four columns in a row. */
  function Shifted(s: Columns): Columns {
    Columns(SubColumn(s.p.a, s.q.b, s.r.c, s.s.d), SubColumn(s.q.a, s.r.b, s.s.c, s.p.d),
            SubColumn(s.r.a, s.s.b, s.p.c, s.q.d), SubColumn(s.s.a, s.p.b, s.q.c, s.r.d))
  }

  function Mixed(s: Columns): Columns {
    Columns(MixColumn(s.p), MixColumn(s.q), MixColumn(s.r), MixColumn(s.s))
  }

  function NextKey(k: Columns, constant: bv8): Columns {
    var p := Add(k.p, Add(SubColumn(k.s.b, k.s.c, k.s.d, k.s.a), Column(constant, 0, 0, 0)));
    var q := Add(k.q, p);
    var r := Add(k.r, q);
    Columns(p, q, r, Add(k.s, r))
  }

  // ---------------------------------------------------------------- every key and block, by columns

  lemma XorByColumns(s: Block, k: Block)
    ensures ColumnsOf(Xor(s, k)) == AddAll(ColumnsOf(s), ColumnsOf(k))
  {
    hide Plus;
  }

  lemma ShiftByColumns(s: Block)
    ensures ColumnsOf(ShiftRows(SubBytes(s))) == Shifted(ColumnsOf(s))
  {
    hide SubByte;
  }

  lemma MixByColumns(s: Block)
    ensures ColumnsOf(MixColumns(s)) == Mixed(ColumnsOf(s))
  {
    hide MixColumn, OfColumns, GetColumn;
    ColumnsOfColumns(MixColumn(GetColumn(s, 0)), MixColumn(GetColumn(s, 1)),
                     MixColumn(GetColumn(s, 2)), MixColumn(GetColumn(s, 3)));
  }

  function StateAt(rk: Schedule, s: Block, r: nat): Columns
    requires r < ROUNDS
  {
    ColumnsOf(Rounds(rk, s, r))
  }

  function KeyAt(rk: Schedule, r: nat): Columns
    requires r <= ROUNDS
  {
    ColumnsOf(RoundKey(rk, r))
  }

  /** One round is row shift, column mix and key, on the columns. */
  lemma RoundByColumns(rk: Schedule, s: Block, r: nat)
    requires 1 <= r < ROUNDS
    ensures StateAt(rk, s, r) == AddAll(Mixed(Shifted(StateAt(rk, s, r - 1))), KeyAt(rk, r))
  {
    hide ColumnsOf, AddAll, Mixed, Shifted, Xor, MixColumns, ShiftRows, SubBytes, RoundKey;
    var before := Rounds(rk, s, r - 1);
    ShiftByColumns(before);
    MixByColumns(ShiftRows(SubBytes(before)));
    XorByColumns(MixColumns(ShiftRows(SubBytes(before))), RoundKey(rk, r));
  }

  lemma CipherByColumns(rk: Schedule, s: Block)
    ensures StateAt(rk, s, 0) == AddAll(ColumnsOf(s), KeyAt(rk, 0))
    ensures ColumnsOf(Cipher(rk, s)) == AddAll(Shifted(StateAt(rk, s, ROUNDS - 1)), KeyAt(rk, ROUNDS))
  {
    hide ColumnsOf, AddAll, Shifted, Xor, ShiftRows, SubBytes, RoundKey;
    XorByColumns(s, RoundKey(rk, 0));
    var before := Rounds(rk, s, ROUNDS - 1);
    ShiftByColumns(before);
    XorByColumns(ShiftRows(SubBytes(before)), RoundKey(rk, ROUNDS));
  }

  /** Column c of round key r is word 4 r + c of the schedule. */
  function KeyColumn(rk: Schedule, i: nat): Column
    requires i < 44
  {
    Column(rk[4 * i], rk[4 * i + 1], rk[4 * i + 2], rk[4 * i + 3])
  }

  lemma KeyAtColumns(rk: Schedule, r: nat)
    requires r <= ROUNDS
    ensures KeyAt(rk, r) ==
            Columns(KeyColumn(rk, 4 * r), KeyColumn(rk, 4 * r + 1), KeyColumn(rk, 4 * r + 2), KeyColumn(rk, 4 * r + 3))
  {
  }

  lemma ColumnOfExpansion(key: Key, i: nat)
    requires 4 <= i < 44
    ensures var rk := Expand(key);
            var last := KeyColumn(rk, i - 1);
            KeyColumn(rk, i) ==
              Add(KeyColumn(rk, i - 4),
                  if i % 4 != 0 then last
                  else Add(SubColumn(last.b, last.c, last.d, last.a), Column(PowerOfX(i / 4 - 1), 0, 0, 0)))
  {
    hide Expand, SubByte, PowerOfX, Plus;
    ExpansionByBytes(key, i, 0);
    ExpansionByBytes(key, i, 1);
    ExpansionByBytes(key, i, 2);
    ExpansionByBytes(key, i, 3);
    var last := KeyColumn(Expand(key), i - 1);
    PlusNothing(SubByte(last.c));
    PlusNothing(SubByte(last.d));
    PlusNothing(SubByte(last.a));
  }

  /** One round key from the one before. */
  lemma KeyByColumns(key: Key, r: nat)
    requires 1 <= r <= ROUNDS
    ensures KeyAt(Expand(key), r) == NextKey(KeyAt(Expand(key), r - 1), PowerOfX(r - 1))
  {
    hide Expand, SubColumn, Add, PowerOfX, KeyColumn, KeyAt;
    var rk := Expand(key);
    KeyAtColumns(rk, r);
    KeyAtColumns(rk, r - 1);
    ColumnOfExpansion(key, 4 * r);
    ColumnOfExpansion(key, 4 * r + 1);
    ColumnOfExpansion(key, 4 * r + 2);
    ColumnOfExpansion(key, 4 * r + 3);
  }

  lemma FirstKeyByColumns(key: Key)
    ensures KeyAt(Expand(key), 0) == ColumnsOf(key)
  {
    hide Expand, SubByte, PowerOfX, Plus;
    var rk := Expand(key);
    forall n | 0 <= n < 16 ensures rk[0..16][n] == key[n] {
      ExpansionByBytes(key, n / 4, n % 4);
    }
    assert rk[0..16] == key;
  }

  // ---------------------------------------------------------------- appendix C.1 of FIPS 197

  const KEY: Key := [0x00, 0x01, 0x02, 0x03, 0x04, 0x05, 0x06, 0x07, 0x08, 0x09, 0x0a, 0x0b, 0x0c, 0x0d, 0x0e, 0x0f]

  const PLAIN: Block := [0x00, 0x11, 0x22, 0x33, 0x44, 0x55, 0x66, 0x77, 0x88, 0x99, 0xaa, 0xbb, 0xcc, 0xdd, 0xee, 0xff]

  const K0 := Columns(Column(0x00, 0x01, 0x02, 0x03), Column(0x04, 0x05, 0x06, 0x07),
                      Column(0x08, 0x09, 0x0a, 0x0b), Column(0x0c, 0x0d, 0x0e, 0x0f))
  const K1 := Columns(Column(0xd6, 0xaa, 0x74, 0xfd), Column(0xd2, 0xaf, 0x72, 0xfa),
                      Column(0xda, 0xa6, 0x78, 0xf1), Column(0xd6, 0xab, 0x76, 0xfe))
  const K2 := Columns(Column(0xb6, 0x92, 0xcf, 0x0b), Column(0x64, 0x3d, 0xbd, 0xf1),
                      Column(0xbe, 0x9b, 0xc5, 0x00), Column(0x68, 0x30, 0xb3, 0xfe))
  const K3 := Columns(Column(0xb6, 0xff, 0x74, 0x4e), Column(0xd2, 0xc2, 0xc9, 0xbf),
                      Column(0x6c, 0x59, 0x0c, 0xbf), Column(0x04, 0x69, 0xbf, 0x41))
  const K4 := Columns(Column(0x47, 0xf7, 0xf7, 0xbc), Column(0x95, 0x35, 0x3e, 0x03),
                      Column(0xf9, 0x6c, 0x32, 0xbc), Column(0xfd, 0x05, 0x8d, 0xfd))
  const K5 := Columns(Column(0x3c, 0xaa, 0xa3, 0xe8), Column(0xa9, 0x9f, 0x9d, 0xeb),
                      Column(0x50, 0xf3, 0xaf, 0x57), Column(0xad, 0xf6, 0x22, 0xaa))
  const K6 := Columns(Column(0x5e, 0x39, 0x0f, 0x7d), Column(0xf7, 0xa6, 0x92, 0x96),
                      Column(0xa7, 0x55, 0x3d, 0xc1), Column(0x0a, 0xa3, 0x1f, 0x6b))
  const K7 := Columns(Column(0x14, 0xf9, 0x70, 0x1a), Column(0xe3, 0x5f, 0xe2, 0x8c),
                      Column(0x44, 0x0a, 0xdf, 0x4d), Column(0x4e, 0xa9, 0xc0, 0x26))
  const K8 := Columns(Column(0x47, 0x43, 0x87, 0x35), Column(0xa4, 0x1c, 0x65, 0xb9),
                      Column(0xe0, 0x16, 0xba, 0xf4), Column(0xae, 0xbf, 0x7a, 0xd2))
  const K9 := Columns(Column(0x54, 0x99, 0x32, 0xd1), Column(0xf0, 0x85, 0x57, 0x68),
                      Column(0x10, 0x93, 0xed, 0x9c), Column(0xbe, 0x2c, 0x97, 0x4e))
  const K10 := Columns(Column(0x13, 0x11, 0x1d, 0x7f), Column(0xe3, 0x94, 0x4a, 0x17),
                       Column(0xf3, 0x07, 0xa7, 0x8b), Column(0x4d, 0x2b, 0x30, 0xc5))

  const S0 := Columns(Column(0x00, 0x10, 0x20, 0x30), Column(0x40, 0x50, 0x60, 0x70),
                      Column(0x80, 0x90, 0xa0, 0xb0), Column(0xc0, 0xd0, 0xe0, 0xf0))
  const S1 := Columns(Column(0x89, 0xd8, 0x10, 0xe8), Column(0x85, 0x5a, 0xce, 0x68),
                      Column(0x2d, 0x18, 0x43, 0xd8), Column(0xcb, 0x12, 0x8f, 0xe4))
  const S2 := Columns(Column(0x49, 0x15, 0x59, 0x8f), Column(0x55, 0xe5, 0xd7, 0xa0),
                      Column(0xda, 0xca, 0x94, 0xfa), Column(0x1f, 0x0a, 0x63, 0xf7))
  const S3 := Columns(Column(0xfa, 0x63, 0x6a, 0x28), Column(0x25, 0xb3, 0x39, 0xc9),
                      Column(0x40, 0x66, 0x8a, 0x31), Column(0x57, 0x24, 0x4d, 0x17))
  const S4 := Columns(Column(0x24, 0x72, 0x40, 0x23), Column(0x69, 0x66, 0xb3, 0xfa),
                      Column(0x6e, 0xd2, 0x75, 0x32), Column(0x88, 0x42, 0x5b, 0x6c))
  const S5 := Columns(Column(0xc8, 0x16, 0x77, 0xbc), Column(0x9b, 0x7a, 0xc9, 0x3b),
                      Column(0x25, 0x02, 0x79, 0x92), Column(0xb0, 0x26, 0x19, 0x96))
  const S6 := Columns(Column(0xc6, 0x2f, 0xe1, 0x09), Column(0xf7, 0x5e, 0xed, 0xc3),
                      Column(0xcc, 0x79, 0x39, 0x5d), Column(0x84, 0xf9, 0xcf, 0x5d))
  const S7 := Columns(Column(0xd1, 0x87, 0x6c, 0x0f), Column(0x79, 0xc4, 0x30, 0x0a),
                      Column(0xb4, 0x55, 0x94, 0xad), Column(0xd6, 0x6f, 0xf4, 0x1f))
  const S8 := Columns(Column(0xfd, 0xe3, 0xba, 0xd2), Column(0x05, 0xe5, 0xd0, 0xd7),
                      Column(0x35, 0x47, 0x96, 0x4e), Column(0xf1, 0xfe, 0x37, 0xf1))
  const S9 := Columns(Column(0xbd, 0x6e, 0x7c, 0x3d), Column(0xf2, 0xb5, 0x77, 0x9e),
                      Column(0x0b, 0x61, 0x21, 0x6e), Column(0x8b, 0x10, 0xb6, 0x89))
  const S10 := Columns(Column(0x69, 0xc4, 0xe0, 0xd8), Column(0x6a, 0x7b, 0x04, 0x30),
                       Column(0xd8, 0xcd, 0xb7, 0x80), Column(0x70, 0xb4, 0xc5, 0x5a))

  const T1 := Columns(Column(0x63, 0x53, 0xe0, 0x8c), Column(0x09, 0x60, 0xe1, 0x04),
                      Column(0xcd, 0x70, 0xb7, 0x51), Column(0xba, 0xca, 0xd0, 0xe7))
  const T2 := Columns(Column(0xa7, 0xbe, 0x1a, 0x69), Column(0x97, 0xad, 0x73, 0x9b),
                      Column(0xd8, 0xc9, 0xca, 0x45), Column(0x1f, 0x61, 0x8b, 0x61))
  const T3 := Columns(Column(0x3b, 0xd9, 0x22, 0x68), Column(0xfc, 0x74, 0xfb, 0x73),
                      Column(0x57, 0x67, 0xcb, 0xe0), Column(0xc0, 0x59, 0x0e, 0x2d))
  const T4 := Columns(Column(0x2d, 0x6d, 0x7e, 0xf0), Column(0x3f, 0x33, 0xe3, 0x34),
                      Column(0x09, 0x36, 0x02, 0xdd), Column(0x5b, 0xfb, 0x12, 0xc7))
  const T5 := Columns(Column(0x36, 0x33, 0x9d, 0x50), Column(0xf9, 0xb5, 0x39, 0x26),
                      Column(0x9f, 0x2c, 0x09, 0x2d), Column(0xc4, 0x40, 0x6d, 0x23))
  const T6 := Columns(Column(0xe8, 0xda, 0xb6, 0x90), Column(0x14, 0x77, 0xd4, 0x65),
                      Column(0x3f, 0xf7, 0xf5, 0xe2), Column(0xe7, 0x47, 0xdd, 0x4f))
  const T7 := Columns(Column(0xb4, 0x58, 0x12, 0x4c), Column(0x68, 0xb6, 0x8a, 0x01),
                      Column(0x4b, 0x99, 0xf8, 0x2e), Column(0x5f, 0x15, 0x55, 0x4c))
  const T8 := Columns(Column(0x3e, 0x1c, 0x22, 0xc0), Column(0xb6, 0xfc, 0xbf, 0x76),
                      Column(0x8d, 0xa8, 0x50, 0x67), Column(0xf6, 0x17, 0x04, 0x95))
  const T9 := Columns(Column(0x54, 0xd9, 0x90, 0xa1), Column(0x6b, 0xa0, 0x9a, 0xb5),
                      Column(0x96, 0xbb, 0xf4, 0x0e), Column(0xa1, 0x11, 0x70, 0x2f))
  const T10 := Columns(Column(0x7a, 0xd5, 0xfd, 0xa7), Column(0x89, 0xef, 0x4e, 0x27),
                       Column(0x2b, 0xca, 0x10, 0x0b), Column(0x3d, 0x9f, 0xf5, 0x9f))

  lemma KeyLookups1()
    ensures SubColumn(0x0d, 0x0e, 0x0f, 0x0c) == Column(0xd7, 0xab, 0x76, 0xfe)
  {
  }

  lemma KeyLookups2()
    ensures SubColumn(0xab, 0x76, 0xfe, 0xd6) == Column(0x62, 0x38, 0xbb, 0xf6)
  {
  }

  lemma KeyLookups3()
    ensures SubColumn(0x30, 0xb3, 0xfe, 0x68) == Column(0x04, 0x6d, 0xbb, 0x45)
  {
  }

  lemma KeyLookups4()
    ensures SubColumn(0x69, 0xbf, 0x41, 0x04) == Column(0xf9, 0x08, 0x83, 0xf2)
  {
  }

  lemma KeyLookups5()
    ensures SubColumn(0x05, 0x8d, 0xfd, 0xfd) == Column(0x6b, 0x5d, 0x54, 0x54)
  {
  }

  lemma KeyLookups6()
    ensures SubColumn(0xf6, 0x22, 0xaa, 0xad) == Column(0x42, 0x93, 0xac, 0x95)
  {
  }

  lemma KeyLookups7()
    ensures SubColumn(0xa3, 0x1f, 0x6b, 0x0a) == Column(0x0a, 0xc0, 0x7f, 0x67)
  {
  }

  lemma KeyLookups8()
    ensures SubColumn(0xa9, 0xc0, 0x26, 0x4e) == Column(0xd3, 0xba, 0xf7, 0x2f)
  {
  }

  lemma KeyLookups9()
    ensures SubColumn(0xbf, 0x7a, 0xd2, 0xae) == Column(0x08, 0xda, 0xb5, 0xe4)
  {
  }

  lemma KeyLookups10()
    ensures SubColumn(0x2c, 0x97, 0x4e, 0xbe) == Column(0x71, 0x88, 0x2f, 0xae)
  {
  }

  lemma Lookups1()
    ensures Shifted(S0) == T1
  {
  }

  lemma Lookups2()
    ensures Shifted(S1) == T2
  {
  }

  lemma Lookups3()
    ensures Shifted(S2) == T3
  {
  }

  lemma Lookups4()
    ensures Shifted(S3) == T4
  {
  }

  lemma Lookups5()
    ensures Shifted(S4) == T5
  {
  }

  lemma Lookups6()
    ensures Shifted(S5) == T6
  {
  }

  lemma Lookups7()
    ensures Shifted(S6) == T7
  {
  }

  lemma Lookups8()
    ensures Shifted(S7) == T8
  {
  }

  lemma Lookups9()
    ensures Shifted(S8) == T9
  {
  }

  lemma Lookups10()
    ensures Shifted(S9) == T10
  {
  }

  lemma Sums1()
    ensures NextKey(K0, 0x01) == K1 && AddAll(Mixed(T1), K1) == S1
  {
    hide SubColumn;
    KeyLookups1();
  }

  lemma Sums2()
    ensures NextKey(K1, 0x02) == K2 && AddAll(Mixed(T2), K2) == S2
  {
    hide SubColumn;
    KeyLookups2();
  }

  lemma Sums3()
    ensures NextKey(K2, 0x04) == K3 && AddAll(Mixed(T3), K3) == S3
  {
    hide SubColumn;
    KeyLookups3();
  }

  lemma Sums4()
    ensures NextKey(K3, 0x08) == K4 && AddAll(Mixed(T4), K4) == S4
  {
    hide SubColumn;
    KeyLookups4();
  }

  lemma Sums5()
    ensures NextKey(K4, 0x10) == K5 && AddAll(Mixed(T5), K5) == S5
  {
    hide SubColumn;
    KeyLookups5();
  }

  lemma Sums6()
    ensures NextKey(K5, 0x20) == K6 && AddAll(Mixed(T6), K6) == S6
  {
    hide SubColumn;
    KeyLookups6();
  }

  lemma Sums7()
    ensures NextKey(K6, 0x40) == K7 && AddAll(Mixed(T7), K7) == S7
  {
    hide SubColumn;
    KeyLookups7();
  }

  lemma Sums8()
    ensures NextKey(K7, 0x80) == K8 && AddAll(Mixed(T8), K8) == S8
  {
    hide SubColumn;
    KeyLookups8();
  }

  lemma Sums9()
    ensures NextKey(K8, 0x1b) == K9 && AddAll(Mixed(T9), K9) == S9
  {
    hide SubColumn;
    KeyLookups9();
  }

  lemma Sums10()
    ensures NextKey(K9, 0x36) == K10 && AddAll(T10, K10) == S10
  {
    hide SubColumn;
    KeyLookups10();
  }

  lemma Sums0()
    ensures AddAll(ColumnsOf(PLAIN), K0) == S0 && ColumnsOf(KEY) == K0
  {
  }

  /** Key and state after round r. */
  predicate Reached(r: nat, k: Columns, s: Columns)
    requires r < ROUNDS
  {
    KeyAt(Expand(KEY), r) == k && StateAt(Expand(KEY), PLAIN, r) == s
  }

  lemma RoundIs(r: nat, constant: bv8, k: Columns, s: Columns, t: Columns, k': Columns, s': Columns)
    requires 1 <= r < ROUNDS && Reached(r - 1, k, s) && RCON[r] == constant
    requires NextKey(k, constant) == k' && Shifted(s) == t && AddAll(Mixed(t), k') == s'
    ensures Reached(r, k', s')
  {
    hide Expand, StateAt, KeyAt, NextKey, Shifted, AddAll, Mixed, PowerOfX;
    RconIsPower(r);
    KeyByColumns(KEY, r);
    RoundByColumns(Expand(KEY), PLAIN, r);
  }

  lemma Round0()
    ensures Reached(0, K0, S0)
  {
    hide AddAll;
    FirstKeyByColumns(KEY);
    CipherByColumns(Expand(KEY), PLAIN);
    Sums0();
  }

  lemma Round1()
    ensures Reached(1, K1, S1)
  {
    hide Reached, NextKey, Shifted, AddAll, Mixed;
    Round0();
    Lookups1();
    Sums1();
    RoundIs(1, 0x01, K0, S0, T1, K1, S1);
  }

  lemma Round2()
    ensures Reached(2, K2, S2)
  {
    hide Reached, NextKey, Shifted, AddAll, Mixed;
    Round1();
    Lookups2();
    Sums2();
    RoundIs(2, 0x02, K1, S1, T2, K2, S2);
  }

  lemma Round3()
    ensures Reached(3, K3, S3)
  {
    hide Reached, NextKey, Shifted, AddAll, Mixed;
    Round2();
    Lookups3();
    Sums3();
    RoundIs(3, 0x04, K2, S2, T3, K3, S3);
  }

  lemma Round4()
    ensures Reached(4, K4, S4)
  {
    hide Reached, NextKey, Shifted, AddAll, Mixed;
    Round3();
    Lookups4();
    Sums4();
    RoundIs(4, 0x08, K3, S3, T4, K4, S4);
  }

  lemma Round5()
    ensures Reached(5, K5, S5)
  {
    hide Reached, NextKey, Shifted, AddAll, Mixed;
    Round4();
    Lookups5();
    Sums5();
    RoundIs(5, 0x10, K4, S4, T5, K5, S5);
  }

  lemma Round6()
    ensures Reached(6, K6, S6)
  {
    hide Reached, NextKey, Shifted, AddAll, Mixed;
    Round5();
    Lookups6();
    Sums6();
    RoundIs(6, 0x20, K5, S5, T6, K6, S6);
  }

  lemma Round7()
    ensures Reached(7, K7, S7)
  {
    hide Reached, NextKey, Shifted, AddAll, Mixed;
    Round6();
    Lookups7();
    Sums7();
    RoundIs(7, 0x40, K6, S6, T7, K7, S7);
  }

  lemma Round8()
    ensures Reached(8, K8, S8)
  {
    hide Reached, NextKey, Shifted, AddAll, Mixed;
    Round7();
    Lookups8();
    Sums8();
    RoundIs(8, 0x80, K7, S7, T8, K8, S8);
  }

  lemma Round9()
    ensures Reached(9, K9, S9)
  {
    hide Reached, NextKey, Shifted, AddAll, Mixed;
    Round8();
    Lookups9();
    Sums9();
    RoundIs(9, 0x1b, K8, S8, T9, K9, S9);
  }

  lemma LastRound()
    ensures ColumnsOf(Cipher(Expand(KEY), PLAIN)) == S10
  {
    hide Expand, StateAt, KeyAt, NextKey, Shifted, AddAll, Cipher, PowerOfX, ColumnsOf;
    Round9();
    Lookups10();
    Sums10();
    RconIsPower(10);
    KeyByColumns(KEY, 10);
    CipherByColumns(Expand(KEY), PLAIN);
  }

  /** The ciphertext is 69c4e0d8 6a7b0430 d8cdb780 70b4c55a. */
  lemma CipherOfVector()
    ensures Cipher(Expand(KEY), PLAIN) ==
            [0x69, 0xc4, 0xe0, 0xd8, 0x6a, 0x7b, 0x04, 0x30, 0xd8, 0xcd, 0xb7, 0x80, 0x70, 0xb4, 0xc5, 0x5a]
  {
    hide Expand, Cipher;
    LastRound();
  }
}
